/** What `UnmarshalCaddyfile` guarantees, proved of its specification in `Caddyfile`. */
module CaddyfileProps {
  import opened Wrappers
  import opened GoStrings
  import opened TextLanguage
  import opened Caddyfile

  /** The locale arguments of a block's `available` lines, in order. */
  function LocaleArgs(lines: seq<Line>): seq<string> {
    if lines == [] then []
    else (if lines[0].name == "available" then lines[0].args else []) + LocaleArgs(lines[1..])
  }

  /** The locale arguments of a whole Caddyfile: each occurrence's inline ones, then its block's. */
  function AllLocaleArgs(ds: seq<Directive>): seq<string> {
    if ds == [] then []
    else ds[0].args + LocaleArgs(Dispense(ds[0].block)) + AllLocaleArgs(ds[1..])
  }

  /** The tokens of a block, flattened: each line's name followed by its arguments. */
  function Tokens(block: seq<Line>): seq<string> {
    if block == [] then [] else [block[0].name] + block[0].args + Tokens(block[1..])
  }

  /** The arguments of the last `methods` line, or `dflt` when there is none. */
  function LastMethods(lines: seq<Line>, dflt: seq<string>): seq<string> {
    if lines == [] then dflt
    else if lines[|lines| - 1].name == "methods" then lines[|lines| - 1].args
    else LastMethods(lines[..|lines| - 1], dflt)
  }

  /** The trimmed argument of the last `name` line whose argument is not blank, or `dflt`. */
  function LastValue(lines: seq<Line>, name: string, dflt: string): string {
    if lines == [] then dflt
    else
      var l := lines[|lines| - 1];
      if l.name == name && l.args != [] && TrimSpace(l.args[0]) != "" then TrimSpace(l.args[0])
      else LastValue(lines[..|lines| - 1], name, dflt)
  }

  /** Two configurations that agree on everything `Reset` sets. */
  predicate SameSettings<Tag>(a: Config<Tag>, b: Config<Tag>) {
    a.methods == b.methods && a.cookieName == b.cookieName && a.headerName == b.headerName
  }

  /** The tokens of a block that starts with `l`. */
  lemma TokensCons(l: Line, rest: seq<Line>)
    ensures Tokens([l] + rest) == [l.name] + l.args + Tokens(rest)
  {
    assert ([l] + rest)[1..] == rest;
  }

  /** What one sub-directive does to the locales. */
  lemma StepLocales<Tag>(c: Config<Tag>, l: Line, make: string -> Tag)
    ensures Step(c, l, make).config.availableLocales
         == c.availableLocales + MakeAll(make, if l.name == "available" then l.args else [])
  {
  }

  /** What one accepted sub-directive does to `methods`. */
  lemma StepMethods<Tag>(c: Config<Tag>, l: Line, make: string -> Tag)
    requires Step(c, l, make).err == None
    ensures Step(c, l, make).config.methods == if l.name == "methods" then l.args else c.methods
  {
  }

  /** What one accepted sub-directive does to the `cookie` or `header` field. */
  lemma StepNameField<Tag>(c: Config<Tag>, l: Line, name: string, make: string -> Tag)
    requires TakesOneArg(name) && Step(c, l, make).err == None
    ensures NameField(Step(c, l, make).config, name)
         == if l.name == name && l.args != [] then Setting(NameField(c, name), l.args[0]) else NameField(c, name)
  {
  }

  /**
   * Regrouping a concatenation. Dafny knows this, but stating it as a lemma keeps
   * it out of the solver's search where the surrounding context is large.
   */
  lemma AppendAssoc<T>(a: seq<T>, b: seq<T>, c: seq<T>)
    ensures (a + b) + c == a + (b + c)
  {
  }

  /** A block that starts with `l`: `l` first, then the rest unless `l` failed. */
  lemma ApplyLinesCons<Tag>(c: Config<Tag>, l: Line, rest: seq<Line>, make: string -> Tag)
    ensures ApplyLines(c, [l] + rest, make)
         == (var p := Step(c, l, make); if p.err.Some? then p else ApplyLines(p.config, rest, make))
  {
    assert ([l] + rest)[0] == l && ([l] + rest)[1..] == rest;
  }

  /** A block whose first sub-directive is accepted goes on from what that one left. */
  lemma ApplyLinesUnfold<Tag>(c: Config<Tag>, lines: seq<Line>, make: string -> Tag)
    requires lines != [] && ApplyLines(c, lines, make).err == None
    ensures Step(c, lines[0], make).err == None
    ensures ApplyLines(c, lines, make) == ApplyLines(Step(c, lines[0], make).config, lines[1..], make)
  {
  }

  /** `cookie` and `header` read nothing after their first argument. */
  lemma StepReadsFirstArg<Tag>(c: Config<Tag>, l: Line, make: string -> Tag)
    requires TakesOneArg(l.name) && l.args != []
    ensures Step(c, l, make) == Step(c, Line(l.name, l.args[..1]), make)
  {
    assert l.args[..1][0] == l.args[0];
  }

  // ---- Dispensing the lines of a block ----

  /** A `cookie` or `header` line with several arguments is dispensed as two sub-directives. */
  lemma DispenseSplit(block: seq<Line>)
    requires block != [] && TakesOneArg(block[0].name) && |block[0].args| > 1
    ensures Dispense(block)
         == [Line(block[0].name, block[0].args[..1])]
            + Dispense([Line(block[0].args[1], block[0].args[2..])] + block[1..])
  {
  }

  /** Any other line is dispensed as written. */
  lemma DispenseWhole(block: seq<Line>)
    requires block != [] && !(TakesOneArg(block[0].name) && |block[0].args| > 1)
    ensures Dispense(block) == [block[0]] + Dispense(block[1..])
  {
  }

  /** Regrouping the block into sub-directives neither drops, adds nor reorders a token. */
  lemma {:induction false} DispenseKeepsTokens(block: seq<Line>)
    ensures Tokens(Dispense(block)) == Tokens(block)
    decreases |block|, if block == [] then 0 else |block[0].args|
  {
    if block != [] {
      var l := block[0];
      TokensCons(l, block[1..]);
      assert block == [l] + block[1..];
      if TakesOneArg(l.name) && |l.args| > 1 {
        DispenseSplitKeepsTokens(block);
      } else {
        DispenseWhole(block);
        DispenseKeepsTokens(block[1..]);
        TokensCons(l, Dispense(block[1..]));
      }
    }
  }

  lemma {:induction false} DispenseSplitKeepsTokens(block: seq<Line>)
    requires block != [] && TakesOneArg(block[0].name) && |block[0].args| > 1
    ensures Tokens(Dispense(block)) == Tokens(block)
    decreases |block|, |block[0].args|, 0
  {
    var l, rest := block[0], block[1..];
    var head := Line(l.name, l.args[..1]);
    var next := Line(l.args[1], l.args[2..]);
    var carried := [next] + rest;
    var name, first, second, others, tail := [l.name], l.args[..1], [l.args[1]], l.args[2..], Tokens(rest);
    calc {
      Tokens(Dispense(block));
      { DispenseSplit(block); }
      Tokens([head] + Dispense(carried));
      { TokensCons(head, Dispense(carried)); }
      name + first + Tokens(Dispense(carried));
      { DispenseKeepsTokens(carried); }
      name + first + Tokens(carried);
      { TokensCons(next, rest); }
      name + first + (second + others + tail);
      name + (first + second + others) + tail;
      { assert first + second + others == l.args; }
      name + l.args + tail;
      { TokensCons(l, rest); assert block == [l] + rest; }
      Tokens(block);
    }
  }

  /** After dispensing, a `cookie` or `header` sub-directive has at most its one argument. */
  lemma {:induction false} DispenseSplitsOneArgLines(block: seq<Line>)
    ensures forall l :: l in Dispense(block) && TakesOneArg(l.name) ==> |l.args| <= 1
    decreases |block|, if block == [] then 0 else |block[0].args|
  {
    if block != [] {
      var l := block[0];
      if TakesOneArg(l.name) && |l.args| > 1 {
        DispenseSplitsOneArgLines([Line(l.args[1], l.args[2..])] + block[1..]);
      } else {
        DispenseSplitsOneArgLines(block[1..]);
      }
    }
  }

  /** A block whose `cookie` and `header` lines have at most one argument is dispensed as written. */
  lemma {:induction false} DispenseKeepsPlainBlocks(block: seq<Line>)
    requires forall i :: 0 <= i < |block| && TakesOneArg(block[i].name) ==> |block[i].args| <= 1
    ensures Dispense(block) == block
  {
    if block != [] {
      DispenseKeepsPlainBlocks(block[1..]);
    }
  }

  // ---- The sub-directives of one block ----

  /** A block is accepted exactly when each of its sub-directives is. */
  lemma {:induction false} SucceedsIffAllAccepted<Tag>(c: Config<Tag>, lines: seq<Line>, make: string -> Tag)
    ensures ApplyLines(c, lines, make).err == None <==> forall i :: 0 <= i < |lines| ==> Accepted(lines[i])
    decreases |lines|
  {
    if lines != [] {
      var p := Step(c, lines[0], make);
      if p.err == None {
        SucceedsIffAllAccepted(p.config, lines[1..], make);
        assert forall i :: 1 <= i < |lines| ==> lines[i] == lines[1..][i - 1];
      }
    }
  }

  /**
   * The first sub-directive that is not accepted stops the parse with an error
   * naming it, and the fields keep what the lines before it did.
   */
  lemma {:induction false} FirstRejectedLineReported<Tag>(c: Config<Tag>, lines: seq<Line>, make: string -> Tag, k: nat)
    requires k < |lines| && !Accepted(lines[k])
    requires forall i :: 0 <= i < k ==> Accepted(lines[i])
    ensures ApplyLines(c, lines, make) == Parsed(ApplyLines(c, lines[..k], make).config, Some(ArgErr(lines[k].name)))
    ensures ApplyLines(c, lines[..k], make).err == None
    decreases k
  {
    if k == 0 {
    } else {
      var p := Step(c, lines[0], make);
      assert Accepted(lines[0]);
      assert lines[..k][1..] == lines[1..][..k - 1];
      FirstRejectedLineReported(p.config, lines[1..], make, k - 1);
    }
  }

  /** Processing one more line after a block is a `Step` on what the block produced. */
  lemma {:induction false} ApplyLinesSnoc<Tag>(c: Config<Tag>, lines: seq<Line>, l: Line, make: string -> Tag)
    ensures ApplyLines(c, lines + [l], make)
         == (var p := ApplyLines(c, lines, make); if p.err.Some? then p else Step(p.config, l, make))
    decreases |lines|
  {
    if lines != [] {
      assert (lines + [l])[1..] == lines[1..] + [l];
      var p := Step(c, lines[0], make);
      if p.err == None {
        ApplyLinesSnoc(p.config, lines[1..], l, make);
      }
    }
  }

  /** A block only ever appends locales: what was there stays, in front. */
  lemma {:induction false} LinesOnlyAppendLocales<Tag>(c: Config<Tag>, lines: seq<Line>, make: string -> Tag)
    ensures c.availableLocales <= ApplyLines(c, lines, make).config.availableLocales
    decreases |lines|
  {
    if lines != [] {
      var p := Step(c, lines[0], make);
      StepLocales(c, lines[0], make);
      if p.err == None {
        LinesOnlyAppendLocales(p.config, lines[1..], make);
      }
    }
  }

  /** On success a block appends the locales of its `available` lines, in order. */
  lemma {:induction false} LinesAppendLocales<Tag>(c: Config<Tag>, lines: seq<Line>, make: string -> Tag)
    requires ApplyLines(c, lines, make).err == None
    ensures ApplyLines(c, lines, make).config.availableLocales
         == c.availableLocales + MakeAll(make, LocaleArgs(lines))
    decreases |lines|
  {
    if lines != [] {
      var p := Step(c, lines[0], make);
      ApplyLinesUnfold(c, lines, make);
      var own := if lines[0].name == "available" then lines[0].args else [];
      var rest := LocaleArgs(lines[1..]);
      var a, b, d := c.availableLocales, MakeAll(make, own), MakeAll(make, rest);
      calc {
        ApplyLines(c, lines, make).config.availableLocales;
        ApplyLines(p.config, lines[1..], make).config.availableLocales;
        { LinesAppendLocales(p.config, lines[1..], make); }
        p.config.availableLocales + d;
        { StepLocales(c, lines[0], make); }
        (a + b) + d;
        { AppendAssoc(a, b, d); }
        a + (b + d);
        { MakeAllAppend(make, own, rest); }
        a + MakeAll(make, own + rest);
        { assert LocaleArgs(lines) == own + rest; }
        a + MakeAll(make, LocaleArgs(lines));
      }
    }
  }

  lemma LastMethodsSnoc(init: seq<Line>, last: Line, dflt: seq<string>)
    ensures LastMethods(init + [last], dflt) == if last.name == "methods" then last.args else LastMethods(init, dflt)
  {
    assert (init + [last])[..|init|] == init;
  }

  lemma LastValueSnoc(init: seq<Line>, last: Line, name: string, dflt: string)
    ensures LastValue(init + [last], name, dflt)
         == if last.name == name && last.args != [] && TrimSpace(last.args[0]) != "" then TrimSpace(last.args[0])
            else LastValue(init, name, dflt)
  {
    assert (init + [last])[..|init|] == init;
  }

  /** On success `methods` holds the arguments of the last `methods` line, or keeps its value. */
  lemma {:induction false} LastMethodsLineWins<Tag>(c: Config<Tag>, lines: seq<Line>, make: string -> Tag)
    requires ApplyLines(c, lines, make).err == None
    ensures ApplyLines(c, lines, make).config.methods == LastMethods(lines, c.methods)
    decreases |lines|
  {
    if lines != [] {
      var init, last := lines[..|lines| - 1], lines[|lines| - 1];
      assert lines == init + [last];
      ApplyLinesSnoc(c, init, last, make);
      var p := ApplyLines(c, init, make);
      assert p.err == None;
      LastMethodsLineWins(c, init, make);
      StepMethods(p.config, last, make);
      LastMethodsSnoc(init, last, c.methods);
    }
  }

  /**
   * On success the `cookie` (or `header`) field holds the trimmed argument of the
   * last such line whose argument is not blank, or keeps its value.
   */
  lemma {:induction false} LastNameLineWins<Tag>(c: Config<Tag>, lines: seq<Line>, name: string, make: string -> Tag)
    requires TakesOneArg(name) && ApplyLines(c, lines, make).err == None
    ensures NameField(ApplyLines(c, lines, make).config, name) == LastValue(lines, name, NameField(c, name))
    decreases |lines|
  {
    if lines != [] {
      var init, last := lines[..|lines| - 1], lines[|lines| - 1];
      assert lines == init + [last];
      ApplyLinesSnoc(c, init, last, make);
      var p := ApplyLines(c, init, make);
      assert p.err == None;
      LastNameLineWins(c, init, name, make);
      StepNameField(p.config, last, name, make);
      LastValueSnoc(init, last, name, NameField(c, name));
    }
  }

  /** What a block does to the settings and whether it fails depend on nothing but those settings. */
  lemma {:induction false} SettingsIgnoreLocales<Tag>(c1: Config<Tag>, c2: Config<Tag>, lines: seq<Line>, make: string -> Tag)
    requires SameSettings(c1, c2)
    ensures ApplyLines(c1, lines, make).err == ApplyLines(c2, lines, make).err
    ensures SameSettings(ApplyLines(c1, lines, make).config, ApplyLines(c2, lines, make).config)
    decreases |lines|
  {
    if lines != [] {
      var p1, p2 := Step(c1, lines[0], make), Step(c2, lines[0], make);
      if p1.err == None {
        SettingsIgnoreLocales(p1.config, p2.config, lines[1..], make);
      }
    }
  }

  /** A blank `cookie` or `header` argument changes nothing; any other sets the field to it, trimmed. */
  lemma OneArgSetting<Tag>(c: Config<Tag>, name: string, arg: string, make: string -> Tag)
    requires TakesOneArg(name)
    ensures AllSpace(arg) ==> Step(c, Line(name, [arg]), make) == Parsed(c, None)
    ensures !AllSpace(arg) ==>
      var v := TrimSpace(arg);
      v != "" && !IsSpace(v[0]) && !IsSpace(v[|v| - 1]) &&
      Step(c, Line(name, [arg]), make)
        == Parsed(if name == "cookie" then c.(cookieName := v) else c.(headerName := v), None)
  {
    TrimSpaceEmptyIffBlank(arg);
  }

  // ---- Directive occurrences ----

  /**
   * Each occurrence starts from the reset settings: whatever came before, the
   * settings it leaves and whether it fails are the same.
   */
  lemma DirectiveResetsSettings<Tag>(c1: Config<Tag>, c2: Config<Tag>, d: Directive, make: string -> Tag)
    ensures ApplyDirective(c1, d, make).err == ApplyDirective(c2, d, make).err
    ensures SameSettings(ApplyDirective(c1, d, make).config, ApplyDirective(c2, d, make).config)
  {
    SettingsIgnoreLocales(Opened(c1, d, make), Opened(c2, d, make), Dispense(d.block), make);
  }

  /**
   * An occurrence whose block holds only `available` lines succeeds with the
   * default settings, appending its inline locales and then those of the block.
   */
  lemma OccurrenceDefaults<Tag>(c: Config<Tag>, d: Directive, make: string -> Tag)
    requires forall i :: 0 <= i < |d.block| ==> d.block[i].name == "available"
    ensures ApplyDirective(c, d, make)
         == Parsed(Config(c.availableLocales + MakeAll(make, d.args + LocaleArgs(d.block)),
                          ["header"], "lang", "Detected-Locale"), None)
  {
    var a, x, y := c.availableLocales, MakeAll(make, d.args), MakeAll(make, LocaleArgs(d.block));
    assert a + x + y == a + (x + y);
    DispenseKeepsPlainBlocks(d.block);
    var o := Opened(c, d, make);
    var r := ApplyLines(o, d.block, make);
    assert ApplyDirective(c, d, make) == r;
    SucceedsIffAllAccepted(o, d.block, make);
    assert r.err == None;
    LinesAppendLocales(o, d.block, make);
    MakeAllAppend(make, d.args, LocaleArgs(d.block));
    LastMethodsLineWins(o, d.block, make);
    LastNameLineWins(o, d.block, "cookie", make);
    LastNameLineWins(o, d.block, "header", make);
    LastMethodsNone(d.block, o.methods);
    LastValueNone(d.block, "cookie", o.cookieName);
    LastValueNone(d.block, "header", o.headerName);
  }

  lemma {:induction false} LastMethodsNone(lines: seq<Line>, dflt: seq<string>)
    requires forall i :: 0 <= i < |lines| ==> lines[i].name == "available"
    ensures LastMethods(lines, dflt) == dflt
  {
    if lines != [] {
      LastMethodsNone(lines[..|lines| - 1], dflt);
    }
  }

  lemma {:induction false} LastValueNone(lines: seq<Line>, name: string, dflt: string)
    requires name != "available"
    requires forall i :: 0 <= i < |lines| ==> lines[i].name == "available"
    ensures LastValue(lines, name, dflt) == dflt
  {
    if lines != [] {
      LastValueNone(lines[..|lines| - 1], name, dflt);
    }
  }

  /** Across all occurrences the locales only grow: what was there stays, in front. */
  lemma {:induction false} UnmarshalOnlyAppendsLocales<Tag>(c: Config<Tag>, ds: seq<Directive>, make: string -> Tag)
    ensures c.availableLocales <= Unmarshal(c, ds, make).config.availableLocales
    decreases |ds|
  {
    if ds != [] {
      var o := Opened(c, ds[0], make);
      LinesOnlyAppendLocales(o, Dispense(ds[0].block), make);
      var p := ApplyDirective(c, ds[0], make);
      if p.err == None {
        UnmarshalOnlyAppendsLocales(p.config, ds[1..], make);
      }
    }
  }

  /**
   * On success the locales are the inline and `available` arguments of every
   * occurrence, in order, appended to what was there.
   */
  lemma {:induction false} UnmarshalAppendsLocales<Tag>(c: Config<Tag>, ds: seq<Directive>, make: string -> Tag)
    requires Unmarshal(c, ds, make).err == None
    ensures Unmarshal(c, ds, make).config.availableLocales == c.availableLocales + MakeAll(make, AllLocaleArgs(ds))
    decreases |ds|
  {
    if ds != [] {
      var o := Opened(c, ds[0], make);
      var lines := Dispense(ds[0].block);
      var p := ApplyDirective(c, ds[0], make);
      assert p.err == None;
      LinesAppendLocales(o, lines, make);
      UnmarshalAppendsLocales(p.config, ds[1..], make);
      var x, y, z := ds[0].args, LocaleArgs(lines), AllLocaleArgs(ds[1..]);
      MakeAllAppend(make, x, y);
      MakeAllAppend(make, x + y, z);
      var a := c.availableLocales;
      var mx, my, mz := MakeAll(make, x), MakeAll(make, y), MakeAll(make, z);
      assert p.config.availableLocales == a + mx + my;
      AppendAssoc(a + mx, my, mz);
      AppendAssoc(a, mx, my + mz);
      AppendAssoc(mx, my, mz);
    }
  }

  /** Every dispensed sub-directive of a block is one the `switch` accepts. */
  predicate AllAccepted(lines: seq<Line>) {
    forall i :: 0 <= i < |lines| ==> Accepted(lines[i])
  }

  /**
   * The whole parse succeeds exactly when every sub-directive of every
   * occurrence, as dispensed, is one the `switch` accepts.
   */
  lemma {:induction false} UnmarshalSucceedsIff<Tag>(c: Config<Tag>, ds: seq<Directive>, make: string -> Tag)
    ensures Unmarshal(c, ds, make).err == None <==> forall k :: 0 <= k < |ds| ==> AllAccepted(Dispense(ds[k].block))
    decreases |ds|
  {
    if ds != [] {
      var p := ApplyDirective(c, ds[0], make);
      SucceedsIffAllAccepted(Opened(c, ds[0], make), Dispense(ds[0].block), make);
      if p.err == None {
        assert Unmarshal(c, ds, make) == Unmarshal(p.config, ds[1..], make);
        UnmarshalSucceedsIff(p.config, ds[1..], make);
        assert forall k :: 1 <= k < |ds| ==> ds[k] == ds[1..][k - 1];
      } else {
        assert Unmarshal(c, ds, make) == p;
        assert !AllAccepted(Dispense(ds[0].block));
      }
    }
  }

  /** A Caddyfile whose first occurrence succeeds goes on with the rest from what it left. */
  lemma UnmarshalCons<Tag>(c: Config<Tag>, ds: seq<Directive>, make: string -> Tag)
    requires ds != [] && Unmarshal(c, ds, make).err == None
    ensures ApplyDirective(c, ds[0], make).err == None
    ensures Unmarshal(c, ds, make) == Unmarshal(ApplyDirective(c, ds[0], make).config, ds[1..], make)
  {
  }

  /** On success the settings are those the last occurrence produces on its own. */
  lemma {:induction false} LastOccurrenceDecides<Tag>(c: Config<Tag>, c0: Config<Tag>, ds: seq<Directive>, make: string -> Tag)
    requires ds != [] && Unmarshal(c, ds, make).err == None
    ensures SameSettings(Unmarshal(c, ds, make).config, ApplyDirective(c0, ds[|ds| - 1], make).config)
    decreases |ds|
  {
    var p := ApplyDirective(c, ds[0], make);
    UnmarshalCons(c, ds, make);
    if |ds| == 1 {
      assert Unmarshal(p.config, ds[1..], make) == Parsed(p.config, None);
      DirectiveResetsSettings(c, c0, ds[0], make);
    } else {
      assert ds[1..][|ds[1..]| - 1] == ds[|ds| - 1];
      LastOccurrenceDecides(p.config, c0, ds[1..], make);
    }
  }
}
