/**
 * What `UnmarshalCaddyfile` does to a `Handler`, as functions over a pre-tokenised
 * Caddyfile. The `caddyfile.Dispenser` is replaced by its result: a sequence of
 * directive occurrences, each with the tokens on its own line and the lines of its
 * block. `Locale.Handler.UnmarshalCaddyfile` is proved to update the handler's
 * fields as `Unmarshal` says.
 */
module Caddyfile {
  import opened Wrappers
  import opened GoStrings
  import opened TextLanguage

  const DefaultCookieName := "lang"
  const DefaultHeaderName := "Detected-Locale"
  const DefaultMethods := ["header"]

  /** The fields of a `Handler`. */
  datatype Config<Tag> = Config(
    availableLocales: seq<Tag>,
    methods: seq<string>,
    cookieName: string,
    headerName: string)

  /** A line of a block: the sub-directive's name and the tokens after it on the line. */
  datatype Line = Line(name: string, args: seq<string>)

  /** One occurrence of the directive: the arguments on its line and the lines of its block. */
  datatype Directive = Directive(args: seq<string>, block: seq<Line>)

  /** `d.ArgErr()`, carrying the token `d.Val()` held when it was raised. */
  datatype ArgErr = ArgErr(after: string)

  /**
   * The handler's fields after parsing, and the error, if any. On an error the
   * fields keep every update made before it: the handler is updated in place.
   */
  datatype Parsed<Tag> = Parsed(config: Config<Tag>, err: Option<ArgErr>)

  /** The sub-directives that read one argument with `d.NextArg()`. */
  predicate TakesOneArg(name: string) {
    name == "cookie" || name == "header"
  }

  /** The sub-directives the `switch` accepts: the four names, with an argument for `cookie` and `header`. */
  predicate Accepted(l: Line) {
    l.name == "available" || l.name == "methods" || (TakesOneArg(l.name) && l.args != [])
  }

  /**
   * The sub-directives in the order `d.NextBlock` hands them out. `cookie` and
   * `header` consume only their first argument, so the next `NextBlock` reads the
   * token after it as the name of a new sub-directive, with the rest of the line
   * as its arguments.
   */
  function Dispense(block: seq<Line>): (lines: seq<Line>)
    decreases |block|, if block == [] then 0 else |block[0].args|
  {
    if block == [] then []
    else
      var l := block[0];
      if TakesOneArg(l.name) && |l.args| > 1 then
        [Line(l.name, l.args[..1])] + Dispense([Line(l.args[1], l.args[2..])] + block[1..])
      else
        [l] + Dispense(block[1..])
  }

  /** The fields at the start of a directive occurrence: everything but the locales reset. */
  function Reset<Tag>(c: Config<Tag>): Config<Tag> {
    c.(methods := DefaultMethods, cookieName := DefaultCookieName, headerName := DefaultHeaderName)
  }

  /** A `cookie` or `header` field after its argument: the trimmed argument, unless that is blank. */
  function Setting(current: string, arg: string): (v: string)
    ensures AllSpace(arg) ==> v == current
    ensures !AllSpace(arg) ==> v == TrimSpace(arg) && v != ""
  {
    TrimSpaceEmptyIffBlank(arg);
    var value := TrimSpace(arg);
    if value == "" then current else value
  }

  /** The `cookie` or `header` field of a configuration. */
  function NameField<Tag>(c: Config<Tag>, name: string): string {
    if name == "cookie" then c.cookieName else c.headerName
  }

  /** One sub-directive: a case of the `switch d.Val()`. */
  function Step<Tag>(c: Config<Tag>, l: Line, make: string -> Tag): (r: Parsed<Tag>)
    ensures r.err == None <==> Accepted(l)
    ensures r.err.Some? ==> r == Parsed(c, Some(ArgErr(l.name)))
  {
    if l.name == "available" then
      Parsed(c.(availableLocales := c.availableLocales + MakeAll(make, l.args)), None)
    else if l.name == "methods" then
      Parsed(c.(methods := l.args), None)
    else if TakesOneArg(l.name) then
      if l.args == [] then Parsed(c, Some(ArgErr(l.name)))
      else if l.name == "cookie" then Parsed(c.(cookieName := Setting(c.cookieName, l.args[0])), None)
      else Parsed(c.(headerName := Setting(c.headerName, l.args[0])), None)
    else
      Parsed(c, Some(ArgErr(l.name)))
  }

  /** The dispensed sub-directives of one block, in order, up to the first error. */
  function ApplyLines<Tag>(c: Config<Tag>, lines: seq<Line>, make: string -> Tag): Parsed<Tag>
    decreases |lines|
  {
    if lines == [] then Parsed(c, None)
    else
      var p := Step(c, lines[0], make);
      if p.err.Some? then p else ApplyLines(p.config, lines[1..], make)
  }

  /** The fields at the start of an occurrence's block: reset, then the inline locales appended. */
  function Opened<Tag>(c: Config<Tag>, d: Directive, make: string -> Tag): Config<Tag> {
    Reset(c).(availableLocales := c.availableLocales + MakeAll(make, d.args))
  }

  /** One directive occurrence: one turn of the `for d.Next()` loop. */
  function ApplyDirective<Tag>(c: Config<Tag>, d: Directive, make: string -> Tag): Parsed<Tag> {
    ApplyLines(Opened(c, d, make), Dispense(d.block), make)
  }

  /** `UnmarshalCaddyfile`: every occurrence in turn, stopping at the first error. */
  function Unmarshal<Tag>(c: Config<Tag>, ds: seq<Directive>, make: string -> Tag): Parsed<Tag>
    decreases |ds|
  {
    if ds == [] then Parsed(c, None)
    else
      var p := ApplyDirective(c, ds[0], make);
      if p.err.Some? then p else Unmarshal(p.config, ds[1..], make)
  }
}
