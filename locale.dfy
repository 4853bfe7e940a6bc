/**
 * The `Handler` of package `locale`: its configuration fields, the Caddyfile
 * parser that fills them in place, and the request handler that reads them.
 */
module Locale {
  import opened Wrappers
  import opened GoStrings
  import opened TextLanguage
  import opened Caddyfile
  import opened Serve
  import opened CaddyfileProps

  /** The header `ServeHTTP` sets on the request before passing it on. */
  datatype HeaderField = HeaderField(name: string, value: string)

  class Handler<Tag> {
    var availableLocales: seq<Tag>
    var methods: seq<string>
    var cookieName: string
    var headerName: string

    /** The handler's fields as a value. */
    function AsConfig(): Config<Tag>
      reads this
    {
      Config(availableLocales, methods, cookieName, headerName)
    }

    /** `var hl Handler`: every field at its zero value. */
    constructor ()
      ensures AsConfig() == Config([], [], "", "")
    {
      availableLocales := [];
      methods := [];
      cookieName := "";
      headerName := "";
    }

    /** Appends the tag of each argument to the available locales, one at a time. */
    method AppendLocales(args: seq<string>, make: string -> Tag)
      modifies this
      ensures AsConfig() == old(AsConfig()).(availableLocales := old(availableLocales) + MakeAll(make, args))
    {
      for i := 0 to |args|
        invariant AsConfig() == old(AsConfig()).(availableLocales := old(availableLocales) + MakeAll(make, args[..i]))
      {
        var tag := make(args[i]);
        availableLocales := availableLocales + [tag];
        assert args[..i + 1] == args[..i] + [args[i]];
        MakeAllAppend(make, args[..i], [args[i]]);
      }
      assert args[..|args|] == args;
    }

    /**
     * `UnmarshalCaddyfile`: the fields end as `Unmarshal` says, on success and on
     * error alike, and the error is the one it reports.
     */
    method UnmarshalCaddyfile(ds: seq<Directive>, make: string -> Tag) returns (err: Option<ArgErr>)
      modifies this
      ensures Parsed(AsConfig(), err) == Unmarshal(old(AsConfig()), ds, make)
    {
      var i := 0;
      while i < |ds|
        invariant 0 <= i <= |ds|
        invariant Unmarshal(AsConfig(), ds[i..], make) == Unmarshal(old(AsConfig()), ds, make)
      {
        ghost var before := AsConfig();
        assert ds[i..][0] == ds[i] && ds[i..][1..] == ds[i + 1..];
        cookieName := DefaultCookieName;
        headerName := DefaultHeaderName;
        methods := DefaultMethods;
        AppendLocales(ds[i].args, make);
        assert AsConfig() == Opened(before, ds[i], make);
        var pending := ds[i].block;
        while pending != []
          invariant ApplyLines(AsConfig(), Dispense(pending), make) == ApplyDirective(before, ds[i], make)
          decreases |pending|, if pending == [] then 0 else |pending[0].args|
        {
          var line := pending[0];
          ghost var here, whole := AsConfig(), pending;
          pending := pending[1..];
          if TakesOneArg(line.name) && |line.args| > 1 {
            DispenseSplit(whole);
            StepReadsFirstArg(here, line, make);
            ApplyLinesCons(here, Line(line.name, line.args[..1]), Dispense([Line(line.args[1], line.args[2..])] + pending), make);
          } else {
            DispenseWhole(whole);
            ApplyLinesCons(here, line, Dispense(pending), make);
          }
          if line.name == "available" {
            AppendLocales(line.args, make);
          } else if line.name == "methods" {
            methods := line.args;
          } else if line.name == "cookie" || line.name == "header" {
            if line.args == [] {
              err := Some(ArgErr(line.name));
              return;
            }
            var value := TrimSpace(line.args[0]);
            if value != "" {
              if line.name == "cookie" {
                cookieName := value;
              } else {
                headerName := value;
              }
            }
            if |line.args| > 1 {
              pending := [Line(line.args[1], line.args[2..])] + pending;
            }
          } else {
            err := Some(ArgErr(line.name));
            return;
          }
          assert AsConfig() == Step(here, line, make).config;
        }
        i := i + 1;
      }
      err := None;
    }

    /**
     * `ServeHTTP`, up to handing the request on: the header it sets is the
     * configured one, holding the locale the request resolves to.
     */
    method ServeHTTP(req: HttpRequest, lib: Library<Tag>) returns (field: HeaderField)
      ensures field == HeaderField(headerName, ResolvedLocale(AsConfig(), req, lib))
    {
      var tags: seq<Tag> := [];
      if "cookie" in methods {
        tags := tags + [lib.make(CookieText(req.langCookie))];
      }
      if "header" in methods {
        tags := tags + lib.parseAcceptLanguage(req.acceptLanguage);
      }
      assert tags == RequestedTags(methods, req, lib);
      var tag := lib.matchTags(availableLocales, tags);
      var base, region := lib.baseString(tag), lib.regionString(tag);
      var locale := base;
      if region != NoRegion {
        locale := locale + "-" + region;
      }
      field := HeaderField(headerName, locale);
    }
  }
}
