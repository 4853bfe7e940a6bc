/**
 * The request-time data flow of `ServeHTTP`: which tags are handed to the matcher,
 * and how the matched tag is written out. `Locale.Handler.ServeHTTP` is proved to
 * compute `ResolvedLocale`.
 */
module Serve {
  import opened Wrappers
  import opened TextLanguage
  import opened Caddyfile

  /** The name of the cookie read, fixed whatever `CookieName` says. */
  const LangCookie := "lang"
  /** What `Region.String` yields for an unknown region. */
  const NoRegion := "ZZ"

  /**
   * What the handler reads of a request: the value of its first `lang` cookie, if
   * any, and the `Accept-Language` header value ("" when absent, as `Header.Get` gives).
   */
  datatype HttpRequest = HttpRequest(langCookie: Option<string>, acceptLanguage: string)

  /**
   * `String()` of the cookie `r.Cookie("lang")` returns: its serialisation
   * `lang=<value>`, and "" for the nil cookie of a request that has none.
   */
  function CookieText(cookie: Option<string>): (text: string)
    ensures cookie.None? <==> text == ""
    ensures cookie.Some? ==>
      |text| == |LangCookie| + 1 + |cookie.value|
      && text[..|LangCookie| + 1] == LangCookie + "=" && text[|LangCookie| + 1..] == cookie.value
  {
    match cookie
    case None => ""
    case Some(v) => LangCookie + "=" + v
  }

  /** The tags `ServeHTTP` collects from the configured sources, in the order it appends them. */
  function RequestedTags<Tag>(methods: seq<string>, req: HttpRequest, lib: Library<Tag>): seq<Tag> {
    (if "cookie" in methods then [lib.make(CookieText(req.langCookie))] else [])
    + (if "header" in methods then lib.parseAcceptLanguage(req.acceptLanguage) else [])
  }

  /** The locale string written for a tag whose raw parts print as `base` and `region`. */
  function LocaleString(base: string, region: string): string {
    if region == NoRegion then base else base + "-" + region
  }

  /** The locale string a request resolves to under a configuration. */
  function ResolvedLocale<Tag>(c: Config<Tag>, req: HttpRequest, lib: Library<Tag>): string {
    var tag := lib.matchTags(c.availableLocales, RequestedTags(c.methods, req, lib));
    LocaleString(lib.baseString(tag), lib.regionString(tag))
  }

  /** Reads a locale string back: the text before the first '-', and the text after it, if any. */
  function SplitLocale(s: string): (string, Option<string>) {
    if s == [] then ([], None)
    else if s[0] == '-' then ([], Some(s[1..]))
    else
      var (base, region) := SplitLocale(s[1..]);
      ([s[0]] + base, region)
  }

  // ---- Collecting the requested tags ----

  /** With `cookie` configured, the cookie's tag comes first and the header's tags, if any, follow. */
  lemma CookieTagLeads<Tag>(methods: seq<string>, req: HttpRequest, lib: Library<Tag>)
    requires "cookie" in methods
    ensures var tags := RequestedTags(methods, req, lib);
      tags != [] && tags[0] == lib.make(CookieText(req.langCookie))
      && tags[1..] == if "header" in methods then lib.parseAcceptLanguage(req.acceptLanguage) else []
  {
  }

  /** A request without a `lang` cookie still contributes a tag: the one `language.Make("")` gives. */
  lemma AbsentCookieStillContributes<Tag>(methods: seq<string>, req: HttpRequest, lib: Library<Tag>)
    requires "cookie" in methods && req.langCookie == None
    ensures RequestedTags(methods, req, lib)[0] == lib.make("")
  {
  }

  /** With `header` configured, the header's tags close the list, in the order the parser gives them. */
  lemma HeaderTagsFollow<Tag>(methods: seq<string>, req: HttpRequest, lib: Library<Tag>)
    requires "header" in methods
    ensures var tags := RequestedTags(methods, req, lib);
      var parsed := lib.parseAcceptLanguage(req.acceptLanguage);
      |tags| == |parsed| + (if "cookie" in methods then 1 else 0)
      && tags[|tags| - |parsed|..] == parsed
  {
  }

  /** Only membership of `cookie` and `header` matters: not order, duplicates or other names. */
  lemma OnlyMembershipMatters<Tag>(m1: seq<string>, m2: seq<string>, req: HttpRequest, lib: Library<Tag>)
    requires ("cookie" in m1 <==> "cookie" in m2) && ("header" in m1 <==> "header" in m2)
    ensures RequestedTags(m1, req, lib) == RequestedTags(m2, req, lib)
  {
  }

  /** With neither source configured the matcher is asked with no tags at all. */
  lemma NoSourceNoTags<Tag>(methods: seq<string>, req: HttpRequest, lib: Library<Tag>)
    requires "cookie" !in methods && "header" !in methods
    ensures RequestedTags(methods, req, lib) == []
  {
  }

  /** The configured cookie name is never consulted. */
  lemma CookieNameIgnored<Tag>(c: Config<Tag>, name: string, req: HttpRequest, lib: Library<Tag>)
    ensures ResolvedLocale(c.(cookieName := name), req, lib) == ResolvedLocale(c, req, lib)
  {
  }

  // ---- Writing the matched tag ----

  /**
   * The locale string reads back as its parts: the base language, and the region
   * unless it was the unknown region, which leaves no trace.
   */
  lemma {:induction false} LocaleRoundTrip(base: string, region: string)
    requires '-' !in base
    ensures SplitLocale(LocaleString(base, region)) == (base, if region == NoRegion then None else Some(region))
  {
    if base == [] {
      if region == NoRegion {
        assert LocaleString(base, region) == [];
      } else {
        assert LocaleString(base, region) == "-" + region;
      }
    } else {
      LocaleRoundTrip(base[1..], region);
      assert base == [base[0]] + base[1..];
      assert LocaleString(base, region) == [base[0]] + LocaleString(base[1..], region);
    }
  }

  /** A separator appears exactly when a real region is attached: bare locales carry none. */
  lemma SeparatorIffRegion(base: string, region: string)
    requires '-' !in base
    ensures '-' in LocaleString(base, region) <==> region != NoRegion
  {
    if region != NoRegion {
      assert LocaleString(base, region)[|base|] == '-';
    }
  }

  /** With parts that hold no '-', the locale string never ends in "-ZZ". */
  lemma NeverEndsInNoRegion(base: string, region: string)
    requires '-' !in base && '-' !in region
    ensures var s := LocaleString(base, region);
      !(|s| >= 3 && s[|s| - 3..] == "-" + NoRegion)
  {
    var s := LocaleString(base, region);
    if region == NoRegion {
      if |s| >= 3 {
        assert s[|s| - 3] in base;
        assert s[|s| - 3..][0] == s[|s| - 3];
      }
    } else if |region| >= 3 {
      assert s[|s| - 3] == region[|region| - 3];
    } else if |region| == 2 {
      assert s[|s| - 2..] == region;
    } else if |s| >= 3 {
      assert s[|s| - 3] == base[|base| + |region| - 2];
    }
  }

  // ---- Configuration and requests together ----

  /** A configuration with the default `Methods` asks only the header. */
  lemma DefaultMethodsAskHeaderOnly<Tag>(c: Config<Tag>, req: HttpRequest, lib: Library<Tag>)
    requires c.methods == DefaultMethods
    ensures RequestedTags(c.methods, req, lib) == lib.parseAcceptLanguage(req.acceptLanguage)
  {
  }
}
