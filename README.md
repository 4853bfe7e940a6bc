# caddy-locale: a Dafny model of the locale handler

`caddy-locale` is a Caddy HTTP middleware (package `locale`, one Go file). It reads
the client's preferred locale from a `lang` cookie and the `Accept-Language` header,
asks `golang.org/x/text/language` which configured locale fits best, and sets that
locale, rendered as `lang` or `lang-REGION`, as a request header before handing the
request on. This project models the two parts of `detect_locale.go` whose logic is
the repository's own:

- **The Caddyfile parser** (`UnmarshalCaddyfile`). For each occurrence of the
  directive it resets `CookieName`, `HeaderName` and `Methods` to their defaults,
  appends the inline locale arguments, and runs the block's sub-directives:
  `available` appends, `methods` replaces, `cookie` and `header` take one trimmed
  argument, anything else is an error.
- **The request-time glue** of `ServeHTTP`. It collects the requested tags (the
  cookie's first, then the header's, depending only on membership in `Methods`)
  and renders the matched tag's base and region (bare base when the region is the
  unknown region `ZZ`).

Layout, one module per file:

- `wrappers.dfy` (`Wrappers`): `Option`.
- `go_strings.dfy` (`GoStrings`): `strings.TrimSpace`, with `unicode.IsSpace`.
- `text_language.dfy` (`TextLanguage`): the x/text calls as uninterpreted functions,
  bundled in `Library<Tag>` over an opaque tag type. `MakeAll` is `Make` over a list.
- `caddyfile.dfy` (`Caddyfile`): the parser as functions. The Dispenser is replaced by
  its result: a sequence of `Directive`s, each with its inline arguments and block
  `Line`s `(name, args)`. `Dispense` regroups a block the way `NextBlock` hands it
  out. `Step` is one `switch` case, `ApplyLines` one block, `ApplyDirective` one
  occurrence, `Unmarshal` the whole parse. An error keeps the fields updated before
  it, as the Go handler is updated in place.
- `caddyfile_props.dfy` (`CaddyfileProps`): what the parser guarantees, as lemmas.
- `serve.dfy` (`Serve`): the requested-tag list, the locale string, the resolved
  locale, and lemmas about them.
- `locale.dfy` (`Locale`): the `Handler` class with the four fields. Its methods
  `UnmarshalCaddyfile` (loops over occurrences and pending sub-directives) and
  `ServeHTTP` (conditional appends) are proved against `Unmarshal` and
  `ResolvedLocale`.

The model follows the code, including behaviour a reader of the package's
description might not expect:

- The cookie read is always `lang`. The configured `CookieName` is never consulted.
- With `cookie` in `Methods`, a tag is always added for the cookie. The cookie-read
  error is discarded, and a missing cookie's nil `*http.Cookie` prints as `""`, so
  the tag is `language.Make("")`.
- The text handed to `language.Make` is `(*http.Cookie).String()`. That is the
  cookie's serialisation `lang=<value>`, not its bare value (`Serve.CookieText`).
- `AvailableLocales` is never reset between directive occurrences.
- `Methods` accepts any words. Words other than `cookie` and `header` are ignored at
  request time; nothing rejects them while parsing.
- `cookie` and `header` read one argument with `NextArg`. Any further tokens on
  that line are read by the next `NextBlock` as a new sub-directive. So
  `cookie a b` fails on `b`, and `cookie a available fr` also adds `fr`
  (`Caddyfile.Dispense`).
- The handler writes the locale only to the request header named `HeaderName`.
  It sets no placeholder variable.

## Model

| member | source | states |
|---|---|---|
| `Locale.Handler.constructor` | detect_locale.go:72 | `var hl Handler`: no locales, no methods, empty names |
| `Locale.Handler.AppendLocales` | detect_locale.go:82-87 | the tag of each argument is appended in order; no other field changes |
| `Locale.Handler.UnmarshalCaddyfile` | detect_locale.go:76-123 | the fields and the error end exactly as `Unmarshal` gives them, on success and on error |
| `Locale.Handler.ServeHTTP` | detect_locale.go:41-65 | the header set is `HeaderName`, holding the rendering of the tag the matcher picks from `AvailableLocales` for `RequestedTags(Methods)` |
| `TextLanguage.MakeAll` | detect_locale.go:83-86 | one tag per argument, the i-th being `Make` of the i-th argument |
| `GoStrings.TrimSpace` | detect_locale.go:106 | the result is the slice of the input left between a white-space prefix and a white-space suffix, and it neither starts nor ends with white space |
| `GoStrings.TrimSpaceEmptyIffBlank` | detect_locale.go:106 | an argument trims to "" exactly when it is all white space |
| `Caddyfile.Dispense` | detect_locale.go:89-115 | models Caddy's Dispenser, not code in this file: the sub-directives in the order `NextBlock` hands them out when `cookie` and `header` read one argument with `NextArg`; a specification function, whose properties are the three `Dispense…` lemmas below |
| `Caddyfile.Setting` | detect_locale.go:106-108 | an all-white-space argument leaves the field as it was; any other sets it to the trimmed argument, which is not empty |
| `Caddyfile.Step` | detect_locale.go:90-118 | a sub-directive succeeds exactly when it is accepted (`available`, `methods`, or `cookie`/`header` with an argument); a rejected one leaves the fields untouched and yields `ArgErr` after its name |
| `Caddyfile.ApplyLines` | detect_locale.go:89-119 | the block loop, stopping at the first error; a specification function, characterised by the block lemmas below |
| `Caddyfile.ApplyDirective` | detect_locale.go:77-119 | one occurrence: reset, inline locales, then the block; characterised by `DirectiveResetsSettings` and `OccurrenceDefaults` |
| `Caddyfile.Unmarshal` | detect_locale.go:76-123 | the whole parse, stopping at the first error; characterised by `UnmarshalSucceedsIff`, `UnmarshalAppendsLocales` and `LastOccurrenceDecides`, and computed by `Locale.Handler.UnmarshalCaddyfile` |
| `CaddyfileProps.DispenseKeepsTokens` | detect_locale.go:89-90 | dispensing a block into sub-directives keeps its token stream unchanged |
| `CaddyfileProps.DispenseSplitsOneArgLines` | detect_locale.go:102-115 | every dispensed `cookie`/`header` sub-directive has at most one argument |
| `CaddyfileProps.DispenseKeepsPlainBlocks` | detect_locale.go:89-119 | a block whose `cookie`/`header` lines have at most one argument is dispensed as written |
| `CaddyfileProps.StepReadsFirstArg` | detect_locale.go:102-115 | `cookie` and `header` depend on their first argument only |
| `CaddyfileProps.SucceedsIffAllAccepted` | detect_locale.go:90-122 | a block succeeds if and only if every sub-directive is `available`, `methods`, or `cookie`/`header` with an argument |
| `CaddyfileProps.FirstRejectedLineReported` | detect_locale.go:103-117 | the first rejected sub-directive ends the parse with an error after its name; the fields keep what the lines before it did |
| `CaddyfileProps.ApplyLinesSnoc` | detect_locale.go:89-119 | a further sub-directive acts on what the block before it produced, unless that failed |
| `CaddyfileProps.LinesOnlyAppendLocales` | detect_locale.go:92-98 | a block never removes a locale: the old list is a prefix of the new one |
| `CaddyfileProps.LinesAppendLocales` | detect_locale.go:92-98 | on success the block appends the tags of its `available` arguments, in order |
| `CaddyfileProps.LastMethodsLineWins` | detect_locale.go:99-101 | on success `Methods` is exactly the arguments of the last `methods` line, possibly empty, or unchanged without one |
| `CaddyfileProps.LastNameLineWins` | detect_locale.go:102-115 | on success the cookie/header name is the trimmed argument of the last such line whose argument is not blank, or unchanged |
| `CaddyfileProps.OneArgSetting` | detect_locale.go:102-115 | a blank argument leaves the field unchanged; any other sets it to the trimmed value, which has no edge white space |
| `CaddyfileProps.SettingsIgnoreLocales` | detect_locale.go:89-119 | the settings a block leaves, and whether it fails, depend only on the settings it started from |
| `CaddyfileProps.DirectiveResetsSettings` | detect_locale.go:77-80 | every occurrence starts from the reset settings: its resulting settings and error do not depend on what came before |
| `CaddyfileProps.OccurrenceDefaults` | detect_locale.go:77-98 | an occurrence with only `available` lines succeeds with `["header"]`, `lang`, `Detected-Locale` and its inline then block locales appended |
| `CaddyfileProps.UnmarshalSucceedsIff` | detect_locale.go:89-122 | the whole parse succeeds if and only if every dispensed sub-directive of every occurrence is accepted |
| `CaddyfileProps.UnmarshalOnlyAppendsLocales` | detect_locale.go:77-98 | across occurrences the locale list only grows, even on error |
| `CaddyfileProps.UnmarshalAppendsLocales` | detect_locale.go:77-98 | on success the locales are the old ones followed by every occurrence's inline and `available` arguments, in order |
| `CaddyfileProps.LastOccurrenceDecides` | detect_locale.go:77-80 | on success `Methods`, `CookieName` and `HeaderName` are what the last occurrence produces on its own |
| `Serve.CookieText` | detect_locale.go:47-48 | "" exactly when there is no `lang` cookie; otherwise `lang=` followed by the cookie's value |
| `Serve.RequestedTags` | detect_locale.go:42-53 | the tags handed to the matcher; a specification function, characterised by `CookieTagLeads`, `HeaderTagsFollow`, `OnlyMembershipMatters` and `NoSourceNoTags` |
| `Serve.LocaleString` | detect_locale.go:56-63 | the written locale; a specification function, characterised by `LocaleRoundTrip`, `SeparatorIffRegion` and `NeverEndsInNoRegion` |
| `Serve.ResolvedLocale` | detect_locale.go:44-63 | the locale a request resolves to: the rendering of the tag the matcher picks; computed by `Locale.Handler.ServeHTTP` |
| `Serve.CookieTagLeads` | detect_locale.go:46-53 | with `cookie` configured, the first tag is the cookie's and the header's tags follow |
| `Serve.AbsentCookieStillContributes` | detect_locale.go:46-48 | with `cookie` configured and no cookie, the first tag is still `Make("")` |
| `Serve.HeaderTagsFollow` | detect_locale.go:50-53 | with `header` configured, the list ends with the parsed header tags in their order, after at most one cookie tag |
| `Serve.OnlyMembershipMatters` | detect_locale.go:46-53 | two `Methods` lists with the same membership of `cookie` and `header` give the same tags |
| `Serve.NoSourceNoTags` | detect_locale.go:42-53 | with neither `cookie` nor `header` configured, no tag is requested |
| `Serve.CookieNameIgnored` | detect_locale.go:47 | the resolved locale does not depend on `CookieName` |
| `Serve.LocaleRoundTrip` | detect_locale.go:58-63 | splitting the locale at its first `-` gives back the base, and the region unless it is `ZZ` |
| `Serve.SeparatorIffRegion` | detect_locale.go:58-63 | the locale holds a `-` if and only if the region is not `ZZ`: bare locales carry no separator |
| `Serve.NeverEndsInNoRegion` | detect_locale.go:58-63 | for base and region without `-`, the locale never ends in `-ZZ` |
| `Serve.DefaultMethodsAskHeaderOnly` | detect_locale.go:80 | with the default `Methods`, the requested tags are exactly the header's |

## Left out

- Locale negotiation, Accept-Language parsing and tag canonicalisation
  (`language.NewMatcher`, `Match`, `ParseAcceptLanguage`, `Make`, `Tag.Raw` and the
  `String` methods). These are foreign calls into golang.org/x/text. They are
  uninterpreted fields of `TextLanguage.Library`, so no outcome of matching (which
  tag wins, fallback to the first locale, case folding) is claimed.
- Module registration and wiring (`init`, `CaddyModule`, and
  `parseCaddyfileHandlerDirective` beyond the zero-value handler it parses into).
  This is host-platform plumbing.
- HTTP I/O. A request is reduced to the value of its first `lang` cookie and its
  `Accept-Language` value. The header write is returned as a `HeaderField` instead of
  mutating the request, so header-name canonicalisation is not modelled.
  `next.ServeHTTP` and the error it returns are not modelled.
- Dispenser internals: lexing, quoting, placeholders, and nested `{ }` blocks inside
  a sub-directive. The model starts from lines of tokens.
- Serve.CookieText: does not model the quoting (for values with spaces or commas, or
  cookies sent quoted) or the dropping of invalid bytes that `http.Cookie.String`
  applies to the value.
- Go's nil-versus-empty slice distinction for `Methods` and `AvailableLocales`. No
  code path observes it.
- The repository's tests. `TestConfig` expects a `{vars.detected-locale}` value the
  handler never sets. `TestCases` uses a `DetectLocale` type the package does not
  declare, and its expected strings are outcomes of the x/text matcher.
- Concurrency. Nothing in the handler is concurrent, and requests do not mutate it.
