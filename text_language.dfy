/**
 * The calls the handler makes into golang.org/x/text/language. Tag matching,
 * Accept-Language parsing (section 12.5.4 of RFC 9110) and tag canonicalisation
 * (BCP 47) all happen inside that library; here they stay uninterpreted functions
 * over an opaque tag type.
 */
module TextLanguage {

  datatype Library<!Tag> = Library(
    /** `language.Make`: the tag of a string, never an error. */
    make: string -> Tag,
    /** The tags `language.ParseAcceptLanguage` returns for a header value. */
    parseAcceptLanguage: string -> seq<Tag>,
    /** `language.NewMatcher(available).Match(requested...)`: the tag it picks. */
    matchTags: (seq<Tag>, seq<Tag>) -> Tag,
    /** `String()` of the base language that `Tag.Raw` returns. */
    baseString: Tag -> string,
    /** `String()` of the region that `Tag.Raw` returns; "ZZ" when the region is unknown. */
    regionString: Tag -> string)

  /** The tags `language.Make` gives the strings of `args`, one by one, in order. */
  function MakeAll<Tag>(make: string -> Tag, args: seq<string>): (tags: seq<Tag>)
    ensures |tags| == |args|
    ensures forall i :: 0 <= i < |args| ==> tags[i] == make(args[i])
  {
    if args == [] then [] else [make(args[0])] + MakeAll(make, args[1..])
  }

  lemma MakeAllAppend<Tag>(make: string -> Tag, a: seq<string>, b: seq<string>)
    ensures MakeAll(make, a + b) == MakeAll(make, a) + MakeAll(make, b)
  {
    assert forall i :: 0 <= i < |a + b| ==> MakeAll(make, a + b)[i] == (MakeAll(make, a) + MakeAll(make, b))[i];
  }
}
