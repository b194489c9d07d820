/** How the two converters' header checks relate: the simple converter's exact
    check is the stricter of the two. */
module ConvertersCompared {
  import opened Wrappers
  import opened Normalizers
  import SimpleConverter
  import FlexibleConverter

  /** A base column written exactly, with no whitespace and in lower case,
      satisfies the flexible check for that column. */
  lemma ExactNameFound(names: seq<string>, i: int)
    requires 0 <= i < |names| && names[i] in FlexibleConverter.RequiredBase
    ensures names[i] !in FlexibleConverter.MissingBase(Some(names))
  {
    var c := names[i];
    assert IsCanonicalKey(c);
    CanonicalKeyFacts(c);
    assert names[i] == "" + c + "";
    FlexibleConverter.HeaderFoundInAnyCase(names, i, "", c, "");
  }

  /** A column the simple check does not report is present as written. */
  lemma PresentAsWritten(names: seq<string>, c: string)
    requires c in SimpleConverter.RequiredColumns
    requires c !in SimpleConverter.MissingColumnsOf(names)
    ensures exists i :: 0 <= i < |names| && names[i] == c
  {
  }

  /** A header the simple converter accepts also passes the flexible
      converter's check: `name`, `start` and `end` are among the simple
      converter's required columns, and a name written exactly is in
      particular found by the stripped, lower-cased comparison. */
  lemma SimpleHeaderPassesFlexible(names: seq<string>)
    requires SimpleConverter.MissingColumnsOf(names) == {}
    ensures FlexibleConverter.MissingBase(Some(names)) == {}
  {
    forall c | c in FlexibleConverter.RequiredBase
      ensures c !in FlexibleConverter.MissingBase(Some(names))
    {
      assert c in SimpleConverter.RequiredColumns;
      PresentAsWritten(names, c);
      var i :| 0 <= i < |names| && names[i] == c;
      ExactNameFound(names, i);
    }
  }
}
