/** The required-column check that opens `process_file`. */
module Columns {

  /** The columns an uploaded table must have, in the order the error message lists them. */
  const RequiredColumns: seq<string> := ["RCT", "BRAND_OWNER", "BRAND_1", "BRAND_EXTENSION", "PRODUCT_DESCRIPTION"]

  /** `sub` can be obtained from `s` by deleting elements: it keeps their relative order. */
  ghost predicate IsSubsequence(sub: seq<string>, s: seq<string>)
    decreases |s|
  {
    || sub == []
    || (s != [] && ((sub[0] == s[0] && IsSubsequence(sub[1..], s[1..])) || IsSubsequence(sub, s[1..])))
  }

  /** The entries of `required` that do not occur in `present`, scanned in the order of `required`. */
  function Absent(required: seq<string>, present: seq<string>): (r: seq<string>)
    ensures |r| <= |required|
    ensures forall c :: c in r <==> c in required && c !in present
  {
    if required == [] then []
    else if required[0] in present then Absent(required[1..], present)
    else [required[0]] + Absent(required[1..], present)
  }

  /** The absent columns keep the order in which `required` lists them. */
  lemma {:induction false} AbsentKeepsOrder(required: seq<string>, present: seq<string>)
    ensures IsSubsequence(Absent(required, present), required)
  {
    if required != [] {
      AbsentKeepsOrder(required[1..], present);
    }
  }

  /** The list the application reports: every required column missing from the table's header. */
  function MissingColumns(present: seq<string>): (missing: seq<string>)
    ensures forall c :: c in missing <==> c in RequiredColumns && c !in present
    ensures missing == [] <==> forall c :: c in RequiredColumns ==> c in present
    ensures IsSubsequence(missing, RequiredColumns)
  {
    AbsentKeepsOrder(RequiredColumns, present);
    var missing := Absent(RequiredColumns, present);
    assert missing != [] ==> missing[0] in missing;
    missing
  }

  /** Checking does not stop at the first missing column: when none of the required columns is
      present, every one of them is reported, in order. */
  lemma {:induction false} NothingPresentMissesAll(required: seq<string>, present: seq<string>)
    requires forall c :: c in required ==> c !in present
    ensures Absent(required, present) == required
  {
    if required != [] {
      NothingPresentMissesAll(required[1..], present);
    }
  }
}
