/** The derived "Concatenated" column: the three brand fields joined with ';', every run of ';'
    squeezed to one. */
module Concatenation {
  import opened Wrappers

  const Sep: char := ';'

  /** A null cell reads as the empty string (`fillna("")`). */
  function Field(cell: Option<string>): (r: string)
    ensures cell == None ==> r == ""
    ensures cell.Some? ==> r == cell.value
  {
    match cell
    case None => ""
    case Some(s) => s
  }

  /** No two separators stand next to each other. */
  ghost predicate NoRepeatedSep(s: string)
  {
    forall i :: 0 <= i < |s| - 1 ==> !(s[i] == Sep && s[i + 1] == Sep)
  }

  /** The characters of `s` other than the separator, in order. */
  function NonSepChars(s: string): string
  {
    if s == [] then []
    else if s[0] == Sep then NonSepChars(s[1..])
    else [s[0]] + NonSepChars(s[1..])
  }

  /** Replaces every run of one or more separators by a single one (the `;+` to `;` rewrite).
      Of each run the last separator is kept; nothing at either edge is dropped. */
  function Collapse(s: string): (r: string)
    ensures |r| <= |s|
    ensures |s| > 0 ==> |r| > 0 && r[0] == s[0] && r[|r| - 1] == s[|s| - 1]
    decreases |s|
  {
    if |s| < 2 then s
    else if s[0] == Sep && s[1] == Sep then Collapse(s[1..])
    else [s[0]] + Collapse(s[1..])
  }

  /** A string has a separator after collapsing iff it had one before. */
  lemma {:induction false} CollapseKeepsSep(s: string)
    ensures Sep in Collapse(s) <==> Sep in s
    decreases |s|
  {
    if |s| >= 2 {
      CollapseKeepsSep(s[1..]);
      assert s == [s[0]] + s[1..];
    }
  }

  /** After collapsing, no separator follows another. */
  lemma {:induction false} CollapseNoRepeatedSep(s: string)
    ensures NoRepeatedSep(Collapse(s))
    decreases |s|
  {
    if |s| >= 2 {
      CollapseNoRepeatedSep(s[1..]);
    }
  }

  /** A string without adjacent separators is left as it is; hence collapsing twice is collapsing once. */
  lemma {:induction false} CollapseKeepsClean(s: string)
    requires NoRepeatedSep(s)
    ensures Collapse(s) == s
    decreases |s|
  {
    if |s| >= 2 {
      assert NoRepeatedSep(s[1..]) by {
        forall i | 0 <= i < |s[1..]| - 1 ensures !(s[1..][i] == Sep && s[1..][i + 1] == Sep) {
          assert s[1..][i] == s[i + 1] && s[1..][i + 1] == s[i + 2];
        }
      }
      CollapseKeepsClean(s[1..]);
    }
  }

  lemma CollapseIdempotent(s: string)
    ensures Collapse(Collapse(s)) == Collapse(s)
  {
    CollapseNoRepeatedSep(s);
    CollapseKeepsClean(Collapse(s));
  }

  /** Only separators are removed: the remaining characters are those of the input, in order. */
  lemma {:induction false} CollapseKeepsText(s: string)
    ensures NonSepChars(Collapse(s)) == NonSepChars(s)
    decreases |s|
  {
    if |s| >= 2 {
      CollapseKeepsText(s[1..]);
      if !(s[0] == Sep && s[1] == Sep) {
        assert ([s[0]] + Collapse(s[1..]))[1..] == Collapse(s[1..]);
      }
    }
  }

  /** A leading character other than the separator passes through unchanged. */
  lemma CollapsePlainHead(c: char, t: string)
    requires c != Sep
    ensures Collapse([c] + t) == [c] + Collapse(t)
  {
    if t != [] {
      assert ([c] + t)[1..] == t;
    }
  }

  /** A prefix without separators passes through unchanged. */
  lemma {:induction false} CollapsePlainPrefix(p: string, s: string)
    requires Sep !in p
    ensures Collapse(p + s) == p + Collapse(s)
    decreases |p|
  {
    if p == [] {
      assert p + s == s;
    } else {
      var c, rest := p[0], p[1..];
      assert c in p;
      assert p + s == [c] + (rest + s);
      CollapsePlainHead(c, rest + s);
      CollapsePlainPrefix(rest, s);
      assert [c] + (rest + Collapse(s)) == p + Collapse(s);
    }
  }

  /** The value of the "Concatenated" cell for one row. */
  function Concatenate(owner: Option<string>, brand: Option<string>, extension: Option<string>): (r: string)
    ensures NoRepeatedSep(r)
    ensures Sep in r
    ensures NonSepChars(r) == NonSepChars(Field(owner) + [Sep] + Field(brand) + [Sep] + Field(extension))
  {
    var joined := Field(owner) + [Sep] + Field(brand) + [Sep] + Field(extension);
    CollapseNoRepeatedSep(joined);
    CollapseKeepsText(joined);
    CollapseKeepsSep(joined);
    assert Sep in joined by { assert joined[|Field(owner)|] == Sep; }
    Collapse(joined)
  }

  /** A separator followed by plain text is already collapsed. */
  lemma CollapseSepPlain(e: string)
    requires Sep !in e
    ensures Collapse([Sep] + e) == [Sep] + e
  {
    CollapsePlainPrefix(e, []);
    assert e + [] == e;
    if e != [] {
      assert ([Sep] + e)[1] == e[0];
      assert ([Sep] + e)[1..] == e;
    }
  }

  /** Two separators in a row merge into one. */
  lemma CollapseDoubleSep(e: string)
    ensures Collapse([Sep, Sep] + e) == Collapse([Sep] + e)
  {
    assert ([Sep, Sep] + e)[1..] == [Sep] + e;
  }

  /** Two adjacent separators anywhere in the string collapse as one: together with
      `CollapseNoRepeatedSep` and `CollapseKeepsClean` this fixes `Collapse` as the rewrite of every
      run of separators into exactly one. */
  lemma {:induction false} CollapseMergesRun(p: string, q: string)
    ensures Collapse(p + [Sep, Sep] + q) == Collapse(p + [Sep] + q)
    decreases |p|
  {
    if p == [] {
      assert p + [Sep, Sep] + q == [Sep, Sep] + q;
      assert p + [Sep] + q == [Sep] + q;
      CollapseDoubleSep(q);
    } else {
      var longer, shorter := p + [Sep, Sep] + q, p + [Sep] + q;
      assert longer[0] == shorter[0] == p[0];
      assert longer[1] == shorter[1];
      assert longer[1..] == p[1..] + [Sep, Sep] + q;
      assert shorter[1..] == p[1..] + [Sep] + q;
      CollapseMergesRun(p[1..], q);
    }
  }

  /** A separator followed by non-empty plain text passes through unchanged. */
  lemma CollapseSepThenPlain(p: string, s: string)
    requires p != [] && Sep !in p
    ensures Collapse([Sep] + p + s) == [Sep] + Collapse(p + s)
  {
    assert ([Sep] + p + s)[1..] == p + s;
    assert ([Sep] + p + s)[1] == p[0];
  }

  /** What follows the first field when the brand is empty: the two separators merge. */
  lemma CollapseAfterOwnerNoBrand(extension: string)
    requires Sep !in extension
    ensures Collapse([Sep] + "" + [Sep] + extension) == [Sep] + extension
  {
    assert [Sep] + "" + [Sep] + extension == [Sep, Sep] + extension;
    CollapseDoubleSep(extension);
    CollapseSepPlain(extension);
  }

  /** What follows the first field when the brand is not empty: nothing changes. */
  lemma CollapseAfterOwnerBrand(brand: string, extension: string)
    requires brand != [] && Sep !in brand && Sep !in extension
    ensures Collapse([Sep] + brand + [Sep] + extension) == [Sep] + (brand + [Sep]) + extension
  {
    var rest := [Sep] + extension;
    assert [Sep] + brand + [Sep] + extension == [Sep] + brand + rest;
    CollapseSepThenPlain(brand, rest);
    CollapsePlainPrefix(brand, rest);
    CollapseSepPlain(extension);
    assert [Sep] + (brand + rest) == [Sep] + (brand + [Sep]) + extension;
  }

  /** What follows the first field: an empty middle field leaves two separators, which merge. */
  lemma CollapseAfterOwner(brand: string, extension: string)
    requires Sep !in brand && Sep !in extension
    ensures Collapse([Sep] + brand + [Sep] + extension)
         == [Sep] + (if brand == "" then "" else brand + [Sep]) + extension
  {
    if brand == "" {
      CollapseAfterOwnerNoBrand(extension);
    } else {
      CollapseAfterOwnerBrand(brand, extension);
    }
  }

  /** Collapsing the joined row when no field holds a separator. */
  lemma CollapsePlainJoin(owner: string, brand: string, extension: string)
    requires Sep !in owner && Sep !in brand && Sep !in extension
    ensures Collapse(owner + [Sep] + brand + [Sep] + extension)
         == owner + ([Sep] + (if brand == "" then "" else brand + [Sep]) + extension)
  {
    var tail := [Sep] + brand + [Sep] + extension;
    assert owner + [Sep] + brand + [Sep] + extension == owner + tail;
    CollapseAfterOwner(brand, extension);
    CollapsePlainPrefix(owner, tail);
  }

  /** For fields without separators the rule has no special cases: an empty middle field
      disappears, while empty outer fields leave their separator at the edge. */
  lemma PlainFields(owner: string, brand: string, extension: string)
    requires Sep !in owner && Sep !in brand && Sep !in extension
    ensures Concatenate(Some(owner), Some(brand), Some(extension))
         == owner + [Sep] + (if brand == "" then "" else brand + [Sep]) + extension
  {
    var middle := if brand == "" then "" else brand + [Sep];
    CollapsePlainJoin(owner, brand, extension);
    assert owner + ([Sep] + middle + extension) == owner + [Sep] + middle + extension;
  }

  /** Concrete rows: ("A", "", "B") gives "A;B", three fields give "A;B;C", all-empty gives ";",
      and (null, "X", null) gives ";X;". */
  lemma Examples()
    ensures Concatenate(Some("A"), Some(""), Some("B")) == "A;B"
    ensures Concatenate(Some("A"), Some("B"), Some("C")) == "A;B;C"
    ensures Concatenate(Some(""), Some(""), Some("")) == ";"
    ensures Concatenate(None, Some("X"), None) == ";X;"
  {
    PlainFields("A", "", "B");
    PlainFields("A", "B", "C");
    PlainFields("", "", "");
    PlainFields("", "X", "");
  }
}
