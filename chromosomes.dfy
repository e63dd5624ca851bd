/** `np.unique` on the chromosome labels: the distinct labels in ascending
    order. Labels are strings and compare lexicographically by code point, so
    "chr10" comes before "chr2". */
module Chromosomes {
  import opened Seqs

  /** Lexicographic order on strings, as Python's `<` on `str`. */
  predicate StrLess(a: string, b: string) {
    if a == [] then b != []
    else if b == [] then false
    else a[0] < b[0] || (a[0] == b[0] && StrLess(a[1..], b[1..]))
  }

  lemma {:induction false} StrLessIrreflexive(a: string)
    ensures !StrLess(a, a)
  {
    if a != [] { StrLessIrreflexive(a[1..]); }
  }

  lemma {:induction false} StrLessTransitive(a: string, b: string, c: string)
    requires StrLess(a, b) && StrLess(b, c)
    ensures StrLess(a, c)
  {
    if a != [] && b != [] && c != [] && a[0] == b[0] == c[0] {
      StrLessTransitive(a[1..], b[1..], c[1..]);
    }
  }

  /** Any two different labels are ordered one way or the other. */
  lemma {:induction false} StrLessTotal(a: string, b: string)
    requires a != b
    ensures StrLess(a, b) || StrLess(b, a)
  {
    if a != [] && b != [] && a[0] == b[0] {
      assert a == [a[0]] + a[1..] && b == [b[0]] + b[1..];
      StrLessTotal(a[1..], b[1..]);
    }
  }

  predicate StrictlySorted(s: seq<string>) {
    forall a, b :: 0 <= a < b < |s| ==> StrLess(s[a], s[b])
  }

  /** Adds `c` to a strictly sorted list of distinct labels. */
  function InsertLabel(s: seq<string>, c: string): (r: seq<string>)
    requires StrictlySorted(s)
    ensures StrictlySorted(r)
    ensures forall d :: d in r <==> d == c || d in s
  {
    if s == [] then [c]
    else if c == s[0] then s
    else if StrLess(c, s[0]) then
      assert forall k :: 0 < k < |s| ==> StrLess(c, s[k]) by {
        forall k | 0 < k < |s| ensures StrLess(c, s[k]) { StrLessTransitive(c, s[0], s[k]); }
      }
      [c] + s
    else
      StrLessTotal(c, s[0]);
      var rest := InsertLabel(s[1..], c);
      assert forall k :: 0 <= k < |rest| ==> rest[k] == c || rest[k] in s[1..];
      [s[0]] + rest
  }

  /** `np.unique(chroms)`: every label once, ascending. */
  function Unique(chroms: seq<string>): (r: seq<string>)
    ensures StrictlySorted(r)
    ensures forall c :: c in r <==> c in chroms
    decreases |chroms|
  {
    if chroms == [] then []
    else
      var n := |chroms| - 1;
      var prev := Unique(chroms[..n]);
      assert chroms == chroms[..n] + [chroms[n]];
      InsertLabel(prev, chroms[n])
  }

  /** Strict sortedness means no label is listed twice. */
  lemma UniqueHasNoDuplicates(chroms: seq<string>)
    ensures Distinct(Unique(chroms))
  {
    var u := Unique(chroms);
    forall a, b | 0 <= a < b < |u| ensures u[a] != u[b] {
      StrLessIrreflexive(u[a]);
    }
  }
}
