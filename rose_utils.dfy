/**
  The pieces of ROSE's locus library that the pipeline relies on: loci, the
  overlap and containment tests, collection queries, order-keeping
  de-duplication, and the `chr(sense):start-end` string form of a locus.
*/
module RoseUtils {
  import opened Wrappers
  import opened Strings

  /** A chromosomal interval with a strand and an identifier. */
  datatype Locus = Locus(chr: string, start: int, end: int, sense: string, id: string)

  /** `Locus.len()`: both end points count. */
  function Len(l: Locus): int {
    l.end - l.start + 1
  }

  function Max(a: int, b: int): int { if a < b then b else a }
  function Min(a: int, b: int): int { if a < b then a else b }

  /** Overlap with strand ignored (sense 'both'). */
  predicate Overlaps(a: Locus, b: Locus) {
    a.chr == b.chr && Max(a.start, b.start) <= Min(a.end, b.end)
  }

  /** `c` contains `l`, strand ignored. */
  predicate Contains(c: Locus, l: Locus) {
    c.chr == l.chr && c.start <= l.start && l.end <= c.end
  }

  /** `getOverlap(query, 'both')` on a collection, in collection order. */
  function GetOverlap(coll: seq<Locus>, query: Locus): (r: seq<Locus>)
    ensures |r| <= |coll|
    ensures forall x :: x in r <==> x in coll && Overlaps(x, query)
    decreases |coll|
  {
    if coll == [] then []
    else
      var pre := coll[..|coll| - 1];
      assert coll == pre + [coll[|coll| - 1]];
      GetOverlap(pre, query) + (if Overlaps(coll[|coll| - 1], query) then [coll[|coll| - 1]] else [])
  }

  /** `getContainers(query, 'both')` on a collection, in collection order. */
  function GetContainers(coll: seq<Locus>, query: Locus): (r: seq<Locus>)
    ensures |r| <= |coll|
    ensures forall x :: x in r <==> x in coll && Contains(x, query)
    decreases |coll|
  {
    if coll == [] then []
    else
      var pre := coll[..|coll| - 1];
      assert coll == pre + [coll[|coll| - 1]];
      GetContainers(pre, query) + (if Contains(coll[|coll| - 1], query) then [coll[|coll| - 1]] else [])
  }

  predicate Distinct<T(==)>(s: seq<T>) {
    forall i, j :: 0 <= i < j < |s| ==> s[i] != s[j]
  }

  /** `uniquify`: the first occurrence of every element, in order. */
  function Uniquify(s: seq<string>): (r: seq<string>)
    ensures |r| <= |s|
    ensures Distinct(r)
    ensures forall x :: x in r <==> x in s
    decreases |s|
  {
    if s == [] then []
    else
      var pre := s[..|s| - 1];
      var r := Uniquify(pre);
      assert s == pre + [s[|s| - 1]];
      if s[|s| - 1] in r then r else r + [s[|s| - 1]]
  }

  /** De-duplication keeps the length exactly when nothing repeats. */
  lemma {:induction false} UniquifyKeepsLengthIffDistinct(s: seq<string>)
    ensures |Uniquify(s)| == |s| <==> Distinct(s)
    decreases |s|
  {
    if s != [] {
      var n := |s| - 1;
      var pre := s[..n];
      UniquifyKeepsLengthIffDistinct(pre);
      if s[n] in pre {
        var i :| 0 <= i < n && pre[i] == s[n];
        assert s[i] == s[n];
      } else {
        if Distinct(pre) {
          forall i, j | 0 <= i < j < |s| ensures s[i] != s[j] {
            if j < n { assert s[i] == pre[i] && s[j] == pre[j]; }
            else { assert s[i] == pre[i]; }
          }
        } else {
          var i, j :| 0 <= i < j < n && pre[i] == pre[j];
          assert s[i] == s[j];
        }
      }
    }
  }

  /** A repetition-free sequence has as many elements as its set. */
  lemma {:induction false} DistinctCardinality(s: seq<string>)
    requires Distinct(s)
    ensures |set x | x in s| == |s|
    decreases |s|
  {
    if s != [] {
      var n := |s| - 1;
      var pre := s[..n];
      assert Distinct(pre);
      DistinctCardinality(pre);
      assert (set x | x in s) == (set x | x in pre) + {s[n]};
      assert s[n] !in pre;
    }
  }

  /** The length of `uniquify(s)` is the number of distinct elements of `s`. */
  lemma UniquifyCountsDistinct(s: seq<string>)
    ensures |Uniquify(s)| == |set x | x in s|
  {
    var r := Uniquify(s);
    DistinctCardinality(r);
    assert (set x | x in r) == (set x | x in s);
  }

  /** `list.remove(x)`: drops the first element equal to `x`. */
  function RemoveFirst<T(==)>(s: seq<T>, x: T): seq<T>
    decreases |s|
  {
    if s == [] then []
    else if s[0] == x then s[1..]
    else [s[0]] + RemoveFirst(s[1..], x)
  }

  /** Removing an element that first occurs right after `p` leaves `p + q`. */
  lemma {:induction false} RemoveFirstAfter<T>(p: seq<T>, x: T, q: seq<T>)
    requires x !in p
    ensures RemoveFirst(p + [x] + q, x) == p + q
    decreases |p|
  {
    var s := p + [x] + q;
    if p == [] {
      assert s[1..] == q;
    } else {
      assert s[0] == p[0] && s[1..] == p[1..] + [x] + q;
      RemoveFirstAfter(p[1..], x, q);
      assert [p[0]] + (p[1..] + q) == p + q;
    }
  }

  /** Cutting a sequence at position `i`: the prefix through `i` and the suffix from `i`. */
  lemma CutAt<T>(s: seq<T>, i: nat)
    requires i < |s|
    ensures s[..i + 1] == s[..i] + [s[i]]
    ensures s[i..] == [s[i]] + s[i + 1..]
  {
  }

  lemma AppendAssoc<T>(a: seq<T>, b: seq<T>, c: seq<T>)
    ensures a + (b + c) == (a + b) + c
  {
  }

  /** `Locus.__str__`: `chr(sense):start-end`. */
  function LocusString(l: Locus): string {
    l.chr + "(" + l.sense + "):" + IntToString(l.start) + "-" + IntToString(l.end)
  }

  /** The coordinate parse of a mapped row: the chromosome is the text before the
      first `(`, the span the text after the last `:`, cut at `-`; `None` where
      `int()` or the indexing would raise. */
  function ParseCoordinates(coords: string): Option<(string, nat, nat)> {
    var chrom := Split(coords, '(')[0];
    var span := Split(Last(Split(coords, ':')), '-');
    if |span| < 2 then None
    else
      match (ParseNat(span[0]), ParseNat(span[1]))
      case (Some(a), Some(b)) => Some((chrom, a, b))
      case _ => None
  }

  /** The string form of a locus parses back to its chromosome and coordinates. */
  lemma ParseLocusString(l: Locus)
    requires '(' !in l.chr && l.start >= 0 && l.end >= 0
    ensures ParseCoordinates(LocusString(l)) == Some((l.chr, l.start, l.end))
  {
    var a, b := NatToString(l.start), NatToString(l.end);
    var q := a + "-" + b;
    var s := LocusString(l);
    assert s == l.chr + ['('] + (l.sense + "):" + q);
    SplitAtSeparator(l.chr, l.sense + "):" + q, '(');
    assert s == (l.chr + "(" + l.sense + ")") + [':'] + q;
    NatStringHasNoSeparator(l.start, ':');
    NatStringHasNoSeparator(l.end, ':');
    NatStringHasNoSeparator(l.start, '-');
    NatStringHasNoSeparator(l.end, '-');
    assert ':' !in q;
    LastPieceAfterSeparator(l.chr + "(" + l.sense + ")", q, ':');
    assert q == a + ['-'] + b;
    SplitAtSeparator(a, b, '-');
    SplitNoSeparator(b, '-');
    ParseNatToString(l.start);
    ParseNatToString(l.end);
  }
}
