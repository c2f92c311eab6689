/**
 * Go's ordering of strings and the two library sorts the core calls:
 * `sort.Strings` on the keys of a map and `sort.Ints` on part numbers.
 */
module GoSort {
  import opened GoStrconv

  /**
   * Go's `<` on strings. Go compares the UTF-8 bytes; since UTF-8 preserves the
   * order of code points, this is the lexicographic order on the scalar values.
   */
  predicate Less(a: string, b: string) {
    if a == [] then b != []
    else if b == [] then false
    else if a[0] != b[0] then a[0] < b[0]
    else Less(a[1..], b[1..])
  }

  lemma {:induction false} LessIrreflexive(a: string)
    ensures !Less(a, a)
  {
    if a != [] {
      LessIrreflexive(a[1..]);
    }
  }

  lemma {:induction false} LessTransitive(a: string, b: string, c: string)
    requires Less(a, b) && Less(b, c)
    ensures Less(a, c)
  {
    if a != [] && b != [] && c != [] && a[0] == b[0] == c[0] {
      LessTransitive(a[1..], b[1..], c[1..]);
    }
  }

  lemma {:induction false} LessTotal(a: string, b: string)
    requires a != b
    ensures Less(a, b) || Less(b, a)
  {
    if a != [] && b != [] && a[0] == b[0] {
      assert a == [a[0]] + a[1..] && b == [b[0]] + b[1..];
      LessTotal(a[1..], b[1..]);
    }
  }

  lemma LessAsymmetric(a: string, b: string)
    requires Less(a, b)
    ensures !Less(b, a)
  {
    if Less(b, a) {
      LessTransitive(a, b, a);
      LessIrreflexive(a);
    }
  }

  /** Go's string order is a strict total order. */
  lemma LessTrichotomous(a: string, b: string)
    ensures a == b || Less(a, b) || Less(b, a)
    ensures !(Less(a, b) && Less(b, a))
    ensures !Less(a, a)
  {
    LessIrreflexive(a);
    if a != b { LessTotal(a, b); }
    if Less(a, b) { LessAsymmetric(a, b); }
  }

  function Elems(s: seq<string>): set<string> {
    set x | x in s
  }

  /** Strictly increasing in Go's string order (so also free of repetitions). */
  predicate StrictlySorted(s: seq<string>) {
    forall i, j :: 0 <= i < j < |s| ==> Less(s[i], s[j])
  }

  /** One step of sorting: `k` put in its place among the sorted strings `s`. */
  function Insert(s: seq<string>, k: string): (r: seq<string>)
    requires StrictlySorted(s) && k !in s
    ensures StrictlySorted(r) && Elems(r) == Elems(s) + {k}
    ensures |r| == |s| + 1
  {
    if s == [] then [k]
    else if Less(k, s[0]) then
      assert forall j :: 0 <= j < |s| ==> Less(k, s[j]) by {
        forall j | 0 < j < |s| ensures Less(k, s[j]) {
          LessTransitive(k, s[0], s[j]);
        }
      }
      [k] + s
    else
      LessTotal(k, s[0]);
      var rest := Insert(s[1..], k);
      assert forall x :: x in rest ==> Less(s[0], x) by {
        forall x | x in rest ensures Less(s[0], x) {
          assert x in Elems(rest);
          if x != k {
            var j :| 0 <= j < |s[1..]| && s[1..][j] == x;
            assert s[j + 1] == x;
          }
        }
      }
      [s[0]] + rest
  }

  /** The keys of a set in ascending order: the sequence `sort.Strings` leaves behind. */
  ghost function SortedSeq(keys: set<string>): (r: seq<string>)
    ensures StrictlySorted(r) && Elems(r) == keys
    decreases keys
  {
    if keys == {} then []
    else
      var k :| k in keys;
      Insert(SortedSeq(keys - {k}), k)
  }

  /** The first element of a strictly sorted sequence is its least. */
  lemma SortedFirstLeast(s: seq<string>, x: string)
    requires StrictlySorted(s) && x in s
    ensures x == s[0] || Less(s[0], x)
  {
    var j :| 0 <= j < |s| && s[j] == x;
  }

  /** A set has only one strictly sorted enumeration. */
  lemma {:induction false} SortedUnique(a: seq<string>, b: seq<string>)
    requires StrictlySorted(a) && StrictlySorted(b) && Elems(a) == Elems(b)
    ensures a == b
  {
    if a == [] {
      assert forall s: seq<string> :: s != [] ==> s[0] in Elems(s);
    } else {
      assert a[0] in Elems(b);
      assert b[0] in Elems(a);
      SortedFirstLeast(a, b[0]);
      SortedFirstLeast(b, a[0]);
      LessTrichotomous(a[0], b[0]);
      LessTrichotomous(a[0], a[0]);
      assert a[0] == b[0];
      assert a[0] !in a[1..] && b[0] !in b[1..];
      assert a == [a[0]] + a[1..] && b == [b[0]] + b[1..];
      assert Elems(a[1..]) == Elems(a) - {a[0]};
      assert Elems(b[1..]) == Elems(b) - {b[0]};
      SortedUnique(a[1..], b[1..]);
    }
  }

  /**
   * Collects the keys of `m` in an unspecified order, as ranging over a Go map does,
   * and sorts them (`sort.Strings`). The result does not depend on the order of collection.
   */
  method SortedKeys<V>(m: map<string, V>) returns (keys: seq<string>)
    ensures keys == SortedSeq(m.Keys)
  {
    keys := [];
    var rest := m.Keys;
    while rest != {}
      invariant StrictlySorted(keys)
      invariant Elems(keys) + rest == m.Keys && Elems(keys) !! rest
      decreases rest
    {
      var k :| k in rest;
      keys := Insert(keys, k);
      rest := rest - {k};
    }
    SortedUnique(keys, SortedSeq(m.Keys));
  }

  predicate NonDecreasing(s: seq<int>) {
    forall i, j :: 0 <= i < j < |s| ==> s[i] <= s[j]
  }

  function InsertInt(s: seq<Int64>, x: Int64): (r: seq<Int64>)
    requires NonDecreasing(s)
    ensures |r| == |s| + 1
    ensures r[0] == if s == [] || x <= s[0] then x else s[0]
    ensures NonDecreasing(r)
    ensures multiset(r) == multiset(s) + multiset{x}
  {
    if s == [] || x <= s[0] then [x] + s
    else
      assert s == [s[0]] + s[1..];
      [s[0]] + InsertInt(s[1..], x)
  }

  /** The ascending order of a sequence of numbers: what `sort.Ints` leaves behind. */
  function SortInts(s: seq<Int64>): (r: seq<Int64>)
    ensures NonDecreasing(r) && multiset(r) == multiset(s) && |r| == |s|
  {
    if s == [] then []
    else
      assert s == s[..|s| - 1] + [s[|s| - 1]];
      InsertInt(SortInts(s[..|s| - 1]), s[|s| - 1])
  }

  lemma NonDecreasingFirstLeast(s: seq<int>, x: int)
    requires NonDecreasing(s) && x in multiset(s)
    ensures s[0] <= x
  {
    var j :| 0 <= j < |s| && s[j] == x;
  }

  /** A multiset of numbers has only one ascending enumeration. */
  lemma {:induction false} NonDecreasingUnique(a: seq<int>, b: seq<int>)
    requires NonDecreasing(a) && NonDecreasing(b) && multiset(a) == multiset(b)
    ensures a == b
  {
    if a == [] {
      assert |multiset(b)| == 0;
    } else {
      assert |b| == |multiset(b)| == |a| > 0;
      assert a[0] in multiset(b) && b[0] in multiset(a);
      NonDecreasingFirstLeast(b, a[0]);
      NonDecreasingFirstLeast(a, b[0]);
      var x := a[0];
      assert b[0] == x;
      assert a == [x] + a[1..];
      assert b == [x] + b[1..];
      assert multiset(a) == multiset{x} + multiset(a[1..]);
      assert multiset(b) == multiset{x} + multiset(b[1..]);
      assert multiset(a[1..]) == multiset(a) - multiset{x} == multiset(b) - multiset{x} == multiset(b[1..]);
      NonDecreasingUnique(a[1..], b[1..]);
    }
  }

  method Swap(a: array<Int64>, i: int, j: int)
    requires 0 <= i < a.Length && 0 <= j < a.Length
    modifies a
    ensures a[..] == old(a[..])[i := old(a[j])][j := old(a[i])]
    ensures multiset(a[..]) == multiset(old(a[..]))
  {
    a[i], a[j] := a[j], a[i];
  }

  /** Moves `a[i]` down into the sorted prefix `a[..i]`, so that `a[..i + 1]` is sorted. */
  method SinkInto(a: array<Int64>, i: int)
    requires 0 <= i < a.Length
    requires forall p, q :: 0 <= p < q < i ==> a[p] <= a[q]
    modifies a
    ensures forall p, q :: 0 <= p < q <= i ==> a[p] <= a[q]
    ensures multiset(a[..]) == multiset(old(a[..]))
  {
    var j := i;
    while j > 0 && a[j - 1] > a[j]
      invariant 0 <= j <= i
      invariant forall p, q :: 0 <= p < q <= i && q != j ==> a[p] <= a[q]
      invariant multiset(a[..]) == multiset(old(a[..]))
    {
      Swap(a, j - 1, j);
      j := j - 1;
    }
  }

  /** `sort.Ints(a)`: sorts the numbers of `a` in place (by insertion). */
  method SortIntsInPlace(a: array<Int64>)
    modifies a
    ensures a[..] == SortInts(old(a[..]))
  {
    var i := 0;
    while i < a.Length
      invariant 0 <= i <= a.Length
      invariant forall p, q :: 0 <= p < q < i ==> a[p] <= a[q]
      invariant multiset(a[..]) == multiset(old(a[..]))
    {
      SinkInto(a, i);
      i := i + 1;
    }
    NonDecreasingUnique(a[..], SortInts(old(a[..])));
  }
}
