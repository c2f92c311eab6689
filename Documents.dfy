/**
 * Key-value documents split into parts: merging a sequence of parts, and the
 * order and disjointness relations between parts.
 */
module Documents {
  import opened GoSort

  /** The parts merged in order; where two parts share a key, the later one's value is kept. */
  function MergeAll<V>(parts: seq<map<string, V>>): (m: map<string, V>)
    ensures forall j, k :: 0 <= j < |parts| && k in parts[j] ==> k in m
  {
    if parts == [] then map[]
    else
      var m := MergeAll(parts[..|parts| - 1]) + parts[|parts| - 1];
      assert forall j :: 0 <= j < |parts| - 1 ==> parts[..|parts| - 1][j] == parts[j];
      m
  }

  /** Every key of `a` comes before every key of `b` in Go's string order. */
  predicate KeysBefore<V>(a: map<string, V>, b: map<string, V>) {
    forall x, y :: x in a && y in b ==> Less(x, y)
  }

  /** The parts follow one another in key order. */
  predicate Ordered<V>(parts: seq<map<string, V>>) {
    forall i, j :: 0 <= i < j < |parts| ==> KeysBefore(parts[i], parts[j])
  }

  /** No key occurs in two parts. */
  predicate PairwiseDisjoint<V>(parts: seq<map<string, V>>) {
    forall i, j :: 0 <= i < j < |parts| ==> parts[i].Keys !! parts[j].Keys
  }

  lemma OrderedIsDisjoint<V>(parts: seq<map<string, V>>)
    requires Ordered(parts)
    ensures PairwiseDisjoint(parts)
  {
    forall i, j | 0 <= i < j < |parts| ensures parts[i].Keys !! parts[j].Keys {
      forall x | x in parts[i] && x in parts[j] ensures false {
        assert Less(x, x);
        LessIrreflexive(x);
      }
    }
  }

  /** Merging disjoint parts keeps every part's own value for each of its keys. */
  lemma {:induction false} MergeAllLookup<V>(parts: seq<map<string, V>>, j: int, k: string)
    requires PairwiseDisjoint(parts)
    requires 0 <= j < |parts| && k in parts[j]
    ensures k in MergeAll(parts) && MergeAll(parts)[k] == parts[j][k]
  {
    var n := |parts|;
    if j < n - 1 {
      var init := parts[..n - 1];
      assert init[j] == parts[j];
      assert k !in parts[n - 1];
      MergeAllLookup(init, j, k);
    }
  }

  /** Every key of the merge comes from one of the parts. */
  lemma {:induction false} MergeAllKeys<V>(parts: seq<map<string, V>>, k: string)
    requires k in MergeAll(parts)
    ensures exists j :: 0 <= j < |parts| && k in parts[j]
  {
    var n := |parts|;
    if k !in parts[n - 1] {
      MergeAllKeys(parts[..n - 1], k);
      var j :| 0 <= j < n - 1 && k in parts[..n - 1][j];
      assert parts[j] == parts[..n - 1][j];
    }
  }

  /** Merging is associative, so a fold from the front gives the same merge. */
  lemma {:induction false} MergeAllCons<V>(first: map<string, V>, rest: seq<map<string, V>>)
    ensures MergeAll([first] + rest) == first + MergeAll(rest)
  {
    var parts := [first] + rest;
    if rest != [] {
      assert parts[..|parts| - 1] == [first] + rest[..|rest| - 1];
      MergeAllCons(first, rest[..|rest| - 1]);
      assert parts[|parts| - 1] == rest[|rest| - 1];
    } else {
      assert parts[..0] == [];
    }
  }

  /** Merging one more part at the end lays it over the merge of the others. */
  lemma MergeAllSnoc<V>(parts: seq<map<string, V>>, last: map<string, V>)
    ensures MergeAll(parts + [last]) == MergeAll(parts) + last
  {
    assert (parts + [last])[..|parts|] == parts;
  }

  /** A part whose keys follow those of every ordered part extends the order. */
  lemma OrderedSnoc<V>(parts: seq<map<string, V>>, last: map<string, V>)
    requires Ordered(parts)
    requires forall j :: 0 <= j < |parts| ==> KeysBefore(parts[j], last)
    ensures Ordered(parts + [last])
  {
    var s := parts + [last];
    forall i, j | 0 <= i < j < |s| ensures KeysBefore(s[i], s[j]) {
      assert s[i] == parts[i];
    }
  }

  /** Laying `b` with one pair updated over `a` is updating the overlay. */
  lemma OverlayUpdate<V>(a: map<string, V>, b: map<string, V>, k: string, v: V)
    ensures a + b[k := v] == (a + b)[k := v]
    ensures a + map[k := v] == a[k := v]
  {
  }

  /** Laying maps over one another associates. */
  lemma OverlayAssoc<V>(a: map<string, V>, b: map<string, V>, c: map<string, V>)
    ensures a + (b + c) == a + b + c
  {
  }
}
