/**
 * The naming scheme shared by both revisions: part 0 of a logical secret is the
 * base name itself, part `n` is `base-n`; and the slot numbering used when chunks
 * are redistributed over existing and new parts.
 */
module Naming {
  import opened GoStrconv
  import opened GoSort
  import opened Wrappers

  /** `fmt.Sprintf("%s-%d", base, n)`. */
  function SuffixedName(base: string, n: int): string {
    base + "-" + FormatInt(n)
  }

  /** The name of part `n`: the base name for 0, `base-n` otherwise. */
  function PartName(base: string, n: int): (name: string)
    ensures name == base <==> n == 0
    ensures n != 0 ==> |name| > |base| + 1
  {
    if n == 0 then base else SuffixedName(base, n)
  }

  /** Different part numbers name different secrets. */
  lemma PartNameInjective(base: string, a: int, b: int)
    requires PartName(base, a) == PartName(base, b)
    ensures a == b
  {
    if a != 0 && b != 0 {
      var s, t := SuffixedName(base, a), SuffixedName(base, b);
      assert FormatInt(a) == s[|base| + 1..] == t[|base| + 1..] == FormatInt(b);
      FormatIntInjective(a, b);
    }
  }

  /** The names of the given parts, in the same order. */
  function PartNames(base: string, numbers: seq<int>): (names: seq<string>)
    ensures |names| == |numbers|
  {
    seq(|numbers|, i requires 0 <= i < |numbers| => PartName(base, numbers[i]))
  }

  /** The highest number of an ascending sequence, or -1 when it is empty (`maxNum`). */
  function MaxNumber(sorted: seq<Int64>): int {
    if |sorted| > 0 then sorted[|sorted| - 1] else -1
  }

  /**
   * The part number chunk `i` goes to: the i-th existing number while there are
   * any, then `maxNum + 1`, `maxNum + 2`, ... in Go's wrapping `int` arithmetic.
   */
  function SlotIndex(sorted: seq<Int64>, i: nat): Int64 {
    if i < |sorted| then sorted[i] else Wrap(MaxNumber(sorted) + (i - |sorted| + 1))
  }

  /** The part numbers chunks `0..n-1` go to. */
  function SlotIndices(sorted: seq<Int64>, n: nat): (indices: seq<Int64>)
    ensures |indices| == n
  {
    seq(n, i requires 0 <= i < n => SlotIndex(sorted, i))
  }

  /** No two existing parts share a number. */
  predicate Increasing(s: seq<int>) {
    forall i, j :: 0 <= i < j < |s| ==> s[i] < s[j]
  }

  /** Allocating `n` chunks does not run past Go's largest `int`. */
  predicate NoOverflow(sorted: seq<Int64>, n: nat) {
    MaxNumber(sorted) + (n - |sorted|) <= MaxInt64
  }

  /**
   * Numbers allocated for chunks beyond the existing parts increase with the chunk,
   * lie above every existing number, and are positive whenever a part exists.
   */
  lemma SlotIndexFresh(sorted: seq<Int64>, n: nat, i: nat, j: nat)
    requires NonDecreasing(sorted) && NoOverflow(sorted, n)
    requires |sorted| <= i < j < n
    ensures SlotIndex(sorted, i) < SlotIndex(sorted, j)
    ensures forall k :: 0 <= k < |sorted| ==> sorted[k] < SlotIndex(sorted, i)
    ensures SlotIndex(sorted, i) == MaxNumber(sorted) + (i - |sorted| + 1)
  {
  }

  /** With distinct existing numbers and no overflow, every chunk gets its own part number. */
  lemma SlotIndicesDistinct(sorted: seq<Int64>, n: nat)
    requires Increasing(sorted) && NoOverflow(sorted, n)
    ensures Increasing(SlotIndices(sorted, n))
  {
    var s := SlotIndices(sorted, n);
    forall i, j | 0 <= i < j < n ensures s[i] < s[j] {
      if j >= |sorted| {
        if i >= |sorted| {
          SlotIndexFresh(sorted, n, i, j);
        } else {
          assert sorted[i] <= MaxNumber(sorted);
        }
      }
    }
  }

  /** Increasing numbers have distinct part names. */
  lemma PartNamesDistinct(base: string, numbers: seq<int>)
    requires Increasing(numbers)
    ensures forall i, j :: 0 <= i < j < |numbers| ==> PartNames(base, numbers)[i] != PartNames(base, numbers)[j]
  {
    forall i, j | 0 <= i < j < |numbers| ensures PartNames(base, numbers)[i] != PartNames(base, numbers)[j] {
      if PartName(base, numbers[i]) == PartName(base, numbers[j]) {
        PartNameInjective(base, numbers[i], numbers[j]);
      }
    }
  }

  /** The numbers a recognizer finds among listed secret names, in listing order. */
  function Recognized(recognize: string -> Option<Int64>, listed: seq<string>): seq<Int64> {
    if listed == [] then []
    else
      var last := recognize(listed[|listed| - 1]);
      Recognized(recognize, listed[..|listed| - 1]) + (if last.Some? then [last.value] else [])
  }

  /** A number is found exactly when some listed name is recognized as it. */
  lemma {:induction false} RecognizedMembers(recognize: string -> Option<Int64>, listed: seq<string>, n: Int64)
    ensures n in Recognized(recognize, listed) <==> exists name :: name in listed && recognize(name) == Some(n)
  {
    if listed != [] {
      var init, last := listed[..|listed| - 1], listed[|listed| - 1];
      assert listed == init + [last];
      RecognizedMembers(recognize, init, n);
      if n in Recognized(recognize, listed) && n !in Recognized(recognize, init) {
        assert recognize(last) == Some(n);
      }
      if exists name :: name in listed && recognize(name) == Some(n) {
        var name :| name in listed && recognize(name) == Some(n);
        if name != last {
          assert name in init;
        }
      }
    }
  }
}
