/**
 * secrets_manager.go: the `SecretManager` revision of the multipart engine, which
 * works through a client object. It recognises listed parts with `strconv.Atoi`
 * (parts 1 to 5 only), merges the parts of a batch fetch into one map, and
 * redistributes chunks over the existing and newly numbered parts.
 */
module SecretsManager {
  import opened Wrappers
  import opened GoStrconv
  import opened GoStrings
  import opened GoSort
  import opened Documents
  import opened Store
  import opened Naming

  /** The highest part number the listing recognises. */
  const MaxPartNumber := 5

  /** The errors the `SecretManager` methods return. */
  datatype SmError =
    | BatchFailed
    | NotFound(name: string)
    | Unmarshal(name: string)
    | DuplicateKey(key: string, part: string)
    | NullData(name: string)
    | TooFewChunks(chunks: nat, existing: nat)
    | WriteFailed(name: string)

  // ---------------------------------------------------------------- recognition

  /**
   * The part number `GetMultipartNumbers` reads off a listed name: 0 for the base
   * name, and for `base-` followed by text that `strconv.Atoi` accepts, that number
   * when it lies between 1 and 5; nothing otherwise.
   */
  function SmPartNumber(base: string, name: string): (r: Option<Int64>)
    ensures r.Some? ==> 0 <= r.value <= MaxPartNumber
    ensures r == Some(0) <==> name == base
  {
    if name == base then Some(0)
    else if HasPrefix(name, base + "-") then
      match Atoi(name[|base| + 1..])
      case Some(num) => if 1 <= num <= MaxPartNumber then Some(num) else None
      case None => None
    else None
  }

  function SmRecognizer(base: string): string -> Option<Int64> {
    name => SmPartNumber(base, name)
  }

  /**
   * A name other than the base name is recognised as `n` exactly when it is the base
   * name, `-` and a text `strconv.Atoi` reads as `n`, with `n` between 1 and 5.
   */
  lemma SmPartNumberRecognizes(base: string, name: string, n: Int64)
    requires name != base
    ensures SmPartNumber(base, name) == Some(n) <==>
      1 <= n <= MaxPartNumber && exists d :: Atoi(d) == Some(n) && name == base + "-" + d
  {
    if 1 <= n <= MaxPartNumber && exists d :: Atoi(d) == Some(n) && name == base + "-" + d {
      var d :| Atoi(d) == Some(n) && name == base + "-" + d;
      SmPartNumberOfSuffix(base, d, n);
    }
    if SmPartNumber(base, name) == Some(n) {
      SmPartNumberHasSuffix(base, name, n);
    }
  }

  lemma SmPartNumberOfSuffix(base: string, d: string, n: Int64)
    requires 1 <= n <= MaxPartNumber && Atoi(d) == Some(n)
    ensures SmPartNumber(base, base + "-" + d) == Some(n)
  {
    SuffixAfterDash(base, d);
  }

  lemma SmPartNumberHasSuffix(base: string, name: string, n: Int64)
    requires name != base && SmPartNumber(base, name) == Some(n)
    ensures 1 <= n <= MaxPartNumber && Atoi(name[|base| + 1..]) == Some(n) && name == base + "-" + name[|base| + 1..]
  {
  }

  /** The text after `base-` in `base-d` is `d`. */
  lemma SuffixAfterDash(base: string, d: string)
    ensures HasPrefix(base + "-" + d, base + "-") && (base + "-" + d)[|base| + 1..] == d
  {
    var name := base + "-" + d;
    assert name[..|base| + 1] == base + "-";
  }

  /**
   * Reading back the name written for part `n` gives `n` for the parts 0 to 5, and
   * nothing for any other number: parts numbered 6 and above, which
   * `RedistributeSecrets` creates, are invisible to the listing.
   */
  lemma SmPartNumberRoundTrip(base: string, n: Int64)
    ensures SmPartNumber(base, PartName(base, n)) == if 0 <= n <= MaxPartNumber then Some(n) else None
  {
    if n != 0 {
      var name := PartName(base, n);
      assert name[..|base| + 1] == base + "-";
      assert name[|base| + 1..] == FormatInt(n);
      AtoiFormatInt(n);
    }
  }

  /** "base-0", the name `RedistributeSecrets` gives the first part of a new secret, is not listed as a part. */
  lemma SmBaseZeroUnlisted(base: string)
    ensures SmPartNumber(base, SuffixedName(base, 0)) == None
  {
    var name := SuffixedName(base, 0);
    assert name[..|base| + 1] == base + "-";
    assert name[|base| + 1..] == FormatInt(0);
    AtoiFormatInt(0);
  }

  /** Atoi reads leading zeros and a plus sign, so "base-03" and "base-+3" both claim part 3. */
  lemma SmPartNumberLenient(base: string)
    ensures SmPartNumber(base, base + "-03") == Some(3)
    ensures SmPartNumber(base, base + "-+3") == Some(3)
  {
    var a, b := base + "-03", base + "-+3";
    assert a[..|base| + 1] == base + "-" && a[|base| + 1..] == "03";
    assert b[..|base| + 1] == base + "-" && b[|base| + 1..] == "+3";
    assert DecimalValue("03") == 3 by {
      assert "03"[..1] == "0";
    }
    assert "+3"[1..] == "3";
  }

  /** Every number the listing finds is a part number from 0 to 5 of some listed name. */
  lemma SmNumbersFromListing(base: string, listed: seq<string>, n: Int64)
    requires n in Recognized(SmRecognizer(base), listed)
    ensures 0 <= n <= MaxPartNumber
    ensures exists name :: name in listed && SmPartNumber(base, name) == Some(n)
  {
    RecognizedMembers(SmRecognizer(base), listed, n);
  }

  // ---------------------------------------------------------------- merging

  /** Every part was returned by the fetch and decodes to a JSON object. */
  predicate CleanParts<V>(names: seq<string>, resp: map<string, Payload<V>>) {
    forall i :: 0 <= i < |names| ==> names[i] in resp && resp[names[i]].JsonObject?
  }

  /** The decoded objects of clean parts, in order. */
  function Fields<V>(names: seq<string>, resp: map<string, Payload<V>>): (parts: seq<map<string, V>>)
    requires CleanParts(names, resp)
    ensures |parts| == |names|
  {
    seq(|names|, i requires 0 <= i < |names| && CleanParts(names, resp) => resp[names[i]].fields)
  }

  /** Clean parts that share no key with each other or with what was merged before them. */
  predicate Mergeable<V>(names: seq<string>, resp: map<string, Payload<V>>, all: map<string, V>) {
    && CleanParts(names, resp)
    && PairwiseDisjoint(Fields(names, resp))
    && forall i :: 0 <= i < |names| ==> all.Keys !! Fields(names, resp)[i].Keys
  }

  /**
   * What the merge loop of `FetchAllSecretData` may return after merging `all` from
   * earlier parts, for the parts `names` of the batch response `resp`: it walks the
   * parts in order and stops at the first one missing from the response, the first
   * that does not decode, the first that decodes to null, or the first with a key
   * that is already merged. Which of several shared keys is reported depends on Go's
   * map iteration order, so this is a relation and not a function.
   */
  ghost predicate Merges<V>(names: seq<string>, resp: map<string, Payload<V>>, all: map<string, V>,
                            r: Result<map<string, V>, SmError>)
    decreases |names|
  {
    if names == [] then r == Ok(all)
    else
      var name := names[0];
      if name !in resp then r == Err(NotFound(name))
      else
        match resp[name]
        case Garbled => r == Err(Unmarshal(name))
        case JsonNull => r == Err(NullData(name))
        case JsonObject(fields) =>
          if fields.Keys !! all.Keys then Merges(names[1..], resp, all + fields, r)
          else exists k :: k in fields && k in all && r == Err(DuplicateKey(k, name))
  }

  /**
   * The merge succeeds, and then gives the merged parts laid over `all`, exactly when
   * every part is a clean object sharing no key with any other.
   */
  lemma {:induction false} MergesClean<V>(names: seq<string>, resp: map<string, Payload<V>>, all: map<string, V>,
                                          r: Result<map<string, V>, SmError>)
    requires Mergeable(names, resp, all)
    ensures Merges(names, resp, all, r) <==> r == Ok(all + MergeAll(Fields(names, resp)))
    decreases |names|
  {
    if names == [] {
      assert Fields(names, resp) == [];
      assert all + MergeAll(Fields(names, resp)) == all;
    } else {
      var first := Fields(names, resp)[0];
      var rest := Fields(names[1..], resp);
      MergeableTail(names, resp, all);
      MergesClean(names[1..], resp, all + first, r);
      MergeAllCons(first, rest);
      OverlayAssoc(all, first, MergeAll(rest));
    }
  }

  /** The parts after the first stay mergeable once the first is merged. */
  lemma MergeableTail<V>(names: seq<string>, resp: map<string, Payload<V>>, all: map<string, V>)
    requires Mergeable(names, resp, all) && names != []
    ensures resp[names[0]] == JsonObject(Fields(names, resp)[0])
    ensures Fields(names, resp)[0].Keys !! all.Keys
    ensures Mergeable(names[1..], resp, all + Fields(names, resp)[0])
    ensures Fields(names, resp) == [Fields(names, resp)[0]] + Fields(names[1..], resp)
  {
    var parts := Fields(names, resp);
    var tail := names[1..];
    assert all.Keys !! parts[0].Keys;
    assert CleanParts(tail, resp) by {
      forall i | 0 <= i < |tail| ensures tail[i] in resp && resp[tail[i]].JsonObject? {
        assert tail[i] == names[i + 1];
      }
    }
    var rest := Fields(tail, resp);
    forall i | 0 <= i < |tail| ensures rest[i] == parts[i + 1] {
      assert tail[i] == names[i + 1];
    }
    assert parts == [parts[0]] + rest;
    forall i, j | 0 <= i < j < |tail| ensures rest[i].Keys !! rest[j].Keys {
      assert parts[i + 1].Keys !! parts[j + 1].Keys;
    }
    forall i | 0 <= i < |tail| ensures (all + parts[0]).Keys !! rest[i].Keys {
      assert all.Keys !! parts[i + 1].Keys;
      assert parts[0].Keys !! parts[i + 1].Keys;
    }
  }

  /** Clean, key-disjoint parts merge to their merge, and to nothing else. */
  lemma MergesDisjointParts<V>(names: seq<string>, resp: map<string, Payload<V>>, r: Result<map<string, V>, SmError>)
    requires CleanParts(names, resp) && PairwiseDisjoint(Fields(names, resp))
    ensures Merges(names, resp, map[], r) <==> r == Ok(MergeAll(Fields(names, resp)))
  {
    var empty: map<string, V> := map[];
    MergesClean(names, resp, empty, r);
    assert empty + MergeAll(Fields(names, resp)) == MergeAll(Fields(names, resp));
  }

  /** A successful merge was a merge of clean, key-disjoint parts. */
  lemma {:induction false} MergedWasMergeable<V>(names: seq<string>, resp: map<string, Payload<V>>, all: map<string, V>,
                                                 m: map<string, V>)
    requires Merges(names, resp, all, Ok(m))
    ensures Mergeable(names, resp, all)
    decreases |names|
  {
    if names != [] {
      var tail := names[1..];
      var first := resp[names[0]].fields;
      assert first.Keys !! all.Keys;
      MergedWasMergeable(tail, resp, all + first, m);
      var rest := Fields(tail, resp);
      assert CleanParts(names, resp) by {
        forall i | 1 <= i < |names| ensures names[i] in resp && resp[names[i]].JsonObject? {
          assert names[i] == tail[i - 1];
        }
      }
      var parts := Fields(names, resp);
      forall i | 1 <= i < |names| ensures parts[i] == rest[i - 1] {
        assert names[i] == tail[i - 1];
      }
      forall i, j | 0 <= i < j < |names| ensures parts[i].Keys !! parts[j].Keys {
        assert (all + first).Keys !! rest[j - 1].Keys;
        if i > 0 {
          assert rest[i - 1].Keys !! rest[j - 1].Keys;
        }
      }
      forall i | 0 <= i < |names| ensures all.Keys !! parts[i].Keys {
        if i > 0 {
          assert (all + first).Keys !! rest[i - 1].Keys;
        }
      }
    }
  }

  /**
   * `FetchAllSecretData` succeeds exactly when every part is found, decodes to an
   * object and shares no key with another part; the result then holds every part's
   * keys with the values that part gave them, and nothing else.
   */
  lemma MergesSucceeds<V>(names: seq<string>, resp: map<string, Payload<V>>, m: map<string, V>)
    ensures Merges(names, resp, map[], Ok(m)) <==> Mergeable(names, resp, map[]) && m == MergeAll(Fields(names, resp))
    ensures Merges(names, resp, map[], Ok(m)) ==>
      && (forall k :: k in m <==> exists i :: 0 <= i < |names| && k in Fields(names, resp)[i])
      && (forall i, k :: 0 <= i < |names| && k in Fields(names, resp)[i] ==> m[k] == Fields(names, resp)[i][k])
  {
    var empty: map<string, V> := map[];
    if Merges(names, resp, empty, Ok(m)) {
      MergedWasMergeable(names, resp, empty, m);
    }
    if Mergeable(names, resp, empty) {
      MergesClean(names, resp, empty, Ok(m));
      assert empty + MergeAll(Fields(names, resp)) == MergeAll(Fields(names, resp));
      if Merges(names, resp, empty, Ok(m)) {
        var parts := Fields(names, resp);
        forall k | k in m ensures exists i :: 0 <= i < |names| && k in parts[i] {
          MergeAllKeys(parts, k);
        }
        forall i, k | 0 <= i < |names| && k in parts[i] ensures m[k] == parts[i][k] {
          MergeAllLookup(parts, i, k);
        }
      }
    }
  }

  /**
   * Every error the merge reports is genuine: a missing part was requested and not
   * returned, an undecodable or null part was returned so, and a duplicate key is in
   * the part named and in `all` or in a part before it.
   */
  lemma {:induction false} MergeErrorsGenuine<V>(names: seq<string>, resp: map<string, Payload<V>>, all: map<string, V>,
                                                 e: SmError)
    requires Merges(names, resp, all, Err(e))
    ensures e.NotFound? ==> e.name in names && e.name !in resp
    ensures e.Unmarshal? ==> e.name in names && e.name in resp && resp[e.name] == Garbled
    ensures e.NullData? ==> e.name in names && e.name in resp && resp[e.name] == JsonNull
    ensures e.DuplicateKey? ==> exists i :: 0 <= i < |names| && Duplicated(names, resp, all, i, e.key) && names[i] == e.part
    ensures e.NotFound? || e.Unmarshal? || e.NullData? || e.DuplicateKey?
    decreases |names|
  {
    var name := names[0];
    if name in resp && resp[name].JsonObject? {
      var fields := resp[name].fields;
      if fields.Keys !! all.Keys {
        MergeErrorsGenuine(names[1..], resp, all + fields, e);
        if e.DuplicateKey? {
          var i :| 0 <= i < |names[1..]| && Duplicated(names[1..], resp, all + fields, i, e.key) && names[1..][i] == e.part;
          DuplicatedShift(names, resp, all, i, e.key);
        }
      } else {
        assert Duplicated(names, resp, all, 0, e.key);
      }
    }
  }

  /** Key `k` of part `i` is in `all` or in an earlier part. */
  ghost predicate Duplicated<V>(names: seq<string>, resp: map<string, Payload<V>>, all: map<string, V>, i: nat, k: string)
    requires i < |names|
  {
    && names[i] in resp && resp[names[i]].JsonObject? && k in resp[names[i]].fields
    && (k in all || exists j :: 0 <= j < i && names[j] in resp && resp[names[j]].JsonObject? && k in resp[names[j]].fields)
  }

  lemma DuplicatedShift<V>(names: seq<string>, resp: map<string, Payload<V>>, all: map<string, V>, i: nat, k: string)
    requires |names| > 0 && names[0] in resp && resp[names[0]].JsonObject?
    requires i < |names| - 1 && Duplicated(names[1..], resp, all + resp[names[0]].fields, i, k)
    ensures Duplicated(names, resp, all, i + 1, k)
  {
    if k !in all + resp[names[0]].fields {
      var j :| 0 <= j < i && names[1..][j] in resp && resp[names[1..][j]].JsonObject? && k in resp[names[1..][j]].fields;
      assert names[j + 1] == names[1..][j];
    }
  }

  /** A map holding the keys of two disjoint maps, each with its own value, is their overlay. */
  lemma OverlayDisjoint<V>(all: map<string, V>, fields: map<string, V>, merged: map<string, V>)
    requires all.Keys !! fields.Keys && merged.Keys == all.Keys + fields.Keys
    requires forall k :: k in merged ==> merged[k] == if k in all then all[k] else fields[k]
    ensures merged == all + fields
  {
  }

  /**
   * The inner loop of `FetchAllSecretData`: lays the decoded object of part `name`
   * over the merged map one key at a time, in whatever order Go picks, and stops at
   * the first key already merged.
   */
  method MergeInto<V>(all: map<string, V>, fields: map<string, V>, name: string) returns (r: Result<map<string, V>, SmError>)
    ensures r.Ok? <==> fields.Keys !! all.Keys
    ensures r.Ok? ==> r.value == all + fields
    ensures r.Err? ==> r.error.DuplicateKey? && r.error.part == name && r.error.key in fields && r.error.key in all
  {
    var merged := all;
    var todo := fields.Keys;
    ghost var done: set<string> := {};
    while todo != {}
      invariant done + todo == fields.Keys && done !! todo
      invariant done !! all.Keys
      invariant merged.Keys == all.Keys + done
      invariant forall k :: k in merged ==> merged[k] == if k in all then all[k] else fields[k]
      decreases todo
    {
      var k :| k in todo;
      if k in merged {
        return Err(DuplicateKey(k, name));
      }
      merged := merged[k := fields[k]];
      todo := todo - {k};
      done := done + {k};
    }
    OverlayDisjoint(all, fields, merged);
    return Ok(merged);
  }

  /**
   * Merging part `i`, a clean object sharing no key with `all`, keeps the merge loop
   * on course: whatever the parts after it give then is what all the parts give.
   */
  lemma MergesChain<V>(names: seq<string>, resp: map<string, Payload<V>>, all: map<string, V>, i: nat)
    requires i < |names| && names[i] in resp && resp[names[i]].JsonObject?
    requires resp[names[i]].fields.Keys !! all.Keys
    requires forall r :: Merges(names[i..], resp, all, r) ==> Merges(names, resp, map[], r)
    ensures forall r :: Merges(names[i + 1..], resp, all + resp[names[i]].fields, r) ==> Merges(names, resp, map[], r)
  {
    assert names[i..][0] == names[i] && names[i..][1..] == names[i + 1..];
  }

  /**
   * The merge loop of `FetchAllSecretData` over the batch response `resp`: the parts
   * in the order of `names`, each checked and laid over what came before.
   */
  method MergeParts<V(!new)>(resp: map<string, Payload<V>>, names: seq<string>) returns (r: Result<map<string, V>, SmError>)
    ensures Merges(names, resp, map[], r)
  {
    var all: map<string, V> := map[];
    for i := 0 to |names|
      invariant forall res :: Merges(names[i..], resp, all, res) ==> Merges(names, resp, map[], res)
    {
      var name := names[i];
      assert names[i..][0] == name && names[i..][1..] == names[i + 1..];
      if name !in resp {
        return Err(NotFound(name));
      }
      match resp[name]
      case Garbled =>
        return Err(Unmarshal(name));
      case JsonNull =>
        return Err(NullData(name));
      case JsonObject(fields) =>
        var merged := MergeInto(all, fields, name);
        if merged.Err? {
          return merged;
        }
        MergesChain(names, resp, all, i);
        all := merged.value;
    }
    assert names[|names|..] == [];
    return Ok(all);
  }

  // ---------------------------------------------------------------- redistribution

  /**
   * The name chunk `i` goes to: the i-th existing part's name, then `base-` and the
   * numbers above the highest existing one, with no special case for 0.
   */
  function SmSlotName(base: string, sorted: seq<Int64>, i: nat): string {
    if i < |sorted| then PartName(base, sorted[i]) else SuffixedName(base, SlotIndex(sorted, i))
  }

  /** The writes `RedistributeSecrets` makes, in order, when none fails. */
  function SmPlan<V>(base: string, sorted: seq<Int64>, chunks: seq<map<string, V>>): (plan: seq<(string, map<string, V>)>)
    ensures |plan| == |chunks|
    ensures forall i :: 0 <= i < |chunks| ==> plan[i].1 == chunks[i]
  {
    seq(|chunks|, i requires 0 <= i < |chunks| => (SmSlotName(base, sorted, i), chunks[i]))
  }

  /** `maxNum` once `i` chunks are placed: the highest existing number, then the last one allocated. */
  function MaxSoFar(sorted: seq<Int64>, i: nat): int {
    if i <= |sorted| then MaxNumber(sorted) else SlotIndex(sorted, i - 1)
  }

  /**
   * One new part beyond the existing ones: `nextNum := maxNum + 1` in Go's `int`,
   * named `base-nextNum`, and `nextNum` becomes the new `maxNum`.
   */
  method FreshSlot(base: string, ghost sorted: seq<Int64>, maxNum: Int64, ghost i: nat) returns (name: string, nextNum: Int64)
    requires |sorted| <= i && maxNum == MaxSoFar(sorted, i)
    ensures name == SmSlotName(base, sorted, i)
    ensures nextNum == SlotIndex(sorted, i) == MaxSoFar(sorted, i + 1)
  {
    if i > |sorted| {
      WrapSucc(MaxNumber(sorted) + (i - 1 - |sorted| + 1));
    }
    nextNum := Wrap(maxNum + 1);
    name := SuffixedName(base, nextNum);
  }

  /** `base-a` and `base-b` are the same name only for the same number. */
  lemma SuffixedNameInjective(base: string, a: int, b: int)
    requires SuffixedName(base, a) == SuffixedName(base, b)
    ensures a == b
  {
    var s, t := SuffixedName(base, a), SuffixedName(base, b);
    assert FormatInt(a) == s[|base| + 1..] == t[|base| + 1..] == FormatInt(b);
    FormatIntInjective(a, b);
  }

  /**
   * With distinct existing numbers and no overflow every chunk gets its own secret;
   * existing parts keep their names, and new parts are numbered above all of them.
   */
  lemma SmPlanNames<V>(base: string, sorted: seq<Int64>, chunks: seq<map<string, V>>)
    requires Increasing(sorted) && |sorted| <= |chunks| && NoOverflow(sorted, |chunks|)
    ensures var plan := SmPlan(base, sorted, chunks);
      && DistinctNames(plan)
      && (forall i :: 0 <= i < |sorted| ==> plan[i].0 == PartName(base, sorted[i]))
      && (forall i :: |sorted| <= i < |chunks| ==>
            plan[i].0 == SuffixedName(base, SlotIndex(sorted, i)) && MaxNumber(sorted) < SlotIndex(sorted, i))
  {
    var plan := SmPlan(base, sorted, chunks);
    var n := |chunks|;
    forall i, j | 0 <= i < j < n ensures plan[i].0 != plan[j].0 {
      SmSlotNamesDiffer(base, sorted, n, i, j);
    }
    forall i | |sorted| <= i < n ensures MaxNumber(sorted) < SlotIndex(sorted, i) {
      SlotIndexAbove(sorted, n, i);
    }
  }

  /** A new part's number is `maxNum` plus its place among the new parts, without wrapping. */
  lemma SlotIndexAbove(sorted: seq<Int64>, n: nat, i: nat)
    requires NoOverflow(sorted, n) && |sorted| <= i < n
    ensures SlotIndex(sorted, i) == MaxNumber(sorted) + (i - |sorted| + 1)
  {
  }

  /** Two chunks of a redistribution get different names. */
  lemma SmSlotNamesDiffer(base: string, sorted: seq<Int64>, n: nat, i: nat, j: nat)
    requires Increasing(sorted) && |sorted| <= n && NoOverflow(sorted, n) && i < j < n
    ensures SmSlotName(base, sorted, i) != SmSlotName(base, sorted, j)
  {
    SlotIndicesDistinct(sorted, n);
    var a, b := SlotIndex(sorted, i), SlotIndex(sorted, j);
    assert SlotIndices(sorted, n)[i] == a && SlotIndices(sorted, n)[j] == b;
    if SmSlotName(base, sorted, i) == SmSlotName(base, sorted, j) {
      if j < |sorted| {
        PartNameInjective(base, a, b);
      } else if i >= |sorted| || a != 0 {
        SuffixedNameInjective(base, a, b);
      }
    }
  }

  /** With no existing part, the first chunk is written to "base-0" and not to the base name. */
  lemma SmFirstChunkToBaseZero<V>(base: string, chunks: seq<map<string, V>>)
    requires |chunks| > 0
    ensures SmPlan(base, [], chunks)[0].0 == SuffixedName(base, 0) != base
  {
  }

  /** A new part numbered above 5 is written but never listed again. */
  lemma SmFreshPartsUnlisted<V>(base: string, sorted: seq<Int64>, chunks: seq<map<string, V>>, i: nat)
    requires |sorted| <= i < |chunks| && SlotIndex(sorted, i) > MaxPartNumber
    ensures SmPartNumber(base, SmPlan(base, sorted, chunks)[i].0) == None
  {
    SmPartNumberRoundTrip(base, SlotIndex(sorted, i));
  }

  // ---------------------------------------------------------------- the manager

  /** `SecretManager`: the business logic over an AWS client. */
  class SecretManager<V(!new)> {
    const client: Client<V>

    /** `NewSecretManager`. */
    constructor (client: Client<V>)
      ensures this.client == client
    {
      this.client := client;
    }

    /**
     * The listing loop of `GetMultipartNumbers` over the names of all listed secrets
     * (the pages of `ListSecrets` concatenated): the part numbers, in listing order.
     */
    method GetMultipartNumbers(base: string, listed: seq<string>) returns (numbers: seq<Int64>)
      ensures numbers == Recognized(SmRecognizer(base), listed)
    {
      numbers := [];
      for i := 0 to |listed|
        invariant numbers == Recognized(SmRecognizer(base), listed[..i])
      {
        var name := listed[i];
        assert listed[..i + 1][..i] == listed[..i];
        if name == base {
          numbers := numbers + [0];
        } else if HasPrefix(name, base + "-") {
          var suffix := name[|base| + 1..];
          var num := Atoi(suffix);
          if num.Some? && num.value >= 1 && num.value <= MaxPartNumber {
            numbers := numbers + [num.value];
          }
        }
      }
      assert listed[..|listed|] == listed;
    }

    /** The names of the parts, in the order of `numbers`: 0 is the base name, `n` is `base-n`. */
    method BuildNames(base: string, numbers: seq<Int64>) returns (names: seq<string>)
      ensures names == PartNames(base, numbers)
    {
      names := [];
      for i := 0 to |numbers|
        invariant |names| == i
        invariant forall j :: 0 <= j < i ==> names[j] == PartName(base, numbers[j])
      {
        if numbers[i] == 0 {
          names := names + [base];
        } else {
          names := names + [SuffixedName(base, numbers[i])];
        }
      }
    }

    /**
     * `FetchAllSecretData`: no parts give an empty map without a call; otherwise one
     * batch fetch of every part's name, then the merge of the parts in order.
     */
    method FetchAllSecretData(base: string, numbers: seq<Int64>) returns (r: Result<map<string, V>, SmError>)
      modifies client
      ensures client.secrets == old(client.secrets) && client.writes == old(client.writes)
      ensures numbers == [] ==> r == Ok(map[]) && client.calls == old(client.calls)
      ensures numbers != [] ==> client.calls == old(client.calls) + 1
      ensures numbers != [] && client.failsAt(old(client.calls)) ==> r == Err(BatchFailed)
      ensures numbers != [] && !client.failsAt(old(client.calls)) ==>
        var names := PartNames(base, numbers);
        Merges(names, Batch(client.secrets, names), map[], r)
    {
      if |numbers| == 0 {
        return Ok(map[]);
      }
      var names := BuildNames(base, numbers);
      var fetched := client.BatchGet(names);
      if fetched.None? {
        return Err(BatchFailed);
      }
      r := MergeParts(fetched.value, names);
    }

    /** `CreateOrModifySecret`: one upsert of `data` under `name`. */
    method CreateOrModifySecret(name: string, data: map<string, V>) returns (ok: bool)
      modifies client
      ensures client.calls == old(client.calls) + 1
      ensures ok == !client.failsAt(old(client.calls))
      ensures client.writes == if ok then old(client.writes) + [(name, data)] else old(client.writes)
      ensures client.secrets == if ok then old(client.secrets)[name := JsonObject(data)] else old(client.secrets)
    {
      ok := client.Upsert(name, data);
    }

    /**
     * `RedistributeSecrets`: sorts the caller's `numbers` in place, refuses before any
     * write to leave existing parts without a chunk, then writes chunk `i` to the i-th
     * existing part and the chunks beyond them to `base-(maxNum + 1)`, `base-(maxNum + 2)`,
     * ..., stopping at the first write that fails.
     */
    method RedistributeSecrets(base: string, chunks: seq<map<string, V>>, numbers: array<Int64>)
      returns (r: Outcome<SmError>)
      modifies client, numbers
      ensures numbers[..] == SortInts(old(numbers[..]))
      ensures |chunks| < numbers.Length ==> r == Fail(TooFewChunks(|chunks|, numbers.Length))
      ensures |chunks| < numbers.Length ==>
        client.calls == old(client.calls) && client.writes == old(client.writes) && client.secrets == old(client.secrets)
      ensures |chunks| >= numbers.Length ==>
        var plan := SmPlan(base, numbers[..], chunks);
        var k := Successes(client.failsAt, old(client.calls), |chunks|);
        && client.writes == old(client.writes) + plan[..k]
        && client.secrets == Applied(old(client.secrets), plan[..k])
        && client.calls == old(client.calls) + (if k < |chunks| then k + 1 else k)
        && r == (if k < |chunks| then Fail(WriteFailed(plan[k].0)) else Pass)
    {
      SortIntsInPlace(numbers);
      if |chunks| < numbers.Length {
        return Fail(TooFewChunks(|chunks|, numbers.Length));
      }
      var maxNum: Int64 := -1;
      if numbers.Length > 0 {
        maxNum := numbers[numbers.Length - 1];
      }
      r := WriteChunks(base, chunks, numbers, maxNum);
    }

    /** The chunk loop of `RedistributeSecrets`, over the sorted numbers and their highest, `maxNum`. */
    method WriteChunks(base: string, chunks: seq<map<string, V>>, numbers: array<Int64>, maxNum: Int64)
      returns (r: Outcome<SmError>)
      requires numbers.Length <= |chunks| && maxNum == MaxNumber(numbers[..])
      modifies client
      ensures
        var plan := SmPlan(base, numbers[..], chunks);
        var k := Successes(client.failsAt, old(client.calls), |chunks|);
        && client.writes == old(client.writes) + plan[..k]
        && client.secrets == Applied(old(client.secrets), plan[..k])
        && client.calls == old(client.calls) + (if k < |chunks| then k + 1 else k)
        && r == (if k < |chunks| then Fail(WriteFailed(plan[k].0)) else Pass)
    {
      var maxNum := maxNum;
      ghost var sorted := numbers[..];
      ghost var plan := SmPlan(base, sorted, chunks);
      ghost var k := Successes(client.failsAt, client.calls, |chunks|);
      ghost var before := client.calls;
      for i := 0 to |chunks|
        invariant maxNum == MaxSoFar(sorted, i)
        invariant i <= k
        invariant client.calls == before + i
        invariant client.writes == old(client.writes) + plan[..i]
        invariant client.secrets == Applied(old(client.secrets), plan[..i])
      {
        var name: string;
        if i < numbers.Length {
          if numbers[i] == 0 {
            name := base;
          } else {
            name := SuffixedName(base, numbers[i]);
          }
        } else {
          name, maxNum := FreshSlot(base, sorted, maxNum, i);
        }
        assert name == SmSlotName(base, sorted, i);
        var ok := client.UpsertStep(name, chunks[i], plan, i, before, old(client.writes), old(client.secrets));
        if !ok {
          return Fail(WriteFailed(name));
        }
      }
      assert plan[..|chunks|] == plan;
      return Pass;
    }
  }
}
