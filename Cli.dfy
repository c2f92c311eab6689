/**
 * The command-line revision (main.go): it cleans the base name, recognizes the
 * parts of a multipart secret among the listed secrets, adds new keys to the merged
 * data without overwriting, packs the data into size-bounded chunks over sorted
 * keys, and writes the chunks back to existing and newly allocated parts.
 */
module Cli {
  import opened Wrappers
  import opened GoStrconv
  import opened GoStrings
  import opened GoSort
  import opened Documents
  import opened Store
  import opened Naming

  /** The largest secret value the store accepts, in bytes. */
  const MaxSecretSizeBytes := 50 * 1024

  datatype CliError =
    | MultipartName(clean: string)
    | KeyExists(key: string)
    | TooFewChunks(chunks: nat, existing: nat)
    | WriteFailed(name: string)

  // ---------------------------------------------------------------- names

  /** `isNumeric`: scans for a non-digit, then requires a non-empty string. */
  method IsNumeric(s: string) returns (b: bool)
    ensures b <==> Numeric(s)
  {
    for i := 0 to |s|
      invariant AllDigits(s[..i])
    {
      if s[i] < '0' || s[i] > '9' {
        assert !IsDigit(s[i]);
        return false;
      }
      assert s[..i + 1] == s[..i] + [s[i]];
    }
    assert s[..|s|] == s;
    return |s| > 0;
  }

  /**
   * `cleanSecretName`: the name without surrounding white space, refused when its
   * last `-`-separated segment is numeric.
   */
  function CleanSecretName(secretName: string): (r: Result<string, CliError>)
    ensures r.Ok? ==> r.value == TrimSpace(secretName)
    ensures r.Err? ==> r.error == MultipartName(TrimSpace(secretName))
  {
    var clean := TrimSpace(secretName);
    var parts := Split(clean, '-');
    if |parts| > 1 && Numeric(parts[|parts| - 1]) then Err(MultipartName(clean)) else Ok(clean)
  }

  /** A name is refused exactly when, once trimmed, it ends in `-` and a run of digits. */
  lemma CleanSecretNameRefuses(secretName: string)
    ensures CleanSecretName(secretName).Err? <==>
      exists p, d :: Numeric(d) && TrimSpace(secretName) == p + "-" + d
  {
    if CleanSecretName(secretName).Err? {
      RefusedHasNumericTail(secretName);
    }
    if exists p, d :: Numeric(d) && TrimSpace(secretName) == p + "-" + d {
      var p, d :| Numeric(d) && TrimSpace(secretName) == p + "-" + d;
      NumericTailRefused(secretName, p, d);
    }
  }

  lemma RefusedHasNumericTail(secretName: string)
    requires CleanSecretName(secretName).Err?
    ensures exists p, d :: Numeric(d) && TrimSpace(secretName) == p + "-" + d
  {
    var clean := TrimSpace(secretName);
    var parts := Split(clean, '-');
    var p, d := Join(parts[..|parts| - 1], '-'), parts[|parts| - 1];
    JoinSplit(clean, '-');
    assert parts == parts[..|parts| - 1] + [d];
    assert clean == p + "-" + d;
  }

  lemma NumericTailRefused(secretName: string, p: string, d: string)
    requires Numeric(d) && TrimSpace(secretName) == p + "-" + d
    ensures CleanSecretName(secretName).Err?
  {
    assert forall i :: 0 <= i < |d| ==> d[i] != '-';
    SplitAppend(p, '-', d);
  }

  lemma CleanSecretNameExamples()
    ensures CleanSecretName("db-3") == Err(MultipartName("db-3"))
    ensures CleanSecretName("db") == Ok("db")
    ensures CleanSecretName("db-") == Ok("db-")
  {
    ExampleRefused();
    ExamplePlain();
    ExampleDash();
  }

  lemma ExampleRefused()
    ensures CleanSecretName("db-3") == Err(MultipartName("db-3"))
  {
    TrimSpaceUnchanged("db-3");
    ExampleSplits();
    CleanSecretNameOf("db-3", ["db", "3"]);
    assert Numeric("3");
  }

  lemma ExamplePlain()
    ensures CleanSecretName("db") == Ok("db")
  {
    TrimSpaceUnchanged("db");
    ExampleSplits();
    CleanSecretNameOf("db", ["db"]);
  }

  lemma ExampleDash()
    ensures CleanSecretName("db-") == Ok("db-")
  {
    TrimSpaceUnchanged("db-");
    ExampleSplits();
    CleanSecretNameOf("db-", ["db", ""]);
  }

  /** `cleanSecretName` on a name that trimming leaves alone, given how it splits at `-`. */
  lemma CleanSecretNameOf(name: string, parts: seq<string>)
    requires TrimSpace(name) == name && Split(name, '-') == parts
    ensures CleanSecretName(name) == if |parts| > 1 && Numeric(parts[|parts| - 1]) then Err(MultipartName(name)) else Ok(name)
  {
  }

  /** How the example names split at `-`. */
  lemma ExampleSplits()
    ensures Split("db", '-') == ["db"]
    ensures Split("db-3", '-') == ["db", "3"]
    ensures Split("db-", '-') == ["db", ""]
  {
    SplitWithout("db", '-');
    assert "db" + "-" + "3" == "db-3" && "db" + "-" + "" == "db-";
    SplitAppend("db", '-', "3");
    SplitAppend("db", '-', "");
  }

  /**
   * The part number main.go's listing loop reads from a listed name: 0 for the base
   * name, the scanned value of an all-digit suffix after `base-`, nothing otherwise.
   */
  function MainPartNumber(base: string, name: string): (r: Option<Int64>)
    ensures r.Some? ==> r.value >= 0
    ensures name == base ==> r == Some(0)
    ensures !HasPrefix(name, base + "-") && name != base ==> r == None
  {
    if name == base then Some(0)
    else if HasPrefix(name, base + "-") then
      var part := name[|base| + 1..];
      if Numeric(part) then Some(ScanDecimal(part)) else None
    else None
  }

  function MainRecognizer(base: string): string -> Option<Int64> {
    name => MainPartNumber(base, name)
  }

  /** A name is recognized exactly when it is the base name or the base name, `-` and digits. */
  lemma MainPartNumberRecognizes(base: string, name: string)
    ensures MainPartNumber(base, name).Some? <==>
      name == base || exists d :: Numeric(d) && name == base + "-" + d
  {
    if name != base && exists d :: Numeric(d) && name == base + "-" + d {
      var d :| Numeric(d) && name == base + "-" + d;
      assert name[..|base| + 1] == base + "-";
      assert name[|base| + 1..] == d;
    }
  }

  /**
   * `base-` and digits is recognized as the value `Sscanf` scans from the digits: their
   * decimal value when it fits in an `int`, and 0 when it does not.
   */
  lemma MainPartNumberOfDigits(base: string, d: string)
    requires Numeric(d)
    ensures MainPartNumber(base, base + "-" + d) == Some(ScanDecimal(d))
    ensures DecimalValue(d) <= MaxInt64 ==> MainPartNumber(base, base + "-" + d) == Some(DecimalValue(d))
    ensures DecimalValue(d) > MaxInt64 ==> MainPartNumber(base, base + "-" + d) == Some(0)
  {
    var name := base + "-" + d;
    assert name[..|base| + 1] == base + "-";
    assert name[|base| + 1..] == d;
  }

  /** The name written for a non-negative part number is recognized as that number. */
  lemma MainPartNumberRoundTrip(base: string, n: Int64)
    requires n >= 0
    ensures MainPartNumber(base, PartName(base, n)) == Some(n)
  {
    if n != 0 {
      var name := PartName(base, n);
      assert name[..|base| + 1] == base + "-";
      assert name[|base| + 1..] == FormatInt(n);
      ScanFormatInt(n);
    }
  }

  /**
   * The listing loop of `getMultipartNumbers` over the names of all listed secrets
   * (the pages of `ListSecrets` concatenated).
   */
  method MultipartNumbers(base: string, listed: seq<string>) returns (numbers: seq<Int64>)
    ensures numbers == Recognized(MainRecognizer(base), listed)
  {
    numbers := [];
    for i := 0 to |listed|
      invariant numbers == Recognized(MainRecognizer(base), listed[..i])
    {
      var name := listed[i];
      assert listed[..i + 1][..i] == listed[..i];
      if name == base {
        numbers := numbers + [0];
      } else if HasPrefix(name, base + "-") {
        var part := name[|base| + 1..];
        var numeric := IsNumeric(part);
        if numeric {
          numbers := numbers + [ScanDecimal(part)];
        }
      }
    }
    assert listed[..|listed|] == listed;
  }

  /** Every number main.go lists is non-negative and comes from a listed name. */
  lemma MultipartNumbersFromListing(base: string, listed: seq<string>, n: Int64)
    requires n in Recognized(MainRecognizer(base), listed)
    ensures n >= 0
    ensures exists name :: name in listed && MainPartNumber(base, name) == Some(n)
  {
    RecognizedMembers(MainRecognizer(base), listed, n);
  }

  /** `getSecretSize`: the number of bytes of the UTF-8 encoding. */
  function GetSecretSize(data: string): (n: nat)
    ensures |data| <= n <= 4 * |data|
  {
    Utf8Size(data)
  }

  // ---------------------------------------------------------------- data

  /** A Go `map[string]string`, which functions receive by reference and update in place. */
  class KeyValues {
    var entries: map<string, string>

    constructor (entries: map<string, string>)
      ensures this.entries == entries
    {
      this.entries := entries;
    }
  }

  /**
   * `addKeyValues`: refuses the whole addition when any added key is already present,
   * leaving `all` untouched; otherwise adds every added pair and changes no existing one.
   */
  method AddKeyValues(all: KeyValues, added: map<string, string>) returns (r: Outcome<CliError>)
    modifies all
    ensures r.Fail? <==> exists k :: k in added && k in old(all.entries)
    ensures r.Fail? ==> r.error.KeyExists? && r.error.key in added && r.error.key in old(all.entries)
    ensures r.Fail? ==> all.entries == old(all.entries)
    ensures r.Pass? ==> all.entries.Keys == old(all.entries).Keys + added.Keys
    ensures r.Pass? ==> forall k :: k in old(all.entries) ==> all.entries[k] == old(all.entries)[k]
    ensures r.Pass? ==> forall k :: k in added ==> all.entries[k] == added[k]
  {
    var pending := added.Keys;
    while pending != {}
      invariant pending <= added.Keys
      invariant forall k :: k in added && k !in pending ==> k !in all.entries
      invariant all.entries == old(all.entries)
      decreases pending
    {
      var k :| k in pending;
      if k in all.entries {
        return Fail(KeyExists(k));
      }
      pending := pending - {k};
    }
    pending := added.Keys;
    while pending != {}
      invariant pending <= added.Keys
      invariant all.entries == old(all.entries) + map k | k in added && k !in pending :: added[k]
      decreases pending
    {
      var k :| k in pending;
      all.entries := all.entries[k := added[k]];
      pending := pending - {k};
    }
    return Pass;
  }

  /**
   * `sortDataAlphabetically`: copies the pairs into a new map in ascending key order.
   * A Go map has no order, so the copy is the same map.
   */
  method SortDataAlphabetically(data: map<string, string>) returns (sorted: map<string, string>)
    ensures sorted == data
  {
    var keys := SortedKeys(data);
    assert forall j :: 0 <= j < |keys| ==> keys[j] in Elems(keys);
    sorted := map[];
    for i := 0 to |keys|
      invariant forall k :: k in sorted <==> k in keys[..i]
      invariant forall k :: k in sorted ==> k in data && sorted[k] == data[k]
    {
      sorted := sorted[keys[i] := data[keys[i]]];
      assert forall k :: k in keys[..i + 1] <==> k in keys[..i] || k == keys[i];
    }
    assert keys[..|keys|] == keys;
    assert forall k :: k in data <==> k in Elems(keys);
  }

  // ---------------------------------------------------------------- chunks

  /** `json.Marshal` on a `map[string]string`, whose output is not modelled byte for byte. */
  type Encoder = map<string, string> -> string

  /** A test of whether a chunk may be stored. */
  type SizeTest = map<string, string> -> bool

  /** The size of a chunk once encoded, as `getSecretSize` measures it. */
  function EncodedSize(marshal: Encoder, m: map<string, string>): nat {
    GetSecretSize(marshal(m))
  }

  /** The chunk, once encoded, stays within `MaxSecretSizeBytes`. */
  function FitsIn(marshal: Encoder): SizeTest {
    m => EncodedSize(marshal, m) <= MaxSecretSizeBytes
  }

  /** Every single pair of `data` passes the size test on its own. */
  predicate NoPairTooLarge(fits: SizeTest, data: map<string, string>) {
    forall k :: k in data ==> fits(map[k := data[k]])
  }

  predicate AllIn(keys: seq<string>, data: map<string, string>) {
    forall j :: 0 <= j < |keys| ==> keys[j] in data
  }

  lemma KeysIn(keys: seq<string>, data: map<string, string>)
    requires Elems(keys) == data.Keys
    ensures AllIn(keys, data)
  {
    assert forall j :: 0 <= j < |keys| ==> keys[j] in Elems(keys);
  }

  /**
   * The rest of `chunkDataIntoSecrets` once `keys[..i]` are handled, given the finished
   * chunks and the chunk being filled: each key goes into the current chunk unless that
   * would make a non-empty current chunk fail the size test, in which case the current
   * chunk is closed and a new one started; a pair too large on its own aborts with no chunks.
   */
  function PackFrom(fits: SizeTest, data: map<string, string>, keys: seq<string>, i: nat,
                    chunks: seq<map<string, string>>, current: map<string, string>): seq<map<string, string>>
    requires i <= |keys| && AllIn(keys, data)
    decreases |keys| - i
  {
    if i == |keys| then
      if |current| > 0 then chunks + [current] else chunks
    else
      var k := keys[i];
      var v := data[k];
      if !fits(map[k := v]) then []
      else if !fits(current[k := v]) && |current| > 0 then
        PackFrom(fits, data, keys, i + 1, chunks + [current], map[k := v])
      else
        PackFrom(fits, data, keys, i + 1, chunks, current[k := v])
  }

  /** Chunking with any size test, over the keys of `data` in ascending order. */
  ghost function Pack(fits: SizeTest, data: map<string, string>): seq<map<string, string>> {
    var keys := SortedSeq(data.Keys);
    KeysIn(keys, data);
    PackFrom(fits, data, keys, 0, [], map[])
  }

  /** The chunks `chunkDataIntoSecrets` returns for `data`. */
  ghost function Chunks(marshal: Encoder, data: map<string, string>): seq<map<string, string>> {
    Pack(FitsIn(marshal), data)
  }

  /** One step of `PackFrom`, by the outcome of the two size tests on the next key. */
  lemma PackFromStep(fits: SizeTest, data: map<string, string>, keys: seq<string>, i: nat,
                     chunks: seq<map<string, string>>, current: map<string, string>)
    requires i < |keys| && AllIn(keys, data)
    ensures var single, test := map[keys[i] := data[keys[i]]], current[keys[i] := data[keys[i]]];
      PackFrom(fits, data, keys, i, chunks, current) ==
        if !fits(single) then []
        else if !fits(test) && |current| > 0 then PackFrom(fits, data, keys, i + 1, chunks + [current], single)
        else PackFrom(fits, data, keys, i + 1, chunks, test)
  {
  }

  /**
   * `chunkDataIntoSecrets`, with `fits` standing for the test
   * `getSecretSize(string(js)) <= MaxSecretSizeBytes` on the marshalled candidate.
   */
  method ChunkDataIntoSecrets(marshal: Encoder, data: map<string, string>) returns (chunks: seq<map<string, string>>)
    ensures chunks == Chunks(marshal, data)
  {
    var keys := SortedKeys(data);
    KeysIn(keys, data);
    var fits := FitsIn(marshal);
    chunks := [];
    var current: map<string, string> := map[];
    for i := 0 to |keys|
      invariant PackFrom(fits, data, keys, i, chunks, current) == Chunks(marshal, data)
    {
      var k := keys[i];
      var v := data[k];
      PackFromStep(fits, data, keys, i, chunks, current);
      var single := map[k := v];
      if !fits(single) {
        return [];
      }
      var test := current[k := v];
      if !fits(test) && |current| > 0 {
        chunks := chunks + [current];
        current := map[k := v];
      } else {
        current := current[k := v];
      }
    }
    if |current| > 0 {
      chunks := chunks + [current];
    }
  }

  /** The pairs of `data` whose keys are among `keys[..i]`. */
  ghost function Upto(data: map<string, string>, keys: seq<string>, i: nat): map<string, string>
    requires i <= |keys| && AllIn(keys, data)
  {
    map x | x in keys[..i] :: data[x]
  }

  /** What holds of the chunks after `keys[..i]` are handled. */
  ghost predicate Packed(fits: SizeTest, data: map<string, string>, keys: seq<string>, i: nat,
                         chunks: seq<map<string, string>>, current: map<string, string>)
    requires i <= |keys| && AllIn(keys, data)
  {
    && (forall j :: 0 <= j < |chunks| ==> |chunks[j]| > 0 && fits(chunks[j]))
    && (|current| > 0 ==> fits(current))
    && Ordered(chunks)
    && (forall j :: 0 <= j < |chunks| ==> KeysBefore(chunks[j], current))
    && MergeAll(chunks) + current == Upto(data, keys, i)
  }

  /** Every key handled so far comes before the keys still to come. */
  lemma UptoBelow(data: map<string, string>, keys: seq<string>, i: nat, x: string)
    requires StrictlySorted(keys) && i < |keys| && AllIn(keys, data)
    requires x in Upto(data, keys, i)
    ensures Less(x, keys[i])
  {
    var j :| 0 <= j < i && keys[..i][j] == x;
  }

  lemma UptoStep(data: map<string, string>, keys: seq<string>, i: nat)
    requires i < |keys| && AllIn(keys, data)
    ensures Upto(data, keys, i + 1) == Upto(data, keys, i)[keys[i] := data[keys[i]]]
  {
    assert keys[..i + 1] == keys[..i] + [keys[i]];
  }

  /** The keys placed so far, in finished chunks or in the current one, come before `keys[i]`. */
  lemma PlacedBelow(data: map<string, string>, keys: seq<string>, i: nat,
                    chunks: seq<map<string, string>>, current: map<string, string>)
    requires StrictlySorted(keys) && i < |keys| && AllIn(keys, data)
    requires MergeAll(chunks) + current == Upto(data, keys, i)
    ensures forall j, x :: 0 <= j < |chunks| && x in chunks[j] ==> Less(x, keys[i])
    ensures forall x :: x in current ==> Less(x, keys[i])
  {
    forall x | x in MergeAll(chunks) + current ensures Less(x, keys[i]) {
      UptoBelow(data, keys, i, x);
    }
  }

  /** Closing the current chunk and starting one with the next pair keeps `Packed`. */
  lemma PackedClose(fits: SizeTest, data: map<string, string>, keys: seq<string>, i: nat,
                    chunks: seq<map<string, string>>, current: map<string, string>)
    requires StrictlySorted(keys) && i < |keys| && AllIn(keys, data)
    requires Packed(fits, data, keys, i, chunks, current)
    requires |current| > 0 && fits(map[keys[i] := data[keys[i]]])
    ensures Packed(fits, data, keys, i + 1, chunks + [current], map[keys[i] := data[keys[i]]])
  {
    CloseMerges(data, keys, i, chunks, current);
    CloseOrders(data, keys, i, chunks, current);
    SnocEach(fits, chunks, current);
  }

  /** Each chunk of `chunks + [last]` is non-empty and passes `fits` if each of `chunks` and `last` does. */
  lemma SnocEach(fits: SizeTest, chunks: seq<map<string, string>>, last: map<string, string>)
    requires forall j :: 0 <= j < |chunks| ==> |chunks[j]| > 0 && fits(chunks[j])
    requires |last| > 0 && fits(last)
    ensures forall j :: 0 <= j < |chunks| + 1 ==> |(chunks + [last])[j]| > 0 && fits((chunks + [last])[j])
  {
    assert forall j :: 0 <= j < |chunks| ==> (chunks + [last])[j] == chunks[j];
  }

  lemma CloseMerges(data: map<string, string>, keys: seq<string>, i: nat,
                    chunks: seq<map<string, string>>, current: map<string, string>)
    requires i < |keys| && AllIn(keys, data)
    requires MergeAll(chunks) + current == Upto(data, keys, i)
    ensures MergeAll(chunks + [current]) + map[keys[i] := data[keys[i]]] == Upto(data, keys, i + 1)
  {
    var k, v := keys[i], data[keys[i]];
    UptoStep(data, keys, i);
    MergeAllSnoc(chunks, current);
    OverlayUpdate(MergeAll(chunks + [current]), map[], k, v);
  }

  lemma CloseOrders(data: map<string, string>, keys: seq<string>, i: nat,
                    chunks: seq<map<string, string>>, current: map<string, string>)
    requires StrictlySorted(keys) && i < |keys| && AllIn(keys, data)
    requires MergeAll(chunks) + current == Upto(data, keys, i)
    requires Ordered(chunks) && forall j :: 0 <= j < |chunks| ==> KeysBefore(chunks[j], current)
    ensures Ordered(chunks + [current])
    ensures forall j :: 0 <= j < |chunks| + 1 ==> KeysBefore((chunks + [current])[j], map[keys[i] := data[keys[i]]])
  {
    PlacedBelow(data, keys, i, chunks, current);
    OrderedSnoc(chunks, current);
    SnocBefore(chunks, current, map[keys[i] := data[keys[i]]]);
  }

  /** Every chunk of `chunks + [last]` has its keys before those of `next` if each of `chunks` and `last` does. */
  lemma SnocBefore(chunks: seq<map<string, string>>, last: map<string, string>, next: map<string, string>)
    requires forall j, x :: 0 <= j < |chunks| && x in chunks[j] ==> forall y :: y in next ==> Less(x, y)
    requires forall x :: x in last ==> forall y :: y in next ==> Less(x, y)
    ensures forall j :: 0 <= j < |chunks| + 1 ==> KeysBefore((chunks + [last])[j], next)
  {
    assert forall j :: 0 <= j < |chunks| ==> (chunks + [last])[j] == chunks[j];
  }

  /** Adding the next pair to the current chunk, when the result passes the test, keeps `Packed`. */
  lemma PackedAdd(fits: SizeTest, data: map<string, string>, keys: seq<string>, i: nat,
                  chunks: seq<map<string, string>>, current: map<string, string>)
    requires StrictlySorted(keys) && i < |keys| && AllIn(keys, data)
    requires Packed(fits, data, keys, i, chunks, current)
    requires fits(current[keys[i] := data[keys[i]]])
    ensures Packed(fits, data, keys, i + 1, chunks, current[keys[i] := data[keys[i]]])
  {
    var k, v := keys[i], data[keys[i]];
    UptoStep(data, keys, i);
    PlacedBelow(data, keys, i, chunks, current);
    OverlayUpdate(MergeAll(chunks), current, k, v);
  }

  /** `chunks` split `whole`: each is non-empty and passes `fits`, in key order, merging to `whole`. */
  ghost predicate Partition(fits: SizeTest, chunks: seq<map<string, string>>, whole: map<string, string>) {
    && (forall j :: 0 <= j < |chunks| ==> |chunks[j]| > 0 && fits(chunks[j]))
    && Ordered(chunks)
    && MergeAll(chunks) == whole
  }

  /** Once every key is handled, the finished chunks and a non-empty current one split the data. */
  lemma PackedDone(fits: SizeTest, chunks: seq<map<string, string>>, current: map<string, string>)
    requires forall j :: 0 <= j < |chunks| ==> |chunks[j]| > 0 && fits(chunks[j])
    requires |current| > 0 ==> fits(current)
    requires Ordered(chunks) && forall j :: 0 <= j < |chunks| ==> KeysBefore(chunks[j], current)
    ensures Partition(fits, if |current| > 0 then chunks + [current] else chunks, MergeAll(chunks) + current)
  {
    if |current| > 0 {
      OrderedSnoc(chunks, current);
      MergeAllSnoc(chunks, current);
      SnocEach(fits, chunks, current);
      assert Partition(fits, chunks + [current], MergeAll(chunks) + current);
    } else {
      EmptyOverlay(MergeAll(chunks), current);
      assert Partition(fits, chunks, MergeAll(chunks));
    }
  }

  /** Laying an empty map over another changes nothing. */
  lemma EmptyOverlay(a: map<string, string>, b: map<string, string>)
    requires |b| == 0
    ensures a + b == a
  {
    assert b == map[];
  }

  lemma {:induction false} PackFromPacks(fits: SizeTest, data: map<string, string>, keys: seq<string>, i: nat,
                                         chunks: seq<map<string, string>>, current: map<string, string>)
    requires StrictlySorted(keys) && i <= |keys| && AllIn(keys, data)
    requires NoPairTooLarge(fits, data)
    requires Packed(fits, data, keys, i, chunks, current)
    ensures Partition(fits, PackFrom(fits, data, keys, i, chunks, current), Upto(data, keys, |keys|))
    decreases |keys| - i
  {
    if i == |keys| {
      PackedDone(fits, chunks, current);
    } else {
      var k := keys[i];
      var v := data[k];
      assert fits(map[k := v]);
      if !fits(current[k := v]) && |current| > 0 {
        PackedClose(fits, data, keys, i, chunks, current);
        PackFromPacks(fits, data, keys, i + 1, chunks + [current], map[k := v]);
      } else {
        if |current| == 0 {
          assert current[k := v] == map[k := v];
        }
        PackedAdd(fits, data, keys, i, chunks, current);
        PackFromPacks(fits, data, keys, i + 1, chunks, current[k := v]);
      }
    }
  }

  /** A pair too large on its own makes chunking fail with no chunks. */
  lemma {:induction false} PackFromRefuses(fits: SizeTest, data: map<string, string>, keys: seq<string>, i: nat,
                                           chunks: seq<map<string, string>>, current: map<string, string>, t: nat)
    requires i <= t < |keys| && AllIn(keys, data)
    requires !fits(map[keys[t] := data[keys[t]]])
    ensures PackFrom(fits, data, keys, i, chunks, current) == []
    decreases |keys| - i
  {
    PackFromStep(fits, data, keys, i, chunks, current);
    if i < t {
      var single, test := map[keys[i] := data[keys[i]]], current[keys[i] := data[keys[i]]];
      if fits(single) {
        if !fits(test) && |current| > 0 {
          PackFromRefuses(fits, data, keys, i + 1, chunks + [current], single, t);
        } else {
          PackFromRefuses(fits, data, keys, i + 1, chunks, test, t);
        }
      }
    }
  }

  /** The keys of `data` in ascending order, all of them in `data`. */
  lemma SortedKeysIn(data: map<string, string>)
    ensures AllIn(SortedSeq(data.Keys), data)
  {
    KeysIn(SortedSeq(data.Keys), data);
  }

  /** `chunkDataIntoSecrets` returns no chunks when some pair alone is too large. */
  lemma ChunksRefuseLargePair(marshal: Encoder, data: map<string, string>, k: string)
    requires k in data && EncodedSize(marshal, map[k := data[k]]) > MaxSecretSizeBytes
    ensures Chunks(marshal, data) == []
  {
    var keys := SortedSeq(data.Keys);
    SortedKeysIn(data);
    assert k in Elems(keys);
    var t :| 0 <= t < |keys| && keys[t] == k;
    PackFromRefuses(FitsIn(marshal), data, keys, 0, [], map[], t);
  }

  /** Chunking with a test every single pair passes splits the data. */
  lemma PackPartitions(fits: SizeTest, data: map<string, string>)
    requires NoPairTooLarge(fits, data)
    ensures Partition(fits, Pack(fits, data), data)
  {
    var keys := SortedSeq(data.Keys);
    KeysIn(keys, data);
    PackedStart(fits, data, keys);
    PackFromPacks(fits, data, keys, 0, [], map[]);
    UptoAll(data, keys);
  }

  /** Before any key is handled, nothing is placed. */
  lemma PackedStart(fits: SizeTest, data: map<string, string>, keys: seq<string>)
    requires AllIn(keys, data)
    ensures Packed(fits, data, keys, 0, [], map[])
  {
    assert MergeAll<string>([]) + map[] == Upto(data, keys, 0);
  }

  /** Once all of the keys of `data` are handled, all of `data` is placed. */
  lemma UptoAll(data: map<string, string>, keys: seq<string>)
    requires Elems(keys) == data.Keys && AllIn(keys, data)
    ensures Upto(data, keys, |keys|) == data
  {
    assert keys[..|keys|] == keys;
    assert forall x :: x in data <==> x in Elems(keys);
  }

  /**
   * Otherwise the chunks are non-empty, each fits, they follow one another in key
   * order (so no key is in two chunks), and together they hold exactly `data`.
   */
  lemma ChunksPartition(marshal: Encoder, data: map<string, string>)
    requires forall k :: k in data ==> EncodedSize(marshal, map[k := data[k]]) <= MaxSecretSizeBytes
    ensures var c := Chunks(marshal, data);
      && (forall j :: 0 <= j < |c| ==> |c[j]| > 0 && EncodedSize(marshal, c[j]) <= MaxSecretSizeBytes)
      && Ordered(c)
      && PairwiseDisjoint(c)
      && MergeAll(c) == data
  {
    PackPartitions(FitsIn(marshal), data);
    OrderedIsDisjoint(Chunks(marshal, data));
  }

  // ---------------------------------------------------------------- redistribution

  /** The part number main.go writes chunk `i` to, turned into a name (0 is the base name). */
  function MainSlotName(base: string, sorted: seq<Int64>, i: nat): string {
    PartName(base, SlotIndex(sorted, i))
  }

  /** The writes `redistributeSecrets` issues, in order, when none fails. */
  function MainPlan(base: string, sorted: seq<Int64>, chunks: seq<map<string, string>>): (plan: seq<(string, map<string, string>)>)
    ensures |plan| == |chunks|
  {
    seq(|chunks|, i requires 0 <= i < |chunks| => (MainSlotName(base, sorted, i), chunks[i]))
  }

  /** `sort.Ints` on a copy of the listed numbers. */
  method SortedNumbers(numbers: seq<Int64>) returns (sorted: seq<Int64>)
    ensures sorted == SortInts(numbers)
  {
    var a := new Int64[|numbers|](j requires 0 <= j < |numbers| => numbers[j]);
    assert a[..] == numbers;
    SortIntsInPlace(a);
    sorted := a[..];
  }

  /**
   * `redistributeSecrets`, given the part numbers the listing found: refuses, before
   * writing anything, to leave existing parts without a chunk; otherwise writes chunk `i`
   * to the i-th existing part in ascending order, and the chunks beyond them to
   * `maxNum + 1`, `maxNum + 2`, ..., stopping at the first write that fails.
   */
  method RedistributeSecrets(client: Client<string>, base: string, chunks: seq<map<string, string>>, numbers: seq<Int64>)
    returns (r: Outcome<CliError>)
    modifies client
    ensures |chunks| < |numbers| ==> r == Fail(TooFewChunks(|chunks|, |numbers|))
    ensures |chunks| < |numbers| ==>
      client.calls == old(client.calls) && client.writes == old(client.writes) && client.secrets == old(client.secrets)
    ensures |chunks| >= |numbers| ==>
      var plan := MainPlan(base, SortInts(numbers), chunks);
      var k := Successes(client.failsAt, old(client.calls), |chunks|);
      && client.writes == old(client.writes) + plan[..k]
      && client.secrets == Applied(old(client.secrets), plan[..k])
      && client.calls == old(client.calls) + (if k < |chunks| then k + 1 else k)
      && r == (if k < |chunks| then Fail(WriteFailed(plan[k].0)) else Pass)
  {
    var sorted := SortedNumbers(numbers);
    if |chunks| < |sorted| {
      return Fail(TooFewChunks(|chunks|, |sorted|));
    }
    var maxNum: int := -1;
    if |sorted| > 0 {
      maxNum := sorted[|sorted| - 1];
    }
    r := WriteChunks(client, base, chunks, sorted, maxNum);
  }

  /** The chunk loop of `redistributeSecrets`, over the sorted numbers and their highest, `maxNum`. */
  method WriteChunks(client: Client<string>, base: string, chunks: seq<map<string, string>>, sorted: seq<Int64>, maxNum: int)
    returns (r: Outcome<CliError>)
    requires |sorted| <= |chunks| && maxNum == MaxNumber(sorted)
    modifies client
    ensures
      var plan := MainPlan(base, sorted, chunks);
      var k := Successes(client.failsAt, old(client.calls), |chunks|);
      && client.writes == old(client.writes) + plan[..k]
      && client.secrets == Applied(old(client.secrets), plan[..k])
      && client.calls == old(client.calls) + (if k < |chunks| then k + 1 else k)
      && r == (if k < |chunks| then Fail(WriteFailed(plan[k].0)) else Pass)
  {
    ghost var plan := MainPlan(base, sorted, chunks);
    ghost var k := Successes(client.failsAt, client.calls, |chunks|);
    ghost var before := client.calls;
    for i := 0 to |chunks|
      invariant i <= k
      invariant client.calls == before + i
      invariant client.writes == old(client.writes) + plan[..i]
      invariant client.secrets == Applied(old(client.secrets), plan[..i])
    {
      var name: string;
      if i < |sorted| {
        if sorted[i] == 0 {
          name := base;
        } else {
          name := SuffixedName(base, sorted[i]);
        }
      } else {
        var nextNum := Wrap(maxNum + (i - |sorted| + 1));
        if nextNum == 0 {
          name := base;
        } else {
          name := SuffixedName(base, nextNum);
        }
      }
      assert name == MainSlotName(base, sorted, i);
      var ok := client.UpsertStep(name, chunks[i], plan, i, before, old(client.writes), old(client.secrets));
      if !ok {
        return Fail(WriteFailed(name));
      }
    }
    assert plan[..|chunks|] == plan;
    return Pass;
  }

  /**
   * The names main.go writes to: existing parts keep their names, and with distinct
   * existing numbers and no overflow every chunk goes to a different secret; a chunk
   * goes to the base name exactly when its part number is 0.
   */
  lemma MainPlanNames(base: string, sorted: seq<Int64>, chunks: seq<map<string, string>>)
    requires Increasing(sorted) && |sorted| <= |chunks| && NoOverflow(sorted, |chunks|)
    ensures var plan := MainPlan(base, sorted, chunks);
      && DistinctNames(plan)
      && (forall i :: 0 <= i < |sorted| ==> plan[i] == (PartName(base, sorted[i]), chunks[i]))
      && (forall i :: 0 <= i < |chunks| ==> (plan[i].0 == base <==> SlotIndex(sorted, i) == 0))
  {
    var plan := MainPlan(base, sorted, chunks);
    var indices := SlotIndices(sorted, |chunks|);
    SlotIndicesDistinct(sorted, |chunks|);
    PartNamesDistinct(base, indices);
    assert forall i :: 0 <= i < |chunks| ==> plan[i].0 == PartNames(base, indices)[i];
    forall i | 0 <= i < |chunks| ensures plan[i].0 == base <==> SlotIndex(sorted, i) == 0 {
      if plan[i].0 == base {
        assert PartName(base, SlotIndex(sorted, i)) == PartName(base, 0);
        PartNameInjective(base, SlotIndex(sorted, i), 0);
      }
    }
  }

  /**
   * Chunks beyond the existing parts go to part numbers above all existing ones, in
   * increasing order; with no existing part the first chunk goes to 0, the base name.
   */
  lemma MainPlanFreshSlots(base: string, sorted: seq<Int64>, n: nat)
    requires NonDecreasing(sorted) && |sorted| <= n && NoOverflow(sorted, n)
    ensures forall i, j :: |sorted| <= i < j < n ==> SlotIndex(sorted, i) < SlotIndex(sorted, j)
    ensures forall i, j :: 0 <= j < |sorted| <= i < n ==> sorted[j] < SlotIndex(sorted, i)
    ensures |sorted| == 0 && n > 0 ==> MainSlotName(base, sorted, 0) == base
  {
    forall i, j | |sorted| <= i < j < n ensures SlotIndex(sorted, i) < SlotIndex(sorted, j) {
      SlotIndexFresh(sorted, n, i, j);
    }
    forall i, j | 0 <= j < |sorted| <= i < n ensures sorted[j] < SlotIndex(sorted, i) {
      assert sorted[j] <= MaxNumber(sorted);
    }
  }
}
