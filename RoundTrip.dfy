/**
 * Writing and reading back: the chunks main.go writes are read back by the merge of
 * `FetchAllSecretData` as the original data, while `RedistributeSecrets` of
 * secrets_manager.go, on a secret with no parts yet, writes data that merge cannot find.
 */
module RoundTrip {
  import opened Wrappers
  import opened GoStrconv
  import opened Documents
  import opened Store
  import opened Naming
  import opened Cli
  import opened SecretsManager

  /** The responses of a batch fetch of `names` from the secrets after the writes of `plan`. */
  function Reread<V>(secrets: map<string, Payload<V>>, plan: seq<(string, map<string, V>)>, names: seq<string>): map<string, Payload<V>> {
    Batch(Applied(secrets, plan), names)
  }

  /**
   * Chunks written by `redistributeSecrets` to distinct parts and fetched back part by
   * part, in slot order, merge exactly to the merge of the chunks, whatever the store
   * held before.
   */
  lemma MainWriteThenMerge(base: string, sorted: seq<Int64>, chunks: seq<map<string, string>>,
                           secrets: map<string, Payload<string>>, r: Result<map<string, string>, SmError>)
    requires Increasing(sorted) && |sorted| <= |chunks| && NoOverflow(sorted, |chunks|)
    requires PairwiseDisjoint(chunks)
    ensures var names := PartNames(base, SlotIndices(sorted, |chunks|));
      Merges(names, Reread(secrets, MainPlan(base, sorted, chunks), names), map[], r) <==> r == Ok(MergeAll(chunks))
  {
    var names := PartNames(base, SlotIndices(sorted, |chunks|));
    var resp := Reread(secrets, MainPlan(base, sorted, chunks), names);
    MainRereadClean(base, sorted, chunks, secrets);
    MergesDisjointParts(names, resp, r);
  }

  /** Each part fetched back after the writes holds its own chunk. */
  lemma MainRereadClean(base: string, sorted: seq<Int64>, chunks: seq<map<string, string>>,
                        secrets: map<string, Payload<string>>)
    requires Increasing(sorted) && |sorted| <= |chunks| && NoOverflow(sorted, |chunks|)
    ensures var names := PartNames(base, SlotIndices(sorted, |chunks|));
      var resp := Reread(secrets, MainPlan(base, sorted, chunks), names);
      CleanParts(names, resp) && Fields(names, resp) == chunks
  {
    var plan := MainPlan(base, sorted, chunks);
    var names := PartNames(base, SlotIndices(sorted, |chunks|));
    var resp := Reread(secrets, plan, names);
    MainPlanNames(base, sorted, chunks);
    forall i | 0 <= i < |names| ensures names[i] in resp && resp[names[i]] == JsonObject(chunks[i]) {
      assert names[i] == plan[i].0 && plan[i].1 == chunks[i];
      AppliedLookup(secrets, plan, i);
    }
    assert CleanParts(names, resp);
    assert Fields(names, resp) == chunks;
  }

  /**
   * Data split by `chunkDataIntoSecrets` and written by `redistributeSecrets` (main.go),
   * then fetched back part by part and merged by the loop of `FetchAllSecretData`
   * (secrets_manager.go), is the data itself.
   */
  lemma MainChunksRoundTrip(marshal: Encoder, data: map<string, string>, base: string, sorted: seq<Int64>,
                            secrets: map<string, Payload<string>>, r: Result<map<string, string>, SmError>)
    requires forall k :: k in data ==> EncodedSize(marshal, map[k := data[k]]) <= MaxSecretSizeBytes
    requires Increasing(sorted) && |sorted| <= |Chunks(marshal, data)| && NoOverflow(sorted, |Chunks(marshal, data)|)
    ensures var chunks := Chunks(marshal, data);
      var names := PartNames(base, SlotIndices(sorted, |chunks|));
      Merges(names, Reread(secrets, MainPlan(base, sorted, chunks), names), map[], r) <==> r == Ok(data)
  {
    ChunksPartition(marshal, data);
    MainWriteThenMerge(base, sorted, Chunks(marshal, data), secrets, r);
  }

  /**
   * Where a part exists, `RedistributeSecrets` names every chunk as main.go does: the
   * two revisions differ only on a secret with no parts.
   */
  lemma SmPlanIsMainPlan(base: string, sorted: seq<Int64>, chunks: seq<map<string, string>>)
    requires MaxNumber(sorted) >= 0 && NoOverflow(sorted, |chunks|)
    ensures SmPlan(base, sorted, chunks) == MainPlan(base, sorted, chunks)
  {
    var a, b := SmPlan(base, sorted, chunks), MainPlan(base, sorted, chunks);
    forall i | 0 <= i < |chunks| ensures a[i] == b[i] {
      if i >= |sorted| {
        SlotIndexAbove(sorted, |chunks|, i);
      }
    }
  }

  /**
   * `RedistributeSecrets` on a secret with no parts writes its first chunk to "base-0",
   * so fetching the parts it allocated, by their part numbers, finds no base secret:
   * the merge reports it missing.
   */
  lemma SmFreshSecretUnreadable<V>(base: string, chunks: seq<map<string, V>>, secrets: map<string, Payload<V>>,
                                   r: Result<map<string, V>, SmError>)
    requires |chunks| > 0 && base !in secrets
    ensures var names := PartNames(base, SlotIndices([], |chunks|));
      Merges(names, Reread(secrets, SmPlan(base, [], chunks), names), map[], r) <==> r == Err(NotFound(base))
  {
    var plan := SmPlan(base, [], chunks);
    var names := PartNames(base, SlotIndices([], |chunks|));
    assert names[0] == base;
    if base in Applied(secrets, plan) {
      AppliedKeys(secrets, plan, base);
    }
  }
}
