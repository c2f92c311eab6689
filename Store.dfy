/**
 * The remote secret store, as the code sees it through its AWS client: the secrets
 * it holds (each as its JSON payload decodes), the writes that succeeded, and a count
 * of the API calls made. Whether a call fails is decided by an oracle on the call's number.
 */
module Store {
  import opened Wrappers

  /** What a secret's string decodes to with `json.Unmarshal` into a map. */
  datatype Payload<V> = Garbled | JsonNull | JsonObject(fields: map<string, V>)

  /** The secrets after the given successful writes, in order. */
  function Applied<V>(secrets: map<string, Payload<V>>, writes: seq<(string, map<string, V>)>): (r: map<string, Payload<V>>)
    ensures forall j :: 0 <= j < |writes| ==> writes[j].0 in r
    ensures forall n :: n in secrets ==> n in r
  {
    if writes == [] then secrets
    else
      var w := writes[|writes| - 1];
      var r := Applied(secrets, writes[..|writes| - 1])[w.0 := JsonObject(w.1)];
      assert forall j :: 0 <= j < |writes| - 1 ==> writes[..|writes| - 1][j] == writes[j];
      r
  }

  /** One more write of a plan applied. */
  lemma AppliedSnoc<V>(secrets: map<string, Payload<V>>, plan: seq<(string, map<string, V>)>, i: nat)
    requires i < |plan|
    ensures plan[..i + 1] == plan[..i] + [plan[i]]
    ensures Applied(secrets, plan[..i + 1]) == Applied(secrets, plan[..i])[plan[i].0 := JsonObject(plan[i].1)]
  {
    assert plan[..i + 1][..i] == plan[..i];
  }

  /** After the writes, a secret exists only if it existed before or was written. */
  lemma {:induction false} AppliedKeys<V>(secrets: map<string, Payload<V>>, writes: seq<(string, map<string, V>)>, n: string)
    requires n in Applied(secrets, writes)
    ensures n in secrets || exists j :: 0 <= j < |writes| && writes[j].0 == n
  {
    if writes != [] {
      var init := writes[..|writes| - 1];
      if n != writes[|writes| - 1].0 {
        AppliedKeys(secrets, init, n);
        if n !in secrets {
          var j :| 0 <= j < |init| && init[j].0 == n;
          assert writes[j] == init[j];
        }
      }
    }
  }

  /** Names written at most once. */
  predicate DistinctNames<V>(writes: seq<(string, map<string, V>)>) {
    forall i, j :: 0 <= i < j < |writes| ==> writes[i].0 != writes[j].0
  }

  /** After writes to distinct names, each name holds exactly what was written to it. */
  lemma {:induction false} AppliedLookup<V>(secrets: map<string, Payload<V>>, writes: seq<(string, map<string, V>)>, j: int)
    requires DistinctNames(writes)
    requires 0 <= j < |writes|
    ensures Applied(secrets, writes)[writes[j].0] == JsonObject(writes[j].1)
  {
    var n := |writes|;
    if j < n - 1 {
      var init := writes[..n - 1];
      assert init[j] == writes[j];
      AppliedLookup(secrets, init, j);
    }
  }

  /** The answer of `BatchGetSecretValue` for `names`: the secrets among them that exist, by name. */
  function Batch<V>(secrets: map<string, Payload<V>>, names: seq<string>): (r: map<string, Payload<V>>)
    ensures forall n :: n in r <==> n in secrets && n in names
    ensures forall n :: n in r ==> r[n] == secrets[n]
  {
    map n | n in secrets && n in names :: secrets[n]
  }

  /**
   * How many of `n` calls, numbered from `from`, succeed before the first one that
   * fails: a run of calls that stops at its first failure makes this many successful ones.
   */
  function Successes(failsAt: nat -> bool, from: nat, n: nat): (k: nat)
    ensures k <= n
    decreases n
  {
    if n == 0 || failsAt(from) then 0 else 1 + Successes(failsAt, from + 1, n - 1)
  }

  /**
   * Call `from + i` of a run that has succeeded `i` times so far fails exactly when
   * the run stops there.
   */
  lemma {:induction false} SuccessesNext(failsAt: nat -> bool, from: nat, n: nat, i: nat)
    requires i <= Successes(failsAt, from, n) && i < n
    ensures failsAt(from + i) <==> Successes(failsAt, from, n) == i
    decreases i
  {
    if i > 0 {
      SuccessesNext(failsAt, from + 1, n - 1, i - 1);
    }
  }

  class Client<V> {
    /** The secrets held, by name. */
    var secrets: map<string, Payload<V>>
    /** The writes that succeeded, as (name, contents), oldest first. */
    var writes: seq<(string, map<string, V>)>
    /** The number of API calls made so far. */
    var calls: nat
    /** Whether the API call with a given number fails. */
    const failsAt: nat -> bool

    constructor (secrets: map<string, Payload<V>>, failsAt: nat -> bool)
      ensures this.secrets == secrets && writes == [] && calls == 0
      ensures this.failsAt == failsAt
    {
      this.secrets := secrets;
      this.writes := [];
      this.calls := 0;
      this.failsAt := failsAt;
    }

    /**
     * `createOrModifySecret`: stores `data` under `name`, overwriting a secret of that
     * name or creating it. A failed call changes nothing but the call count.
     */
    method Upsert(name: string, data: map<string, V>) returns (ok: bool)
      modifies this
      ensures calls == old(calls) + 1
      ensures ok == !failsAt(old(calls))
      ensures writes == if ok then old(writes) + [(name, data)] else old(writes)
      ensures secrets == if ok then old(secrets)[name := JsonObject(data)] else old(secrets)
    {
      ok := !failsAt(calls);
      if ok {
        writes := writes + [(name, data)];
        secrets := secrets[name := JsonObject(data)];
      }
      calls := calls + 1;
    }

    /**
     * The upsert of `createOrModifySecret` issued as write `i` of a run of `plan` that stops at its first
     * failure and started at call `from`: the run either grows by this write or stops here.
     */
    method UpsertStep(name: string, data: map<string, V>, ghost plan: seq<(string, map<string, V>)>, ghost i: nat,
                      ghost from: nat, ghost writes0: seq<(string, map<string, V>)>, ghost secrets0: map<string, Payload<V>>)
      returns (ok: bool)
      requires i < |plan| && plan[i] == (name, data) && i <= Successes(failsAt, from, |plan|)
      requires calls == from + i && writes == writes0 + plan[..i] && secrets == Applied(secrets0, plan[..i])
      modifies this
      ensures calls == from + i + 1
      ensures ok <==> i < Successes(failsAt, from, |plan|)
      ensures ok ==> writes == writes0 + plan[..i + 1] && secrets == Applied(secrets0, plan[..i + 1])
      ensures !ok ==> writes == old(writes) && secrets == old(secrets)
    {
      SuccessesNext(failsAt, from, |plan|, i);
      ok := Upsert(name, data);
      if ok {
        AppliedSnoc(secrets0, plan, i);
      }
    }

    /** `BatchGetSecretValue`: the requested secrets that exist, or `None` when the call fails. */
    method BatchGet(names: seq<string>) returns (r: Option<map<string, Payload<V>>>)
      modifies this
      ensures calls == old(calls) + 1
      ensures writes == old(writes) && secrets == old(secrets)
      ensures r == if failsAt(old(calls)) then None else Some(Batch(secrets, names))
    {
      r := if failsAt(calls) then None else Some(Batch(secrets, names));
      calls := calls + 1;
    }
  }
}
