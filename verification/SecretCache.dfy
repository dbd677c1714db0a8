/**
  * The lazy cache of a secret's value. A value is fetched when first asked for and again when it expires; a failed
  * first fetch is remembered for a while, and a failed refresh serves the old value.
  */
module SecretCache {
  import opened Wrappers

  type Value = nat
  type Error = nat

  datatype Outcome = Ok(value: Value) | Err(error: Error)

  datatype Ttls = Ttls(success: nat, failure: nat)

  datatype State = State(initialized: bool, value: Value, lastErr: Error, expiresAt: nat)

  const START := State(false, 0, 0, 0)

  /** One call: when it looks at the clock, what a fetch would bring, and when it would be done. */
  datatype Call = Call(at: nat, fetch: Outcome, done: nat)

  /** Whether the call goes to the backend. */
  predicate Fetches(ttls: Ttls, s: State, now: nat) {
    s.expiresAt <= now && (s.initialized ==> ttls.success != 0)
  }

  /** Get. */
  function Answer(ttls: Ttls, s: State, c: Call): Outcome {
    if !Fetches(ttls, s, c.at) then (if s.initialized then Ok(s.value) else Err(s.lastErr))
    else if c.fetch.Err? && s.initialized then Ok(s.value)
    else c.fetch
  }

  function Next(ttls: Ttls, s: State, c: Call): State {
    if !Fetches(ttls, s, c.at) then s
    else
      match c.fetch
      case Err(e) =>
        if s.initialized then s.(expiresAt := c.done + ttls.success / 2)
        else s.(lastErr := e, expiresAt := c.done + ttls.failure)
      case Ok(v) => State(true, v, 0, if ttls.success > 0 then c.done + ttls.success else s.expiresAt)
  }

  function Run(ttls: Ttls, cs: seq<Call>): State {
    if cs == [] then START else Next(ttls, Run(ttls, cs[..|cs| - 1]), cs[|cs| - 1])
  }

  /** Whether the k-th call went to the backend. */
  predicate FetchedAt(ttls: Ttls, cs: seq<Call>, k: nat)
    requires k < |cs|
  {
    Fetches(ttls, Run(ttls, cs[..k]), cs[k].at)
  }

  /** The value of the latest fetch that succeeded. */
  function LatestSuccess(ttls: Ttls, cs: seq<Call>): Option<Value> {
    if cs == [] then None
    else
      var k := |cs| - 1;
      if FetchedAt(ttls, cs, k) && cs[k].fetch.Ok? then Some(cs[k].fetch.value) else LatestSuccess(ttls, cs[..k])
  }

  /** The latest error, before anything succeeded. */
  function LatestError(ttls: Ttls, cs: seq<Call>): Option<Error> {
    if cs == [] then None
    else
      var k := |cs| - 1;
      if FetchedAt(ttls, cs, k) && cs[k].fetch.Err? then Some(cs[k].fetch.error) else LatestError(ttls, cs[..k])
  }

  lemma {:induction false} StateIsHistory(ttls: Ttls, cs: seq<Call>)
    ensures var s, v, e := Run(ttls, cs), LatestSuccess(ttls, cs), LatestError(ttls, cs);
            && (s.initialized <==> v.Some?) && (v.Some? ==> s.value == v.value)
            && (v.None? && e.Some? ==> s.lastErr == e.value) && (v.None? && e.None? ==> s == START)
  {
    if cs != [] {
      StateIsHistory(ttls, cs[..|cs| - 1]);
    }
  }

  /** A call answers with the latest successful fetch, counting its own; it fails only if none ever succeeded. */
  lemma AnswersLatest(ttls: Ttls, cs: seq<Call>, c: Call)
    ensures var v, e := LatestSuccess(ttls, cs + [c]), LatestError(ttls, cs + [c]);
            match Answer(ttls, Run(ttls, cs), c)
            case Ok(x) => v == Some(x)
            case Err(x) => v == None && e == Some(x)
  {
    assert (cs + [c])[..|cs|] == cs;
    StateIsHistory(ttls, cs);
  }

  /** How long after a fetch the next one may not happen. */
  function Gap(ttls: Ttls, cs: seq<Call>, k: nat): nat
    requires k < |cs|
  {
    if cs[k].fetch.Ok? then ttls.success
    else if LatestSuccess(ttls, cs[..k]).Some? then ttls.success / 2
    else ttls.failure
  }

  /** After a fetch the cache holds until the gap has passed, and for ever when values do not expire. */
  lemma HoldsAfterFetch(ttls: Ttls, cs: seq<Call>, k: nat)
    requires k < |cs| && FetchedAt(ttls, cs, k)
    ensures var s := Run(ttls, cs[..k + 1]);
            (s.initialized && ttls.success == 0) || s.expiresAt == cs[k].done + Gap(ttls, cs, k)
  {
    assert cs[..k + 1][..k] == cs[..k];
    StateIsHistory(ttls, cs[..k]);
  }

  /** Between fetches nothing changes. */
  lemma {:induction false} Quiet(ttls: Ttls, cs: seq<Call>, j: nat, k: nat)
    requires j <= k <= |cs| && forall i :: j <= i < k ==> !FetchedAt(ttls, cs, i)
    ensures Run(ttls, cs[..k]) == Run(ttls, cs[..j])
    decreases k
  {
    if j < k {
      Quiet(ttls, cs, j, k - 1);
      assert cs[..k][..k - 1] == cs[..k - 1];
      assert !FetchedAt(ttls, cs, k - 1);
    }
  }

  /** Two fetches in a row are the gap apart; once a value that does not expire is in, there is no next fetch. */
  lemma FetchesAreSpaced(ttls: Ttls, cs: seq<Call>, j: nat, k: nat)
    requires j < k < |cs| && FetchedAt(ttls, cs, j) && FetchedAt(ttls, cs, k)
    requires forall i :: j < i < k ==> !FetchedAt(ttls, cs, i)
    ensures cs[j].done + Gap(ttls, cs, j) <= cs[k].at
    ensures ttls.success == 0 ==> LatestSuccess(ttls, cs[..k]).None?
  {
    HoldsAfterFetch(ttls, cs, j);
    Quiet(ttls, cs, j + 1, k);
    StateIsHistory(ttls, cs[..k]);
  }

  /** A call within the gap is answered from the cache, and one after it goes to the backend. */
  lemma FetchesWhenDue(ttls: Ttls, cs: seq<Call>, j: nat, k: nat)
    requires j < k < |cs| && FetchedAt(ttls, cs, j) && forall i :: j < i < k ==> !FetchedAt(ttls, cs, i)
    ensures FetchedAt(ttls, cs, k) <==>
              cs[j].done + Gap(ttls, cs, j) <= cs[k].at && (LatestSuccess(ttls, cs[..k]).Some? ==> ttls.success != 0)
  {
    HoldsAfterFetch(ttls, cs, j);
    Quiet(ttls, cs, j + 1, k);
    StateIsHistory(ttls, cs[..k]);
  }

  // ---- the code

  /** cachedValue. */
  class CachedValue {
    const ttls: Ttls
    var initialized: bool
    var value: Value
    var lastErr: Error
    var expiresAt: nat

    ghost function View(): State
      reads this
    {
      State(initialized, value, lastErr, expiresAt)
    }

    constructor (ttls: Ttls)
      ensures View() == START && this.ttls == ttls
    {
      this.ttls := ttls;
      initialized, value, lastErr, expiresAt := false, 0, 0, 0;
    }

    method Get(c: Call) returns (r: Outcome)
      modifies this
      ensures r == Answer(ttls, old(View()), c) && View() == Next(ttls, old(View()), c)
    {
      if initialized {
        if ttls.success == 0 || c.at < expiresAt {
          return Ok(value);
        }
      } else if c.at < expiresAt {
        return Err(lastErr);
      }
      match c.fetch
      case Err(e) =>
        if initialized {
          expiresAt := c.done + ttls.success / 2;
          return Ok(value);
        }
        lastErr := e;
        expiresAt := c.done + ttls.failure;
        return Err(e);
      case Ok(v) =>
        value := v;
        initialized := true;
        lastErr := 0;
        if ttls.success > 0 {
          expiresAt := c.done + ttls.success;
        }
        return Ok(value);
    }
  }
}
