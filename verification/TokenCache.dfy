/** The in-isolate cache of installation tokens (src/github/app.ts). Times are milliseconds. */
module TokenCache {
  import opened Arith
  import opened Options

  /** expiresAtMs is None where `Date.parse` yields NaN. */
  datatype Entry = Entry(token: string, expiresAtMs: Option<int>)

  const SAFETY_MARGIN_MS := 120_000
  const FALLBACK_LIFETIME_MS := 50 * 60_000

  /**
   What GitHub answers when asked for a token: a failure status, or a body whose token and expiry may
   be missing. A present expiry is given as parsed, None if it does not parse. `at` is the clock when
   the answer has arrived.
  */
  datatype Response =
    | Failed(status: int)
    | Body(at: int, token: Option<string>, expiresAt: Option<Option<int>>)

  datatype Outcome = FromCache(token: string) | Minted(token: string) | Error

  predicate Usable(entry: Option<Entry>, now: int) {
    entry.Some? && entry.value.expiresAtMs.Some? && entry.value.expiresAtMs.value - SAFETY_MARGIN_MS > now
  }

  predicate HasToken(r: Response) {
    r.Body? && r.token.Some? && r.token.value != ""
  }

  function Expiry(r: Response): Option<int>
    requires r.Body?
  {
    if r.expiresAt.Some? then r.expiresAt.value else Some(r.at + FALLBACK_LIFETIME_MS)
  }

  /** One call against one installation's entry: the outcome, and the entry it leaves. */
  function Serve(entry: Option<Entry>, now: int, r: Response): (Outcome, Option<Entry>) {
    if Usable(entry, now) then (FromCache(entry.value.token), entry)
    else if HasToken(r) then (Minted(r.token.value), Some(Entry(r.token.value, Expiry(r))))
    else (Error, entry)
  }

  /** The cached token has more than two minutes left. */
  predicate Fresh(cache: map<int, Entry>, installationId: int, now: int) {
    && installationId in cache && cache[installationId].expiresAtMs.Some?
    && cache[installationId].expiresAtMs.value - now > 120_000
  }

  /** The answer is a success with a token in it. */
  predicate GivesToken(r: Response) {
    r.Body? && r.token.Some? && |r.token.value| > 0
  }

  class InstallationTokens {
    var cache: map<int, Entry>

    constructor ()
      ensures cache == map[]
    {
      cache := map[];
    }

    function EntryOf(installationId: int): Option<Entry>
      reads this
    {
      if installationId in cache then Some(cache[installationId]) else None
    }

    /** The response is what GitHub would answer; a cached token never asks for it. */
    method CreateInstallationToken(installationId: int, now: int, response: Response) returns (outcome: Outcome)
      modifies this
      ensures (outcome, EntryOf(installationId)) == Serve(old(EntryOf(installationId)), now, response)
      ensures forall id :: id != installationId ==> EntryOf(id) == old(EntryOf(id))
      ensures outcome.FromCache? || outcome.Error? ==> cache == old(cache)
      ensures Fresh(old(cache), installationId, now) ==> outcome == FromCache(old(cache)[installationId].token)
      ensures !Fresh(old(cache), installationId, now) && GivesToken(response) ==>
                && outcome == Minted(response.token.value) && installationId in cache
                && cache[installationId].token == response.token.value
                && cache[installationId].expiresAtMs
                   == if response.expiresAt.Some? then response.expiresAt.value else Some(response.at + 3_000_000)
      ensures !Fresh(old(cache), installationId, now) && !GivesToken(response) ==> outcome == Error
    {
      if installationId in cache {
        var cached := cache[installationId];
        if cached.expiresAtMs.Some? && cached.expiresAtMs.value - SAFETY_MARGIN_MS > now {
          return FromCache(cached.token);
        }
      }
      if response.Failed? {
        return Error;
      }
      if response.token.None? || response.token.value == "" {
        return Error;
      }
      var expiresAtMs := if response.expiresAt.Some? then response.expiresAt.value
                         else Some(response.at + FALLBACK_LIFETIME_MS);
      cache := cache[installationId := Entry(response.token.value, expiresAtMs)];
      return Minted(response.token.value);
    }
  }

  // ----- runs of calls for one installation -----

  datatype Call = Call(now: int, response: Response)

  /** The clock never goes back, within a call or between calls. */
  predicate Monotone(calls: seq<Call>) {
    && (forall i :: 0 <= i < |calls| && calls[i].response.Body? ==> calls[i].now <= calls[i].response.at)
    && (forall i, j :: 0 <= i < j < |calls| ==> calls[i].now <= calls[j].now)
  }

  function EntryAfter(start: Option<Entry>, calls: seq<Call>): Option<Entry> {
    if calls == [] then start
    else
      var n := |calls| - 1;
      Serve(EntryAfter(start, calls[..n]), calls[n].now, calls[n].response).1
  }

  function OutcomeOf(start: Option<Entry>, calls: seq<Call>): Outcome
    requires calls != []
  {
    var n := |calls| - 1;
    Serve(EntryAfter(start, calls[..n]), calls[n].now, calls[n].response).0
  }

  function Mints(start: Option<Entry>, calls: seq<Call>): nat {
    if calls == [] then 0
    else Mints(start, calls[..|calls| - 1]) + if OutcomeOf(start, calls).Minted? then 1 else 0
  }

  /** Every token GitHub may hand out in the run is good for at least `lifetime` after it was asked for. */
  predicate LiveAtLeast(calls: seq<Call>, lifetime: int) {
    forall i :: 0 <= i < |calls| && HasToken(calls[i].response) ==>
      Expiry(calls[i].response).Some? && Expiry(calls[i].response).value >= calls[i].now + lifetime
  }

  /** The tokens a run can know: the entry it starts with, and those minted in it. */
  predicate Known(start: Option<Entry>, calls: seq<Call>, e: Entry) {
    start == Some(e)
    || exists i :: 0 <= i < |calls| && HasToken(calls[i].response)
                   && e == Entry(calls[i].response.token.value, Expiry(calls[i].response))
  }

  lemma {:induction false} EntryIsKnown(start: Option<Entry>, calls: seq<Call>)
    ensures EntryAfter(start, calls).Some? ==> Known(start, calls, EntryAfter(start, calls).value)
  {
    if calls != [] {
      var n := |calls| - 1;
      var past := calls[..n];
      EntryIsKnown(start, past);
      if OutcomeOf(start, calls).Minted? {
        assert HasToken(calls[n].response);
      } else if EntryAfter(start, past).Some? && start != EntryAfter(start, past) {
        var i :| 0 <= i < |past| && HasToken(past[i].response)
                 && EntryAfter(start, past).value == Entry(past[i].response.token.value, Expiry(past[i].response));
        assert calls[i] == past[i];
      }
    }
  }

  /** A token served from the cache was issued earlier and has more than the safety margin left. */
  lemma ServedTokenIsFresh(start: Option<Entry>, calls: seq<Call>)
    requires calls != [] && OutcomeOf(start, calls).FromCache?
    ensures exists e: Entry :: Known(start, calls, e) && e.token == OutcomeOf(start, calls).token
              && e.expiresAtMs.Some? && e.expiresAtMs.value - calls[|calls| - 1].now > 120_000
  {
    EntryIsKnown(start, calls);
  }

  /** The k-th mint pushes the next one `lifetime - margin` further away. */
  lemma {:induction false} MintsSpread(start: Option<Entry>, calls: seq<Call>, lifetime: int)
    requires Monotone(calls) && LiveAtLeast(calls, lifetime) && lifetime > SAFETY_MARGIN_MS && calls != []
    ensures var k, step, entry := Mints(start, calls), lifetime - SAFETY_MARGIN_MS, EntryAfter(start, calls);
      k > 0 ==>
        && entry.Some? && entry.value.expiresAtMs.Some?
        && entry.value.expiresAtMs.value - SAFETY_MARGIN_MS >= calls[0].now + step * k
        && calls[|calls| - 1].now >= calls[0].now + step * k - step
  {
    var n := |calls| - 1;
    var past, step := calls[..n], lifetime - SAFETY_MARGIN_MS;
    var before := Mints(start, past);
    LastCall(start, calls, lifetime);
    if n > 0 {
      assert Monotone(past) && LiveAtLeast(past, lifetime);
      hide Monotone, LiveAtLeast, EntryAfter, OutcomeOf;
      MintsSpread(start, past, lifetime);
    }
    MulLess(step, before);
  }

  /** A mint replaces an entry that ran out by one that lives on; anything else leaves the entry alone. */
  lemma LastCall(start: Option<Entry>, calls: seq<Call>, lifetime: int)
    requires Monotone(calls) && LiveAtLeast(calls, lifetime) && calls != []
    ensures var n := |calls| - 1;
      var before, after, now := EntryAfter(start, calls[..n]), EntryAfter(start, calls), calls[n].now;
      && calls[0].now <= now && (n > 0 ==> calls[n - 1].now <= now)
      && if OutcomeOf(start, calls).Minted? then
           && !Usable(before, now)
           && after.Some? && after.value.expiresAtMs.Some? && after.value.expiresAtMs.value >= now + lifetime
         else after == before
  {
  }

  lemma SpreadBound(k: nat, span: int, step: int)
    requires step > 0 && span >= 0 && (k > 0 ==> span >= step * k - step)
    ensures k <= 1 + span / step
  {
    DivBounds(span, step);
    MulLess(step, k);
    if k > 1 + span / step {
      MulGap(step, span / step, k - 1);
    }
    DivMonotone(0, span, step);
  }

  /** Over any span, from any cache content, at most one mint per `lifetime - margin` and one more. */
  lemma MintBound(start: Option<Entry>, calls: seq<Call>, lifetime: int)
    requires Monotone(calls) && LiveAtLeast(calls, lifetime) && lifetime > SAFETY_MARGIN_MS && calls != []
    ensures Mints(start, calls) <= 1 + (calls[|calls| - 1].now - calls[0].now) / (lifetime - 120_000)
  {
    var step, k, span := lifetime - SAFETY_MARGIN_MS, Mints(start, calls), calls[|calls| - 1].now - calls[0].now;
    MintsSpread(start, calls, lifetime);
    SpreadBound(k, span, step);
  }

  /** A call at `now` that GitHub answers at once with a token of exactly this lifetime. */
  function FreshCall(now: int, lifetime: int): Call {
    Call(now, Body(now, Some("t"), Some(Some(now + lifetime))))
  }

  /** A run that meets the bound: one call each time the last token leaves its usable time. */
  function Steady(n: nat, lifetime: int): (calls: seq<Call>)
    ensures |calls| == n && (n > 0 ==> calls[0].now == 0)
  {
    if n == 0 then []
    else if n == 1 then [FreshCall(0, lifetime)]
    else
      var past := Steady(n - 1, lifetime);
      past + [FreshCall(past[n - 2].now + lifetime - SAFETY_MARGIN_MS, lifetime)]
  }

  lemma {:induction false} SteadyMints(n: nat, lifetime: int)
    requires n > 0
    ensures var calls := Steady(n, lifetime);
      && Mints(None, calls) == n
      && EntryAfter(None, calls) == Some(Entry("t", Some(calls[n - 1].now + lifetime)))
  {
    var calls := Steady(n, lifetime);
    if n > 1 {
      SteadyMints(n - 1, lifetime);
      assert calls[..n - 1] == Steady(n - 1, lifetime);
    } else {
      assert calls[..0] == [];
    }
  }

  lemma {:induction false} SteadyOrdered(n: nat, lifetime: int)
    requires n > 0 && lifetime > SAFETY_MARGIN_MS
    ensures Monotone(Steady(n, lifetime)) && LiveAtLeast(Steady(n, lifetime), lifetime)
  {
    if n > 1 {
      SteadyOrdered(n - 1, lifetime);
    }
  }

  lemma {:induction false} SteadySpan(n: nat, lifetime: int)
    requires n > 0
    ensures Steady(n, lifetime)[n - 1].now == (lifetime - SAFETY_MARGIN_MS) * (n - 1)
  {
    if n > 1 {
      SteadySpan(n - 1, lifetime);
      MulLess(lifetime - SAFETY_MARGIN_MS, n - 1);
    }
  }

  lemma MintBoundReached(n: nat, lifetime: int)
    requires n > 0 && lifetime > SAFETY_MARGIN_MS
    ensures var calls := Steady(n, lifetime);
      && Monotone(calls) && LiveAtLeast(calls, lifetime)
      && Mints(None, calls) == 1 + (calls[n - 1].now - calls[0].now) / (lifetime - SAFETY_MARGIN_MS)
  {
    hide Monotone, LiveAtLeast, Mints, EntryAfter;
    SteadyMints(n, lifetime);
    SteadyOrdered(n, lifetime);
    SteadySpan(n, lifetime);
    DivExact(lifetime - SAFETY_MARGIN_MS, n - 1);
  }
}
