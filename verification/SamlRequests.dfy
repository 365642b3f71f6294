/**
  The pending AuthnRequest table of api/saml_handler.py: each request id can be answered once,
  within ten minutes. Times are seconds, as reals. Signature, conditions and audience of the
  response are checked afterwards and are not part of this model.
 */
module SamlRequests {
  const REQUEST_MAX_AGE_SECONDS: real := 600.0

  /** created_at by request id. */
  type PendingRequests = map<string, real>

  datatype Event =
    | Issue(id: string, at: real)
    /** A response; an InResponseTo that is absent counts as the empty one. */
    | Respond(inResponseTo: string, at: real)

  /** Skipped: there is no InResponseTo, or an empty one, and nothing is checked. */
  datatype Verdict = Passed | ReplayDetected | AssertionExpired | Skipped

  predicate TooOld(createdAt: real, now: real) {
    now - createdAt > REQUEST_MAX_AGE_SECONDS
  }

  /** _cleanup_expired_requests */
  function Swept(pending: PendingRequests, now: real): PendingRequests {
    map id | id in pending && !TooOld(pending[id], now) :: pending[id]
  }

  lemma SweptIsDifference(pending: PendingRequests, now: real)
    ensures Swept(pending, now) == pending - (set id | id in pending && TooOld(pending[id], now))
  {
  }

  /** generate_authn_request; without eager the sweep is left out. */
  function Issued(pending: PendingRequests, id: string, now: real, eager: bool): PendingRequests {
    (if eager then Swept(pending, now) else pending)[id := now]
  }

  /** The InResponseTo check of verify_saml_response: the id is popped before its age is looked at. */
  function Consume(pending: PendingRequests, id: string, now: real): (PendingRequests, Verdict) {
    if id == "" then (pending, Skipped)
    else if id !in pending then (pending, ReplayDetected)
    else (pending - {id}, if TooOld(pending[id], now) then AssertionExpired else Passed)
  }

  class SamlHandler {
    var pending: PendingRequests

    constructor ()
      ensures pending == map[]
    {
      pending := map[];
    }

    method CleanupExpiredRequests(now: real)
      modifies this
      ensures pending == Swept(old(pending), now)
    {
      var expired := set id | id in pending && TooOld(pending[id], now);
      var todo := expired;
      while todo != {}
        invariant todo <= expired
        invariant pending == old(pending) - (expired - todo)
        decreases |todo|
      {
        var id :| id in todo;
        pending := pending - {id};
        assert expired - (todo - {id}) == (expired - todo) + {id};
        todo := todo - {id};
      }
      assert expired - todo == expired;
      SweptIsDifference(old(pending), now);
    }

    method GenerateAuthnRequest(id: string, now: real)
      modifies this
      ensures pending == Issued(old(pending), id, now, true)
    {
      CleanupExpiredRequests(now);
      pending := pending[id := now];
    }

    method VerifyInResponseTo(id: string, now: real) returns (verdict: Verdict)
      modifies this
      ensures (pending, verdict) == Consume(old(pending), id, now)
    {
      if id == "" {
        return Skipped;
      }
      if id !in pending {
        return ReplayDetected;
      }
      var createdAt := pending[id];
      pending := pending - {id};
      if now - createdAt > REQUEST_MAX_AGE_SECONDS {
        return AssertionExpired;
      }
      return Passed;
    }
  }

  // ----- Runs

  /** The table after the first n events of a run that starts empty. */
  function After(events: seq<Event>, n: nat, eager: bool): PendingRequests
    requires n <= |events|
  {
    if n == 0 then map[]
    else
      var before := After(events, n - 1, eager);
      match events[n - 1]
      case Issue(id, at) => Issued(before, id, at, eager)
      case Respond(id, at) => Consume(before, id, at).0
  }

  predicate Passes(events: seq<Event>, k: nat, eager: bool)
    requires k < |events|
  {
    events[k].Respond? && Consume(After(events, k, eager), events[k].inResponseTo, events[k].at).1 == Passed
  }

  ghost predicate ClockMonotone(events: seq<Event>) {
    forall i, j :: 0 <= i <= j < |events| ==> events[i].at <= events[j].at
  }

  function Issues(events: seq<Event>, n: nat, id: string): nat
    requires n <= |events|
  {
    if n == 0 then 0 else Issues(events, n - 1, id) + if events[n - 1] == Issue(id, events[n - 1].at) then 1 else 0
  }

  function TimesPassed(events: seq<Event>, n: nat, id: string, eager: bool): nat
    requires n <= |events|
  {
    if n == 0 then 0
    else TimesPassed(events, n - 1, id, eager) +
         if Passes(events, n - 1, eager) && events[n - 1].inResponseTo == id then 1 else 0
  }

  /** One-time use: an id passes the check no more often than it was issued. */
  lemma {:induction false} ConsumedAtMostOnce(events: seq<Event>, n: nat, id: string, eager: bool)
    requires n <= |events|
    ensures TimesPassed(events, n, id, eager) + (if id in After(events, n, eager) then 1 else 0)
            <= Issues(events, n, id)
  {
    if n > 0 {
      ConsumedAtMostOnce(events, n - 1, id, eager);
    }
  }

  /** A pending id was issued at the recorded moment by an earlier event. */
  lemma {:induction false} PendingWasIssued(events: seq<Event>, n: nat, id: string, eager: bool)
    requires n <= |events| && id in After(events, n, eager)
    ensures exists i :: 0 <= i < n && events[i] == Issue(id, After(events, n, eager)[id])
  {
    if events[n - 1] == Issue(id, events[n - 1].at) {
    } else {
      PendingWasIssued(events, n - 1, id, eager);
    }
  }

  /** A response that passes answers an id issued earlier in the run, no more than 600 seconds before. */
  lemma PassedIsRecent(events: seq<Event>, k: nat, eager: bool)
    requires k < |events| && Passes(events, k, eager)
    ensures exists i :: 0 <= i < k && events[i] == Issue(events[k].inResponseTo, events[i].at)
                        && events[k].at - events[i].at <= REQUEST_MAX_AGE_SECONDS
  {
    PendingWasIssued(events, k, events[k].inResponseTo, eager);
    var i :| 0 <= i < k && events[i] == Issue(events[k].inResponseTo, After(events, k, eager)[events[k].inResponseTo]);
    assert events[i] == Issue(events[k].inResponseTo, events[i].at);
  }

  /** The id is issued by event i and no event between i and n touches it again. */
  ghost predicate LiveSince(events: seq<Event>, i: nat, n: nat, id: string) {
    && i < n <= |events| && events[i] == Issue(id, events[i].at)
    && forall k :: i < k < n ==> !Touches(events[k], id)
  }

  predicate Touches(e: Event, id: string) {
    match e
    case Issue(other, _) => other == id
    case Respond(other, _) => other == id && id != ""
  }

  lemma LiveStep(events: seq<Event>, i: nat, n: nat, id: string)
    requires 0 < n <= |events|
    ensures LiveSince(events, i, n, id) <==>
            if i == n - 1 then events[n - 1] == Issue(id, events[n - 1].at)
            else LiveSince(events, i, n - 1, id) && !Touches(events[n - 1], id)
  {
  }

  /** Without the sweep an id is pending exactly while it is live. */
  lemma {:induction false} PendingIffLive(events: seq<Event>, n: nat, id: string)
    requires n <= |events|
    ensures id in After(events, n, false) <==> exists i: nat :: LiveSince(events, i, n, id)
    ensures forall i: nat :: LiveSince(events, i, n, id) ==>
              id in After(events, n, false) && After(events, n, false)[id] == events[i].at
  {
    if n > 0 {
      PendingIffLive(events, n - 1, id);
      forall i: nat
        ensures LiveSince(events, i, n, id) <==>
                if i == n - 1 then events[n - 1] == Issue(id, events[n - 1].at)
                else LiveSince(events, i, n - 1, id) && !Touches(events[n - 1], id)
      {
        LiveStep(events, i, n, id);
      }
      hide LiveSince;
      if events[n - 1] == Issue(id, events[n - 1].at) {
        assert LiveSince(events, n - 1, n, id);
      } else if id in After(events, n, false) {
        var i: nat :| LiveSince(events, i, n - 1, id);
        LiveIsEarlier(events, i, n - 1, id);
        assert LiveSince(events, i, n, id);
      }
    }
  }

  lemma LiveIsEarlier(events: seq<Event>, i: nat, n: nat, id: string)
    requires LiveSince(events, i, n, id)
    ensures i < n
  {
  }

  /**
    Which responses pass, with or without the sweep: exactly those to an id that was issued, has not
    been issued or answered again since, and is at most 600 seconds old.
   */
  lemma PassesIff(events: seq<Event>, k: nat, eager: bool)
    requires k < |events| && ClockMonotone(events) && events[k].Respond?
    ensures Passes(events, k, eager) <==>
            events[k].inResponseTo != "" &&
            exists i: nat :: LiveSince(events, i, k, events[k].inResponseTo) &&
                             events[k].at - events[i].at <= REQUEST_MAX_AGE_SECONDS
  {
    CleanupIsTransparent(events, k);
    PendingIffLive(events, k, events[k].inResponseTo);
  }

  /**
    The other verdicts, without the sweep: a response is not checked exactly if its InResponseTo is
    empty; a replay is one to an id that is not live; an expired one answers a live id after more than
    600 seconds. Each answer but the first takes its id out of the table.
   */
  lemma VerdictIff(events: seq<Event>, k: nat)
    requires k < |events| && events[k].Respond?
    ensures var id := events[k].inResponseTo;
            var (after, verdict) := Consume(After(events, k, false), id, events[k].at);
            && (verdict == Skipped <==> id == "")
            && (verdict == ReplayDetected <==> id != "" && forall i: nat :: !LiveSince(events, i, k, id))
            && (verdict == AssertionExpired <==>
                  id != "" && exists i: nat :: LiveSince(events, i, k, id) && events[k].at - events[i].at > 600.0)
            && after == if id == "" then After(events, k, false) else After(events, k, false) - {id}
  {
    PendingIffLive(events, k, events[k].inResponseTo);
    hide LiveSince;
  }

  /** With the sweep the table is the one without it, less entries that are already too old. */
  ghost predicate SweptVersion(swept: PendingRequests, full: PendingRequests, now: real) {
    && (forall id :: id in swept ==> id in full && swept[id] == full[id])
    && (forall id :: id in full && id !in swept ==> TooOld(full[id], now))
  }

  lemma {:induction false} SweepOnlyDropsOld(events: seq<Event>, n: nat, now: real)
    requires n <= |events| && ClockMonotone(events) && (n > 0 ==> events[n - 1].at <= now)
    ensures SweptVersion(After(events, n, true), After(events, n, false), now)
  {
    if n > 0 {
      SweepOnlyDropsOld(events, n - 1, events[n - 1].at);
    }
  }

  /** The eager sweep is transparent: it changes no decision to pass or reject. */
  lemma CleanupIsTransparent(events: seq<Event>, k: nat)
    requires k < |events| && ClockMonotone(events)
    ensures Passes(events, k, true) <==> Passes(events, k, false)
  {
    SweepOnlyDropsOld(events, k, events[k].at);
  }
}
