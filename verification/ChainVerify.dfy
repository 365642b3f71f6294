/**
  The idempotency protocol of POST /v1/chain/verify (api/verify_endpoints.py).

  A request is two steps: Begin looks the receipt up and inserts the pending row, in one step;
  Finish records the adapter's outcome. Steps of different requests interleave freely, so every
  sequence of events is a possible run.

  The column confirmed_at holds a timestamp: what the adapter gives as text is parsed when it is
  stored and written out again when it is read. Both together are the function `stamp`.
 */
module ChainVerify {
  import opened Common

  datatype Status = Pending | Verified | Failed

  /** The fields of an adapter result that a replay returns. */
  datatype Proof = Proof(transactionReference: Option<string>, explorerUrl: Option<string>,
                         confirmedAt: Option<string>, chainSpecific: map<string, string>)

  /** A row as it is read: its confirmedAt is the text written out from the column. */
  datatype Row = Row(chain: string, status: Status, proof: Proof)

  /** The registered chains, and the text read back for a stored timestamp; None where the column refuses it. */
  datatype Service = Service(supported: set<string>, stamp: string -> Option<string>)

  const NO_PROOF := Proof(None, None, None, map[])

  datatype Attempt = Attempt(receipt: string, chain: string)

  /** The table chain_verifications and the requests whose adapter call is running. */
  datatype State = State(rows: map<string, Row>, running: map<nat, Attempt>)

  datatype AdapterOutcome =
    | AdapterVerified(proof: Proof)
    | AdapterRefused(chainSpecific: map<string, string>)
    /** verify_transaction raised: the row is left as it is. */
    | AdapterRaised

  datatype Event =
    | Begin(request: nat, receipt: string, chain: string)
    | Finish(request: nat, outcome: AdapterOutcome)

  datatype Reply =
    | UnsupportedChain
    | ChainMismatch(recorded: string)
    | Replay(chain: string, proof: Proof)
    | InProgress
    | AdapterCalled
    | VerifiedNow(chain: string, proof: Proof)
    | VerificationFailed
    | InternalError
    /** The event cannot happen: a request number in use, or one that is not running. */
    | NotEnabled

  function BeginStep(service: Service, s: State, e: Event): (State, Reply)
    requires e.Begin?
  {
    if e.request in s.running then (s, NotEnabled)
    else if e.chain !in service.supported then (s, UnsupportedChain)
    else if e.receipt in s.rows && s.rows[e.receipt].chain != e.chain then (s, ChainMismatch(s.rows[e.receipt].chain))
    else if e.receipt in s.rows && s.rows[e.receipt].status == Verified then
      (s, Replay(s.rows[e.receipt].chain, s.rows[e.receipt].proof))
    else if e.receipt in s.rows && s.rows[e.receipt].status == Pending then (s, InProgress)
    else (State(s.rows[e.receipt := Row(e.chain, Pending, NO_PROOF)],
                s.running[e.request := Attempt(e.receipt, e.chain)]), AdapterCalled)
  }

  /** What the row shows of an adapter's proof; None where confirmed_at cannot be stored. */
  function Stored(service: Service, proof: Proof): Option<Proof> {
    if proof.confirmedAt.None? then Some(proof)
    else
      var stamped := service.stamp(proof.confirmedAt.value);
      if stamped.None? then None else Some(proof.(confirmedAt := stamped))
  }

  function FinishStep(service: Service, s: State, e: Event): (State, Reply)
    requires e.Finish?
  {
    if e.request !in s.running then (s, NotEnabled)
    else
      var attempt, running := s.running[e.request], s.running - {e.request};
      match e.outcome
      case AdapterRaised => (State(s.rows, running), InternalError)
      case AdapterVerified(proof) =>
        var stored := Stored(service, proof);
        if stored.None? then (State(s.rows, running), InternalError)
        else (State(Recorded(s.rows, attempt.receipt, Verified, stored.value), running),
              VerifiedNow(attempt.chain, proof))
      case AdapterRefused(chainSpecific) =>
        var recorded := if attempt.receipt in s.rows then s.rows[attempt.receipt].proof else NO_PROOF;
        var proof := recorded.(chainSpecific := chainSpecific);
        (State(Recorded(s.rows, attempt.receipt, Failed, proof), running), VerificationFailed)
  }

  /** UPDATE ... WHERE receipt_reference = r: touches the row if it is there. */
  function Recorded(rows: map<string, Row>, receipt: string, status: Status, proof: Proof): map<string, Row> {
    if receipt in rows then rows[receipt := rows[receipt].(status := status, proof := proof)] else rows
  }

  function Step(service: Service, s: State, e: Event): (State, Reply) {
    if e.Begin? then BeginStep(service, s, e) else FinishStep(service, s, e)
  }

  function Run(service: Service, s: State, events: seq<Event>): State
    decreases |events|
  {
    if events == [] then s else Run(service, Step(service, s, events[0]).0, events[1..])
  }

  /** The handler over its table. */
  class ChainVerifier {
    const service: Service
    var rows: map<string, Row>
    var running: map<nat, Attempt>

    function Now(): State
      reads this
    {
      State(rows, running)
    }

    constructor (service: Service)
      ensures Now() == State(map[], map[]) && this.service == service
    {
      this.service := service;
      rows, running := map[], map[];
    }

    method BeginRequest(request: nat, receipt: string, chain: string) returns (reply: Reply)
      modifies this
      ensures (Now(), reply) == BeginStep(service, old(Now()), Begin(request, receipt, chain))
    {
      if request in running {
        return NotEnabled;
      }
      if chain !in service.supported {
        return UnsupportedChain;
      }
      if receipt in rows {
        var existing := rows[receipt];
        if existing.chain != chain {
          return ChainMismatch(existing.chain);
        }
        if existing.status == Verified {
          return Replay(existing.chain, existing.proof);
        }
        if existing.status == Pending {
          return InProgress;
        }
        rows := rows - {receipt};
      }
      rows := rows[receipt := Row(chain, Pending, NO_PROOF)];
      running := running[request := Attempt(receipt, chain)];
      assert rows == old(rows)[receipt := Row(chain, Pending, NO_PROOF)];
      return AdapterCalled;
    }

    method FinishRequest(request: nat, outcome: AdapterOutcome) returns (reply: Reply)
      modifies this
      ensures (Now(), reply) == FinishStep(service, old(Now()), Finish(request, outcome))
    {
      if request !in running {
        return NotEnabled;
      }
      var attempt := running[request];
      running := running - {request};
      match outcome
      case AdapterRaised =>
        return InternalError;
      case AdapterVerified(proof) =>
        var confirmedAt := proof.confirmedAt;
        if confirmedAt.Some? {
          confirmedAt := service.stamp(confirmedAt.value);
          if confirmedAt.None? {
            return InternalError;
          }
        }
        if attempt.receipt in rows {
          var stored := proof.(confirmedAt := confirmedAt);
          rows := rows[attempt.receipt := Row(rows[attempt.receipt].chain, Verified, stored)];
        }
        return VerifiedNow(attempt.chain, proof);
      case AdapterRefused(chainSpecific) =>
        if attempt.receipt in rows {
          var row := rows[attempt.receipt];
          rows := rows[attempt.receipt := Row(row.chain, Failed, row.proof.(chainSpecific := chainSpecific))];
        }
        return VerificationFailed;
    }
  }

  // ----- Invariant

  /** Every running adapter call has its pending row, and no receipt has two. */
  ghost predicate Consistent(s: State) {
    && (forall q :: q in s.running ==>
          var a := s.running[q];
          a.receipt in s.rows && s.rows[a.receipt].status == Pending && s.rows[a.receipt].chain == a.chain)
    && (forall q, q' :: q in s.running && q' in s.running && s.running[q].receipt == s.running[q'].receipt ==> q == q')
  }

  /** A receipt is never forgotten, its chain never changes, and a verified row never changes at all. */
  ghost predicate Evolves(s: State, s': State) {
    forall r :: r in s.rows ==>
      && r in s'.rows && s'.rows[r].chain == s.rows[r].chain
      && (s.rows[r].status == Verified ==> s'.rows[r] == s.rows[r])
  }

  lemma BeginKeeps(service: Service, s: State, e: Event)
    requires Consistent(s) && e.Begin?
    ensures Consistent(BeginStep(service, s, e).0) && Evolves(s, BeginStep(service, s, e).0)
  {
  }

  lemma FinishKeeps(service: Service, s: State, e: Event)
    requires Consistent(s) && e.Finish?
    ensures Consistent(FinishStep(service, s, e).0) && Evolves(s, FinishStep(service, s, e).0)
  {
  }

  lemma StepKeeps(service: Service, s: State, e: Event)
    requires Consistent(s)
    ensures Consistent(Step(service, s, e).0) && Evolves(s, Step(service, s, e).0)
  {
    hide Consistent, Evolves, BeginStep, FinishStep;
    if e.Begin? { BeginKeeps(service, s, e); } else { FinishKeeps(service, s, e); }
  }

  /**
    Over every interleaving: at most one adapter call per receipt is outstanding, the chain of a
    receipt never changes once recorded, and verified is absorbing.
   */
  lemma {:induction false} RunKeeps(service: Service, s: State, events: seq<Event>)
    requires Consistent(s)
    ensures Consistent(Run(service, s, events)) && Evolves(s, Run(service, s, events))
    decreases |events|
  {
    if events != [] {
      StepKeeps(service, s, events[0]);
      hide Step, Consistent;
      RunKeeps(service, Step(service, s, events[0]).0, events[1..]);
    }
  }

  // ----- Replays

  /**
    Once a receipt is verified, no adapter call for it runs or starts: a request for it is refused
    for its chain, or replays the outcome that was recorded first, whatever happened in between.
    Transaction reference, explorer URL and chain-specific data are those of the first reply;
    confirmed_at is its timestamp as the column writes it out.
   */
  lemma VerifiedIsReplayed(service: Service, s: State, finish: Event, events: seq<Event>, again: Event)
    requires Consistent(s) && finish.Finish? && finish.outcome.AdapterVerified? && finish.request in s.running
    requires FinishStep(service, s, finish).1.VerifiedNow?
    requires again.Begin? && again.receipt == s.running[finish.request].receipt
    ensures var (next, first) := FinishStep(service, s, finish);
            var later := Run(service, next, events);
            var (after, reply) := BeginStep(service, later, again);
            && first == VerifiedNow(s.running[finish.request].chain, finish.outcome.proof)
            && after == later
            && (forall q :: q in later.running ==> later.running[q].receipt != again.receipt)
            && (again.request !in later.running && again.chain in service.supported ==>
                  if again.chain != first.chain then reply == ChainMismatch(first.chain)
                  else
                    && reply.Replay? && reply.chain == first.chain
                    && reply.proof.transactionReference == first.proof.transactionReference
                    && reply.proof.explorerUrl == first.proof.explorerUrl
                    && reply.proof.chainSpecific == first.proof.chainSpecific
                    && reply.proof.confirmedAt ==
                         if first.proof.confirmedAt.None? then None else service.stamp(first.proof.confirmedAt.value))
  {
    var next := FinishStep(service, s, finish).0;
    StepKeeps(service, s, finish);
    RunKeeps(service, next, events);
    hide Run;
  }

  /** So a replay repeats the first reply word for word exactly when storing leaves the text of its timestamp alone. */
  lemma ReplayIsVerbatimIff(service: Service, s: State, finish: Event, events: seq<Event>, again: Event)
    requires Consistent(s) && finish.Finish? && finish.outcome.AdapterVerified? && finish.request in s.running
    requires FinishStep(service, s, finish).1.VerifiedNow?
    requires again.Begin? && again.receipt == s.running[finish.request].receipt
    requires again.chain == s.running[finish.request].chain && again.chain in service.supported
    requires again.request !in Run(service, FinishStep(service, s, finish).0, events).running
    ensures var proof := finish.outcome.proof;
            var later := Run(service, FinishStep(service, s, finish).0, events);
            BeginStep(service, later, again).1 == Replay(again.chain, proof)
            <==> proof.confirmedAt.Some? ==> service.stamp(proof.confirmedAt.value) == proof.confirmedAt
  {
    VerifiedIsReplayed(service, s, finish, events, again);
    hide BeginStep, FinishStep, Run, Consistent;
  }

  /** An adapter call starts exactly for a supported chain and a receipt that is new or failed on that same chain. */
  lemma AdapterCalledIff(service: Service, s: State, e: Event)
    requires e.Begin? && e.request !in s.running
    ensures BeginStep(service, s, e).1 == AdapterCalled
       <==> e.chain in service.supported &&
            (e.receipt in s.rows ==> s.rows[e.receipt].chain == e.chain && s.rows[e.receipt].status == Failed)
  {
  }

  /** The other answers to a request, each exactly for its cause. */
  lemma BeginRepliesIff(service: Service, s: State, e: Event)
    requires e.Begin? && e.request !in s.running
    ensures var (next, reply) := BeginStep(service, s, e);
            var known := e.chain in service.supported && e.receipt in s.rows;
            && (reply == UnsupportedChain <==> e.chain !in service.supported)
            && (reply.ChainMismatch? <==> known && s.rows[e.receipt].chain != e.chain)
            && (reply.Replay? <==> known && s.rows[e.receipt].chain == e.chain && s.rows[e.receipt].status == Verified)
            && (reply == InProgress <==>
                  known && s.rows[e.receipt].chain == e.chain && s.rows[e.receipt].status == Pending)
            && (reply != AdapterCalled ==> next == s)
            && (reply == AdapterCalled ==>
                  && next.rows == s.rows[e.receipt := Row(e.chain, Pending, Proof(None, None, None, map[]))]
                  && next.running == s.running[e.request := Attempt(e.receipt, e.chain)])
  {
  }

  /** What the outcome of an adapter call leaves: the answer, and the one row that it changes. */
  lemma FinishRecords(service: Service, s: State, e: Event)
    requires Consistent(s) && e.Finish? && e.request in s.running
    ensures var (next, reply) := FinishStep(service, s, e);
            var receipt := s.running[e.request].receipt;
            && next.running == s.running - {e.request} && next.rows.Keys == s.rows.Keys
            && (forall r :: r in s.rows && r != receipt ==> next.rows[r] == s.rows[r])
            && (e.outcome.AdapterRefused? ==>
                  && reply == VerificationFailed && next.rows[receipt].status == Failed
                  && next.rows[receipt].proof.chainSpecific == e.outcome.chainSpecific)
            && (reply.VerifiedNow? ==> e.outcome.AdapterVerified? && next.rows[receipt].status == Verified)
            && (reply == InternalError ==> next.rows == s.rows)
            && (e.outcome.AdapterVerified? && e.outcome.proof.confirmedAt.None? ==> reply.VerifiedNow?)
  {
  }

  /** Runs start without rows and without calls. */
  lemma StartIsConsistent(service: Service, events: seq<Event>)
    ensures Consistent(State(map[], map[])) && Consistent(Run(service, State(map[], map[]), events))
  {
    RunKeeps(service, State(map[], map[]), events);
  }

  /** After a refusal the receipt keeps its chain and may be tried again on that chain only. */
  lemma RefusedMayRetry(service: Service, s: State, finish: Event, again: Event)
    requires Consistent(s) && finish.Finish? && finish.outcome.AdapterRefused? && finish.request in s.running
    requires again.Begin? && again.receipt == s.running[finish.request].receipt && again.chain in service.supported
    requires again.request !in s.running
    ensures FinishStep(service, s, finish).1 == VerificationFailed
    ensures BeginStep(service, FinishStep(service, s, finish).0, again).1 ==
              if again.chain == s.running[finish.request].chain then AdapterCalled
              else ChainMismatch(s.running[finish.request].chain)
  {
  }

  // ----- Abandoned receipts

  /** A pending row whose adapter call is not running any more. */
  ghost predicate Abandoned(s: State, receipt: string) {
    && receipt in s.rows && s.rows[receipt].status == Pending
    && forall q :: q in s.running ==> s.running[q].receipt != receipt
  }

  /** An adapter that raises, or gives a timestamp that cannot be stored, abandons its receipt. */
  lemma RaisingAbandons(service: Service, s: State, e: Event)
    requires Consistent(s) && e.Finish? && e.request in s.running
    requires e.outcome.AdapterRaised? || (e.outcome.AdapterVerified? && Stored(service, e.outcome.proof).None?)
    ensures Abandoned(FinishStep(service, s, e).0, s.running[e.request].receipt)
  {
  }

  /** An abandoned receipt stays in progress for ever: no run gets an adapter call for it again. */
  lemma {:induction false} AbandonedForEver(service: Service, s: State, events: seq<Event>,
                                            receipt: string, again: Event)
    requires Abandoned(s, receipt) && again.Begin? && again.receipt == receipt
    ensures Abandoned(Run(service, s, events), receipt)
    ensures BeginStep(service, Run(service, s, events), again).1 != AdapterCalled
    decreases |events|
  {
    if events != [] {
      var next := Step(service, s, events[0]).0;
      assert Abandoned(next, receipt);
      AbandonedForEver(service, next, events[1..], receipt, again);
    }
  }
}
