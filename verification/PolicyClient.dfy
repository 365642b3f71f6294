/**
  The policy consultation of api/policy_client.py: what it decides, what it logs, how often it lets
  an engine be called; and `_consult_policy` of api/api-server-v2.py, the one caller, which turns
  the answer into going on with a write or refusing it.

  The engine's HTTP answer, the signature verifier's answer and database failures are inputs.
 */
module PolicyClient {
  import opened Common
  import opened RateLimiter

  datatype Decision = Permit | Deny | PendingApproval | Unavailable | SignatureInvalid

  /** The "decision" field of the response: absent counts as "", and a non-string has no lower(). */
  datatype DecisionField = Text(text: string) | NotText

  /** What comes back from the engine. NotAnObject is a 200 answer whose JSON is no object. */
  datatype Reply =
    | TimedOut
    | TransportError
    | Status(code: int)
    | NotAnObject
    | Answer(decision: DecisionField, signed: bool)

  /** get_engine */
  datatype Lookup = LookupFails | NoEngine | Engine(url: string)

  /** One consultation. `verifier` is the verifier's verdict on a signed answer, if there is a verifier. */
  datatype Consultation = Consultation(
    call: Call,
    engine: Lookup,
    verifier: Option<bool>,
    reply: Reply,
    logWritable: bool)

  datatype LogRow = LogRow(org: int, engineUrl: string, decision: Decision)

  function LowerChar(c: char): char {
    if 'A' <= c <= 'Z' then (c as int + 32) as char else c
  }

  /** str.lower() as far as the comparison with the three ASCII words can tell. */
  function Lower(s: string): string {
    seq(|s|, i requires 0 <= i < |s| => LowerChar(s[i]))
  }

  function ParseDecision(text: string): Decision {
    var word := Lower(text);
    if word == "permit" then Permit
    else if word == "deny" then Deny
    else if word == "pending_approval" then PendingApproval
    else Unavailable
  }

  class Client {
    var limits: RateLimits
    var log: seq<LogRow>

    ghost function Now(): State
      reads this, limits
    {
      State(limits.windows, log)
    }

    constructor ()
      ensures fresh(limits) && Now() == State(map[], [])
    {
      limits := new RateLimits();
      log := [];
    }

    /** log_consultation and the return after it; None stands for the exception of a failed insert. */
    method Record(row: LogRow, logWritable: bool) returns (decision: Option<Decision>)
      modifies this`log
      ensures decision == if logWritable then Some(row.decision) else None
      ensures log == old(log) + (if logWritable then [row] else [])
    {
      if !logWritable {
        return None;
      }
      log := log + [row];
      return Some(row.decision);
    }

    /** consult_policy_engine; None stands for an exception that leaves it. */
    method Consult(q: Consultation) returns (decision: Option<Decision>)
      modifies this`log, limits
      ensures (Now(), decision) == Step(old(Now()), q)
    {
      assert log + [] == log;
      if q.engine.LookupFails? {
        return None;
      }
      if q.engine.NoEngine? {
        decision := Record(LogRow(q.call.org, "none", Permit), q.logWritable);
        return;
      }
      var url := q.engine.url;
      var withinLimit := limits.CheckRateLimit(q.call.org, q.call.at);
      if !withinLimit {
        decision := Record(LogRow(q.call.org, url, Unavailable), q.logWritable);
        return;
      }
      match q.reply
      case Status(code) =>
        decision := Record(LogRow(q.call.org, url, Unavailable), q.logWritable);
      case TimedOut =>
        decision := Record(LogRow(q.call.org, url, Unavailable), q.logWritable);
      case TransportError =>
        decision := Record(LogRow(q.call.org, url, Unavailable), q.logWritable);
      case NotAnObject =>
        decision := None;
      case Answer(field, signed) =>
        if q.verifier.Some? && signed && !q.verifier.value {
          decision := Record(LogRow(q.call.org, url, SignatureInvalid), q.logWritable);
        } else if field.NotText? {
          decision := None;
        } else {
          decision := Record(LogRow(q.call.org, url, ParseDecision(field.text)), q.logWritable);
        }
    }

    /** _consult_policy: any exception but its own refusals lets the write go on. */
    method ConsultPolicy(write: Write) returns (answer: WriteAnswer)
      modifies this`log, limits
      ensures (Now(), answer) == WriteStep(old(Now()), write)
    {
      if !write.hasOrg {
        return Proceeds;
      }
      if !write.connects {
        return Proceeds;
      }
      var decision := Consult(ConsultationOf(write));
      match decision
      case None => return Proceeds;
      case Some(Permit) => return Proceeds;
      case Some(Deny) => return Refused(403);
      case Some(PendingApproval) => return Refused(202);
      case _ => return Refused(503);
    }
  }

  // ----- The consultation as a step

  /** The limiter's table and the consultation log. */
  datatype State = State(windows: Windows, log: seq<LogRow>)

  function EngineName(q: Consultation): string {
    if q.engine.Engine? then q.engine.url else "none"
  }

  function Outcome(windows: Windows, q: Consultation): Option<Decision> {
    if q.engine.LookupFails? || !q.logWritable then None
    else if q.engine.NoEngine? then Some(Permit)
    else if !Check(windows, q.call).1 then Some(Unavailable)
    else match q.reply
      case NotAnObject => None
      case Answer(field, signed) =>
        if q.verifier == Some(false) && signed then Some(SignatureInvalid)
        else if field.NotText? then None
        else Some(ParseDecision(field.text))
      case _ => Some(Unavailable)
  }

  function Step(s: State, q: Consultation): (State, Option<Decision>) {
    var decision := Outcome(s.windows, q);
    (State(if q.engine.Engine? then Check(s.windows, q.call).0 else s.windows,
           s.log + if decision.Some? then [LogRow(q.call.org, EngineName(q), decision.value)] else []),
     decision)
  }

  // ----- One consultation

  /** The engine is called: it is registered and the limiter admits the call. */
  predicate CallsEngine(windows: Windows, q: Consultation) {
    q.engine.Engine? && Check(windows, q.call).1
  }

  /** The engine was called and gave a usable answer that its signature does not disqualify. */
  predicate Trusted(windows: Windows, q: Consultation) {
    CallsEngine(windows, q) && q.reply.Answer? && !(q.reply.signed && q.verifier == Some(false))
  }

  /** An exception leaves the consultation: the database fails, or the engine's answer has the wrong shape. */
  predicate Raises(windows: Windows, q: Consultation) {
    || q.engine.LookupFails? || !q.logWritable
    || (CallsEngine(windows, q) && q.reply.NotAnObject?)
    || (Trusted(windows, q) && q.reply.decision.NotText?)
  }

  /**
    The returned decision is fail-closed: with an engine registered it is Permit only for a trusted
    answer that spells "permit" in any letter case. Without an engine it is Permit.
   */
  lemma PermittedIff(windows: Windows, q: Consultation)
    ensures Outcome(windows, q) == Some(Permit)
       <==> !Raises(windows, q) &&
            (q.engine.NoEngine? || (Trusted(windows, q) && Lower(q.reply.decision.text) == "permit"))
  {
  }

  /** A consultation returns a decision, and logs it, exactly when no exception leaves it. */
  lemma LoggedIff(windows: Windows, q: Consultation)
    ensures Outcome(windows, q).Some? <==> !Raises(windows, q)
  {
  }

  /** The other decisions: each is returned exactly for its cause. */
  lemma DecisionIff(windows: Windows, q: Consultation)
    requires !Raises(windows, q)
    ensures Outcome(windows, q) == Some(SignatureInvalid)
       <==> CallsEngine(windows, q) && q.reply.Answer? && q.reply.signed && q.verifier == Some(false)
    ensures Outcome(windows, q) == Some(Deny) <==> Trusted(windows, q) && Lower(q.reply.decision.text) == "deny"
    ensures Outcome(windows, q) == Some(PendingApproval)
       <==> Trusted(windows, q) && Lower(q.reply.decision.text) == "pending_approval"
    ensures Outcome(windows, q) == Some(Unavailable)
       <==> && q.engine.Engine?
            && (CallsEngine(windows, q) && q.reply.Answer? ==>
                  Trusted(windows, q) && Lower(q.reply.decision.text) !in {"permit", "deny", "pending_approval"})
  {
    hide Check, Lower;
  }

  /** The row that a returning consultation leaves: its organisation, the engine's URL or "none", its decision. */
  lemma LoggedRow(s: State, q: Consultation)
    requires !Raises(s.windows, q)
    ensures Step(s, q).1.Some? && |Step(s, q).0.log| == |s.log| + 1 && s.log <= Step(s, q).0.log
    ensures var row := Step(s, q).0.log[|s.log|];
            && row.org == q.call.org && row.decision == Step(s, q).1.value
            && row.engineUrl == match q.engine case Engine(url) => url case _ => "none"
  {
    LoggedIff(s.windows, q);
    hide Outcome, Raises, Check;
  }

  /** Lower-casing changes the letters A to Z, to the letters a to z in their order, and nothing else. */
  lemma LowerMeaning(s: string, i: nat)
    requires i < |s|
    ensures |Lower(s)| == |s|
    ensures if 'A' <= s[i] <= 'Z' then Lower(s)[i] as int - 'a' as int == s[i] as int - 'A' as int
            else Lower(s)[i] == s[i]
  {
  }

  // ----- The write path

  /** One write that consults the policy. The write path passes no signature verifier. */
  datatype Write = Write(
    hasOrg: bool,
    connects: bool,
    call: Call,
    engine: Lookup,
    reply: Reply,
    logWritable: bool)

  datatype WriteAnswer = Proceeds | Refused(status: nat)

  function ConsultationOf(write: Write): Consultation {
    Consultation(write.call, write.engine, None, write.reply, write.logWritable)
  }

  function WriteStep(s: State, write: Write): (State, WriteAnswer) {
    if !write.hasOrg || !write.connects then (s, Proceeds)
    else
      var (next, decision) := Step(s, ConsultationOf(write));
      (next, match decision
             case None => Proceeds
             case Some(Permit) => Proceeds
             case Some(Deny) => Refused(403)
             case Some(PendingApproval) => Refused(202)
             case _ => Refused(503))
  }

  /**
    The write path is not fail-closed. A write goes on exactly without an organisation or an engine,
    on an answer that spells "permit" (signed or not, for nobody verifies it here), or when
    something raises. It leaves a log row exactly if it consulted and nothing raised.
   */
  lemma WriteProceedsIff(s: State, write: Write)
    ensures WriteStep(s, write).1 == Proceeds
       <==> || !write.hasOrg || !write.connects || write.engine.NoEngine?
            || Raises(s.windows, ConsultationOf(write))
            || (CallsEngine(s.windows, ConsultationOf(write)) && write.reply.Answer? &&
                Lower(write.reply.decision.text) == "permit")
    ensures |WriteStep(s, write).0.log| == |s.log| + 1
       <==> write.hasOrg && write.connects && !Raises(s.windows, ConsultationOf(write))
  {
    PermittedIff(s.windows, ConsultationOf(write));
    LoggedIff(s.windows, ConsultationOf(write));
    hide ParseDecision, Check, Lower;
  }

  /** A refusal is 403 exactly for an answer that spells "deny", and 202 exactly for "pending_approval". */
  lemma WriteRefusedIff(s: State, write: Write)
    ensures var answered := write.hasOrg && write.connects && !Raises(s.windows, ConsultationOf(write)) &&
                            CallsEngine(s.windows, ConsultationOf(write)) && write.reply.Answer?;
            && (WriteStep(s, write).1 == Refused(403) <==>
                  answered && Lower(write.reply.decision.text) == "deny")
            && (WriteStep(s, write).1 == Refused(202) <==>
                  answered && Lower(write.reply.decision.text) == "pending_approval")
            && (WriteStep(s, write).1.Refused? ==> WriteStep(s, write).1.status in {403, 202, 503})
  {
    hide Check, Lower;
  }

  /**
    Inputs: an organisation's first write goes on unlogged when its engine answers with a JSON array
    or with a null decision, and it goes on even on "deny" when the log cannot be written.
   */
  lemma RaisingWriteProceeds(org: int, at: real, url: string, reply: Reply, logWritable: bool)
    requires reply in {NotAnObject, Answer(NotText, false)} || (reply == Answer(Text("deny"), true) && !logWritable)
    ensures WriteStep(State(map[], []), Write(true, true, Call(org, at), Engine(url), reply, logWritable))
         == (State(map[org := Window(1, at)], []), Proceeds)
  {
    assert Check(map[], Call(org, at)) == (map[org := Window(1, at)], true);
    var log: seq<LogRow> := [];
    assert log + [] == log;
  }

  // ----- Runs of consultations

  /** The state after the first n consultations of a run that starts empty. */
  function After(qs: seq<Consultation>, n: nat): State
    requires n <= |qs|
  {
    if n == 0 then State(map[], []) else Step(After(qs, n - 1), qs[n - 1]).0
  }

  ghost predicate ClockMonotone(qs: seq<Consultation>) {
    forall i, j :: 0 <= i <= j < |qs| ==> qs[i].call.at <= qs[j].call.at
  }

  /** How often the engine of an organisation is called in [from, from + length), among the first n. */
  function EngineCalls(qs: seq<Consultation>, n: nat, org: int, from: real, length: real): nat
    requires n <= |qs|
  {
    if n == 0 then 0
    else
      var q := qs[n - 1];
      var called := q.call.org == org && CallsEngine(After(qs, n - 1).windows, q);
      EngineCalls(qs, n - 1, org, from, length) + if called && from <= q.call.at < from + length then 1 else 0
  }

  /** What reaches the limiter: the calls of consultations that found an engine. */
  function LimitedCalls(qs: seq<Consultation>, n: nat): seq<Call>
    requires n <= |qs|
  {
    if n == 0 then []
    else LimitedCalls(qs, n - 1) + if qs[n - 1].engine.Engine? then [qs[n - 1].call] else []
  }

  /** The run drives the limiter through exactly those calls, and its engine calls are those admitted. */
  lemma {:induction false} LimiterSeesLimitedCalls(qs: seq<Consultation>, n: nat, org: int, from: real, length: real)
    requires n <= |qs|
    ensures var calls := LimitedCalls(qs, n);
            && After(qs, n).windows == RateLimiter.After(calls, |calls|)
            && EngineCalls(qs, n, org, from, length) == AdmittedIn(calls, |calls|, org, from, length)
  {
    if n > 0 {
      LimiterSeesLimitedCalls(qs, n - 1, org, from, length);
      var calls := LimitedCalls(qs, n - 1);
      if qs[n - 1].engine.Engine? {
        AfterPrefix(calls, [qs[n - 1].call], |calls|);
        AdmittedInPrefix(calls, [qs[n - 1].call], |calls|, org, from, length);
        assert LimitedCalls(qs, n)[|calls|] == qs[n - 1].call;
        hide Check, Outcome;
      } else {
        assert LimitedCalls(qs, n) == calls;
      }
    }
  }

  lemma {:induction false} LimitedCallsMonotone(qs: seq<Consultation>, n: nat)
    requires n <= |qs| && ClockMonotone(qs)
    ensures RateLimiter.ClockMonotone(LimitedCalls(qs, n))
    ensures forall i :: 0 <= i < |LimitedCalls(qs, n)| ==> n > 0 && LimitedCalls(qs, n)[i].at <= qs[n - 1].call.at
  {
    if n > 0 {
      LimitedCallsMonotone(qs, n - 1);
    }
  }

  /**
    However an organisation's writes mix consultations that reach its engine with ones that do not,
    its engine is called at most 100 * ceil(L) + 99 times in any half-open interval of length L.
   */
  lemma EngineCallsBounded(qs: seq<Consultation>, org: int, from: real, length: real)
    requires ClockMonotone(qs) && length > 0.0
    ensures EngineCalls(qs, |qs|, org, from, length) <= RATE_LIMIT_PER_SEC * Ceil(length) + RATE_LIMIT_PER_SEC - 1
  {
    LimiterSeesLimitedCalls(qs, |qs|, org, from, length);
    LimitedCallsMonotone(qs, |qs|);
    SlidingWindowBound(LimitedCalls(qs, |qs|), org, from, length);
  }

  /** The consultation to which log row i belongs: as many before it returned as there are rows before. */
  ghost predicate LoggedAt(qs: seq<Consultation>, k: nat, i: nat)
    requires k < |qs|
  {
    && |After(qs, k).log| == i && !Raises(After(qs, k).windows, qs[k])
    && i < |After(qs, |qs|).log|
    && var row := After(qs, |qs|).log[i];
    && row.org == qs[k].call.org && row.engineUrl == EngineName(qs[k])
    && Some(row.decision) == Outcome(After(qs, k).windows, qs[k])
  }

  /** The log only grows at its end. */
  lemma {:induction false} LogGrows(qs: seq<Consultation>, k: nat, n: nat)
    requires k <= n <= |qs|
    ensures After(qs, k).log <= After(qs, n).log
  {
    if k < n {
      hide Outcome, Check;
      LogGrows(qs, k, n - 1);
    }
  }

  /** A consultation that returned has its row in the final log, and one that raised adds none. */
  lemma ReturnedIsLogged(qs: seq<Consultation>, k: nat)
    requires k < |qs|
    ensures !Raises(After(qs, k).windows, qs[k]) <==> LoggedAt(qs, k, |After(qs, k).log|)
    ensures |After(qs, k + 1).log| == |After(qs, k).log| + if Raises(After(qs, k).windows, qs[k]) then 0 else 1
  {
    LoggedIff(After(qs, k).windows, qs[k]);
    LogGrows(qs, k + 1, |qs|);
    hide Outcome, Check, Raises;
  }

  /** The log holds nothing else: each row belongs to exactly one consultation, in their order. */
  lemma {:induction false} LogIsExact(qs: seq<Consultation>, n: nat, i: nat)
    requires n <= |qs| && i < |After(qs, n).log|
    ensures exists k: nat :: k < n && LoggedAt(qs, k, i)
    ensures forall j, k :: 0 <= j < |qs| && 0 <= k < |qs| && LoggedAt(qs, j, i) && LoggedAt(qs, k, i) ==> j == k
  {
    ReturnedIsLogged(qs, n - 1);
    hide Raises, Outcome, Check;
    if i < |After(qs, n - 1).log| {
      LogIsExact(qs, n - 1, i);
    }
    forall j, k | 0 <= j < k < |qs| && LoggedAt(qs, j, i) ensures !LoggedAt(qs, k, i) {
      ReturnedIsLogged(qs, j);
      LogGrows(qs, j + 1, k);
    }
  }
}
