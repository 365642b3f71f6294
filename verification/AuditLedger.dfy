/**
  The audit ledger: ingest of activities and receipts (api/audit_store.py), matching
  (api/audit_matcher.py), anomaly recording (api/audit_anomalies.py) and the order in which the
  receipt endpoint runs them (api/audit_routes.py).

  Rows are identified by their position in their table, and timestamps are seconds as reals.
 */
module AuditLedger {
  import opened Common

  /** The fields of an activity credential that matching and coverage look at; None is a missing field. */
  datatype ActivityFields = ActivityFields(
    credentialId: Option<string>,
    agentDid: Option<string>,
    activityType: Option<string>,
    timestamp: Option<real>,
    counterpartyDid: Option<string>,
    expectsReceipt: bool,
    reference: Option<string>)

  datatype ReceiptFields = ReceiptFields(
    credentialId: Option<string>,
    counterpartyDid: Option<string>,
    agentDid: Option<string>,
    activityType: Option<string>,
    acknowledgmentType: Option<string>,
    timestamp: Option<real>,
    reference: Option<string>,
    rail: Option<string>)

  datatype Activity = Activity(
    credentialId: string,
    agentDid: string,
    timestamp: real,
    counterpartyDid: Option<string>,
    expectsReceipt: bool,
    reference: Option<string>)

  datatype Receipt = Receipt(
    credentialId: string,
    counterpartyDid: string,
    agentDid: string,
    timestamp: real,
    reference: Option<string>,
    rail: Option<string>,
    matched: Option<nat>)

  /** An UnmatchedReceiptAnomaly and the receipt its payload names. */
  datatype Anomaly = Anomaly(agentDid: string, receiptId: nat)

  datatype Ledger = Ledger(activities: seq<Activity>, receipts: seq<Receipt>, anomalies: seq<Anomaly>)

  const EMPTY := Ledger([], [], [])

  /** Python truth of an optional string. */
  predicate Truthy(s: Option<string>) {
    s.Some? && s.value != ""
  }

  // ----- Matching

  const DEFAULT_TOLERANCE_SECONDS: int := 120

  const RAIL_FINALITY_SECONDS: map<string, real> :=
    map["trc20" := 3.0, "tron" := 3.0, "lightning" := 1.0, "solana" := 2.5]

  function GetMatchTolerance(rail: Option<string>): int {
    if Truthy(rail) && rail.value in RAIL_FINALITY_SECONDS then
      var railTolerance := (5.0 * RAIL_FINALITY_SECONDS[rail.value]).Floor;
      if railTolerance > DEFAULT_TOLERANCE_SECONDS then railTolerance else DEFAULT_TOLERANCE_SECONDS
    else DEFAULT_TOLERANCE_SECONDS
  }

  /** No configured rail exceeds the floor: the tolerance is two minutes for all of them. */
  lemma ToleranceIsTheFloor(rail: Option<string>)
    ensures GetMatchTolerance(rail) == DEFAULT_TOLERANCE_SECONDS
  {
  }

  function Distance(a: Activity, r: Receipt): real {
    if a.timestamp >= r.timestamp then a.timestamp - r.timestamp else r.timestamp - a.timestamp
  }

  /** The WHERE clause of find_matching_activity. */
  predicate Qualifies(a: Activity, r: Receipt) {
    && a.agentDid == r.agentDid
    && a.counterpartyDid == Some(r.counterpartyDid)
    && r.reference.Some? && a.reference == r.reference
    && Distance(a, r) <= GetMatchTolerance(r.rail) as real
  }

  lemma QualifiesMeaning(a: Activity, r: Receipt)
    ensures Qualifies(a, r) <==>
            && a.agentDid == r.agentDid && a.counterpartyDid == Some(r.counterpartyDid)
            && r.reference.Some? && a.reference.Some? && a.reference.value == r.reference.value
            && -120.0 <= a.timestamp - r.timestamp <= 120.0
  {
    ToleranceIsTheFloor(r.rail);
  }

  predicate Matchable(r: Receipt) {
    r.agentDid != "" && r.counterpartyDid != "" && Truthy(r.reference)
  }

  /**
    The answer matching may give: None when nothing qualifies (or the receipt cannot be matched),
    otherwise a qualifying activity that no qualifying activity is closer than. On ties the
    database is free to choose.
   */
  ghost predicate IsMatch(activities: seq<Activity>, r: Receipt, matched: Option<nat>) {
    if !Matchable(r) then matched.None?
    else match matched
      case None => forall a :: 0 <= a < |activities| ==> !Qualifies(activities[a], r)
      case Some(m) =>
        m < |activities| && Qualifies(activities[m], r) &&
        forall a :: 0 <= a < |activities| && Qualifies(activities[a], r) ==>
          Distance(activities[m], r) <= Distance(activities[a], r)
  }

  /** Both are about one transaction between one agent and one counterparty. */
  predicate SameTransaction(a: Activity, r: Receipt) {
    && a.agentDid == r.agentDid && a.counterpartyDid == Some(r.counterpartyDid)
    && r.reference.Some? && a.reference.Some? && a.reference.value == r.reference.value
  }

  function AbsoluteValue(x: real): (y: real)
    ensures y >= 0.0 && (y == x || y == -x)
  {
    if x < 0.0 then -x else x
  }

  /**
    The match of r is the activity of its transaction that is nearest in time, within two minutes; there
    is none exactly if there is no such activity, or agent, counterparty or reference are empty.
   */
  ghost predicate NearestAmong(activities: seq<Activity>, r: Receipt) {
    match r.matched
    case Some(m) =>
      && m < |activities| && SameTransaction(activities[m], r)
      && r.agentDid != "" && r.counterpartyDid != "" && r.reference != Some("")
      && AbsoluteValue(activities[m].timestamp - r.timestamp) <= 120.0
      && forall a :: 0 <= a < |activities| && SameTransaction(activities[a], r) ==>
           AbsoluteValue(activities[m].timestamp - r.timestamp) <= AbsoluteValue(activities[a].timestamp - r.timestamp)
    case None =>
      || r.agentDid == "" || r.counterpartyDid == "" || r.reference.None? || r.reference.value == ""
      || forall a :: 0 <= a < |activities| && SameTransaction(activities[a], r) ==>
           AbsoluteValue(activities[a].timestamp - r.timestamp) > 120.0
  }

  /** What matching answers, by the timestamps alone. */
  lemma MatchIsNearest(activities: seq<Activity>, r: Receipt, matched: Option<nat>)
    ensures IsMatch(activities, r, matched) <==> NearestAmong(activities, r.(matched := matched))
  {
    var r' := r.(matched := matched);
    forall a | 0 <= a < |activities|
      ensures Qualifies(activities[a], r) <==>
                SameTransaction(activities[a], r') && AbsoluteValue(activities[a].timestamp - r.timestamp) <= 120.0
      ensures Distance(activities[a], r) == AbsoluteValue(activities[a].timestamp - r.timestamp)
    {
      QualifiesMeaning(activities[a], r);
    }
    hide Qualifies, GetMatchTolerance, Distance, SameTransaction, AbsoluteValue;
  }

  // ----- Ingest

  predicate HasActivity(l: Ledger, credentialId: Option<string>) {
    credentialId.Some? && exists i :: 0 <= i < |l.activities| && l.activities[i].credentialId == credentialId.value
  }

  predicate HasReceipt(l: Ledger, credentialId: Option<string>) {
    credentialId.Some? && exists i :: 0 <= i < |l.receipts| && l.receipts[i].credentialId == credentialId.value
  }

  /** The NOT NULL columns are there. */
  predicate CompleteActivity(f: ActivityFields) {
    f.credentialId.Some? && f.agentDid.Some? && f.activityType.Some? && f.timestamp.Some?
  }

  predicate CompleteReceipt(f: ReceiptFields) {
    f.credentialId.Some? && f.counterpartyDid.Some? && f.agentDid.Some? && f.activityType.Some? &&
    f.acknowledgmentType.Some? && f.timestamp.Some?
  }

  function NewActivity(f: ActivityFields): Activity
    requires CompleteActivity(f)
  {
    Activity(f.credentialId.value, f.agentDid.value, f.timestamp.value,
             f.counterpartyDid, f.expectsReceipt, f.reference)
  }

  function NewReceipt(f: ReceiptFields, matched: Option<nat>): Receipt
    requires CompleteReceipt(f)
  {
    Receipt(f.credentialId.value, f.counterpartyDid.value, f.agentDid.value, f.timestamp.value,
            f.reference, f.rail, matched)
  }

  datatype Event = ActivityIn(activity: ActivityFields) | ReceiptIn(receipt: ReceiptFields)

  /** A row carries the fields of its credential. */
  predicate ActivityRow(f: ActivityFields, a: Activity) {
    && f.credentialId == Some(a.credentialId) && f.agentDid == Some(a.agentDid) && f.timestamp == Some(a.timestamp)
    && f.counterpartyDid == a.counterpartyDid && f.expectsReceipt == a.expectsReceipt && f.reference == a.reference
  }

  predicate ReceiptRow(f: ReceiptFields, r: Receipt) {
    && f.credentialId == Some(r.credentialId) && f.counterpartyDid == Some(r.counterpartyDid)
    && f.agentDid == Some(r.agentDid) && f.timestamp == Some(r.timestamp)
    && f.reference == r.reference && f.rail == r.rail
  }

  /** The anomaly that follows an unmatched receipt with a reference. */
  function Reported(receiptId: nat, r: Receipt): seq<Anomaly> {
    if r.matched.None? && Truthy(r.reference) then [Anomaly(r.agentDid, receiptId)] else []
  }

  /** A new receipt r enters the ledger with the match it carries. */
  ghost predicate ReceiptEnters(l: Ledger, r: Receipt, l': Ledger) {
    && IsMatch(l.activities, r.(matched := None), r.matched)
    && l' == Ledger(l.activities, l.receipts + [r], l.anomalies + Reported(|l.receipts|, r))
  }

  /** One ingest request as one step. Replays and incomplete credentials change nothing. */
  ghost predicate Next(l: Ledger, e: Event, l': Ledger) {
    match e
    case ActivityIn(f) =>
      if HasActivity(l, f.credentialId) || !CompleteActivity(f) then l' == l
      else l' == l.(activities := l.activities + [NewActivity(f)])
    case ReceiptIn(f) =>
      if HasReceipt(l, f.credentialId) || !CompleteReceipt(f) then l' == l
      else exists m :: ReceiptEnters(l, NewReceipt(f, m), l')
  }

  datatype Ingest = Existing(id: nat) | Inserted(id: nat) | IntegrityError

  /** The answer to a receipt: the ingest result, the match it shows, and whether it names an anomaly. */
  datatype ReceiptReply = ReceiptReply(ingest: Ingest, matched: Option<nat>, reported: bool)

  /** The reply tells which row the receipt has, what that row matches, and whether an anomaly was added. */
  ghost predicate Answers(l: Ledger, f: ReceiptFields, l': Ledger, reply: ReceiptReply) {
    && (reply.ingest.Existing? <==> HasReceipt(l, f.credentialId))
    && (reply.ingest.IntegrityError? <==> !HasReceipt(l, f.credentialId) && !CompleteReceipt(f))
    && (reply.ingest.Inserted? ==> reply.ingest.id == |l.receipts|)
    && (reply.reported <==> l'.anomalies != l.anomalies)
    && (!reply.ingest.IntegrityError? ==>
          && reply.ingest.id < |l'.receipts|
          && Some(l'.receipts[reply.ingest.id].credentialId) == f.credentialId
          && reply.matched == l'.receipts[reply.ingest.id].matched)
  }

  class AuditStore {
    var activities: seq<Activity>
    var receipts: seq<Receipt>
    var anomalies: seq<Anomaly>

    function Now(): Ledger
      reads this
    {
      Ledger(activities, receipts, anomalies)
    }

    constructor ()
      ensures Now() == EMPTY
    {
      activities, receipts, anomalies := [], [], [];
    }

    method FindActivityId(credentialId: Option<string>) returns (id: Option<nat>)
      ensures id.Some? <==> HasActivity(Now(), credentialId)
      ensures id.Some? ==> id.value < |activities| && Some(activities[id.value].credentialId) == credentialId
    {
      if credentialId.Some? {
        for i := 0 to |activities|
          invariant forall j :: 0 <= j < i ==> activities[j].credentialId != credentialId.value
        {
          if activities[i].credentialId == credentialId.value {
            return Some(i);
          }
        }
      }
      return None;
    }

    method FindReceiptId(credentialId: Option<string>) returns (id: Option<nat>)
      ensures id.Some? <==> HasReceipt(Now(), credentialId)
      ensures id.Some? ==> id.value < |receipts| && Some(receipts[id.value].credentialId) == credentialId
    {
      if credentialId.Some? {
        for i := 0 to |receipts|
          invariant forall j :: 0 <= j < i ==> receipts[j].credentialId != credentialId.value
        {
          if receipts[i].credentialId == credentialId.value {
            return Some(i);
          }
        }
      }
      return None;
    }

    /** ingest_activity */
    method IngestActivity(f: ActivityFields) returns (result: Ingest)
      modifies this`activities
      ensures Next(old(Now()), ActivityIn(f), Now())
      ensures result.Existing? <==> HasActivity(old(Now()), f.credentialId)
      ensures result.IntegrityError? <==> !HasActivity(old(Now()), f.credentialId) && !CompleteActivity(f)
      ensures !result.IntegrityError? ==>
                result.id < |activities| && Some(activities[result.id].credentialId) == f.credentialId
    {
      var existing := FindActivityId(f.credentialId);
      if existing.Some? {
        return Existing(existing.value);
      }
      if !CompleteActivity(f) {
        return IntegrityError;
      }
      activities := activities + [NewActivity(f)];
      return Inserted(|activities| - 1);
    }

    /** ingest_receipt: a new row starts unmatched. */
    method IngestReceipt(f: ReceiptFields) returns (result: Ingest)
      modifies this`receipts
      ensures result.Existing? <==> HasReceipt(old(Now()), f.credentialId)
      ensures result.IntegrityError? <==> !HasReceipt(old(Now()), f.credentialId) && !CompleteReceipt(f)
      ensures result.Existing? ==>
                result.id < |receipts| && Some(receipts[result.id].credentialId) == f.credentialId
      ensures if result.Inserted? then result.id == |old(receipts)| && receipts == old(receipts) + [NewReceipt(f, None)]
              else receipts == old(receipts)
    {
      var existing := FindReceiptId(f.credentialId);
      if existing.Some? {
        return Existing(existing.value);
      }
      if !CompleteReceipt(f) {
        return IntegrityError;
      }
      receipts := receipts + [NewReceipt(f, None)];
      return Inserted(|receipts| - 1);
    }

    /** attempt_match with find_matching_activity: the guard, then the nearest qualifying activity. */
    method AttemptMatch(r: Receipt) returns (matched: Option<nat>)
      ensures IsMatch(activities, r, matched)
      ensures NearestAmong(activities, r.(matched := matched))
    {
      if r.agentDid == "" || r.counterpartyDid == "" || !Truthy(r.reference) {
        MatchIsNearest(activities, r, None);
        return None;
      }
      matched := None;
      for i := 0 to |activities|
        invariant IsMatch(activities[..i], r, matched)
      {
        if Qualifies(activities[i], r) &&
           (matched.None? || Distance(activities[i], r) < Distance(activities[matched.value], r)) {
          matched := Some(i);
        }
      }
      assert activities[..|activities|] == activities;
      MatchIsNearest(activities, r, matched);
    }

    /** set_receipt_match */
    method SetReceiptMatch(receiptId: nat, activityId: nat)
      requires receiptId < |receipts|
      modifies this`receipts
      ensures receipts == old(receipts)[receiptId := old(receipts)[receiptId].(matched := Some(activityId))]
    {
      receipts := receipts[receiptId := receipts[receiptId].(matched := Some(activityId))];
    }

    /** match_and_link */
    method MatchAndLink(receiptId: nat) returns (matched: Option<nat>)
      requires receiptId < |receipts| && receipts[receiptId].matched.None?
      modifies this`receipts
      ensures IsMatch(activities, old(receipts)[receiptId], matched)
      ensures receipts == old(receipts)[receiptId := old(receipts)[receiptId].(matched := matched)]
    {
      matched := AttemptMatch(receipts[receiptId]);
      if matched.Some? {
        SetReceiptMatch(receiptId, matched.value);
      }
    }

    /** detect_unmatched_receipt with record_anomaly */
    method DetectUnmatchedReceipt(receiptId: nat, r: Receipt) returns (recorded: bool)
      modifies this`anomalies
      ensures anomalies == old(anomalies) + Reported(receiptId, r)
      ensures recorded <==> Reported(receiptId, r) != []
    {
      if r.matched.Some? || !Truthy(r.reference) {
        return false;
      }
      anomalies := anomalies + [Anomaly(r.agentDid, receiptId)];
      return true;
    }

    /** ingest_receipt_endpoint: ingest, then match, then report if unmatched. */
    method IngestReceiptEndpoint(f: ReceiptFields) returns (reply: ReceiptReply)
      modifies this`receipts, this`anomalies
      ensures Next(old(Now()), ReceiptIn(f), Now())
      ensures Answers(old(Now()), f, Now(), reply)
    {
      ghost var before := Now();
      var result := IngestReceipt(f);
      var matched, reported := None, false;
      if result.Existing? {
        matched := receipts[result.id].matched;
      }
      if result.Inserted? {
        matched := MatchAndLink(result.id);
        if matched.None? {
          reported := DetectUnmatchedReceipt(result.id, receipts[result.id]);
        }
        assert receipts == before.receipts + [NewReceipt(f, matched)];
        assert NewReceipt(f, matched).(matched := None) == NewReceipt(f, None);
        assert ReceiptEnters(before, NewReceipt(f, matched), Now());
      }
      return ReceiptReply(result, matched, reported);
    }
  }

  /**
    When a credential adds a row: exactly if its required fields are there and no row has its id. An
    activity adds nothing else; a receipt adds at most an anomaly of its own.
   */
  lemma RowAddedIff(l: Ledger, e: Event, l': Ledger)
    requires Next(l, e, l')
    ensures e.ActivityIn? ==>
              var f := e.activity;
              && l' == l.(activities := l'.activities)
              && (l' != l <==>
                    && f.credentialId.Some? && f.agentDid.Some? && f.activityType.Some? && f.timestamp.Some?
                    && forall i :: 0 <= i < |l.activities| ==> l.activities[i].credentialId != f.credentialId.value)
              && (l' != l ==> |l'.activities| == |l.activities| + 1 && l.activities <= l'.activities
                              && ActivityRow(f, l'.activities[|l.activities|]))
    ensures e.ReceiptIn? ==>
              var f := e.receipt;
              && l'.activities == l.activities
              && (l' != l <==>
                    && f.credentialId.Some? && f.counterpartyDid.Some? && f.agentDid.Some? && f.activityType.Some?
                    && f.acknowledgmentType.Some? && f.timestamp.Some?
                    && forall i :: 0 <= i < |l.receipts| ==> l.receipts[i].credentialId != f.credentialId.value)
              && (l' != l ==> |l'.receipts| == |l.receipts| + 1 && l.receipts <= l'.receipts
                              && ReceiptRow(f, l'.receipts[|l.receipts|]))
  {
    hide IsMatch, Reported;
    if e.ActivityIn? && l' != l {
      assert l'.activities[|l.activities|] == NewActivity(e.activity);
    }
    if e.ReceiptIn? && l' != l {
      var m :| ReceiptEnters(l, NewReceipt(e.receipt, m), l');
      assert l'.receipts[|l.receipts|] == NewReceipt(e.receipt, m);
    }
    if e.ActivityIn? && !HasActivity(l, e.activity.credentialId) && CompleteActivity(e.activity) {
      assert |l'.activities| == |l.activities| + 1;
    }
    if e.ReceiptIn? && !HasReceipt(l, e.receipt.credentialId) && CompleteReceipt(e.receipt) {
      assert |l'.receipts| == |l.receipts| + 1;
    }
  }

  // ----- What every run keeps

  /** A sequence of ledgers, each following from the one before by one request. */
  ghost predicate IsRun(states: seq<Ledger>, events: seq<Event>) {
    && |states| == |events| + 1 && states[0] == EMPTY
    && forall i :: 0 <= i < |events| ==> Next(states[i], events[i], states[i + 1])
  }

  /** The receipts that must have an anomaly, in the order they came. */
  function UnmatchedIds(receipts: seq<Receipt>): seq<nat> {
    if receipts == [] then []
    else
      var last := |receipts| - 1;
      UnmatchedIds(receipts[..last]) +
      if receipts[last].matched.None? && Truthy(receipts[last].reference) then [last] else []
  }

  function ReceiptIds(anomalies: seq<Anomaly>): (ids: seq<nat>)
    ensures |ids| == |anomalies|
  {
    seq(|anomalies|, i requires 0 <= i < |anomalies| => anomalies[i].receiptId)
  }

  ghost predicate DistinctIds(l: Ledger) {
    && (forall i, j :: 0 <= i < j < |l.activities| ==> l.activities[i].credentialId != l.activities[j].credentialId)
    && (forall i, j :: 0 <= i < j < |l.receipts| ==> l.receipts[i].credentialId != l.receipts[j].credentialId)
  }

  /** A recorded match names an activity that qualifies. */
  ghost predicate MatchesQualify(l: Ledger) {
    forall i :: 0 <= i < |l.receipts| && l.receipts[i].matched.Some? ==>
      l.receipts[i].matched.value < |l.activities| && Matchable(l.receipts[i]) &&
      Qualifies(l.activities[l.receipts[i].matched.value], l.receipts[i])
  }

  /** An anomaly names the agent of its receipt. */
  ghost predicate AnomaliesNameAgents(l: Ledger) {
    forall a :: 0 <= a < |l.anomalies| ==>
      && l.anomalies[a].receiptId < |l.receipts|
      && l.anomalies[a].agentDid == l.receipts[l.anomalies[a].receiptId].agentDid
  }

  /** The anomalies name exactly the unmatched receipts with a reference, once each. */
  ghost predicate Sound(l: Ledger) {
    && DistinctIds(l) && MatchesQualify(l) && ReceiptIds(l.anomalies) == UnmatchedIds(l.receipts)
    && AnomaliesNameAgents(l)
  }

  lemma QualifiesIgnoresMatch(a: Activity, r: Receipt, m: Option<nat>)
    ensures Qualifies(a, r.(matched := m)) <==> Qualifies(a, r)
  {
  }

  lemma ReceiptKeepsSound(l: Ledger, r: Receipt, l': Ledger)
    requires Sound(l) && ReceiptEnters(l, r, l') && !HasReceipt(l, Some(r.credentialId))
    ensures Sound(l')
  {
    assert l'.receipts[..|l.receipts|] == l.receipts;
    assert ReceiptIds(l'.anomalies) == ReceiptIds(l.anomalies) + ReceiptIds(Reported(|l.receipts|, r));
    hide GetMatchTolerance, Distance;
    if r.matched.Some? { QualifiesIgnoresMatch(l.activities[r.matched.value], r, None); }
  }

  lemma NextKeepsSound(l: Ledger, e: Event, l': Ledger)
    requires Sound(l) && Next(l, e, l')
    ensures Sound(l')
  {
    hide Qualifies;
    if e.ReceiptIn? && l' != l {
      var m :| ReceiptEnters(l, NewReceipt(e.receipt, m), l');
      ReceiptKeepsSound(l, NewReceipt(e.receipt, m), l');
    }
  }

  /** Tables only grow at their end: rows, and with them the recorded matches, never change. */
  ghost predicate Extends(l: Ledger, l': Ledger) {
    l.activities <= l'.activities && l.receipts <= l'.receipts && l.anomalies <= l'.anomalies
  }

  lemma {:induction false} RunIsSound(states: seq<Ledger>, events: seq<Event>, i: nat, j: nat)
    requires IsRun(states, events) && i <= j < |states|
    ensures Sound(states[j]) && Extends(states[i], states[j])
    decreases j
  {
    hide Sound;
    if j == 0 {
      EmptyIsSound();
    } else {
      RunIsSound(states, events, if i < j then i else j - 1, j - 1);
      assert Next(states[j - 1], events[j - 1], states[j]);
      NextKeepsSound(states[j - 1], events[j - 1], states[j]);
      hide ReceiptEnters;
      NextExtends(states[j - 1], events[j - 1], states[j]);
    }
  }

  lemma RunStarts()
    ensures IsRun([EMPTY], [])
  {
  }

  /** A run goes on by any further request. */
  lemma RunGoesOn(states: seq<Ledger>, events: seq<Event>, e: Event, l': Ledger)
    requires IsRun(states, events) && Next(states[|states| - 1], e, l')
    ensures IsRun(states + [l'], events + [e])
  {
    hide Next;
    var states', events' := states + [l'], events + [e];
    forall i | 0 <= i < |events'| ensures Next(states'[i], events'[i], states'[i + 1]) {
      if i < |events| {
        assert Next(states[i], events[i], states[i + 1]);
        assert states'[i] == states[i] && states'[i + 1] == states[i + 1] && events'[i] == events[i];
      }
    }
  }

  lemma EmptyIsSound()
    ensures Sound(EMPTY)
  {
  }

  lemma NextExtends(l: Ledger, e: Event, l': Ledger)
    requires Next(l, e, l')
    ensures Extends(l, l')
  {
    hide IsMatch;
  }

  // ----- Conservation

  /** What became of a receipt. */
  datatype Fate = FateMatched | FateReported | FateUnreferenced

  function FateOf(r: Receipt): Fate {
    if r.matched.Some? then FateMatched else if Truthy(r.reference) then FateReported else FateUnreferenced
  }

  function CountFate(receipts: seq<Receipt>, fate: Fate): nat {
    if receipts == [] then 0
    else CountFate(receipts[..|receipts| - 1], fate) + if FateOf(receipts[|receipts| - 1]) == fate then 1 else 0
  }

  lemma {:induction false} FatesPartition(receipts: seq<Receipt>)
    ensures |receipts| == CountFate(receipts, FateMatched) + CountFate(receipts, FateReported)
                          + CountFate(receipts, FateUnreferenced)
    ensures CountFate(receipts, FateReported) == |UnmatchedIds(receipts)|
  {
    if receipts != [] {
      FatesPartition(receipts[..|receipts| - 1]);
    }
  }

  /** The anomaly list names a receipt exactly when it is unmatched and has a reference. */
  lemma {:induction false} UnmatchedIdsMembers(receipts: seq<Receipt>, id: nat)
    ensures id in UnmatchedIds(receipts) <==> id < |receipts| && FateOf(receipts[id]) == FateReported
    ensures forall i, j :: 0 <= i < j < |UnmatchedIds(receipts)| ==>
              UnmatchedIds(receipts)[i] < UnmatchedIds(receipts)[j]
    ensures forall i :: 0 <= i < |UnmatchedIds(receipts)| ==> UnmatchedIds(receipts)[i] < |receipts|
  {
    if receipts != [] {
      UnmatchedIdsMembers(receipts[..|receipts| - 1], id);
    }
  }

  /**
    Conservation: in every state of every run, receipts = matched + anomalies + receipts without a
    transaction reference; and the anomalies name each unmatched referenced receipt exactly once.
   */
  lemma Conservation(states: seq<Ledger>, events: seq<Event>, k: nat, id: nat)
    requires IsRun(states, events) && k < |states|
    ensures var l := states[k];
            && |l.receipts| == CountFate(l.receipts, FateMatched) + |l.anomalies|
                               + CountFate(l.receipts, FateUnreferenced)
            && ((id < |l.receipts| && FateOf(l.receipts[id]) == FateReported) <==>
                exists a :: 0 <= a < |l.anomalies| && l.anomalies[a].receiptId == id)
            && (forall a, b :: 0 <= a < b < |l.anomalies| ==> l.anomalies[a].receiptId != l.anomalies[b].receiptId)
  {
    var l := states[k];
    RunIsSound(states, events, k, k);
    FatesPartition(l.receipts);
    UnmatchedIdsMembers(l.receipts, id);
    var ids := ReceiptIds(l.anomalies);
    assert forall a :: 0 <= a < |l.anomalies| ==> ids[a] == l.anomalies[a].receiptId;
    assert id in ids <==> exists a :: 0 <= a < |l.anomalies| && l.anomalies[a].receiptId == id;
  }

  // ----- Replays and justification

  /** A credential_id that was accepted once changes nothing when it comes again, whatever else it carries. */
  lemma ReplayChangesNothing(states: seq<Ledger>, events: seq<Event>, i: nat, j: nat)
    requires IsRun(states, events) && i < j < |events|
    requires match (events[i], events[j])
             case (ActivityIn(f), ActivityIn(g)) => CompleteActivity(f) && g.credentialId == f.credentialId
             case (ReceiptIn(f), ReceiptIn(g)) => CompleteReceipt(f) && g.credentialId == f.credentialId
             case _ => false
    ensures states[j + 1] == states[j]
  {
    AcceptedIsPresent(states[i], events[i], states[i + 1]);
    RunIsSound(states, events, i + 1, j);
    var l, l' := states[i + 1], states[j];
    assert Next(states[j], events[j], states[j + 1]);
    hide ReceiptEnters, Sound;
    match events[i]
    case ActivityIn(f) =>
      var k :| 0 <= k < |l.activities| && l.activities[k].credentialId == f.credentialId.value;
      assert l'.activities[k] == l.activities[k];
    case ReceiptIn(f) =>
      var k :| 0 <= k < |l.receipts| && l.receipts[k].credentialId == f.credentialId.value;
      assert l'.receipts[k] == l.receipts[k];
  }

  /**
    The reply to a replayed receipt is the first reply over again: the same row id and the same match,
    whatever activities have come in since, and no anomaly.
   */
  lemma ReplayRepeatsReply(states: seq<Ledger>, events: seq<Event>, i: nat, j: nat,
                           first: ReceiptReply, again: ReceiptReply)
    requires IsRun(states, events) && i < j < |events| && events[i].ReceiptIn? && events[j].ReceiptIn?
    requires CompleteReceipt(events[i].receipt)
    requires events[j].receipt.credentialId == events[i].receipt.credentialId
    requires Answers(states[i], events[i].receipt, states[i + 1], first)
    requires Answers(states[j], events[j].receipt, states[j + 1], again)
    ensures again == ReceiptReply(Existing(first.ingest.id), first.matched, false)
  {
    ReplayChangesNothing(states, events, i, j);
    RunIsSound(states, events, i + 1, j);
    var l, l' := states[i + 1], states[j];
    hide MatchesQualify, IsRun;
    assert l.receipts <= l'.receipts;
    assert l'.receipts[first.ingest.id] == l.receipts[first.ingest.id];
    assert HasReceipt(l', events[j].receipt.credentialId);
  }

  lemma AcceptedIsPresent(l: Ledger, e: Event, l': Ledger)
    requires Next(l, e, l')
    ensures e.ActivityIn? && CompleteActivity(e.activity) ==> HasActivity(l', e.activity.credentialId)
    ensures e.ReceiptIn? && CompleteReceipt(e.receipt) ==> HasReceipt(l', e.receipt.credentialId)
  {
    hide IsMatch;
    if e.ActivityIn? && CompleteActivity(e.activity) && l' != l {
      assert l'.activities[|l.activities|].credentialId == e.activity.credentialId.value;
    }
    if e.ReceiptIn? && CompleteReceipt(e.receipt) && !HasReceipt(l, e.receipt.credentialId) {
      assert l'.receipts[|l.receipts|].credentialId == e.receipt.credentialId.value;
    }
  }

  /** The request with which receipt k came in, and the activities it was matched against. */
  ghost predicate CameIn(states: seq<Ledger>, events: seq<Event>, i: nat, k: nat, r: Receipt) {
    && i + 1 < |states| && i < |events| && events[i].ReceiptIn? && ReceiptRow(events[i].receipt, r)
    && |states[i].receipts| == k && states[i + 1].receipts == states[i].receipts + [r]
    && IsMatch(states[i].activities, r.(matched := None), r.matched)
  }

  lemma NewReceiptCameIn(states: seq<Ledger>, events: seq<Event>, i: nat)
    requires IsRun(states, events) && i < |events| && |states[i + 1].receipts| > |states[i].receipts|
    ensures |states[i + 1].receipts| == |states[i].receipts| + 1
    ensures CameIn(states, events, i, |states[i].receipts|, states[i + 1].receipts[|states[i].receipts|])
  {
    hide IsMatch;
    assert Next(states[i], events[i], states[i + 1]);
  }

  /**
    Every match is justified and nearest: each receipt of a run came in with a credential whose fields
    it carries, and its match is, by the timestamps alone, the nearest activity of its transaction
    within two minutes among those present at that step; without a match there was none.
   */
  lemma {:induction false} MatchesAreNearest(states: seq<Ledger>, events: seq<Event>, j: nat, k: nat)
    requires IsRun(states, events) && j < |states| && k < |states[j].receipts|
    ensures exists i :: 0 <= i < j && CameIn(states, events, i, k, states[j].receipts[k])
                        && NearestAmong(states[i].activities, states[j].receipts[k])
    decreases j
  {
    RunStep(states, events, j, k);
    hide IsMatch, CameIn, NearestAmong;
    var l, e := states[j - 1], events[j - 1];
    if k < |l.receipts| {
      NextExtends(l, e, states[j]);
      MatchesAreNearest(states, events, j - 1, k);
    } else {
      NewReceiptCameIn(states, events, j - 1);
      CameInNearest(states, events, j - 1, k, states[j].receipts[k]);
    }
  }

  lemma RunStep(states: seq<Ledger>, events: seq<Event>, j: nat, k: nat)
    requires IsRun(states, events) && j < |states| && k < |states[j].receipts|
    ensures j > 0 && Next(states[j - 1], events[j - 1], states[j])
  {
    hide Next;
  }

  lemma CameInNearest(states: seq<Ledger>, events: seq<Event>, i: nat, k: nat, r: Receipt)
    requires CameIn(states, events, i, k, r)
    ensures NearestAmong(states[i].activities, r)
  {
    hide IsMatch, NearestAmong;
    MatchIsNearest(states[i].activities, r.(matched := None), r.matched);
    assert r.(matched := None).(matched := r.matched) == r;
  }

  /** Each activity of a run came in with a credential whose fields it carries. */
  lemma {:induction false} ActivitiesCameIn(states: seq<Ledger>, events: seq<Event>, j: nat, k: nat)
    requires IsRun(states, events) && j < |states| && k < |states[j].activities|
    ensures exists i :: 0 <= i < j && events[i].ActivityIn? && ActivityRow(events[i].activity, states[j].activities[k])
    decreases j
  {
    hide IsMatch;
    var l, e := states[j - 1], events[j - 1];
    assert Next(l, e, states[j]);
    if k < |l.activities| {
      NextExtends(l, e, states[j]);
      ActivitiesCameIn(states, events, j - 1, k);
    }
  }
}
