/**
  Receipt coverage (api/audit_coverage.py): which of an agent's recent activities that expect a
  receipt have one, and the rollup row that stores the answer.
 */
module AuditCoverage {
  import opened Common
  import opened AuditLedger

  const SECONDS_PER_DAY: real := 86400.0

  /** The WHERE clause that both counts share. */
  predicate Expects(a: Activity, agentDid: string, windowDays: nat, now: real) {
    a.agentDid == agentDid && a.expectsReceipt && a.timestamp >= now - (windowDays as real) * SECONDS_PER_DAY
  }

  /** The activities of the first count. */
  function ExpectedIds(l: Ledger, agentDid: string, windowDays: nat, now: real): set<nat> {
    set i: nat | 0 <= i < |l.activities| && Expects(l.activities[i], agentDid, windowDays, now)
  }

  /** The distinct activities of the second count: those some receipt is matched to. */
  function ReceivedIds(l: Ledger, agentDid: string, windowDays: nat, now: real): set<nat> {
    set r: nat | 0 <= r < |l.receipts| && l.receipts[r].matched.Some? && l.receipts[r].matched.value < |l.activities| &&
                 Expects(l.activities[l.receipts[r].matched.value], agentDid, windowDays, now)
      :: l.receipts[r].matched.value
  }

  datatype Coverage = Coverage(expected: nat, received: nat, rate: Option<real>)

  function CoverageOf(l: Ledger, agentDid: string, windowDays: nat, now: real): Coverage {
    var expected, received := |ExpectedIds(l, agentDid, windowDays, now)|, |ReceivedIds(l, agentDid, windowDays, now)|;
    Coverage(expected, received, if expected > 0 then Some(received as real / expected as real) else None)
  }

  class CoverageRollup {
    /** One row per agent and window, replaced by each computation. */
    var rollup: map<(string, nat), (Coverage, real)>

    constructor ()
      ensures rollup == map[]
    {
      rollup := map[];
    }

    /** compute_coverage */
    method ComputeCoverage(store: AuditStore, agentDid: string, windowDays: nat, now: real) returns (coverage: Coverage)
      modifies this
      ensures coverage == CoverageOf(store.Now(), agentDid, windowDays, now)
      ensures rollup == old(rollup)[(agentDid, windowDays) := (coverage, now)]
    {
      var expected := |ExpectedIds(store.Now(), agentDid, windowDays, now)|;
      var received := |ReceivedIds(store.Now(), agentDid, windowDays, now)|;
      var rate := if expected > 0 then Some(received as real / expected as real) else None;
      coverage := Coverage(expected, received, rate);
      rollup := rollup[(agentDid, windowDays) := (coverage, now)];
    }
  }

  /**
    What is counted: the agent's activities that expect a receipt and are at most that many days of
    86,400 seconds old; and those of them that some receipt of the ledger is matched to.
   */
  lemma CoverageMeaning(l: Ledger, agentDid: string, windowDays: nat, now: real, i: nat)
    ensures i in ExpectedIds(l, agentDid, windowDays, now)
       <==> && i < |l.activities| && l.activities[i].agentDid == agentDid && l.activities[i].expectsReceipt
            && now - l.activities[i].timestamp <= 86400.0 * (windowDays as real)
    ensures i in ReceivedIds(l, agentDid, windowDays, now)
       <==> i in ExpectedIds(l, agentDid, windowDays, now) &&
            exists r :: 0 <= r < |l.receipts| && l.receipts[r].matched == Some(i)
    ensures var c := CoverageOf(l, agentDid, windowDays, now);
            && c.expected == |ExpectedIds(l, agentDid, windowDays, now)|
            && c.received == |ReceivedIds(l, agentDid, windowDays, now)|
            && (c.expected > 0 ==> c.rate.Some? && c.rate.value * (c.expected as real) == c.received as real)
  {
    var w := windowDays as real;
    assert w * SECONDS_PER_DAY == 86400.0 * w;
    if i in ReceivedIds(l, agentDid, windowDays, now) {
      var r: nat :| r < |l.receipts| && l.receipts[r].matched == Some(i);
    }
  }

  lemma SubsetCard(a: set<nat>, b: set<nat>)
    requires a <= b
    ensures |a| <= |b|
  {
    assert b == a + (b - a);
  }

  /** The received activities are among the expected ones, in any ledger. */
  lemma ReceivedAmongExpected(l: Ledger, agentDid: string, windowDays: nat, now: real)
    ensures ReceivedIds(l, agentDid, windowDays, now) <= ExpectedIds(l, agentDid, windowDays, now)
  {
  }

  /** A wider window, or the same window seen earlier, expects and receives at least the same activities. */
  lemma WindowsNest(l: Ledger, agentDid: string, windowDays: nat, now: real, wider: nat, earlier: real)
    requires windowDays <= wider && earlier <= now
    ensures ExpectedIds(l, agentDid, windowDays, now) <= ExpectedIds(l, agentDid, wider, earlier)
    ensures ReceivedIds(l, agentDid, windowDays, now) <= ReceivedIds(l, agentDid, wider, earlier)
  {
    forall a: Activity | Expects(a, agentDid, windowDays, now) ensures Expects(a, agentDid, wider, earlier) {
      assert (windowDays as real) * SECONDS_PER_DAY <= (wider as real) * SECONDS_PER_DAY;
    }
    hide Expects;
  }

  lemma RateInUnit(received: nat, expected: nat)
    requires received <= expected && expected > 0
    ensures 0.0 <= received as real / expected as real <= 1.0
    ensures received as real / expected as real == 1.0 <==> received == expected
  {
  }

  /**
    The coverage is a share: received at most expected, the rate in [0, 1], absent exactly when
    nothing is expected.
   */
  lemma CoverageIsAShare(l: Ledger, agentDid: string, windowDays: nat, now: real)
    ensures var c := CoverageOf(l, agentDid, windowDays, now);
            && c.received <= c.expected
            && (c.rate.None? <==> c.expected == 0)
            && (c.rate.Some? ==> 0.0 <= c.rate.value <= 1.0)
            && (c.rate == Some(1.0) <==> c.expected > 0 && c.received == c.expected)
  {
    ReceivedAmongExpected(l, agentDid, windowDays, now);
    SubsetCard(ReceivedIds(l, agentDid, windowDays, now), ExpectedIds(l, agentDid, windowDays, now));
    var c := CoverageOf(l, agentDid, windowDays, now);
    if c.expected > 0 {
      RateInUnit(c.received, c.expected);
    }
  }

  lemma RateMonotone(a: nat, b: nat, expected: nat)
    requires a <= b && expected > 0
    ensures a as real / expected as real <= b as real / expected as real
  {
  }

  /**
    A further receipt never lowers the coverage at a fixed instant: it adds at most the one
    activity it is matched to, and nothing when that activity is already covered.
   */
  lemma ReceiptNeverLowersCoverage(l: Ledger, f: ReceiptFields, l': Ledger,
                                   agentDid: string, windowDays: nat, now: real)
    requires Next(l, ReceiptIn(f), l')
    ensures var (c, c') := (CoverageOf(l, agentDid, windowDays, now), CoverageOf(l', agentDid, windowDays, now));
            && c'.expected == c.expected && c.received <= c'.received <= c.received + 1
            && (c.rate.Some? ==> c'.rate.Some? && c.rate.value <= c'.rate.value)
    ensures l' != l && (l'.receipts[|l.receipts|].matched.None? ||
                        l'.receipts[|l.receipts|].matched.value in ReceivedIds(l, agentDid, windowDays, now)) ==>
              CoverageOf(l', agentDid, windowDays, now) == CoverageOf(l, agentDid, windowDays, now)
  {
    hide Expects, IsMatch;
    var before, after := ReceivedIds(l, agentDid, windowDays, now), ReceivedIds(l', agentDid, windowDays, now);
    if l' != l {
      assert l'.activities == l.activities;
      var n := |l.receipts|;
      var r := l'.receipts[n];
      assert l'.receipts == l.receipts + [r];
      ReceivedGrows(l, l', agentDid, windowDays, now);
      SubsetCard(before, after);
      if r.matched.Some? {
        SubsetCard(after, before + {r.matched.value});
      } else {
        SubsetCard(after, before);
      }
      assert ExpectedIds(l', agentDid, windowDays, now) == ExpectedIds(l, agentDid, windowDays, now);
      var expected := |ExpectedIds(l, agentDid, windowDays, now)|;
      if expected > 0 { RateMonotone(|before|, |after|, expected); }
    }
  }

  lemma ReceivedGrows(l: Ledger, l': Ledger, agentDid: string, windowDays: nat, now: real)
    requires l'.activities == l.activities
    requires |l'.receipts| == |l.receipts| + 1 && l'.receipts[..|l.receipts|] == l.receipts
    ensures var matched := l'.receipts[|l.receipts|].matched;
            var before, after := ReceivedIds(l, agentDid, windowDays, now), ReceivedIds(l', agentDid, windowDays, now);
            before <= after <= before + if matched.Some? then {matched.value} else {}
  {
    hide Expects;
    var n := |l.receipts|;
    forall r: nat | r < n ensures l'.receipts[r] == l.receipts[r] {
      assert l'.receipts[..n][r] == l.receipts[r];
    }
  }
}
