/**
  The 24-hour status cache of api/cache_invalidation.py, one cached row at a time.

  Times are microseconds on one clock. A read looks at the clock twice: `readAt` when it decides
  whether to re-check, `checkedAt` after the upstream check has answered.
 */
module StatusCache {
  import opened Common
  import opened Bitstring
  import opened StatusCodec
  import opened StatusChecker
  import StatusLists
  import StatusLifecycle

  const SECOND: int := 1_000_000
  const RECHECK_THRESHOLD: int := 24 * 3600 * SECOND

  /** A cached row; no credential means that its JSON is empty. */
  datatype CacheRow = CacheRow(
    credential: Option<seq<StatusEntry>>,
    revokedAt: Option<int>,
    suspendedAt: Option<int>,
    lastVerifiedAt: Option<int>)

  datatype CacheResult = CacheResult(isValid: bool, revoked: bool, suspended: bool, checkedUpstream: bool, failed: bool)

  /** One read of the row: the upstream sources at that moment, force_recheck, and the two clock readings. */
  datatype Read = Read(gzip: Gzip, src: Sources, force: bool, readAt: int, checkedAt: int)

  /** strftime to whole seconds */
  function Truncate(t: int): (r: int)
    ensures t - SECOND < r <= t
  {
    t - t % SECOND
  }

  function NeedsRecheck(lastVerifiedAt: Option<int>, now: int): bool {
    lastVerifiedAt.None? || now - lastVerifiedAt.value > RECHECK_THRESHOLD
  }

  // ----- What the upstream check found

  ghost predicate Finds(results: seq<CheckResult>, purpose: string, valid: bool) {
    exists i :: 0 <= i < |results| && results[i].statusPurpose == purpose && results[i].validForPurpose == valid
  }

  /** The three flags of the loop. */
  datatype Findings = Findings(revoked: bool, suspended: bool, lifted: bool)

  ghost function FindingsOf(results: seq<CheckResult>, suspendedAt: Option<int>): Findings {
    Findings(Finds(results, "revocation", false), Finds(results, "suspension", false),
             suspendedAt.Some? && Finds(results, "suspension", true))
  }

  /** _update_cache */
  function UpdatedRow(row: CacheRow, now: int, found: Findings): CacheRow {
    var stamp := Some(Truncate(now));
    if found.revoked then row.(lastVerifiedAt := stamp, revokedAt := stamp)
    else if found.suspended then row.(lastVerifiedAt := stamp, suspendedAt := stamp)
    else if found.lifted then row.(lastVerifiedAt := stamp, suspendedAt := None)
    else row.(lastVerifiedAt := stamp)
  }

  /** The verdict after a check, with the exception of the code: a lifted suspension makes it valid. */
  function Verdict(found: Findings): bool {
    if found.lifted && !found.suspended then true else !found.revoked && !found.suspended
  }

  /** A read that asks upstream. */
  predicate AsksUpstream(row: CacheRow, read: Read) {
    row.revokedAt.None? && (read.force || NeedsRecheck(row.lastVerifiedAt, read.readAt)) && row.credential.Some?
  }

  ghost function UpstreamFindings(row: CacheRow, read: Read): Findings
    requires row.credential.Some?
  {
    FindingsOf(CheckEntries(read.gzip, read.src, row.credential.value), row.suspendedAt)
  }

  /** check_cached_credential: the row afterwards and the result. */
  ghost function AfterRead(row: CacheRow, read: Read): (CacheRow, CacheResult) {
    if row.revokedAt.Some? then (row, CacheResult(false, true, false, false, false))
    else if !read.force && !NeedsRecheck(row.lastVerifiedAt, read.readAt) then
      (row, CacheResult(row.suspendedAt.None?, false, row.suspendedAt.Some?, false, false))
    else if row.credential.None? then (row, CacheResult(false, false, false, false, true))
    else
      var found := UpstreamFindings(row, read);
      (UpdatedRow(row, read.checkedAt, found), CacheResult(Verdict(found), found.revoked, found.suspended, true, false))
  }

  /** The row in the database and the method that reads and updates it. */
  class CachedCredential {
    var row: CacheRow

    constructor (credential: Option<seq<StatusEntry>>, lastVerifiedAt: Option<int>)
      ensures row == CacheRow(credential, None, None, lastVerifiedAt)
    {
      row := CacheRow(credential, None, None, lastVerifiedAt);
    }

    method CheckCached(read: Read) returns (result: CacheResult)
      modifies this
      ensures (row, result) == AfterRead(old(row), read)
    {
      if row.revokedAt.Some? {
        return CacheResult(false, true, false, false, false);
      }
      if !read.force && !NeedsRecheck(row.lastVerifiedAt, read.readAt) {
        var isSuspended := row.suspendedAt.Some?;
        return CacheResult(!isSuspended, false, isSuspended, false, false);
      }
      if row.credential.None? {
        return CacheResult(false, false, false, false, true);
      }
      var checks, _ := CheckCredentialStatus(read.gzip, read.src, row.credential.value);
      var found := CollectFindings(checks, row.suspendedAt);
      row := UpdatedRow(row, read.checkedAt, found);
      var isValid := !found.revoked && !found.suspended;
      if found.lifted && !found.suspended {
        isValid := true;
      }
      return CacheResult(isValid, found.revoked, found.suspended, true, false);
    }
  }

  /** The loop over status_checks. */
  method CollectFindings(checks: seq<CheckResult>, suspendedAt: Option<int>) returns (found: Findings)
    ensures found == FindingsOf(checks, suspendedAt)
  {
    var newlyRevoked, newlySuspended, lifted := false, false, false;
    for i := 0 to |checks|
      invariant newlyRevoked <==> Finds(checks[..i], "revocation", false)
      invariant newlySuspended <==> Finds(checks[..i], "suspension", false)
      invariant lifted <==> suspendedAt.Some? && Finds(checks[..i], "suspension", true)
    {
      var check := checks[i];
      FindsNext(checks, i, "revocation", false);
      FindsNext(checks, i, "suspension", false);
      FindsNext(checks, i, "suspension", true);
      if check.statusPurpose == "revocation" && !check.validForPurpose {
        newlyRevoked := true;
      }
      if check.statusPurpose == "suspension" {
        if !check.validForPurpose {
          newlySuspended := true;
        } else if suspendedAt.Some? {
          lifted := true;
        }
      }
    }
    assert checks[..|checks|] == checks;
    return Findings(newlyRevoked, newlySuspended, lifted);
  }

  lemma FindsNext(results: seq<CheckResult>, i: nat, purpose: string, valid: bool)
    requires i < |results|
    ensures Finds(results[..i + 1], purpose, valid)
       <==> Finds(results[..i], purpose, valid) ||
            (results[i].statusPurpose == purpose && results[i].validForPurpose == valid)
  {
    assert results[..i + 1][i] == results[i];
    if Finds(results[..i], purpose, valid) {
      var k :| 0 <= k < i && results[..i][k].statusPurpose == purpose && results[..i][k].validForPurpose == valid;
      assert results[..i + 1][k] == results[..i][k];
    }
    if Finds(results[..i + 1], purpose, valid) {
      var k :| 0 <= k < i + 1 && results[..i + 1][k].statusPurpose == purpose &&
               results[..i + 1][k].validForPurpose == valid;
      if k < i { assert results[..i][k] == results[..i + 1][k]; }
    }
  }

  // ----- Runs of reads

  /** What the latest upstream check said; `at` is when its answer was in. */
  datatype Check = Check(at: int, found: Findings, verdict: bool)

  /** A row together with its latest upstream check, if there was one. */
  datatype History = History(row: CacheRow, last: Option<Check>)

  ghost function Next(hist: History, read: Read): History {
    var row := AfterRead(hist.row, read).0;
    if AsksUpstream(hist.row, read) then
      var found := UpstreamFindings(hist.row, read);
      History(row, Some(Check(read.checkedAt, found, Verdict(found))))
    else History(row, hist.last)
  }

  ghost function RunReads(hist: History, readings: seq<Read>): History
    decreases |readings|
  {
    if readings == [] then hist else RunReads(Next(hist, readings[0]), readings[1..])
  }

  /** A row as it is first stored: nothing found yet, verified never or at its insertion. */
  ghost predicate Fresh(hist: History) {
    hist.last.None? && hist.row.revokedAt.None? && hist.row.suspendedAt.None?
  }

  /** The purpose a result reports is the entry's, whatever the sources answer. */
  function EntryPurpose(entry: StatusEntry): string {
    OrElse(entry.statusPurpose, if entry.entryType == "BitstringStatusListEntry" then "" else "unknown")
  }

  predicate TracksSuspension(entries: seq<StatusEntry>) {
    exists i :: 0 <= i < |entries| && EntryPurpose(entries[i]) == "suspension"
  }

  lemma ResultPurposes(read: Read, entries: seq<StatusEntry>)
    ensures var results := CheckEntries(read.gzip, read.src, entries);
            TracksSuspension(entries) <==> Finds(results, "suspension", true) || Finds(results, "suspension", false)
  {
    hide DecodeBitstring;
    var results := CheckEntries(read.gzip, read.src, entries);
    forall i | 0 <= i < |entries| ensures results[i].statusPurpose == EntryPurpose(entries[i]) {
    }
    if TracksSuspension(entries) {
      var i :| 0 <= i < |entries| && EntryPurpose(entries[i]) == "suspension";
      assert results[i].statusPurpose == "suspension";
    }
  }

  /** The row tells exactly what the latest check found. */
  ghost predicate Faithful(hist: History) {
    && (hist.last.None? ==> hist.row.revokedAt.None? && hist.row.suspendedAt.None?)
    && (hist.row.suspendedAt.Some? ==> hist.row.credential.Some? && TracksSuspension(hist.row.credential.value))
    && (hist.last.Some? ==>
          var check := hist.last.value;
          && hist.row.lastVerifiedAt == Some(Truncate(check.at))
          && (hist.row.revokedAt.Some? <==> check.found.revoked)
          && (!check.found.revoked ==> (hist.row.suspendedAt.Some? <==> check.found.suspended))
          && check.verdict == Verdict(check.found))
  }

  lemma NextFaithful(hist: History, read: Read)
    requires Faithful(hist)
    ensures Faithful(Next(hist, read)) && Next(hist, read).row.credential == hist.row.credential
  {
    if AsksUpstream(hist.row, read) {
      ResultPurposes(read, hist.row.credential.value);
    }
    hide CheckEntries, TracksSuspension, Finds;
  }

  lemma {:induction false} RunFaithful(hist: History, readings: seq<Read>)
    requires Faithful(hist)
    ensures Faithful(RunReads(hist, readings))
    decreases |readings|
  {
    if readings != [] {
      NextFaithful(hist, readings[0]);
      hide Faithful, Next;
      RunFaithful(Next(hist, readings[0]), readings[1..]);
    }
  }

  /**
    Agreement and bounded staleness: after any reads of a fresh row, a read that is served from the
    cache and is not marked revoked repeats the verdict and suspension of the latest upstream
    check, whose answer is at most 24 hours old although its stamp was cut to whole seconds. If
    there was no check yet it reports valid, within 24 hours of the stored verification.
   */
  lemma CachedReadAgrees(hist: History, readings: seq<Read>, read: Read)
    requires Fresh(hist)
    ensures var now := RunReads(hist, readings);
            var result := AfterRead(now.row, read).1;
            !AsksUpstream(now.row, read) && now.row.revokedAt.None? && !result.failed ==>
              && (now.last.Some? ==>
                    && result.isValid == now.last.value.verdict
                    && result.suspended == now.last.value.found.suspended
                    && read.readAt - now.last.value.at <= RECHECK_THRESHOLD)
              && (now.last.None? ==>
                    result.isValid && now.row.lastVerifiedAt.Some? &&
                    read.readAt - now.row.lastVerifiedAt.value <= RECHECK_THRESHOLD)
  {
    RunFaithful(hist, readings);
    hide RunReads, TracksSuspension, Finds, CheckEntries;
  }

  /** Revocation is terminal: once the row is marked, every later read is refused and changes nothing. */
  lemma {:induction false} RevokedMarkIsTerminal(hist: History, readings: seq<Read>, read: Read)
    requires hist.row.revokedAt.Some?
    ensures RunReads(hist, readings).row == hist.row
    ensures AfterRead(RunReads(hist, readings).row, read) == (hist.row, CacheResult(false, true, false, false, false))
    decreases |readings|
  {
    if readings != [] {
      RevokedMarkIsTerminal(Next(hist, readings[0]), readings[1..], read);
    }
  }

  // ----- When upstream is asked

  /**
    A young row is answered from the cache: an unforced read of an unmarked row that was verified at
    most 86,400 seconds before says what the row says, and changes nothing, whatever the sources.
   */
  lemma YoungRowIsServed(row: CacheRow, read: Read)
    requires row.revokedAt.None? && !read.force
    requires row.lastVerifiedAt.Some? && read.readAt - row.lastVerifiedAt.value <= 86_400 * 1_000_000
    ensures AfterRead(row, read)
         == (row, CacheResult(row.suspendedAt.None?, false, row.suspendedAt.Some?, false, false))
  {
  }

  /**
    An unmarked row with a credential asks upstream exactly if the read is forced, the row was never
    verified, or longer ago than that. Without a credential such a read fails and changes nothing.
   */
  lemma AsksUpstreamIff(row: CacheRow, read: Read)
    requires row.revokedAt.None?
    ensures var due := read.force || row.lastVerifiedAt.None? ||
                       read.readAt - row.lastVerifiedAt.value > 86_400 * 1_000_000;
            && (AfterRead(row, read).1.checkedUpstream <==> due && row.credential.Some?)
            && (AsksUpstream(row, read) <==> due && row.credential.Some?)
            && (due && row.credential.None? ==>
                  AfterRead(row, read) == (row, CacheResult(false, false, false, false, true)))
  {
    hide FindingsOf, CheckEntries;
  }

  // ----- What the revocation mark means

  /** Some revocation entry resolves to this bit. */
  ghost predicate RevocationBit(read: Read, entries: seq<StatusEntry>, bit: Bit) {
    exists i :: 0 <= i < |entries| && EntryPurpose(entries[i]) == "revocation"
                && ResolvesTo(read.gzip, read.src, entries[i], bit)
  }

  /** Some revocation entry cannot be resolved: not fetched, not verified, not decodable, out of range. */
  ghost predicate RevocationUnresolved(read: Read, entries: seq<StatusEntry>) {
    exists i :: 0 <= i < |entries| && EntryPurpose(entries[i]) == "revocation"
                && !ResolvesTo(read.gzip, read.src, entries[i], 0) && !ResolvesTo(read.gzip, read.src, entries[i], 1)
  }

  /** What the check of one entry says about its revocation. */
  lemma RevocationResult(read: Read, entries: seq<StatusEntry>, i: nat)
    requires i < |entries|
    ensures var result := CheckEntries(read.gzip, read.src, entries)[i];
            && (result.statusPurpose == "revocation" <==> EntryPurpose(entries[i]) == "revocation")
            && (!result.validForPurpose <==> !ResolvesTo(read.gzip, read.src, entries[i], 0))
  {
    SingleEntryMeaning(read.gzip, read.src, entries[i]);
    hide DecodeBitstring, ResolvesTo, GetBit;
  }

  lemma FindsRevocationIff(read: Read, entries: seq<StatusEntry>)
    ensures Finds(CheckEntries(read.gzip, read.src, entries), "revocation", false)
       <==> RevocationBit(read, entries, 1) || RevocationUnresolved(read, entries)
  {
    var results := CheckEntries(read.gzip, read.src, entries);
    hide CheckEntries, ResolvesTo, EntryPurpose;
    forall i | 0 <= i < |entries|
      ensures results[i].statusPurpose == "revocation" && !results[i].validForPurpose
         <==> EntryPurpose(entries[i]) == "revocation" && !ResolvesTo(read.gzip, read.src, entries[i], 0)
      ensures ResolvesTo(read.gzip, read.src, entries[i], 1) ==> !ResolvesTo(read.gzip, read.src, entries[i], 0)
    {
      RevocationResult(read, entries, i);
      ResolvesOnce(read, entries[i]);
    }
    if i :| 0 <= i < |entries| && EntryPurpose(entries[i]) == "revocation"
            && !ResolvesTo(read.gzip, read.src, entries[i], 0) {
      assert results[i].statusPurpose == "revocation" && !results[i].validForPurpose;
    }
  }

  lemma ResolvesOnce(read: Read, entry: StatusEntry)
    ensures ResolvesTo(read.gzip, read.src, entry, 1) ==> !ResolvesTo(read.gzip, read.src, entry, 0)
  {
  }

  /**
    What the revocation mark means: a checking read sets it exactly when some revocation entry
    resolves to 1 or cannot be resolved at all. It marks a credential that no list reports revoked
    exactly when some revocation entry cannot be resolved and none resolves to 1.
   */
  lemma MarkMeaning(row: CacheRow, read: Read)
    requires AsksUpstream(row, read)
    ensures var entries, marked := row.credential.value, AfterRead(row, read).0.revokedAt.Some?;
            && (marked <==> RevocationBit(read, entries, 1) || RevocationUnresolved(read, entries))
            && (marked && !RevocationBit(read, entries, 1) <==>
                  RevocationUnresolved(read, entries) && !RevocationBit(read, entries, 1))
  {
    FindsRevocationIff(read, row.credential.value);
    hide CheckEntries, RevocationBit, RevocationUnresolved;
  }

  /** One failed fetch is enough, and for good: every later read is refused, whatever the lists say by then. */
  lemma FailedFetchIsTerminal(hist: History, first: Read, i: nat, readings: seq<Read>, read: Read)
    requires AsksUpstream(hist.row, first) && i < |hist.row.credential.value|
    requires var entry := hist.row.credential.value[i];
             && EntryPurpose(entry) == "revocation"
             && (entry.listUrl.Some? ==> first.src.fetch(entry.listUrl.value).None?)
    ensures AfterRead(RunReads(Next(hist, first), readings).row, read).1
         == CacheResult(false, true, false, false, false)
  {
    MarkMeaning(hist.row, first);
    hide CheckEntries, FindingsOf;
    assert RevocationUnresolved(first, hist.row.credential.value);
    RevokedMarkIsTerminal(Next(hist, first), readings, read);
  }

  /**
    Such a run, with every lossless GZIP: the list of a fresh credential cannot be fetched once; when
    it is back its bit is 0 and the credential is valid overall, yet a forced read refuses it.
   */
  lemma UnreachableListRevokes(gzip: Gzip)
    requires Lossless(gzip)
    ensures exists hist: History, first: Read, read: Read ::
              Fresh(hist) && first.gzip == gzip && read.gzip == gzip && read.force && AsksUpstream(hist.row, first) &&
              RefusedThoughValid(hist, first, read)
  {
    var clear := ServableList(gzip, 0);
    var entry := StatusEntry("BitstringStatusListEntry", Some("revocation"), Some("r"), Number(0));
    var hist := History(CacheRow(Some([entry]), None, None, None), None);
    var first := Read(gzip, Sources(_ => None, None), false, 0, 0);
    var read := Read(gzip, TwoLists(clear, clear), true, 1, 1);
    FailedFetchIsTerminal(hist, first, 0, [], read);
    assert RunReads(Next(hist, first), []) == Next(hist, first);
    assert AllValid(CheckEntries(gzip, read.src, [entry])) by {
      hide DecodeBitstring, GetBit;
      assert CheckSingleEntry(gzip, read.src, entry) == CheckResult("revocation", "r", 0, 0, true);
    }
    hide CheckEntries, Next, RunReads;
    assert RefusedThoughValid(hist, first, read);
  }

  /** After the first read, the second is refused although its own check of the credential would be valid overall. */
  ghost predicate RefusedThoughValid(hist: History, first: Read, read: Read) {
    && hist.row.credential.Some?
    && !AfterRead(Next(hist, first).row, read).1.isValid
    && AllValid(CheckEntries(read.gzip, read.src, hist.row.credential.value))
  }

  // ----- The verdict of a checking read

  /**
    A checking read refuses a credential with a failing revocation or suspension entry, except when a
    failing revocation comes together with a lifted suspension: then this one read reports valid while
    it marks the row.
   */
  lemma RefusedIff(row: CacheRow, read: Read)
    requires AsksUpstream(row, read)
    ensures var found := UpstreamFindings(row, read);
            var (row', result) := AfterRead(row, read);
            && (found.revoked <==> row'.revokedAt.Some?)
            && ((found.revoked || found.suspended ==> !result.isValid)
                  <==> !(found.revoked && found.lifted && !found.suspended))
  {
    hide Finds, CheckEntries;
  }

  /**
    The verdict equals overall_valid of the same upstream check exactly when a suspension is found,
    or a revocation without a lifted suspension, or neither and no entry of another purpose fails.
   */
  lemma AgreesWithOverallValidIff(row: CacheRow, read: Read)
    requires AsksUpstream(row, read)
    ensures var results := CheckEntries(read.gzip, read.src, row.credential.value);
            var found := UpstreamFindings(row, read);
            AfterRead(row, read).1.isValid == AllValid(results)
            <==> found.suspended || (found.revoked && !found.lifted) ||
                 (!found.revoked && forall i :: 0 <= i < |results| && !results[i].validForPurpose ==>
                                      results[i].statusPurpose in {"revocation", "suspension"})
  {
    var results := CheckEntries(read.gzip, read.src, row.credential.value);
    hide CheckEntries;
    if !AllValid(results) {
      var i :| 0 <= i < |results| && !results[i].validForPurpose;
    }
  }

  /** An entry of another purpose that cannot be checked is ignored, whatever the sources answer. */
  lemma OtherPurposeIgnored(read: Read)
    ensures var other := StatusEntry("BitstringStatusListEntry", Some("message"), None, NoIndex);
            var row := CacheRow(Some([other]), None, None, None);
            && AsksUpstream(row, read) && AfterRead(row, read).1.isValid
            && !AllValid(CheckEntries(read.gzip, read.src, [other]))
  {
    hide DecodeBitstring;
    var other := StatusEntry("BitstringStatusListEntry", Some("message"), None, NoIndex);
    var results := CheckEntries(read.gzip, read.src, [other]);
    assert results[0] == CheckResult("message", "", -1, -1, false);
  }

  /** Some suspension entry resolves to this bit. */
  ghost predicate SuspensionClear(read: Read, entries: seq<StatusEntry>) {
    exists i :: 0 <= i < |entries| && EntryPurpose(entries[i]) == "suspension"
                && ResolvesTo(read.gzip, read.src, entries[i], 0)
  }

  ghost predicate SuspensionFails(read: Read, entries: seq<StatusEntry>) {
    exists i :: 0 <= i < |entries| && EntryPurpose(entries[i]) == "suspension"
                && !ResolvesTo(read.gzip, read.src, entries[i], 0)
  }

  lemma FindsSuspensionIff(read: Read, entries: seq<StatusEntry>)
    ensures Finds(CheckEntries(read.gzip, read.src, entries), "suspension", false) <==> SuspensionFails(read, entries)
    ensures Finds(CheckEntries(read.gzip, read.src, entries), "suspension", true) <==> SuspensionClear(read, entries)
  {
    var results := CheckEntries(read.gzip, read.src, entries);
    hide CheckEntries, ResolvesTo, EntryPurpose;
    forall i | 0 <= i < |entries|
      ensures results[i].statusPurpose == "suspension" <==> EntryPurpose(entries[i]) == "suspension"
      ensures results[i].validForPurpose <==> ResolvesTo(read.gzip, read.src, entries[i], 0)
    {
      PurposeAndValidity(read, entries, i);
    }
  }

  lemma PurposeAndValidity(read: Read, entries: seq<StatusEntry>, i: nat)
    requires i < |entries|
    ensures var result := CheckEntries(read.gzip, read.src, entries)[i];
            && result.statusPurpose == EntryPurpose(entries[i])
            && (result.validForPurpose <==> ResolvesTo(read.gzip, read.src, entries[i], 0))
  {
    SingleEntryMeaning(read.gzip, read.src, entries[i]);
    hide DecodeBitstring, ResolvesTo, GetBit;
  }

  /**
    A checking read, from the lists alone: what it reports, and the row it leaves, stamped with the
    whole second in which its answer came.
   */
  lemma CheckingReadIsExact(row: CacheRow, read: Read)
    requires AsksUpstream(row, read)
    ensures var entries := row.credential.value;
            var revoked := RevocationBit(read, entries, 1) || RevocationUnresolved(read, entries);
            var suspended := SuspensionFails(read, entries);
            var lifted := row.suspendedAt.Some? && SuspensionClear(read, entries);
            var (row', result) := AfterRead(row, read);
            && result.revoked == revoked && result.suspended == suspended && result.checkedUpstream && !result.failed
            && (result.isValid <==> !suspended && (!revoked || lifted))
            && row'.credential == row.credential && row'.lastVerifiedAt.Some?
            && var stamp := row'.lastVerifiedAt.value;
            && stamp % 1_000_000 == 0 && stamp <= read.checkedAt < stamp + 1_000_000
            && row'.revokedAt == (if revoked then Some(stamp) else None)
            && row'.suspendedAt == if revoked then row.suspendedAt
                                   else if suspended then Some(stamp)
                                   else if lifted then None
                                   else row.suspendedAt
  {
    FindsRevocationIff(read, row.credential.value);
    FindsSuspensionIff(read, row.credential.value);
    hide CheckEntries, Finds, RevocationBit, RevocationUnresolved, SuspensionFails, SuspensionClear;
  }

  // ----- A run that ends in the exception

  /** After these reads of a fresh row, this read finds a revocation, marks the row and reports valid. */
  ghost predicate RevokedYetValid(gzip: Gzip, hist: History, readings: seq<Read>, read: Read) {
    && Fresh(hist) && read.gzip == gzip && (forall i :: 0 <= i < |readings| ==> readings[i].gzip == gzip)
    && var row := RunReads(hist, readings).row;
    && AsksUpstream(row, read) && UpstreamFindings(row, read).revoked
    && AfterRead(row, read).0.revokedAt.Some? && AfterRead(row, read).1.isValid
  }

  /** A list whose first bit is this one and whose text is not empty: at most one bitstring can have the empty text. */
  lemma ServableList(gzip: Gzip, bit: Bit) returns (encoded: string)
    requires Lossless(gzip)
    ensures encoded != "" && DecodeBitstring(gzip, encoded).Some?
    ensures GetBit(DecodeBitstring(gzip, encoded).value, 0) == Some(bit)
  {
    var short, long := SetBit([0], 0, bit), SetBit([0, 0], 0, bit);
    SetBitAt([0], 0, bit, 0);
    SetBitAt([0, 0], 0, bit, 0);
    CodecRoundTrip(gzip, short);
    CodecRoundTrip(gzip, long);
    hide EncodeBitstring, DecodeBitstring, SetBit, BitAt;
    encoded := EncodeBitstring(gzip, if EncodeBitstring(gzip, short) == "" then long else short);
  }

  /** Two served lists, for suspension and for revocation. */
  function TwoLists(suspensions: string, revocations: string): Sources {
    Sources(url => if url == "s" then Some(ListCredential(true, true, suspensions, "suspension", false))
                   else if url == "r" then Some(ListCredential(true, true, revocations, "revocation", false))
                   else None,
            None)
  }

  const TWO_ENTRIES: seq<StatusEntry> :=
    [StatusEntry("BitstringStatusListEntry", Some("suspension"), Some("s"), Number(0)),
     StatusEntry("BitstringStatusListEntry", Some("revocation"), Some("r"), Number(0))]

  lemma TwoListsFindings(gzip: Gzip, suspensions: string, suspended: Bit, revocations: string, revoked: Bit,
                         suspendedAt: Option<int>)
    requires suspensions != "" && DecodeBitstring(gzip, suspensions).Some?
    requires GetBit(DecodeBitstring(gzip, suspensions).value, 0) == Some(suspended)
    requires revocations != "" && DecodeBitstring(gzip, revocations).Some?
    requires GetBit(DecodeBitstring(gzip, revocations).value, 0) == Some(revoked)
    ensures FindingsOf(CheckEntries(gzip, TwoLists(suspensions, revocations), TWO_ENTRIES), suspendedAt)
         == Findings(revoked == 1, suspended == 1, suspendedAt.Some? && suspended == 0)
  {
    hide DecodeBitstring, GetBit;
    var results := CheckEntries(gzip, TwoLists(suspensions, revocations), TWO_ENTRIES);
    assert results[0] == CheckResult("suspension", "s", 0, suspended, suspended == 0);
    assert results[1] == CheckResult("revocation", "r", 0, revoked, revoked == 0);
  }

  /**
    The exception is reached with every lossless GZIP, at any times: the first read of a fresh row
    finds a suspension; by the time of a forced second read the issuer has lifted it and revoked.
   */
  lemma RevokedYetReportedValid(gzip: Gzip, firstAt: int, secondAt: int)
    requires Lossless(gzip)
    ensures exists hist: History, readings: seq<Read>, read: Read ::
              |readings| == 1 && readings[0].checkedAt == firstAt && read.checkedAt == secondAt &&
              RevokedYetValid(gzip, hist, readings, read)
  {
    var clear := ServableList(gzip, 0);
    var marked := ServableList(gzip, 1);
    var hist := History(CacheRow(Some(TWO_ENTRIES), None, None, None), None);
    var first := Read(gzip, TwoLists(marked, clear), false, firstAt, firstAt);
    var second := Read(gzip, TwoLists(clear, marked), true, secondAt, secondAt);
    TwoListsFindings(gzip, marked, 1, clear, 0, None);
    hide FindingsOf, CheckEntries;
    var row := Next(hist, first).row;
    assert row == hist.row.(lastVerifiedAt := Some(Truncate(firstAt)), suspendedAt := Some(Truncate(firstAt)));
    TwoListsFindings(gzip, clear, 0, marked, 1, row.suspendedAt);
    assert RunReads(hist, [first]) == Next(hist, first) by {
      assert RunReads(Next(hist, first), [first][1..]) == Next(hist, first);
    }
    assert RevokedYetValid(gzip, hist, [first], second);
  }

  // ----- From the status list to the cache

  /**
    A bit once served as 1 by a hosted revocation list reaches the cache: whatever requests follow,
    the next upstream check of a credential with that revocation entry marks its row revoked.
   */
  lemma RevokedListMarksCache(baseUrl: string, rows: StatusLists.Table, reqs: seq<StatusLists.Request>,
                              row: CacheRow, read: Read, i: nat,
                              sig: Option<ListCredential -> bool>, sig': Option<ListCredential -> bool>)
    requires Lossless(read.gzip) && StatusLifecycle.GoodTable(read.gzip, rows)
    requires AsksUpstream(row, read) && i < |row.credential.value|
    requires read.src == StatusLifecycle.HostedSources(baseUrl, StatusLists.Run(read.gzip, rows, reqs), sig')
    requires var entry := row.credential.value[i];
             && EntryPurpose(entry) == "revocation"
             && StatusLifecycle.NamesRevocationList(baseUrl, rows, entry)
             && CheckSingleEntry(read.gzip, StatusLifecycle.HostedSources(baseUrl, rows, sig), entry).currentValue == 1
    ensures AfterRead(row, read).0.revokedAt.Some?
  {
    var entry, entries := row.credential.value[i], row.credential.value;
    StatusLifecycle.RevokedCredentialStaysRevoked(read.gzip, baseUrl, rows, reqs, [entry], 0, sig, sig');
    hide DecodeBitstring;
    assert CheckEntries(read.gzip, read.src, [entry])[0] == CheckSingleEntry(read.gzip, read.src, entry);
    var results := CheckEntries(read.gzip, read.src, entries);
    assert results[i].statusPurpose == "revocation" && !results[i].validForPurpose;
  }
}
