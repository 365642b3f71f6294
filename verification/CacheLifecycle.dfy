/**
  The status list service and one cached row together: list requests and cache reads in any order.
  The reads take their lists from the service's own table.
 */
module CacheLifecycle {
  import opened Common
  import opened StatusCache
  import opened StatusChecker
  import opened StatusCodec
  import StatusLifecycle
  import StatusLists

  datatype Event =
    | ListRequest(request: StatusLists.Request)
    | CacheRead(force: bool, readAt: int, checkedAt: int, signatureOk: Option<ListCredential -> bool>)

  /** The table of lists and the cached row. */
  datatype World = World(lists: StatusLists.Table, row: CacheRow)

  /** A cache read, with the lists that are hosted at that moment. */
  function ReadOf(gzip: Gzip, baseUrl: string, world: World, e: Event): Read
    requires e.CacheRead?
  {
    Read(gzip, StatusLifecycle.HostedSources(baseUrl, world.lists, e.signatureOk), e.force, e.readAt, e.checkedAt)
  }

  ghost function Step(gzip: Gzip, baseUrl: string, world: World, e: Event): World {
    match e
    case ListRequest(request) => world.(lists := StatusLists.Step(gzip, world.lists, request).0)
    case CacheRead(_, _, _, _) => world.(row := AfterRead(world.row, ReadOf(gzip, baseUrl, world, e)).0)
  }

  /** The world after the first n events. */
  ghost function After(gzip: Gzip, baseUrl: string, world: World, events: seq<Event>, n: nat): World
    requires n <= |events|
  {
    if n == 0 then world else Step(gzip, baseUrl, After(gzip, baseUrl, world, events, n - 1), events[n - 1])
  }

  /** What the read at event k answers. */
  ghost function ResultAt(gzip: Gzip, baseUrl: string, world: World, events: seq<Event>, k: nat): CacheResult
    requires k < |events| && events[k].CacheRead?
  {
    var now := After(gzip, baseUrl, world, events, k);
    AfterRead(now.row, ReadOf(gzip, baseUrl, now, events[k])).1
  }

  /** The list requests among the first n events. */
  function RequestsOf(events: seq<Event>, n: nat): seq<StatusLists.Request>
    requires n <= |events|
  {
    if n == 0 then []
    else RequestsOf(events, n - 1) + if events[n - 1].ListRequest? then [events[n - 1].request] else []
  }

  lemma {:induction false} RunAppend(gzip: Gzip, lists: StatusLists.Table, reqs: seq<StatusLists.Request>,
                                     req: StatusLists.Request)
    ensures StatusLists.Run(gzip, lists, reqs + [req])
         == StatusLists.Step(gzip, StatusLists.Run(gzip, lists, reqs), req).0
    decreases |reqs|
  {
    hide StatusLists.Step;
    if reqs == [] {
      var next := StatusLists.Step(gzip, lists, req).0;
      assert ([] + [req])[0] == req && StatusLists.Run(gzip, next, ([] + [req])[1..]) == next;
    } else {
      assert (reqs + [req])[1..] == reqs[1..] + [req];
      RunAppend(gzip, StatusLists.Step(gzip, lists, reqs[0]).0, reqs[1..], req);
    }
  }

  /** The lists evolve by their requests alone. */
  lemma {:induction false} ListsFollowRequests(gzip: Gzip, baseUrl: string, world: World, events: seq<Event>, n: nat)
    requires n <= |events|
    ensures After(gzip, baseUrl, world, events, n).lists
         == StatusLists.Run(gzip, world.lists, RequestsOf(events, n))
  {
    if n > 0 {
      hide StatusLists.Step, AfterRead;
      ListsFollowRequests(gzip, baseUrl, world, events, n - 1);
      if events[n - 1].ListRequest? {
        RunAppend(gzip, world.lists, RequestsOf(events, n - 1), events[n - 1].request);
      } else {
        assert RequestsOf(events, n) == RequestsOf(events, n - 1);
      }
    }
  }

  /** The credential in the cache has a revocation entry whose hosted list is served with the bit set. */
  ghost predicate ServedRevoked(gzip: Gzip, baseUrl: string, world: World, i: nat,
                                signatureOk: Option<ListCredential -> bool>) {
    && world.row.credential.Some? && i < |world.row.credential.value|
    && var entry := world.row.credential.value[i];
    && EntryPurpose(entry) == "revocation"
    && StatusLifecycle.NamesRevocationList(baseUrl, world.lists, entry)
    && CheckSingleEntry(gzip, StatusLifecycle.HostedSources(baseUrl, world.lists, signatureOk), entry).currentValue == 1
  }

  /** How event k changes the row. */
  lemma RowAfter(gzip: Gzip, baseUrl: string, world: World, events: seq<Event>, k: nat)
    requires k < |events|
    ensures var now := After(gzip, baseUrl, world, events, k);
            After(gzip, baseUrl, world, events, k + 1).row
            == if events[k].CacheRead? then AfterRead(now.row, ReadOf(gzip, baseUrl, now, events[k])).0 else now.row
  {
    hide StatusLists.Step, AfterRead, ReadOf;
  }

  lemma CachedReadKeepsRow(row: CacheRow, read: Read)
    requires !AsksUpstream(row, read)
    ensures AfterRead(row, read).0 == row
  {
  }

  lemma ReadKeepsCredential(row: CacheRow, read: Read)
    ensures AfterRead(row, read).0.credential == row.credential
  {
    hide FindingsOf, CheckEntries;
  }

  /** Once the bit is served, an upstream check marks the row. */
  lemma ReadMarks(gzip: Gzip, baseUrl: string, world: World, events: seq<Event>, k: nat,
                  i: nat, signatureOk: Option<ListCredential -> bool>)
    requires Lossless(gzip) && StatusLifecycle.GoodTable(gzip, world.lists) && k < |events| && events[k].CacheRead?
    requires ServedRevoked(gzip, baseUrl, world, i, signatureOk)
    requires After(gzip, baseUrl, world, events, k).row.credential == world.row.credential
    requires var now := After(gzip, baseUrl, world, events, k);
             AsksUpstream(now.row, ReadOf(gzip, baseUrl, now, events[k]))
    ensures After(gzip, baseUrl, world, events, k + 1).row.revokedAt.Some?
  {
    var now := After(gzip, baseUrl, world, events, k);
    ListsFollowRequests(gzip, baseUrl, world, events, k);
    RowAfter(gzip, baseUrl, world, events, k);
    hide CheckSingleEntry, AfterRead, After, AsksUpstream, EntryPurpose, StatusLists.Run, StatusLifecycle.GoodTable;
    RevokedListMarksCache(baseUrl, world.lists, RequestsOf(events, k), now.row, ReadOf(gzip, baseUrl, now, events[k]),
                          i, signatureOk, events[k].signatureOk);
  }

  /** Once the bit is served, an event leaves the row alone or marks it. */
  lemma EventMarksOrKeeps(gzip: Gzip, baseUrl: string, world: World, events: seq<Event>, k: nat,
                          i: nat, signatureOk: Option<ListCredential -> bool>)
    requires Lossless(gzip) && StatusLifecycle.GoodTable(gzip, world.lists) && k < |events|
    requires ServedRevoked(gzip, baseUrl, world, i, signatureOk)
    requires After(gzip, baseUrl, world, events, k).row.credential == world.row.credential
    ensures var now, next := After(gzip, baseUrl, world, events, k).row, After(gzip, baseUrl, world, events, k + 1).row;
            next.credential == now.credential && (next == now || next.revokedAt.Some?)
  {
    hide ServedRevoked, After, AfterRead, AsksUpstream, ReadOf, StatusLifecycle.GoodTable;
    RowAfter(gzip, baseUrl, world, events, k);
    if events[k].CacheRead? {
      var now := After(gzip, baseUrl, world, events, k);
      var read := ReadOf(gzip, baseUrl, now, events[k]);
      ReadKeepsCredential(now.row, read);
      if AsksUpstream(now.row, read) {
        ReadMarks(gzip, baseUrl, world, events, k, i, signatureOk);
      } else {
        CachedReadKeepsRow(now.row, read);
      }
    }
  }

  lemma {:induction false} MarkedOrUntouched(gzip: Gzip, baseUrl: string, world: World, events: seq<Event>, n: nat,
                                             i: nat, signatureOk: Option<ListCredential -> bool>)
    requires Lossless(gzip) && StatusLifecycle.GoodTable(gzip, world.lists) && n <= |events|
    requires ServedRevoked(gzip, baseUrl, world, i, signatureOk)
    ensures var row := After(gzip, baseUrl, world, events, n).row;
            row.credential == world.row.credential && (row == world.row || row.revokedAt.Some?)
    decreases n
  {
    hide ServedRevoked, StatusLifecycle.GoodTable, Step;
    if n > 0 {
      hide After;
      MarkedOrUntouched(gzip, baseUrl, world, events, n - 1, i, signatureOk);
      EventMarksOrKeeps(gzip, baseUrl, world, events, n - 1, i, signatureOk);
      if After(gzip, baseUrl, world, events, n - 1).row.revokedAt.Some? {
        MarkStays(gzip, baseUrl, world, events, n - 1, n);
      }
    }
  }

  lemma {:induction false} MarkStays(gzip: Gzip, baseUrl: string, world: World, events: seq<Event>, k: nat, n: nat)
    requires k <= n <= |events| && After(gzip, baseUrl, world, events, k).row.revokedAt.Some?
    ensures After(gzip, baseUrl, world, events, n).row == After(gzip, baseUrl, world, events, k).row
    decreases n
  {
    if k < n {
      MarkStays(gzip, baseUrl, world, events, k, n - 1);
      RowAfter(gzip, baseUrl, world, events, n - 1);
      hide After, ReadOf, UpstreamFindings;
    }
  }

  /** A read reports valid only as the check that finds a revocation together with a lifted suspension. */
  ghost predicate ValidOnlyByException(row: CacheRow, read: Read) {
    AfterRead(row, read).1.isValid ==>
      && row.credential.Some? && AsksUpstream(row, read)
      && var found := UpstreamFindings(row, read);
      && found.revoked && found.lifted && !found.suspended
  }

  lemma MarkingReadVerdict(row: CacheRow, read: Read)
    requires AfterRead(row, read).0.revokedAt.Some?
    ensures ValidOnlyByException(row, read)
  {
    hide FindingsOf;
  }

  lemma LateReadMarks(gzip: Gzip, baseUrl: string, world: World, events: seq<Event>, servedAt: int,
                      k: nat, i: nat, signatureOk: Option<ListCredential -> bool>)
    requires Lossless(gzip) && StatusLifecycle.GoodTable(gzip, world.lists)
    requires ServedRevoked(gzip, baseUrl, world, i, signatureOk)
    requires world.row.lastVerifiedAt.Some? ==> world.row.lastVerifiedAt.value <= servedAt
    requires k < |events| && events[k].CacheRead?
    requires events[k].force || events[k].readAt - servedAt > RECHECK_THRESHOLD
    ensures After(gzip, baseUrl, world, events, k + 1).row.revokedAt.Some?
  {
    hide After, CheckSingleEntry, StatusLifecycle.GoodTable, StatusLifecycle.HostedSources;
    MarkedOrUntouched(gzip, baseUrl, world, events, k, i, signatureOk);
    if After(gzip, baseUrl, world, events, k).row.revokedAt.None? {
      ReadMarks(gzip, baseUrl, world, events, k, i, signatureOk);
    } else {
      MarkStays(gzip, baseUrl, world, events, k, k + 1);
    }
  }

  /**
    Bounded propagation of a revocation: let a hosted list serve the revocation bit of a cached
    credential whose row was last verified no later than servedAt. Whatever list requests and cache
    reads follow, a read that is forced or comes more than 24 hours after servedAt leaves the row
    marked, and it reports valid only if it is itself the check that finds the revocation together
    with a lifted suspension. Every read after it is refused.
   */
  lemma RevocationReachesReads(gzip: Gzip, baseUrl: string, world: World, events: seq<Event>, servedAt: int,
                               k: nat, i: nat, signatureOk: Option<ListCredential -> bool>)
    requires Lossless(gzip) && StatusLifecycle.GoodTable(gzip, world.lists)
    requires ServedRevoked(gzip, baseUrl, world, i, signatureOk)
    requires world.row.lastVerifiedAt.Some? ==> world.row.lastVerifiedAt.value <= servedAt
    requires k < |events| && events[k].CacheRead?
    requires events[k].force || events[k].readAt - servedAt > RECHECK_THRESHOLD
    ensures After(gzip, baseUrl, world, events, k + 1).row.revokedAt.Some?
    ensures var now := After(gzip, baseUrl, world, events, k);
            ValidOnlyByException(now.row, ReadOf(gzip, baseUrl, now, events[k]))
    ensures forall j :: k < j < |events| && events[j].CacheRead? ==>
              ResultAt(gzip, baseUrl, world, events, j) == CacheResult(false, true, false, false, false)
  {
    hide After, CheckSingleEntry, FindingsOf, ReadOf, StatusLifecycle.GoodTable, StatusLifecycle.NamesRevocationList;
    LateReadMarks(gzip, baseUrl, world, events, servedAt, k, i, signatureOk);
    hide ServedRevoked;
    RowAfter(gzip, baseUrl, world, events, k);
    var now := After(gzip, baseUrl, world, events, k);
    MarkingReadVerdict(now.row, ReadOf(gzip, baseUrl, now, events[k]));
    hide ValidOnlyByException;
    forall j | k < j < |events| && events[j].CacheRead?
      ensures ResultAt(gzip, baseUrl, world, events, j) == CacheResult(false, true, false, false, false)
    {
      MarkStays(gzip, baseUrl, world, events, k + 1, j);
    }
  }
}
