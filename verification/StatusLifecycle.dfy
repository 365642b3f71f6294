/**
  Whole runs of the status list service: what every sequence of create, allocate and update
  requests keeps, and what a verifier can conclude from a list served earlier.
 */
module StatusLifecycle {
  import opened Common
  import opened Bitstring
  import opened StatusCodec
  import opened StatusChecker
  import opened StatusLists

  /** A stored list decodes, is what its credential says, and has a bit for every index it hands out. */
  ghost predicate GoodRow(gzip: Gzip, row: Row) {
    && row.credential.encodedList == row.bitstring
    && row.nextIndex <= row.capacity
    && var raw := DecodeBitstring(gzip, row.bitstring);
    && raw.Some? && row.capacity <= 8 * |raw.value| < row.capacity + 8
  }

  ghost predicate GoodTable(gzip: Gzip, rows: Table) {
    forall id :: id in rows ==> GoodRow(gzip, rows[id])
  }

  function RawBits(gzip: Gzip, row: Row): seq<bv8>
    requires DecodeBitstring(gzip, row.bitstring).Some?
  {
    DecodeBitstring(gzip, row.bitstring).value
  }

  /** How one stored list may have changed: never its identity or size, and never a revocation bit from 1 to 0. */
  ghost predicate RowEvolves(gzip: Gzip, before: Row, after: Row)
    requires GoodRow(gzip, before) && GoodRow(gzip, after)
  {
    && after.url == before.url && after.ownerDid == before.ownerDid
    && after.purpose == before.purpose && after.capacity == before.capacity
    && before.nextIndex <= after.nextIndex
    && |RawBits(gzip, after)| == |RawBits(gzip, before)|
    && (before.purpose == "revocation" ==> OnlyRises(RawBits(gzip, before), RawBits(gzip, after)))
  }

  ghost predicate TableEvolves(gzip: Gzip, before: Table, after: Table)
    requires GoodTable(gzip, before) && GoodTable(gzip, after)
  {
    forall id :: id in before ==> id in after && RowEvolves(gzip, before[id], after[id])
  }

  /** Replacing one row by an evolved one, or adding a good one, evolves the table. */
  lemma TableUpdate(gzip: Gzip, rows: Table, id: string, row: Row)
    requires GoodTable(gzip, rows) && GoodRow(gzip, row) && (id in rows ==> RowEvolves(gzip, rows[id], row))
    ensures GoodTable(gzip, rows[id := row]) && TableEvolves(gzip, rows, rows[id := row])
  {
    hide GoodRow, DecodeBitstring, BitAt;
    forall other | other in rows ensures RowEvolves(gzip, rows[other], rows[id := row][other]) {
      if other != id { RowUnchanged(gzip, rows[other]); }
    }
  }

  lemma RowUnchanged(gzip: Gzip, row: Row)
    requires GoodRow(gzip, row)
    ensures RowEvolves(gzip, row, row)
  {
    hide GoodRow, DecodeBitstring, BitAt;
  }

  lemma TableUnchanged(gzip: Gzip, rows: Table)
    requires GoodTable(gzip, rows)
    ensures TableEvolves(gzip, rows, rows)
  {
    hide GoodRow, RowEvolves;
    forall id | id in rows ensures RowEvolves(gzip, rows[id], rows[id]) { RowUnchanged(gzip, rows[id]); }
  }

  lemma CreateEvolves(gzip: Gzip, rows: Table, req: Request)
    requires Lossless(gzip) && GoodTable(gzip, rows) && req.Create?
    ensures GoodTable(gzip, CreateStep(gzip, rows, req).0) && TableEvolves(gzip, rows, CreateStep(gzip, rows, req).0)
  {
    TableUnchanged(gzip, rows);
    var (next, response) := CreateStep(gzip, rows, req);
    if response.Created? {
      CodecRoundTrip(gzip, CreateBitstring(req.capacity).value);
      hide DecodeBitstring, EncodeBitstring, BitAt, GoodTable, TableEvolves;
      TableUpdate(gzip, rows, req.listId, next[req.listId]);
    }
  }

  lemma AllocateEvolves(gzip: Gzip, rows: Table, req: Request)
    requires GoodTable(gzip, rows) && req.Allocate?
    ensures GoodTable(gzip, AllocateStep(rows, req).0) && TableEvolves(gzip, rows, AllocateStep(rows, req).0)
  {
    hide DecodeBitstring, BitAt, TableEvolves;
    TableUnchanged(gzip, rows);
    var (next, response) := AllocateStep(rows, req);
    if response.Allocated? {
      assert GoodRow(gzip, rows[req.listId]);
      TableUpdate(gzip, rows, req.listId, next[req.listId]);
    }
  }

  lemma AcceptedRow(gzip: Gzip, row: Row, cred: ListCredential)
    requires GoodRow(gzip, row) && ValidateUpdate(gzip, row.bitstring, cred.encodedList, row.purpose).Accepted?
    ensures var row' := row.(credential := cred, bitstring := cred.encodedList);
            GoodRow(gzip, row') && RowEvolves(gzip, row, row')
  {
    hide DecodeBitstring, BitAt, ValidateUpdate;
    ValidateUpdateIff(gzip, row.bitstring, cred.encodedList, row.purpose);
  }

  lemma UpdateEvolves(gzip: Gzip, rows: Table, req: Request)
    requires GoodTable(gzip, rows) && req.Update?
    ensures GoodTable(gzip, UpdateStep(gzip, rows, req).0) && TableEvolves(gzip, rows, UpdateStep(gzip, rows, req).0)
  {
    hide GoodRow, RowEvolves, TableEvolves, ValidateUpdate;
    TableUnchanged(gzip, rows);
    var (next, response) := UpdateStep(gzip, rows, req);
    if response.Updated? {
      AcceptedRow(gzip, rows[req.listId], req.credential.value);
      TableUpdate(gzip, rows, req.listId, next[req.listId]);
    }
  }

  lemma StepEvolves(gzip: Gzip, rows: Table, req: Request)
    requires Lossless(gzip) && GoodTable(gzip, rows)
    ensures GoodTable(gzip, Step(gzip, rows, req).0) && TableEvolves(gzip, rows, Step(gzip, rows, req).0)
  {
    match req
    case Create(_, _, _, _, _) => CreateEvolves(gzip, rows, req);
    case Allocate(_, _) => AllocateEvolves(gzip, rows, req);
    case Update(_, _, _) => UpdateEvolves(gzip, rows, req);
  }

  lemma EvolvesTransitive(gzip: Gzip, a: Table, b: Table, c: Table)
    requires GoodTable(gzip, a) && GoodTable(gzip, b) && GoodTable(gzip, c)
    requires TableEvolves(gzip, a, b) && TableEvolves(gzip, b, c)
    ensures TableEvolves(gzip, a, c)
  {
    hide DecodeBitstring, BitAt;
    forall id | id in a ensures id in c && RowEvolves(gzip, a[id], c[id]) {
      assert RowEvolves(gzip, a[id], b[id]) && RowEvolves(gzip, b[id], c[id]);
    }
  }

  /**
    Revocation is permanent: over any run every list stays, keeps its owner, purpose, capacity and
    length, and on a revocation list a bit that is 1 stays 1. The stored bitstring is always the
    encodedList of the stored credential.
   */
  lemma {:induction false} RunEvolves(gzip: Gzip, rows: Table, reqs: seq<Request>)
    requires Lossless(gzip) && GoodTable(gzip, rows)
    ensures GoodTable(gzip, Run(gzip, rows, reqs)) && TableEvolves(gzip, rows, Run(gzip, rows, reqs))
    decreases |reqs|
  {
    if reqs == [] {
      hide DecodeBitstring, BitAt;
    } else {
      hide Step, GoodTable, TableEvolves;
      var next := Step(gzip, rows, reqs[0]).0;
      StepEvolves(gzip, rows, reqs[0]);
      RunEvolves(gzip, next, reqs[1..]);
      EvolvesTransitive(gzip, rows, next, Run(gzip, next, reqs[1..]));
    }
  }

  /** A request changes at most the list it names. */
  lemma OtherListsUntouched(gzip: Gzip, rows: Table, req: Request, id: string)
    requires id != req.listId
    ensures var next := Step(gzip, rows, req).0;
            (id in next <==> id in rows) && (id in rows ==> next[id] == rows[id])
  {
    hide ValidateUpdate, EncodeBitstring, CreateBitstring;
  }

  /** Only its owner changes a list: by a signed update, or by taking the next index. */
  lemma OnlyOwnerChanges(gzip: Gzip, rows: Table, req: Request, id: string)
    requires id in rows && Step(gzip, rows, req).0[id] != rows[id]
    ensures match req
            case Create(_, _, _, _, _) => false
            case Allocate(_, did) =>
              did == rows[id].ownerDid &&
              Step(gzip, rows, req).0[id] == rows[id].(nextIndex := rows[id].nextIndex + 1)
            case Update(_, cred, authentication) =>
              authentication == Signer(rows[id].ownerDid) && cred.Some? && cred.value.statusPurpose == rows[id].purpose
  {
    hide ValidateUpdate, EncodeBitstring, CreateBitstring;
  }

  /** A new list decodes to zeros, has no index handed out, and is not served until its owner updates it. */
  lemma CreatedListIsClear(gzip: Gzip, rows: Table, req: Request)
    requires Lossless(gzip) && req.Create? && CreateStep(gzip, rows, req).1.Created?
    ensures var row := CreateStep(gzip, rows, req).0[req.listId];
            && DecodeBitstring(gzip, row.bitstring).Some?
            && (forall i :: 0 <= i < 8 * |RawBits(gzip, row)| ==> BitAt(RawBits(gzip, row), i) == 0)
            && row.nextIndex == 0 && row.ownerDid == req.ownerDid && row.purpose == req.purpose
    ensures FetchHosted(req.baseUrl, CreateStep(gzip, rows, req).0, ListUrl(req.baseUrl, req.listId)).None?
  {
    UrlSplits(req.baseUrl, req.listId);
    CodecRoundTrip(gzip, CreateBitstring(req.capacity).value);
    hide DecodeBitstring, EncodeBitstring, BitAt;
  }

  lemma UrlSplits(baseUrl: string, listId: string)
    ensures ListUrl(baseUrl, "") <= ListUrl(baseUrl, listId)
    ensures ListUrl(baseUrl, listId)[|ListUrl(baseUrl, "")|..] == listId
  {
    assert ListUrl(baseUrl, listId) == ListUrl(baseUrl, "") + listId;
  }

  /** An accepted update is served at once under the list's URL, unless it is itself marked as a placeholder. */
  lemma UpdatedListIsServed(gzip: Gzip, rows: Table, req: Request, baseUrl: string)
    requires req.Update? && UpdateStep(gzip, rows, req).1.Updated?
    ensures req.credential.Some?
    ensures FetchHosted(baseUrl, UpdateStep(gzip, rows, req).0, ListUrl(baseUrl, req.listId))
         == if req.credential.value.placeholder then None else req.credential
  {
    hide ValidateUpdate, ListUrl;
    UrlSplits(baseUrl, req.listId);
  }

  // ----- Index allocation

  /** The successful allocations for one list, in order. */
  function AllocatedFor(listId: string, reqs: seq<Request>, responses: seq<Response>): seq<Response>
    requires |reqs| == |responses|
    decreases |reqs|
  {
    if reqs == [] then []
    else (if reqs[0].Allocate? && reqs[0].listId == listId && responses[0].Allocated? then [responses[0]] else [])
         + AllocatedFor(listId, reqs[1..], responses[1..])
  }

  function NextIndex(rows: Table, listId: string): nat {
    if listId in rows then rows[listId].nextIndex else 0
  }

  /** The k-th of these responses, counted from `from`, hands out index k and leaves the rest of the capacity. */
  ghost predicate HandsOutInOrder(responses: seq<Response>, from: nat, capacity: nat) {
    && (responses != [] ==> from + |responses| <= capacity)
    && forall k :: 0 <= k < |responses| ==> responses[k] == Allocated(from + k, capacity - (from + k) - 1)
  }

  lemma HandsOutFirst(first: Response, rest: seq<Response>, from: nat, capacity: nat)
    requires from < capacity && first == Allocated(from, capacity - from - 1)
    requires HandsOutInOrder(rest, from + 1, capacity)
    ensures HandsOutInOrder([first] + rest, from, capacity)
  {
    assert forall k :: 0 < k < |[first] + rest| ==> ([first] + rest)[k] == rest[k - 1];
  }

  lemma StepAllocates(gzip: Gzip, rows: Table, req: Request, listId: string)
    ensures var (next, response) := Step(gzip, rows, req);
            && (listId in rows ==> listId in next && next[listId].capacity == rows[listId].capacity)
            && if req.Allocate? && req.listId == listId && response.Allocated?
               then listId in rows && NextIndex(next, listId) == NextIndex(rows, listId) + 1 &&
                    NextIndex(rows, listId) < rows[listId].capacity &&
                    response == Allocated(NextIndex(rows, listId), rows[listId].capacity - NextIndex(rows, listId) - 1)
               else NextIndex(next, listId) == NextIndex(rows, listId)
  {
    hide ValidateUpdate, EncodeBitstring, CreateBitstring;
  }

  /**
    Over any run the indices handed out for a list are the consecutive numbers from its counter
    before the run to its counter after it: none is skipped, none repeated; and each response tells
    how many of the list's capacity remain after it.
   */
  lemma {:induction false} AllocationIsConsecutive(gzip: Gzip, rows: Table, reqs: seq<Request>, listId: string)
    ensures var responses, after := AllocatedFor(listId, reqs, Responses(gzip, rows, reqs)), Run(gzip, rows, reqs);
            && (listId in rows ==> listId in after && after[listId].capacity == rows[listId].capacity)
            && NextIndex(after, listId) == NextIndex(rows, listId) + |responses|
            && (responses != [] ==> listId in after)
            && (listId in after ==> HandsOutInOrder(responses, NextIndex(rows, listId), after[listId].capacity))
    decreases |reqs|
  {
    if reqs == [] {
    } else {
      hide Step, NextIndex;
      var (next, response) := Step(gzip, rows, reqs[0]);
      StepAllocates(gzip, rows, reqs[0], listId);
      AllocationIsConsecutive(gzip, next, reqs[1..], listId);
      assert Responses(gzip, rows, reqs) == [response] + Responses(gzip, next, reqs[1..]);
      var rest := AllocatedFor(listId, reqs[1..], Responses(gzip, next, reqs[1..]));
      if reqs[0].Allocate? && reqs[0].listId == listId && response.Allocated? {
        HandsOutFirst(response, rest, NextIndex(rows, listId), rows[listId].capacity);
      } else {
        assert [] + rest == rest;
      }
    }
  }

  /**
    From the empty table, the k-th allocation of a list answers index k with capacity - k - 1 left,
    the counter is the number of allocations and never above the capacity, and every index handed
    out has a bit in the stored bitstring.
   */
  lemma AllocationFromScratch(gzip: Gzip, reqs: seq<Request>, listId: string)
    requires Lossless(gzip) && listId in Run(gzip, map[], reqs)
    ensures var row := Run(gzip, map[], reqs)[listId];
            var responses := AllocatedFor(listId, reqs, Responses(gzip, map[], reqs));
            && HandsOutInOrder(responses, 0, row.capacity)
            && |responses| == row.nextIndex <= row.capacity
            && DecodeBitstring(gzip, row.bitstring).Some?
            && forall i :: 0 <= i < row.nextIndex ==> GetBit(RawBits(gzip, row), i).Some?
  {
    RunEvolves(gzip, map[], reqs);
    AllocationIsConsecutive(gzip, map[], reqs, listId);
    hide DecodeBitstring, BitAt, HandsOutInOrder;
  }

  // ----- What a verifier may conclude

  /** The sources of POST /verify/status: hosted lists, and signatures judged by any rule. */
  function HostedSources(baseUrl: string, rows: Table, signatureOk: Option<ListCredential -> bool>): Sources {
    Sources(url => FetchHosted(baseUrl, rows, url), signatureOk)
  }

  /** An entry whose list is a hosted revocation list. */
  predicate NamesRevocationList(baseUrl: string, rows: Table, entry: StatusEntry) {
    entry.listUrl.Some? && ListUrl(baseUrl, "") <= entry.listUrl.value &&
    var id := entry.listUrl.value[|ListUrl(baseUrl, "")|..];
    id in rows && rows[id].purpose == "revocation"
  }

  /** A bit seen as 1 in a served revocation list never resolves to 0 later. */
  lemma RevokedEntryStaysRevoked(gzip: Gzip, baseUrl: string, rows: Table, later: Table, entry: StatusEntry,
                                 sig: Option<ListCredential -> bool>, sig': Option<ListCredential -> bool>)
    requires GoodTable(gzip, rows) && GoodTable(gzip, later) && TableEvolves(gzip, rows, later)
    requires NamesRevocationList(baseUrl, rows, entry)
    requires ResolvesTo(gzip, HostedSources(baseUrl, rows, sig), entry, 1)
    ensures !ResolvesTo(gzip, HostedSources(baseUrl, later, sig'), entry, 0)
  {
    hide DecodeBitstring, BitAt;
    var id := entry.listUrl.value[|ListUrl(baseUrl, "")|..];
    assert RowEvolves(gzip, rows[id], later[id]);
    assert GoodRow(gzip, rows[id]) && GoodRow(gzip, later[id]);
  }

  /**
    The headline: a credential whose entry was once reported revoked from a served revocation list
    is never reported valid again, whatever requests follow and however signatures are judged.
   */
  lemma RevokedCredentialStaysRevoked(gzip: Gzip, baseUrl: string, rows: Table, reqs: seq<Request>,
                                      entries: seq<StatusEntry>, i: nat,
                                      sig: Option<ListCredential -> bool>, sig': Option<ListCredential -> bool>)
    requires Lossless(gzip) && GoodTable(gzip, rows)
    requires i < |entries| && NamesRevocationList(baseUrl, rows, entries[i])
    requires CheckSingleEntry(gzip, HostedSources(baseUrl, rows, sig), entries[i]).currentValue == 1
    ensures !AllValid(CheckEntries(gzip, HostedSources(baseUrl, Run(gzip, rows, reqs), sig'), entries))
  {
    hide CheckSingleEntry, ResolvesTo, NamesRevocationList, DecodeBitstring;
    var later := Run(gzip, rows, reqs);
    RunEvolves(gzip, rows, reqs);
    SingleEntryMeaning(gzip, HostedSources(baseUrl, rows, sig), entries[i]);
    RevokedEntryStaysRevoked(gzip, baseUrl, rows, later, entries[i], sig, sig');
    OverallValidIff(gzip, HostedSources(baseUrl, later, sig'), entries);
  }
}
