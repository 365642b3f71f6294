/**
  OP-hosted status lists: the table of api/status_list_store.py and the acceptance logic of the
  update handler in api/status_list_routes.py.

  Handlers are serial: the update handler reads the row and writes it without a row lock, so
  nothing is said about two updates that overlap. Index allocation holds a row lock in the code.
 */
module StatusLists {
  import opened Common
  import opened Bitstring
  import opened StatusCodec
  import opened StatusChecker

  datatype Row = Row(
    url: string,
    ownerDid: string,
    purpose: string,
    bitstring: string,
    credential: ListCredential,
    nextIndex: nat,
    capacity: nat)

  type Table = map<string, Row>

  // ----- Validation of an update

  datatype Validation =
    | Accepted(changes: Changes)
    | Undecodable
    | SizeMismatch
    | NoBitsChanged
    | Reversal(indices: set<nat>)

  /** validate_status_list_update */
  function ValidateUpdate(gzip: Gzip, oldEncoded: string, newEncoded: string, purpose: string): Validation {
    var oldRaw, newRaw := DecodeBitstring(gzip, oldEncoded), DecodeBitstring(gzip, newEncoded);
    if oldRaw.None? || newRaw.None? then Undecodable
    else if |oldRaw.value| != |newRaw.value| then SizeMismatch
    else
      var changes := Diff(oldRaw.value, newRaw.value);
      if changes == map[] then NoBitsChanged
      else
        var reversals := set i | i in changes && changes[i] == (1, 0);
        if purpose == "revocation" && reversals != {} then Reversal(reversals) else Accepted(changes)
  }

  /** The bits of a revocation list only rise. */
  ghost predicate OnlyRises(oldRaw: seq<bv8>, newRaw: seq<bv8>) {
    |oldRaw| == |newRaw| && forall i :: 0 <= i < 8 * |oldRaw| && BitAt(oldRaw, i) == 1 ==> BitAt(newRaw, i) == 1
  }

  /**
    An update is accepted exactly when both lists decode to the same length, they differ, and for a
    revocation list no bit falls.
   */
  lemma ValidateUpdateIff(gzip: Gzip, oldEncoded: string, newEncoded: string, purpose: string)
    ensures ValidateUpdate(gzip, oldEncoded, newEncoded, purpose).Accepted?
       <==> var oldRaw, newRaw := DecodeBitstring(gzip, oldEncoded), DecodeBitstring(gzip, newEncoded);
            && oldRaw.Some? && newRaw.Some? && |oldRaw.value| == |newRaw.value| && oldRaw.value != newRaw.value
            && (purpose == "revocation" ==> OnlyRises(oldRaw.value, newRaw.value))
  {
    hide DecodeBitstring, BitAt;
    var a, b := DecodeBitstring(gzip, oldEncoded), DecodeBitstring(gzip, newEncoded);
    if a.Some? && b.Some? && |a.value| == |b.value| {
      DiffEmptyIff(a.value, b.value);
      NoReversalIff(a.value, b.value);
    }
  }

  /** Why an update is refused: each reason exactly in its case, and the reversals are the bits that fall. */
  lemma ValidationReasons(gzip: Gzip, oldEncoded: string, newEncoded: string, purpose: string)
    ensures var validation := ValidateUpdate(gzip, oldEncoded, newEncoded, purpose);
            var oldRaw, newRaw := DecodeBitstring(gzip, oldEncoded), DecodeBitstring(gzip, newEncoded);
            && (validation == Undecodable <==> oldRaw.None? || newRaw.None?)
            && (validation == SizeMismatch <==> oldRaw.Some? && newRaw.Some? && |oldRaw.value| != |newRaw.value|)
            && (validation == NoBitsChanged <==> oldRaw.Some? && oldRaw == newRaw)
            && (validation.Reversal? ==>
                  && purpose == "revocation" && oldRaw.Some? && newRaw.Some? && |oldRaw.value| == |newRaw.value|
                  && validation.indices != {}
                  && forall i: nat :: i in validation.indices <==>
                       i < 8 * |oldRaw.value| && BitAt(oldRaw.value, i) == 1 && BitAt(newRaw.value, i) == 0)
  {
    hide DecodeBitstring, BitAt;
    var a, b := DecodeBitstring(gzip, oldEncoded), DecodeBitstring(gzip, newEncoded);
    if a.Some? && b.Some? && |a.value| == |b.value| {
      DiffEmptyIff(a.value, b.value);
    }
  }

  lemma DiffEmptyIff(oldRaw: seq<bv8>, newRaw: seq<bv8>)
    requires |oldRaw| == |newRaw|
    ensures Diff(oldRaw, newRaw) == map[] <==> oldRaw == newRaw
  {
    hide BitAt;
    var changes := Diff(oldRaw, newRaw);
    if changes == map[] {
      forall i | 0 <= i < 8 * |oldRaw| ensures BitAt(oldRaw, i) == BitAt(newRaw, i) {
        assert i !in changes;
      }
      SameBitsSame(oldRaw, newRaw);
    }
  }

  lemma NoReversalIff(oldRaw: seq<bv8>, newRaw: seq<bv8>)
    requires |oldRaw| == |newRaw|
    ensures var changes := Diff(oldRaw, newRaw);
            (set i | i in changes && changes[i] == (1, 0)) == {} <==> OnlyRises(oldRaw, newRaw)
  {
    hide BitAt;
    var changes := Diff(oldRaw, newRaw);
    var reversals := set i | i in changes && changes[i] == (1, 0);
    if reversals == {} {
      forall i | 0 <= i < 8 * |oldRaw| && BitAt(oldRaw, i) == 1 ensures BitAt(newRaw, i) == 1 {
        assert i !in reversals;
      }
    }
    if i :| i in reversals {
      assert BitAt(oldRaw, i) == 1 && BitAt(newRaw, i) == 0;
    }
  }

  // ----- Requests

  /** The signer that proof extraction, DID resolution and signature verification establish, or their HTTP error. */
  datatype Authentication = Signer(did: string) | Refused(status: nat)

  datatype Request =
    | Create(listId: string, ownerDid: string, purpose: string, baseUrl: string, capacity: int)
    | Allocate(listId: string, did: string)
    | Update(listId: string, credential: Option<ListCredential>, authentication: Authentication)

  datatype Response =
    | Created(listId: string, url: string, purpose: string, capacity: nat)
    | Allocated(index: nat, remaining: nat)
    | Updated(bitsChanged: nat)
    | HttpError(status: nat)
    /** create_status_list raised: a ValueError or a uniqueness violation. */
    | Raised

  function ListUrl(baseUrl: string, listId: string): string {
    baseUrl + "/sovereign/status-lists/" + listId
  }

  function PlaceholderCredential(purpose: string, encoded: string): ListCredential {
    ListCredential(true, true, encoded, purpose, true)
  }

  predicate UrlTaken(rows: Table, url: string) {
    exists id :: id in rows && rows[id].url == url
  }

  /** create_status_list */
  function CreateStep(gzip: Gzip, rows: Table, req: Request): (Table, Response)
    requires req.Create?
  {
    var raw := CreateBitstring(req.capacity);
    var url := ListUrl(req.baseUrl, req.listId);
    if req.purpose !in {"revocation", "suspension"} || raw.None? || req.listId in rows || UrlTaken(rows, url) then
      (rows, Raised)
    else
      var encoded := EncodeBitstring(gzip, raw.value);
      var placeholder := PlaceholderCredential(req.purpose, encoded);
      var row := Row(url, req.ownerDid, req.purpose, encoded, placeholder, 0, req.capacity);
      (rows[req.listId := row], Created(req.listId, url, req.purpose, req.capacity))
  }

  /** allocate_index with the HTTP errors of its endpoint */
  function AllocateStep(rows: Table, req: Request): (Table, Response)
    requires req.Allocate?
  {
    if req.listId !in rows then (rows, HttpError(404))
    else
      var row := rows[req.listId];
      if row.ownerDid != req.did then (rows, HttpError(403))
      else if row.nextIndex >= row.capacity then (rows, HttpError(409))
      else (rows[req.listId := row.(nextIndex := row.nextIndex + 1)],
            Allocated(row.nextIndex, row.capacity - row.nextIndex - 1))
  }

  /** update_status_list_endpoint */
  function UpdateStep(gzip: Gzip, rows: Table, req: Request): (Table, Response)
    requires req.Update?
  {
    if req.credential.None? then (rows, HttpError(400))
    else
      var cred := req.credential.value;
      if !cred.hasListType || !cred.subjectIsList || cred.encodedList == "" || cred.statusPurpose == "" then
        (rows, HttpError(400))
      else if req.authentication.Refused? then (rows, HttpError(req.authentication.status))
      else if req.listId !in rows then (rows, HttpError(404))
      else
        var row := rows[req.listId];
        if cred.statusPurpose != row.purpose then (rows, HttpError(400))
        else if req.authentication.did != row.ownerDid then (rows, HttpError(403))
        else
          match ValidateUpdate(gzip, row.bitstring, cred.encodedList, row.purpose)
          case Accepted(changes) =>
            (rows[req.listId := row.(credential := cred, bitstring := cred.encodedList)], Updated(|changes|))
          case _ => (rows, HttpError(400))
  }

  function Step(gzip: Gzip, rows: Table, req: Request): (Table, Response) {
    match req
    case Create(_, _, _, _, _) => CreateStep(gzip, rows, req)
    case Allocate(_, _) => AllocateStep(rows, req)
    case Update(_, _, _) => UpdateStep(gzip, rows, req)
  }

  // ----- When a request succeeds

  /** A list is created exactly with a known purpose, a sufficient capacity, and an id and URL of its own. */
  lemma CreatedIff(gzip: Gzip, rows: Table, req: Request)
    requires req.Create?
    ensures var (next, response) := CreateStep(gzip, rows, req);
            var url := req.baseUrl + "/sovereign/status-lists/" + req.listId;
            && (response.Created? <==>
                  && (req.purpose == "revocation" || req.purpose == "suspension") && req.capacity >= 131072
                  && req.listId !in rows && forall id :: id in rows ==> rows[id].url != url)
            && (!response.Created? ==> (next, response) == (rows, Raised))
            && (response.Created? ==>
                  && req.listId in next && next == rows[req.listId := next[req.listId]]
                  && response.listId == req.listId
                  && var row := next[req.listId];
                  && row.url == response.url == url && row.ownerDid == req.ownerDid
                  && row.purpose == response.purpose == req.purpose
                  && row.capacity == response.capacity == req.capacity && row.nextIndex == 0
                  && row.credential.statusPurpose == req.purpose && row.credential.placeholder
                  && row.credential.hasListType && row.credential.subjectIsList)
  {
    hide EncodeBitstring, CreateBitstring;
  }

  /** An index is handed out exactly to the owner of a list that is not full; it is the list's counter. */
  lemma AllocatedIff(rows: Table, req: Request)
    requires req.Allocate?
    ensures var (next, response) := AllocateStep(rows, req);
            && (response.Allocated? <==>
                  req.listId in rows && req.did == rows[req.listId].ownerDid &&
                  rows[req.listId].nextIndex < rows[req.listId].capacity)
            && (response.Allocated? ==>
                  var row := rows[req.listId];
                  && response.index == row.nextIndex && response.remaining + row.nextIndex + 1 == row.capacity
                  && next == rows[req.listId := row.(nextIndex := row.nextIndex + 1)])
            && (!response.Allocated? ==> next == rows)
            && (response == HttpError(404) <==> req.listId !in rows)
            && (response == HttpError(403) <==> req.listId in rows && req.did != rows[req.listId].ownerDid)
            && (response == HttpError(409) <==>
                  req.listId in rows && req.did == rows[req.listId].ownerDid &&
                  rows[req.listId].nextIndex >= rows[req.listId].capacity)
  {
  }

  /** What the update handler accepts of a credential before it looks at the table. */
  predicate WellFormed(credential: Option<ListCredential>) {
    && credential.Some? && credential.value.hasListType && credential.value.subjectIsList
    && credential.value.encodedList != "" && credential.value.statusPurpose != ""
  }

  /** The number of bits that differ. */
  function BitsChanged(oldRaw: seq<bv8>, newRaw: seq<bv8>): nat
    requires |oldRaw| == |newRaw|
  {
    |set i: nat | 0 <= i < 8 * |oldRaw| && BitAt(oldRaw, i) != BitAt(newRaw, i)|
  }

  lemma MapCard<K, V>(m: map<K, V>, keys: set<K>)
    requires m.Keys == keys
    ensures |m| == |keys|
  {
  }

  /**
    An update is accepted exactly for a well-formed credential of the list's purpose, signed by the
    list's owner, if both lists decode to one length and differ, and on a revocation list no bit
    falls. The credential then takes the place of the old one, and the bits that differ are counted.
    On a suspension list every bit may rise and fall.
   */
  lemma UpdatedIff(gzip: Gzip, rows: Table, req: Request)
    requires req.Update?
    ensures UpdateStep(gzip, rows, req).1.Updated?
       <==> && WellFormed(req.credential) && req.listId in rows
            && req.authentication == Signer(rows[req.listId].ownerDid)
            && req.credential.value.statusPurpose == rows[req.listId].purpose
            && var oldRaw := DecodeBitstring(gzip, rows[req.listId].bitstring);
            && var newRaw := DecodeBitstring(gzip, req.credential.value.encodedList);
            && oldRaw.Some? && newRaw.Some? && |oldRaw.value| == |newRaw.value| && oldRaw.value != newRaw.value
            && (rows[req.listId].purpose == "revocation" ==> OnlyRises(oldRaw.value, newRaw.value))
    ensures UpdateStep(gzip, rows, req).1.Updated? ==>
              var (next, response) := UpdateStep(gzip, rows, req);
              var cred := req.credential.value;
              && next == rows[req.listId := rows[req.listId].(credential := cred, bitstring := cred.encodedList)]
              && response.bitsChanged == BitsChanged(DecodeBitstring(gzip, rows[req.listId].bitstring).value,
                                                     DecodeBitstring(gzip, cred.encodedList).value)
    ensures !UpdateStep(gzip, rows, req).1.Updated? ==>
              UpdateStep(gzip, rows, req).0 == rows && UpdateStep(gzip, rows, req).1.HttpError?
  {
    hide DecodeBitstring, BitAt, OnlyRises;
    if WellFormed(req.credential) && req.listId in rows {
      var row, encoded := rows[req.listId], req.credential.value.encodedList;
      ValidateUpdateIff(gzip, row.bitstring, encoded, row.purpose);
      if ValidateUpdate(gzip, row.bitstring, encoded, row.purpose).Accepted? {
        ChangesCounted(gzip, row.bitstring, encoded, row.purpose);
      }
      hide ValidateUpdate, BitsChanged;
    }
  }

  lemma ChangesCounted(gzip: Gzip, oldEncoded: string, newEncoded: string, purpose: string)
    requires ValidateUpdate(gzip, oldEncoded, newEncoded, purpose).Accepted?
    ensures var oldRaw, newRaw := DecodeBitstring(gzip, oldEncoded), DecodeBitstring(gzip, newEncoded);
            oldRaw.Some? && newRaw.Some? && |oldRaw.value| == |newRaw.value| &&
            |ValidateUpdate(gzip, oldEncoded, newEncoded, purpose).changes| == BitsChanged(oldRaw.value, newRaw.value)
  {
    hide DecodeBitstring, BitAt;
    var oldRaw, newRaw := DecodeBitstring(gzip, oldEncoded).value, DecodeBitstring(gzip, newEncoded).value;
    MapCard(Diff(oldRaw, newRaw), set i: nat | 0 <= i < 8 * |oldRaw| && BitAt(oldRaw, i) != BitAt(newRaw, i));
  }

  /** Which error a refused update gets, in the order of the checks. */
  lemma UpdateErrors(gzip: Gzip, rows: Table, req: Request)
    requires req.Update? && UpdateStep(gzip, rows, req).1.HttpError?
    ensures var status := UpdateStep(gzip, rows, req).1.status;
            && (!WellFormed(req.credential) ==> status == 400)
            && (WellFormed(req.credential) && req.authentication.Refused? ==> status == req.authentication.status)
            && (WellFormed(req.credential) && req.authentication.Signer? ==>
                  && (status == 404 <==> req.listId !in rows)
                  && (status == 403 <==>
                        req.listId in rows && req.credential.value.statusPurpose == rows[req.listId].purpose &&
                        req.authentication.did != rows[req.listId].ownerDid)
                  && status in {400, 403, 404})
  {
    hide ValidateUpdate;
  }

  /** The table after a sequence of requests. */
  function Run(gzip: Gzip, rows: Table, reqs: seq<Request>): Table
    decreases |reqs|
  {
    if reqs == [] then rows else Run(gzip, Step(gzip, rows, reqs[0]).0, reqs[1..])
  }

  /** The responses to a sequence of requests. */
  function Responses(gzip: Gzip, rows: Table, reqs: seq<Request>): (responses: seq<Response>)
    ensures |responses| == |reqs|
    decreases |reqs|
  {
    if reqs == [] then []
    else var (next, response) := Step(gzip, rows, reqs[0]); [response] + Responses(gzip, next, reqs[1..])
  }

  /** get_status_list_credential: placeholders are not served. */
  function ServedCredential(rows: Table, listId: string): Option<ListCredential> {
    if listId in rows && !rows[listId].credential.placeholder then Some(rows[listId].credential) else None
  }

  /** The lookup inside verify_status_endpoint: lists of other hosts are not fetched. */
  function FetchHosted(baseUrl: string, rows: Table, url: string): Option<ListCredential> {
    var prefix := ListUrl(baseUrl, "");
    if prefix <= url then ServedCredential(rows, url[|prefix|..]) else None
  }

  /** Exactly the hosted lists are fetched, under their URLs, once their owner has replaced the placeholder. */
  lemma FetchedIff(baseUrl: string, rows: Table, url: string, cred: ListCredential)
    ensures FetchHosted(baseUrl, rows, url) == Some(cred)
       <==> exists id :: id in rows && url == baseUrl + "/sovereign/status-lists/" + id
                         && rows[id].credential == cred && !cred.placeholder
  {
    var prefix := ListUrl(baseUrl, "");
    assert prefix == baseUrl + "/sovereign/status-lists/";
    if prefix <= url {
      assert url == prefix + url[|prefix|..];
    }
    forall id | url == baseUrl + "/sovereign/status-lists/" + id ensures prefix <= url && url[|prefix|..] == id {
      assert url == prefix + id;
    }
  }

  // ----- The store as an object

  class StatusListStore {
    var rows: Table

    constructor ()
      ensures rows == map[]
    {
      rows := map[];
    }

    method CreateStatusList(gzip: Gzip, req: Request) returns (response: Response)
      requires req.Create?
      modifies this
      ensures (rows, response) == CreateStep(gzip, old(rows), req)
    {
      if req.purpose != "revocation" && req.purpose != "suspension" {
        return Raised;
      }
      var url := ListUrl(req.baseUrl, req.listId);
      var raw := CreateBitstring(req.capacity);
      if raw.None? {
        return Raised;
      }
      var encoded := EncodeBitstring(gzip, raw.value);
      if req.listId in rows || UrlTaken(rows, url) {
        return Raised;
      }
      rows := rows[req.listId := Row(url, req.ownerDid, req.purpose, encoded,
                                     PlaceholderCredential(req.purpose, encoded), 0, req.capacity)];
      return Created(req.listId, url, req.purpose, req.capacity);
    }

    method AllocateIndex(req: Request) returns (response: Response)
      requires req.Allocate?
      modifies this
      ensures (rows, response) == AllocateStep(old(rows), req)
    {
      if req.listId !in rows {
        return HttpError(404);
      }
      var row := rows[req.listId];
      if row.ownerDid != req.did {
        return HttpError(403);
      }
      if row.nextIndex >= row.capacity {
        return HttpError(409);
      }
      rows := rows[req.listId := row.(nextIndex := row.nextIndex + 1)];
      return Allocated(row.nextIndex, row.capacity - row.nextIndex - 1);
    }

    /** update_status_list: False stands for StatusListNotFoundError. */
    method ReplaceList(listId: string, credential: ListCredential, encoded: string) returns (updated: bool)
      modifies this
      ensures updated <==> listId in old(rows)
      ensures rows == if !updated then old(rows)
                      else old(rows)[listId := old(rows)[listId].(credential := credential, bitstring := encoded)]
    {
      if listId !in rows {
        return false;
      }
      rows := rows[listId := rows[listId].(credential := credential, bitstring := encoded)];
      return true;
    }

    method UpdateEndpoint(gzip: Gzip, req: Request) returns (response: Response)
      requires req.Update?
      modifies this
      ensures (rows, response) == UpdateStep(gzip, old(rows), req)
    {
      if req.credential.None? {
        return HttpError(400);
      }
      var cred := req.credential.value;
      if !cred.hasListType || !cred.subjectIsList || cred.encodedList == "" || cred.statusPurpose == "" {
        return HttpError(400);
      }
      if req.authentication.Refused? {
        return HttpError(req.authentication.status);
      }
      if req.listId !in rows {
        return HttpError(404);
      }
      var current := rows[req.listId];
      if cred.statusPurpose != current.purpose {
        return HttpError(400);
      }
      if req.authentication.did != current.ownerDid {
        return HttpError(403);
      }
      var validation := ValidateUpdate(gzip, current.bitstring, cred.encodedList, current.purpose);
      if !validation.Accepted? {
        return HttpError(400);
      }
      var _ := ReplaceList(req.listId, cred, cred.encodedList);
      return Updated(|validation.changes|);
    }
  }
}
