/**
  The life of a magic link in api/remediation_routes.py: the table magic_link_tokens, the steps that
  change it, the polled status and the three gates that decide whether a link may still be used.

  Times are microseconds on one clock. The library that signs and decodes tokens enters through what
  a bearer holds: nothing that decodes, or a token signed by the service with its jti and its expiry
  in whole seconds. Decoding refuses a token from its expiry on.
 */
module MagicLink {
  import opened Common

  /** The credential submitted by the authorize page; Python treats the empty one as false. */
  type Credential = map<string, string>

  datatype Row = Row(
    slug: string,
    expiresAt: int,
    redeemedAt: Option<int>,
    declinedAt: Option<int>,
    credential: Option<Credential>)

  type Table = map<string, Row>

  const SECOND: int := 1_000_000
  const MINUTE: int := 60 * SECOND

  /** What a bearer presents: a token with a good signature, or anything else. */
  datatype Bearer = NoToken | Token(jti: string, exp: int)

  /** int(expires_at.timestamp()): the token forgets the fraction that the row keeps. */
  function TokenExpiry(expiresAt: int): (exp: int)
    ensures expiresAt - SECOND < exp <= expiresAt
  {
    expiresAt / SECOND * SECOND
  }

  /** _verify_jwt: the decoder accepts the token at this moment. */
  predicate Decodes(bearer: Bearer, at: int) {
    bearer.Token? && at < bearer.exp
  }

  datatype Request =
    | Generate(jti: string, slug: string, ttlMinutes: Option<int>)
    | Store(jti: string, credential: Credential, bearer: Bearer)
    | Decline(jti: string)

  datatype Event = Event(request: Request, at: int)

  datatype Reply =
    | Issued(token: Bearer)
    | Ok
    | NotAuthorized
    | OtherToken
    | NotFound
    | AlreadyRedeemed
    | LinkExpired
    | ServerError

  // ----- The steps

  /** `req.ttl_minutes or 15` */
  function Minutes(ttl: Option<int>): int {
    if ttl.None? || ttl.value == 0 then 15 else ttl.value
  }

  function Step(rows: Table, e: Event): (Table, Reply) {
    match e.request
    case Generate(jti, slug, ttl) =>
      if jti in rows then (rows, ServerError)
      else
        var expiresAt := e.at + Minutes(ttl) * MINUTE;
        (rows[jti := Row(slug, expiresAt, None, None, None)], Issued(Token(jti, TokenExpiry(expiresAt))))
    case Store(jti, credential, bearer) =>
      if !Decodes(bearer, e.at) then (rows, NotAuthorized)
      else if bearer.jti != jti then (rows, OtherToken)
      else if jti !in rows then (rows, NotFound)
      else if rows[jti].redeemedAt.Some? then (rows, AlreadyRedeemed)
      else if rows[jti].expiresAt < e.at then (rows, LinkExpired)
      else (rows[jti := rows[jti].(credential := Some(credential), redeemedAt := Some(e.at))], Ok)
    case Decline(jti) =>
      if jti !in rows || rows[jti].redeemedAt.Some? then (rows, NotFound)
      else (rows[jti := rows[jti].(declinedAt := Some(e.at))], Ok)
  }

  function Run(rows: Table, events: seq<Event>): Table
    decreases |events|
  {
    if events == [] then rows else Run(Step(rows, events[0]).0, events[1..])
  }

  // ----- What the agent polls

  datatype Status =
    | Unknown
    | Declined
    | Authorized(credential: Credential, authorizedAt: int)
    | Expired
    | Pending

  function RowStatus(row: Row, at: int): Status {
    if row.declinedAt.Some? then Declined
    else if row.redeemedAt.Some? && row.credential.Some? && row.credential.value != map[] then
      Authorized(row.credential.value, row.redeemedAt.value)
    else if row.expiresAt < at then Expired
    else Pending
  }

  /** retrieve_credential */
  function Poll(rows: Table, jti: string, at: int): Status {
    if jti in rows then RowStatus(rows[jti], at) else Unknown
  }

  // ----- The gates

  datatype GateAnswer = Open | GateRedeemed | GateDeclined | GateExpired | NoSuchLink

  /** The checks common to verify_magic_link, resolve_short_url and resolve_slug, in their order. */
  function Gate(row: Row, at: int): GateAnswer {
    if row.redeemedAt.Some? then GateRedeemed
    else if row.declinedAt.Some? then GateDeclined
    else if row.expiresAt < at then GateExpired
    else Open
  }

  /** The token that was signed for a link. */
  function TokenOf(rows: Table, jti: string): Bearer
    requires jti in rows
  {
    Token(jti, TokenExpiry(rows[jti].expiresAt))
  }

  /** The gate of verify_magic_link, which looks at the token before it looks at the row. */
  predicate TokenGateOpen(rows: Table, bearer: Bearer, at: int) {
    Decodes(bearer, at) && bearer.jti in rows && Gate(rows[bearer.jti], at) == Open
  }

  class MagicLinks {
    var rows: Table

    constructor ()
      ensures rows == map[]
    {
      rows := map[];
    }

    method GenerateMagicLink(jti: string, slug: string, ttlMinutes: Option<int>, now: int) returns (reply: Reply)
      modifies this
      ensures (rows, reply) == Step(old(rows), Event(Generate(jti, slug, ttlMinutes), now))
    {
      var minutes := if ttlMinutes.None? || ttlMinutes.value == 0 then 15 else ttlMinutes.value;
      var expiresAt := now + minutes * MINUTE;
      var token := Token(jti, TokenExpiry(expiresAt));
      if jti in rows {
        return ServerError;
      }
      rows := rows[jti := Row(slug, expiresAt, None, None, None)];
      return Issued(token);
    }

    method StoreCredential(jti: string, credential: Credential, bearer: Bearer, now: int) returns (reply: Reply)
      modifies this
      ensures (rows, reply) == Step(old(rows), Event(Store(jti, credential, bearer), now))
    {
      if !Decodes(bearer, now) {
        return NotAuthorized;
      }
      if bearer.jti != jti {
        return OtherToken;
      }
      if jti !in rows {
        return NotFound;
      }
      var row := rows[jti];
      if row.redeemedAt.Some? {
        return AlreadyRedeemed;
      }
      if row.expiresAt < now {
        return LinkExpired;
      }
      rows := rows[jti := row.(credential := Some(credential), redeemedAt := Some(now))];
      return Ok;
    }

    method DeclineAuthorization(jti: string, now: int) returns (reply: Reply)
      modifies this
      ensures (rows, reply) == Step(old(rows), Event(Decline(jti), now))
    {
      if jti in rows && rows[jti].redeemedAt.None? {
        rows := rows[jti := rows[jti].(declinedAt := Some(now))];
        return Ok;
      }
      return NotFound;
    }

    /** retrieve_credential */
    method RetrieveCredential(jti: string, now: int) returns (status: Status)
      ensures status == Poll(rows, jti, now)
    {
      if jti !in rows {
        return Unknown;
      }
      var row := rows[jti];
      if row.declinedAt.Some? {
        return Declined;
      }
      if row.redeemedAt.Some? && row.credential.Some? && row.credential.value != map[] {
        return Authorized(row.credential.value, row.redeemedAt.value);
      }
      if row.expiresAt < now {
        return Expired;
      }
      return Pending;
    }

    /** verify_magic_link */
    method VerifyMagicLink(bearer: Bearer, now: int) returns (valid: bool)
      ensures valid <==> TokenGateOpen(rows, bearer, now)
    {
      if !Decodes(bearer, now) || bearer.jti !in rows {
        return false;
      }
      var row := rows[bearer.jti];
      if row.redeemedAt.Some? {
        return false;
      }
      if row.declinedAt.Some? {
        return false;
      }
      return !(row.expiresAt < now);
    }

    /** The row a slug query returns: some row with that slug. */
    method FindSlug(slug: string) returns (jti: Option<string>)
      ensures jti.Some? ==> jti.value in rows && rows[jti.value].slug == slug
      ensures jti.None? ==> forall j :: j in rows ==> rows[j].slug != slug
    {
      if j :| j in rows && rows[j].slug == slug {
        return Some(j);
      }
      return None;
    }

    /** resolve_short_url: anything but a redirect is a 404 or a 410. */
    method ResolveShortUrl(slug: string, now: int) returns (answer: GateAnswer)
      ensures answer == NoSuchLink <==> forall j :: j in rows ==> rows[j].slug != slug
      ensures answer != NoSuchLink ==> exists j :: j in rows && rows[j].slug == slug && answer == Gate(rows[j], now)
    {
      var found := FindSlug(slug);
      if found.None? {
        return NoSuchLink;
      }
      var row := rows[found.value];
      if row.redeemedAt.Some? {
        return GateRedeemed;
      }
      if row.declinedAt.Some? {
        return GateDeclined;
      }
      if row.expiresAt < now {
        return GateExpired;
      }
      return Open;
    }

    /** resolve_slug: the jti of the payload, if the link is valid. */
    method ResolveSlug(slug: string, now: int) returns (jti: Option<string>)
      ensures jti.Some? ==> jti.value in rows && rows[jti.value].slug == slug && Gate(rows[jti.value], now) == Open
      ensures jti.None? ==> (forall j :: j in rows ==> rows[j].slug != slug) ||
                            exists j :: j in rows && rows[j].slug == slug && Gate(rows[j], now) != Open
    {
      var found := FindSlug(slug);
      if found.None? {
        return None;
      }
      var row := rows[found.value];
      if row.redeemedAt.Some? || row.declinedAt.Some? || row.expiresAt < now {
        return None;
      }
      return found;
    }

    /**
      With slugs that are not shared the two slug gates give one answer about a link. The gate that
      takes the link's token agrees with them exactly when they are shut or the token has not expired.
     */
    method GatesAgree(jti: string, now: int) returns (verified: bool, short: bool, resolved: bool)
      requires jti in rows && SlugsDistinct(rows)
      ensures short == resolved == (Gate(rows[jti], now) == Open)
      ensures verified == short <==> Gate(rows[jti], now) != Open || now < TokenExpiry(rows[jti].expiresAt)
      ensures verified ==> short
    {
      verified := VerifyMagicLink(TokenOf(rows, jti), now);
      var answer := ResolveShortUrl(rows[jti].slug, now);
      short := answer == Open;
      var payload := ResolveSlug(rows[jti].slug, now);
      resolved := payload.Some?;
    }
  }

  predicate SlugsDistinct(rows: Table) {
    forall j, k :: j in rows && k in rows && rows[j].slug == rows[k].slug ==> j == k
  }

  // ----- Whole runs

  /** Event times lie between two polls and never go back. */
  ghost predicate Ordered(from: int, events: seq<Event>, to: int) {
    && from <= to
    && (forall i :: 0 <= i < |events| ==> from <= events[i].at <= to)
    && (forall i, j :: 0 <= i <= j < |events| ==> events[i].at <= events[j].at)
  }

  /** The moves of the polled status: authorized and declined are final, and expiry ends in at most a decline. */
  predicate MayBecome(before: Status, after: Status) {
    || before == after
    || before.Unknown?
    || (before.Pending? && (after.Authorized? || after.Declined? || after.Expired?))
    || (before.Expired? && after.Declined?)
  }

  lemma StepMoves(rows: Table, e: Event, jti: string, from: int, to: int)
    requires from <= e.at <= to
    ensures MayBecome(Poll(rows, jti, from), Poll(Step(rows, e).0, jti, to))
  {
  }

  /**
    Over any run with a clock that never goes back, the polled status moves only from pending to
    authorized, declined or expired, and from expired to declined; an authorized credential stays
    the same credential.
   */
  lemma {:induction false} StatusMoves(rows: Table, events: seq<Event>, jti: string, from: int, to: int)
    requires Ordered(from, events, to)
    ensures MayBecome(Poll(rows, jti, from), Poll(Run(rows, events), jti, to))
    decreases |events|
  {
    if events != [] {
      StepMoves(rows, events[0], jti, from, events[0].at);
      hide Step, Poll;
      StatusMoves(Step(rows, events[0]).0, events[1..], jti, events[0].at, to);
    }
  }

  lemma StepKeepsGateShut(rows: Table, e: Event, jti: string, from: int, to: int)
    requires from <= e.at <= to && jti in rows && Gate(rows[jti], from) != Open
    ensures jti in Step(rows, e).0 && Gate(Step(rows, e).0[jti], to) != Open
  {
  }

  /** A gate that has shut never opens again. */
  lemma {:induction false} GateNeverReopens(rows: Table, events: seq<Event>, jti: string, from: int, to: int)
    requires Ordered(from, events, to) && jti in rows && Gate(rows[jti], from) != Open
    ensures jti in Run(rows, events) && Gate(Run(rows, events)[jti], to) != Open
    decreases |events|
  {
    if events != [] {
      StepKeepsGateShut(rows, events[0], jti, from, events[0].at);
      hide Step, Gate;
      GateNeverReopens(Step(rows, events[0]).0, events[1..], jti, events[0].at, to);
    }
  }

  /** The token handed out with a link stays the token of its row. */
  lemma {:induction false} TokenStays(rows: Table, events: seq<Event>, jti: string)
    requires jti in rows
    ensures jti in Run(rows, events) && TokenOf(Run(rows, events), jti) == TokenOf(rows, jti)
    decreases |events|
  {
    if events != [] {
      TokenStays(Step(rows, events[0]).0, events[1..], jti);
    }
  }

  /**
    An open gate means that the human can still decide: the status is pending and a decline would
    succeed. A store with the link's token would succeed too, exactly until the token expires.
   */
  lemma OpenMeansUndecided(rows: Table, jti: string, at: int, credential: Credential)
    requires jti in rows
    ensures Gate(rows[jti], at) == Open
       <==> Poll(rows, jti, at) == Pending && Step(rows, Event(Decline(jti), at)).1 == Ok
    ensures Gate(rows[jti], at) == Open && at < TokenExpiry(rows[jti].expiresAt)
       <==> Poll(rows, jti, at) == Pending && Step(rows, Event(Store(jti, credential, TokenOf(rows, jti)), at)).1 == Ok
  {
  }

  /**
    The last fraction of a link's life: after any run in which nobody redeems or declines it, from
    the expiry of its token to that of its row, the slug gates stay open and the agent sees it as
    pending, while the token gate is shut and a store with its token is refused.
   */
  lemma LastFraction(rows: Table, jti: string, slug: string, ttl: Option<int>, made: int, events: seq<Event>, at: int,
                     credential: Credential)
    requires jti !in rows && Ordered(made, events, at)
    requires var (first, reply) := Step(rows, Event(Generate(jti, slug, ttl), made));
             var later := Run(first, events);
             && jti in later && later[jti].redeemedAt.None? && later[jti].declinedAt.None?
             && reply.token.exp <= at <= later[jti].expiresAt
    ensures var (first, reply) := Step(rows, Event(Generate(jti, slug, ttl), made));
            var later := Run(first, events);
            && Gate(later[jti], at) == Open && Poll(later, jti, at) == Pending
            && !TokenGateOpen(later, reply.token, at)
            && Step(later, Event(Store(jti, credential, reply.token), at)) == (later, NotAuthorized)
  {
    TokenStays(Step(rows, Event(Generate(jti, slug, ttl), made)).0, events, jti);
  }

  /** Such a moment exists: a link for one minute made half a second past the epoch, looked at one minute later. */
  lemma GatesDisagree(jti: string, slug: string)
    ensures var (rows, reply) := Step(map[], Event(Generate(jti, slug, Some(1)), SECOND / 2));
            var at := MINUTE + SECOND / 4;
            Gate(rows[jti], at) == Open && !TokenGateOpen(rows, reply.token, at)
  {
  }

  /**
    A successful store makes the agent see the credential exactly when the credential is not empty
    and the link had not been declined: storing does not look at declined_at.
   */
  lemma StoreAuthorizesIff(rows: Table, jti: string, credential: Credential, bearer: Bearer, at: int,
                           events: seq<Event>, to: int)
    requires jti in rows && Step(rows, Event(Store(jti, credential, bearer), at)).1 == Ok && Ordered(at, events, to)
    ensures var stored := Step(rows, Event(Store(jti, credential, bearer), at)).0;
            Poll(Run(stored, events), jti, to) == Authorized(credential, at)
            <==> credential != map[] && rows[jti].declinedAt.None?
  {
    var stored := Step(rows, Event(Store(jti, credential, bearer), at)).0;
    StatusMoves(stored, events, jti, at, to);
    RedeemedRowFixed(stored, events, jti);
  }

  /** A new link is pending for its time to live (15 minutes if none is given) and expired afterwards. */
  lemma GeneratedLinkLifetime(rows: Table, jti: string, slug: string, ttl: Option<int>, at: int, later: int)
    requires jti !in rows
    ensures var after := Step(rows, Event(Generate(jti, slug, ttl), at)).0;
            var minutes := match ttl case None => 15 case Some(m) => if m == 0 then 15 else m;
            Poll(after, jti, later) == if later <= at + minutes * MINUTE then Pending else Expired
  {
  }

  /** A decline succeeds exactly on a link that is not redeemed, expired or not, and is seen for ever after. */
  lemma DeclineIsFinal(rows: Table, jti: string, at: int, events: seq<Event>, to: int)
    requires Ordered(at, events, to)
    ensures Step(rows, Event(Decline(jti), at)).1 == Ok <==> jti in rows && rows[jti].redeemedAt.None?
    ensures Step(rows, Event(Decline(jti), at)).1 == Ok ==>
              Poll(Run(Step(rows, Event(Decline(jti), at)).0, events), jti, to) == Declined
  {
    StatusMoves(Step(rows, Event(Decline(jti), at)).0, events, jti, at, to);
  }

  /** After redemption no request changes the row, so a link is redeemed at most once. */
  lemma {:induction false} RedeemedRowFixed(rows: Table, events: seq<Event>, jti: string)
    requires jti in rows && rows[jti].redeemedAt.Some?
    ensures jti in Run(rows, events) && Run(rows, events)[jti] == rows[jti]
    decreases |events|
  {
    if events != [] {
      RedeemedRowFixed(Step(rows, events[0]).0, events[1..], jti);
    }
  }

  /** A declined link that has not expired can still be redeemed in the table; the agent keeps seeing the decline. */
  lemma DeclinedLinkRedeemable(rows: Table, jti: string, credential: Credential, at: int)
    requires jti in rows && rows[jti].declinedAt.Some? && rows[jti].redeemedAt.None?
    requires at < TokenExpiry(rows[jti].expiresAt)
    ensures var (after, reply) := Step(rows, Event(Store(jti, credential, TokenOf(rows, jti)), at));
            reply == Ok && after[jti].redeemedAt == Some(at) && Poll(after, jti, at) == Declined
  {
  }

  // ----- A link's history

  /** A store is accepted exactly with a live token of that very link, which is there, unredeemed and unexpired. */
  lemma StoreOkIff(rows: Table, jti: string, credential: Credential, bearer: Bearer, at: int)
    ensures Step(rows, Event(Store(jti, credential, bearer), at)).1 == Ok
       <==> && bearer.Token? && bearer.jti == jti && at < bearer.exp
            && jti in rows && rows[jti].redeemedAt.None? && at <= rows[jti].expiresAt
    ensures bearer.Token? && at < bearer.exp && bearer.jti != jti ==>
              Step(rows, Event(Store(jti, credential, bearer), at)) == (rows, OtherToken)
    ensures bearer.NoToken? || bearer.exp <= at ==>
              Step(rows, Event(Store(jti, credential, bearer), at)) == (rows, NotAuthorized)
  {
  }

  /** The other refusals of a store, in the order of its checks; none of them changes anything. */
  lemma StoreRefusals(rows: Table, jti: string, credential: Credential, exp: int, at: int)
    requires at < exp
    ensures var (next, reply) := Step(rows, Event(Store(jti, credential, Token(jti, exp)), at));
            && (reply == NotFound <==> jti !in rows)
            && (reply == AlreadyRedeemed <==> jti in rows && rows[jti].redeemedAt.Some?)
            && (reply == LinkExpired <==> jti in rows && rows[jti].redeemedAt.None? && rows[jti].expiresAt < at)
            && (reply != Ok ==> next == rows)
  {
  }

  /** Making a link and declining one: the replies, and the rows they leave. */
  lemma OtherReplies(rows: Table, jti: string, slug: string, ttl: Option<int>, at: int)
    ensures var (next, reply) := Step(rows, Event(Generate(jti, slug, ttl), at));
            && (jti in rows ==> (next, reply) == (rows, ServerError))
            && (jti !in rows ==>
                  && reply.Issued? && reply.token.Token? && reply.token.jti == jti && jti in next
                  && next[jti].slug == slug && reply.token.exp <= next[jti].expiresAt < reply.token.exp + 1_000_000
                  && next == rows[jti := next[jti]])
    ensures var (next, reply) := Step(rows, Event(Decline(jti), at));
            && reply in {Ok, NotFound} && (reply == NotFound ==> next == rows)
            && (reply == Ok ==> jti in rows && next == rows[jti := rows[jti].(declinedAt := Some(at))])
  {
  }

  /** A run of one event between two polls is ordered exactly if the event lies between them. */
  lemma OrderedIff(from: int, e: Event, to: int)
    ensures Ordered(from, [e], to) <==> from <= e.at <= to
    ensures Ordered(from, [], to) <==> from <= to
  {
    assert Ordered(from, [e], to) ==> from <= [e][0].at <= to;
  }

  /** The reply to event i of a run. */
  function ReplyAt(rows: Table, events: seq<Event>, i: nat): Reply
    requires i < |events|
    decreases i
  {
    if i == 0 then Step(rows, events[0]).1 else ReplyAt(Step(rows, events[0]).0, events[1..], i - 1)
  }

  /** Event i stores this credential for the link, successfully. */
  predicate Stores(rows: Table, events: seq<Event>, i: nat, jti: string, credential: Credential) {
    && i < |events| && events[i].request.Store? && events[i].request.jti == jti
    && events[i].request.credential == credential && ReplyAt(rows, events, i) == Ok
  }

  predicate Declines(rows: Table, events: seq<Event>, i: nat, jti: string) {
    i < |events| && events[i].request == Decline(jti) && ReplyAt(rows, events, i) == Ok
  }

  /** Some event of the run stores this credential for the link. */
  ghost predicate Stored(rows: Table, events: seq<Event>, jti: string, credential: Credential) {
    exists i: nat :: Stores(rows, events, i, jti, credential)
  }

  ghost predicate WasDeclined(rows: Table, events: seq<Event>, jti: string) {
    exists i: nat :: Declines(rows, events, i, jti)
  }

  /** What one event does to a link. */
  lemma StepOnLink(rows: Table, e: Event, jti: string, credential: Credential)
    requires jti in rows
    ensures var (next, reply) := Step(rows, e);
            && jti in next && next[jti].expiresAt == rows[jti].expiresAt && next[jti].slug == rows[jti].slug
            && (next[jti].declinedAt.Some? <==>
                  rows[jti].declinedAt.Some? || (e.request == Decline(jti) && reply == Ok))
            && (next[jti].redeemedAt.Some? && next[jti].credential == Some(credential) <==>
                  || (rows[jti].redeemedAt.Some? && rows[jti].credential == Some(credential))
                  || (e.request.Store? && e.request.jti == jti && e.request.credential == credential && reply == Ok))
            && ((next[jti].redeemedAt.Some? <==> next[jti].credential.Some?) <==
                  (rows[jti].redeemedAt.Some? <==> rows[jti].credential.Some?))
  {
  }

  /** A link is declined exactly by a successful decline, and holds a credential exactly by its successful store. */
  lemma {:induction false} LinkHistory(rows: Table, events: seq<Event>, jti: string, credential: Credential)
    requires jti in rows && (rows[jti].redeemedAt.Some? <==> rows[jti].credential.Some?)
    ensures jti in Run(rows, events)
    ensures var row := Run(rows, events)[jti];
            && row.expiresAt == rows[jti].expiresAt && (row.redeemedAt.Some? <==> row.credential.Some?)
            && (row.declinedAt.Some? <==>
                  rows[jti].declinedAt.Some? || WasDeclined(rows, events, jti))
            && (row.redeemedAt.Some? && row.credential == Some(credential) <==>
                  || (rows[jti].redeemedAt.Some? && rows[jti].credential == Some(credential))
                  || Stored(rows, events, jti, credential))
    decreases |events|
  {
    if events != [] {
      var next, rest := Step(rows, events[0]).0, events[1..];
      StepOnLink(rows, events[0], jti, credential);
      LinkHistory(next, rest, jti, credential);
      HistoryShifts(rows, events, jti, credential);
      hide Step, Stored, WasDeclined;
    }
  }

  lemma HistoryShifts(rows: Table, events: seq<Event>, jti: string, credential: Credential)
    requires events != []
    ensures var next, rest := Step(rows, events[0]).0, events[1..];
            && (WasDeclined(rows, events, jti) <==>
                  (events[0].request == Decline(jti) && Step(rows, events[0]).1 == Ok)
                  || WasDeclined(next, rest, jti))
            && (Stored(rows, events, jti, credential) <==>
                  (events[0].request.Store? && events[0].request.jti == jti &&
                   events[0].request.credential == credential && Step(rows, events[0]).1 == Ok)
                  || Stored(next, rest, jti, credential))
  {
    var next, rest := Step(rows, events[0]).0, events[1..];
    hide Step;
    if i: nat :| Declines(rows, events, i, jti) {
      if i > 0 { assert Declines(next, rest, i - 1, jti); }
    }
    if i: nat :| Declines(next, rest, i, jti) {
      assert Declines(rows, events, i + 1, jti);
    }
    if i: nat :| Stores(rows, events, i, jti, credential) {
      if i > 0 { assert Stores(next, rest, i - 1, jti, credential); }
    }
    if i: nat :| Stores(next, rest, i, jti, credential) {
      assert Stores(rows, events, i + 1, jti, credential);
    }
    if events[0].request == Decline(jti) && ReplyAt(rows, events, 0) == Ok {
      assert Declines(rows, events, 0, jti);
    }
    if events[0].request.Store? && events[0].request.jti == jti && ReplyAt(rows, events, 0) == Ok {
      assert Stores(rows, events, 0, jti, events[0].request.credential);
    }
  }

  /**
    What the agent polls and what the gates answer, from the history of a link alone: declined exactly
    after a successful decline; otherwise authorized exactly after a successful store of a credential
    that is not empty; otherwise pending for the time to live and then expired. The gates are open
    exactly for that time and before any successful store or decline.
   */
  lemma StatusFromHistory(rows: Table, jti: string, slug: string, ttl: Option<int>, made: int, events: seq<Event>,
                          at: int, credential: Credential)
    requires jti !in rows
    ensures var first := Step(rows, Event(Generate(jti, slug, ttl), made)).0;
            var later, declined := Run(first, events), WasDeclined(first, events, jti);
            var until := made + (if ttl.None? || ttl == Some(0) then 15 else ttl.value) * 60_000_000;
            && jti in later
            && (Poll(later, jti, at) == Declined <==> declined)
            && (credential != map[] ==>
                  (Poll(later, jti, at).Authorized? && Poll(later, jti, at).credential == credential <==>
                     !declined && Stored(first, events, jti, credential)))
            && (Poll(later, jti, at) in {Pending, Expired} <==>
                  !declined && forall c :: c != map[] ==> !Stored(first, events, jti, c))
            && (Poll(later, jti, at) == Pending ==> at <= until) && (Poll(later, jti, at) == Expired ==> until < at)
            && (Gate(later[jti], at) == Open <==>
                  at <= until && !declined && forall c :: !Stored(first, events, jti, c))
            && (Gate(later[jti], at) == GateRedeemed <==> exists c :: Stored(first, events, jti, c))
            && (Gate(later[jti], at) == GateDeclined ==> declined)
            && (Gate(later[jti], at) == GateExpired ==> until < at)
  {
    var first := Step(rows, Event(Generate(jti, slug, ttl), made)).0;
    var row := first[jti];
    LinkHistory(first, events, jti, credential);
    forall c
      ensures jti in Run(first, events)
      ensures var later := Run(first, events)[jti];
              && later.expiresAt == row.expiresAt && (later.redeemedAt.Some? <==> later.credential.Some?)
              && (later.declinedAt.Some? <==> WasDeclined(first, events, jti))
              && (later.redeemedAt.Some? && later.credential == Some(c) <==> Stored(first, events, jti, c))
    {
      LinkHistory(first, events, jti, c);
    }
    hide Run, Stored, WasDeclined;
    var later := Run(first, events)[jti];
    assert later.credential.Some? ==> Stored(first, events, jti, later.credential.value);
    assert Stored(first, events, jti, credential) ==> later.credential == Some(credential);
  }

  lemma {:induction false} StoredWithToken(rows: Table, events: seq<Event>, i: nat, jti: string, credential: Credential)
    requires Stores(rows, events, i, jti, credential)
    ensures && events[i].request == Store(jti, credential, events[i].request.bearer)
            && events[i].request.bearer.Token? && events[i].request.bearer.jti == jti
            && events[i].at < events[i].request.bearer.exp
    decreases i
  {
    if i == 0 {
      StoreOkIff(rows, jti, credential, events[0].request.bearer, events[0].at);
    } else {
      StoredWithToken(Step(rows, events[0]).0, events[1..], i - 1, jti, credential);
    }
  }

  lemma {:induction false} LinkWasGenerated(rows: Table, events: seq<Event>, jti: string)
    requires jti !in rows && jti in Run(rows, events)
    ensures exists k: nat :: k < |events| && events[k].request.Generate? && events[k].request.jti == jti
                             && SplitAt(rows, events, k, jti)
    decreases |events|
  {
    var next, rest := Step(rows, events[0]).0, events[1..];
    if jti in next {
      assert events[..0] == [] && Run(rows, []) == rows;
      assert SplitAt(rows, events, 0, jti);
    } else {
      hide Step;
      LinkWasGenerated(next, rest, jti);
      var k: nat :| k < |rest| && rest[k].request.Generate? && rest[k].request.jti == jti &&
                    SplitAt(next, rest, k, jti);
      assert events[..k + 1][1..] == rest[..k] && events[k + 1 + 1..] == rest[k + 1..];
      assert SplitAt(rows, events, k + 1, jti);
    }
  }

  /** Event k makes the link: it is not there before, and the rest of the run starts with its fresh row. */
  ghost predicate SplitAt(rows: Table, events: seq<Event>, k: nat, jti: string)
    requires k < |events|
  {
    var before := Run(rows, events[..k]);
    var made := Step(before, events[k]).0;
    && jti !in before && jti in made && made[jti].redeemedAt.None? && made[jti].credential.None?
    && Run(rows, events) == Run(made, events[k + 1..])
  }

  /**
    Where a credential comes from: in every run that starts without links, the credential of a link
    was brought by a store that named that link and carried a live token with that very jti.
   */
  lemma CredentialCameWithToken(events: seq<Event>, jti: string)
    requires jti in Run(map[], events) && Run(map[], events)[jti].credential.Some?
    ensures exists i: nat, exp: int ::
              && i < |events| && events[i].at < exp
              && events[i].request == Store(jti, Run(map[], events)[jti].credential.value, Token(jti, exp))
  {
    var credential := Run(map[], events)[jti].credential.value;
    LinkWasGenerated(map[], events, jti);
    var k: nat :| k < |events| && events[k].request.Generate? && events[k].request.jti == jti &&
                  SplitAt(map[], events, k, jti);
    var made, rest := Step(Run(map[], events[..k]), events[k]).0, events[k + 1..];
    LinkHistory(made, rest, jti, credential);
    hide Run, Step;
    var i: nat :| Stores(made, rest, i, jti, credential);
    StoredWithToken(made, rest, i, jti, credential);
    assert events[k + 1 + i] == rest[i];
    assert events[k + 1 + i].request == Store(jti, credential, Token(jti, rest[i].request.bearer.exp));
  }
}
