/** Realtime delivery as a step system over values: a log reader feeds a queue,
    and every event drained from the queue is broadcast to the joined channels. */
module Realtime {
  import opened Wrappers
  import opened Dicts
  import opened Text

  // ---------------------------------------------------------------- events

  /** A row: each column holds text or null. */
  type Record = map<string, Option<string>>

  datatype Event = Event(lsn: int, schema: string, table: string, op: string, record: Record, oldRecord: Record)

  /** The value under "payload": an object, or anything else as text or null. */
  datatype Payload = PayloadObject(row: Record) | PayloadOther(text: Option<string>)

  /** A whole line of a changefeed file. */
  datatype Line =
    | Blank
    | NotAnObject
    | Entry(lsn: int, schema: Option<string>, table: Option<string>, op: Option<string>,
            record: Option<Record>, payload: Payload, oldRecord: Option<Record>)

  /** Python's `a or b` on optional text. */
  function Or(s: Option<string>, default: string): string {
    if s.Some? && s.value != "" then s.value else default
  }

  function ParseLine(line: Line): Option<Event> {
    match line
    case Entry(lsn, schema, table, op, record, payload, oldRecord) =>
      if Or(table, "") == "" then None
      else
        var row := match (record, payload)
                   case (Some(r), _) => r
                   case (None, PayloadObject(r)) => r
                   case (None, PayloadOther(text)) => map["payload" := text];
        Some(Event(lsn, Or(schema, "public"), table.value, Lower(Or(op, "insert")), row,
                   if oldRecord.Some? then oldRecord.value else map[]))
    case _ => None
  }

  /** The event of a line, field by field. */
  predicate IsEventOf(line: Line, e: Event) {
    && line.Entry? && e.lsn == line.lsn && e.table != "" && line.table == Some(e.table)
    && (e.schema == if line.schema == None || line.schema == Some("") then "public" else line.schema.value)
    && (e.op == Lower(if line.op == None || line.op == Some("") then "insert" else line.op.value))
    && (line.record.Some? ==> e.record == line.record.value)
    && (line.record.None? && line.payload.PayloadObject? ==> e.record == line.payload.row)
    && (line.record.None? && line.payload.PayloadOther? ==> e.record == map["payload" := line.payload.text])
    && (line.oldRecord.Some? ==> e.oldRecord == line.oldRecord.value)
    && (line.oldRecord.None? ==> e.oldRecord == map[])
  }

  /** An event is made exactly from an entry that names a table, and has that entry's fields. */
  lemma ParseLineIff(line: Line, e: Event)
    ensures ParseLine(line).Some? <==> line.Entry? && line.table.Some? && line.table.value != ""
    ensures ParseLine(line) == Some(e) <==> IsEventOf(line, e)
  {}

  /** The events of a stretch of a file, in file order. */
  function Parsed(lines: seq<Line>): seq<Event> {
    if lines == [] then []
    else
      var n := |lines| - 1;
      Parsed(lines[..n]) + match ParseLine(lines[n]) case None => [] case Some(e) => [e]
  }

  /** The parsed events are those of the lines. */
  lemma {:induction false} ParsedAre(lines: seq<Line>, e: Event)
    ensures e in Parsed(lines) <==> exists i :: 0 <= i < |lines| && IsEventOf(lines[i], e)
  {
    if lines != [] {
      var n := |lines| - 1;
      ParsedAre(lines[..n], e);
      ParseLineIff(lines[n], e);
      assert forall i :: 0 <= i < n ==> lines[..n][i] == lines[i];
    }
  }

  lemma {:induction false} ParsedConcat(a: seq<Line>, b: seq<Line>)
    ensures Parsed(a + b) == Parsed(a) + Parsed(b)
    decreases |b|
  {
    if b == [] {
      assert a + b == a;
    } else {
      var n := |b| - 1;
      assert (a + b)[..|a + b| - 1] == a + b[..n];
      ParsedConcat(a, b[..n]);
    }
  }

  // ---------------------------------------------------------------- who gets what

  datatype Claims = Claims(sub: Option<string>, role: string, publisherId: Option<string>)

  datatype Subscription = Subscription(id: int, event: string, schema: string, table: string, filter: Option<string>)

  /** A channel session; `id` is the identity of the session object. */
  datatype Session = Session(id: nat, topic: string, joinRef: string, claims: Claims, subs: seq<Subscription>)

  function AuthorizeJoin(claims: Claims, requireAuth: bool): Option<string> {
    if !requireAuth then None
    else if claims.role == "anon" && Or(claims.sub, "") == "" then Some("missing or invalid access_token")
    else None
  }

  /** A join is refused exactly if authentication is required and an anonymous session names no subject. */
  lemma JoinRefusedIff(claims: Claims, requireAuth: bool)
    ensures AuthorizeJoin(claims, requireAuth).Some? <==>
            requireAuth && claims.role == "anon" && (claims.sub == None || claims.sub == Some(""))
    ensures AuthorizeJoin(claims, requireAuth).Some? ==>
              AuthorizeJoin(claims, requireAuth).value == "missing or invalid access_token"
  {}

  /** Python's `or`: a given, non-empty text stands. */
  lemma OrIs(text: string, default: string)
    ensures Or(None, default) == Or(Some(""), default) == default && (text != "" ==> Or(Some(text), default) == text)
  {}

  function Column(row: Record, name: string): Option<string> {
    if name in row then row[name] else None
  }

  predicate RlsAllowsRow(claims: Claims, row: Record) {
    if claims.role == "service_role" then true
    else if claims.publisherId.None? then claims.role == "anon"
    else
      var tenant := Column(row, "publisher_id");
      tenant.None? || tenant == claims.publisherId
  }

  predicate EventMatches(sub: Subscription, schema: string, table: string, op: string) {
    if sub.schema != "*" && sub.schema != schema then false
    else if sub.table != "*" && sub.table != table then false
    else if sub.event == "*" then true
    else if sub.event == "INSERT" && Upper(op) == "INSERT" then true
    else if sub.event == "UPDATE" && Upper(op) == "UPDATE" then true
    else if sub.event == "DELETE" && Upper(op) == "DELETE" then true
    else sub.event == Upper(op)
  }

  function WalOpToPg(op: string): string {
    var l := Lower(op);
    if l == "insert" then "INSERT"
    else if l == "update" then "UPDATE"
    else if l == "delete" then "DELETE"
    else Upper(op)
  }

  /** The operation names of the log become upper case, known or not. */
  lemma PgTypeIsUpperCase(op: string)
    ensures WalOpToPg(op) == Upper(op) == Upper(WalOpToPg(op))
  {
    UpperLower(op);
    assert Upper("insert") == "INSERT" && Upper("update") == "UPDATE" && Upper("delete") == "DELETE";
    assert Upper(Upper(op)) == Upper(op);
  }

  /** A subscription asks for an event by schema, table and operation, each possibly a wildcard. */
  lemma EventMatchesIff(sub: Subscription, e: Event)
    ensures EventMatches(sub, e.schema, e.table, WalOpToPg(e.op)) <==>
            (sub.schema == "*" || sub.schema == e.schema) && (sub.table == "*" || sub.table == e.table) &&
            (sub.event == "*" || sub.event == Upper(e.op))
  {
    PgTypeIsUpperCase(e.op);
  }

  /** The documented policy table, which goes by role: anonymous readers get public rows only, and the
      publisher claim belongs to authenticated ones. */
  predicate DocumentedPolicy(claims: Claims, row: Record) {
    var tenant := Column(row, "publisher_id");
    || claims.role == "service_role"
    || (claims.role == "anon" && tenant.None?)
    || (claims.role == "authenticated" && claims.publisherId.Some? && (tenant.None? || tenant == claims.publisherId))
  }

  /** An anonymous session reads an owned row: it has no publisher claim, or that of the owner. */
  predicate AnonymousReadsOwned(claims: Claims, row: Record) {
    var tenant := Column(row, "publisher_id");
    claims.role == "anon" && tenant.Some? && (claims.publisherId.None? || claims.publisherId == tenant)
  }

  /** A session of a role the table does not know reads a row by its publisher claim. */
  predicate UnknownRoleReads(claims: Claims, row: Record) {
    var tenant := Column(row, "publisher_id");
    && claims.role !in {"service_role", "anon", "authenticated"}
    && claims.publisherId.Some? && (tenant.None? || tenant == claims.publisherId)
  }

  /** The code departs from the documented table in exactly two cases, and in both it lets the row through. */
  lemma PolicyAgreesIff(claims: Claims, row: Record)
    ensures RlsAllowsRow(claims, row) == DocumentedPolicy(claims, row) <==>
            !AnonymousReadsOwned(claims, row) && !UnknownRoleReads(claims, row)
    ensures DocumentedPolicy(claims, row) ==> RlsAllowsRow(claims, row)
  {}

  lemma AnonymousReadsEveryRow()
    ensures var claims, row := Claims(None, "anon", None), map["publisher_id" := Some("p")];
            RlsAllowsRow(claims, row) && !DocumentedPolicy(claims, row)
  {}

  lemma AnonymousReadsByClaim()
    ensures var claims, row := Claims(Some("u"), "anon", Some("p")), map["publisher_id" := Some("p")];
            RlsAllowsRow(claims, row) && !DocumentedPolicy(claims, row)
  {}

  lemma UnknownRoleReadsByClaim()
    ensures var claims, row := Claims(Some("u"), "editor", Some("p")), map["publisher_id" := Some("p")];
            RlsAllowsRow(claims, row) && !DocumentedPolicy(claims, row)
  {}

  /** An entry of the `postgres_changes` list of a join. */
  datatype RawChange =
    | NotADict
    | Change(event: Option<string>, schema: Option<string>, table: Option<string>, filter: Option<string>)

  /** The subscriptions of a join; ids count list positions, skipped entries included. */
  function ParsedChanges(raw: seq<RawChange>): (subs: seq<Subscription>)
    ensures forall i :: 0 <= i < |subs| ==> 100_000 <= subs[i].id < 100_000 + |raw|
    ensures forall i, j :: 0 <= i < j < |subs| ==> subs[i].id < subs[j].id
  {
    if raw == [] then []
    else
      var n := |raw| - 1;
      ParsedChanges(raw[..n]) + EntrySubscriptions(raw[n], n)
  }

  function EntrySubscriptions(raw: RawChange, i: nat): seq<Subscription> {
    match raw
    case NotADict => []
    case Change(event, schema, table, filter) =>
      [Subscription(100_000 + i, Upper(Or(event, "*")), Or(schema, "public"), Or(table, ""),
                    if Or(filter, "") != "" then filter else None)]
  }

  /** A subscription made from the entry at position `i`, field by field. */
  predicate IsSubscriptionOf(raw: RawChange, i: nat, sub: Subscription) {
    && raw.Change? && sub.id == 100_000 + i
    && (sub.event == Upper(if raw.event == None || raw.event == Some("") then "*" else raw.event.value))
    && (sub.schema == if raw.schema == None || raw.schema == Some("") then "public" else raw.schema.value)
    && (sub.table == if raw.table == None then "" else raw.table.value)
    && (sub.filter == if raw.filter == Some("") then None else raw.filter)
  }

  lemma SubscriptionIs(raw: RawChange, i: nat, sub: Subscription)
    ensures sub in EntrySubscriptions(raw, i) <==> IsSubscriptionOf(raw, i, sub)
  {}

  /** The subscriptions are those of the entries that are dictionaries. */
  lemma {:induction false} SubscriptionsAre(raw: seq<RawChange>, sub: Subscription)
    ensures sub in ParsedChanges(raw) <==> exists i :: 0 <= i < |raw| && IsSubscriptionOf(raw[i], i, sub)
  {
    if raw != [] {
      var n := |raw| - 1;
      SubscriptionsAre(raw[..n], sub);
      SubscriptionIs(raw[n], n, sub);
      assert forall i :: 0 <= i < n ==> raw[..n][i] == raw[i];
    }
  }

  /** A postgres_changes frame. */
  datatype Frame = Frame(topic: string, joinRef: string, subscriptionId: int, pgType: string, event: Event)

  predicate Receives(sub: Subscription, claims: Claims, e: Event) {
    EventMatches(sub, e.schema, e.table, WalOpToPg(e.op)) && RlsAllowsRow(claims, e.record)
  }

  /** Who may see a row. */
  predicate MaySee(claims: Claims, row: Record) {
    || claims.role == "service_role"
    || (claims.publisherId == None && claims.role == "anon")
    || (claims.publisherId.Some? &&
        ("publisher_id" !in row || row["publisher_id"] == None || row["publisher_id"] == claims.publisherId))
  }

  /** What a subscription asks for: schema, table and operation, each by name or by a wildcard. */
  predicate AsksFor(sub: Subscription, e: Event) {
    && (sub.schema == "*" || sub.schema == e.schema) && (sub.table == "*" || sub.table == e.table)
    && (sub.event == "*" || sub.event == Upper(e.op))
  }

  lemma ReceivesIff(sub: Subscription, claims: Claims, e: Event)
    ensures Receives(sub, claims, e) <==> AsksFor(sub, e) && MaySee(claims, e.record)
  {
    EventMatchesIff(sub, e);
  }

  function FrameFor(s: Session, sub: Subscription, e: Event): Frame {
    Frame(s.topic, s.joinRef, sub.id, WalOpToPg(e.op), e)
  }

  /** The frames of one event for a list of subscriptions of a session. */
  function SubFrames(s: Session, subs: seq<Subscription>, e: Event): seq<Frame> {
    if subs == [] then []
    else
      var n := |subs| - 1;
      SubFrames(s, subs[..n], e) + (if Receives(subs[n], s.claims, e) then [FrameFor(s, subs[n], e)] else [])
  }

  function FramesFor(s: Session, e: Event): seq<Frame> { SubFrames(s, s.subs, e) }

  /** The frames of a stretch of events for one session. */
  function Expected(s: Session, events: seq<Event>): seq<Frame> {
    if events == [] then []
    else
      var n := |events| - 1;
      Expected(s, events[..n]) + FramesFor(s, events[n])
  }

  // ---------------------------------------------------------------- the server

  type Channels = Dict<int, Dict<string, Session>>

  /** A frame on its way to one socket, on behalf of one session. */
  datatype Sent = Sent(ws: int, session: nat, frame: Frame)

  datatype Server = Server(
    channels: Channels, wsIndex: Channels, active: set<int>, queue: seq<Event>, sent: seq<Sent>, created: nat)

  function Tagged(ws: int, id: nat, frames: seq<Frame>): seq<Sent> {
    seq(|frames|, i requires 0 <= i < |frames| => Sent(ws, id, frames[i]))
  }

  function TopicFrames(ws: int, topics: Dict<string, Session>, e: Event): seq<Sent> {
    if topics == [] then []
    else
      var n := |topics| - 1;
      TopicFrames(ws, topics[..n], e) + Tagged(ws, topics[n].1.id, FramesFor(topics[n].1, e))
  }

  /** Everything one broadcast sends, in sending order. */
  function BroadcastFrames(index: Channels, active: set<int>, e: Event): seq<Sent> {
    if index == [] then []
    else
      var n := |index| - 1;
      BroadcastFrames(index[..n], active, e) +
      if index[n].0 in active then TopicFrames(index[n].0, index[n].1, e) else []
  }

  function TopicsOf(c: Channels, ws: int): Dict<string, Session> {
    match Get(c, ws) case None => [] case Some(topics) => topics
  }

  /** `d.setdefault(ws, {})[topic] = session`. */
  function SetTopic(c: Channels, ws: int, topic: string, s: Session): Channels {
    Put(c, ws, Put(TopicsOf(c, ws), topic, s))
  }

  /** `d.get(ws, {}).pop(topic, None)`. */
  function DropTopic(c: Channels, ws: int, topic: string): Channels {
    if Has(c, ws) then Put(c, ws, Pop(TopicsOf(c, ws), topic)) else c
  }

  function DoConnect(v: Server, ws: int): Server {
    v.(active := v.active + {ws}, channels := Put(v.channels, ws, []))
  }

  function DoDisconnect(v: Server, ws: int): Server {
    v.(active := v.active - {ws}, channels := Pop(v.channels, ws), wsIndex := Pop(v.wsIndex, ws))
  }

  function DoJoin(v: Server, ws: int, topic: string, joinRef: string, claims: Claims, subs: seq<Subscription>,
                  requireAuth: bool): Server {
    if AuthorizeJoin(claims, requireAuth).Some? then v
    else
      var s := Session(v.created, topic, joinRef, claims, subs);
      v.(channels := SetTopic(v.channels, ws, topic, s), wsIndex := SetTopic(v.wsIndex, ws, topic, s),
         created := v.created + 1)
  }

  function DoLeave(v: Server, ws: int, topic: string): Server {
    v.(channels := DropTopic(v.channels, ws, topic), wsIndex := DropTopic(v.wsIndex, ws, topic))
  }

  function DoEnqueue(v: Server, e: Event): Server { v.(queue := v.queue + [e]) }

  function DoDrain(v: Server): Server
    requires v.queue != []
  {
    v.(queue := v.queue[1..], sent := v.sent + BroadcastFrames(v.wsIndex, v.active, v.queue[0]))
  }

  // ---------------------------------------------------------------- the whole system

  datatype Source = Wal | Mock

  datatype Feed = Feed(wal: seq<Line>, mock: seq<Line>, walOffset: nat, mockOffset: nat, pending: seq<Event>)

  /** One stay of a session in its channel: the drained events from `from` up to `until`. */
  datatype Stay = Stay(ws: int, session: Session, from: nat, until: Option<nat>)

  /** The running system with what has happened: every polled event with its file,
      every drained event, and every stay so far. */
  datatype System = System(
    feed: Feed, server: Server, polled: seq<(Source, Event)>, drained: seq<Event>, stays: seq<Stay>, requireAuth: bool)

  datatype Step =
    | Append(file: Source, line: Line)
    | Poll
    | Dispatch
    | Drain
    | Connect(ws: int)
    | Disconnect(ws: int)
    | Join(ws: int, topic: string, joinRef: string, claims: Claims, subs: seq<Subscription>)
    | Leave(ws: int, topic: string)

  function Initial(requireAuth: bool): System {
    System(Feed([], [], 0, 0, []), Server([], [], {}, [], [], 0), [], [], [], requireAuth)
  }

  /** The poll thread dispatches everything it polled before polling again; a socket's
      messages are handled while it is connected. */
  predicate Enabled(s: System, step: Step) {
    match step
    case Append(_, _) => true
    case Poll => s.feed.pending == []
    case Dispatch => s.feed.pending != []
    case Drain => s.server.queue != []
    case Connect(ws) => ws !in s.server.active
    case Disconnect(ws) => ws in s.server.active
    case Join(ws, _, _, _, _) => ws in s.server.active
    case Leave(ws, _) => ws in s.server.active
  }

  function WithSource(src: Source, events: seq<Event>): seq<(Source, Event)> {
    seq(|events|, i requires 0 <= i < |events| => (src, events[i]))
  }

  /** The channels a step empties. */
  datatype Closing = Channel(ws: int, topic: string) | Socket(ws: int)

  predicate Hits(c: Closing, ws: int, topic: string) {
    match c
    case Channel(w, t) => w == ws && t == topic
    case Socket(w) => w == ws
  }

  /** Open stays in emptied channels end now. */
  function Close(stays: seq<Stay>, now: nat, c: Closing): seq<Stay> {
    seq(|stays|, i requires 0 <= i < |stays| => CloseOne(stays[i], now, c))
  }

  function CloseOne(stay: Stay, now: nat, c: Closing): Stay {
    if stay.until.None? && Hits(c, stay.ws, stay.session.topic) then stay.(until := Some(now)) else stay
  }

  function Next(s: System, step: Step): System
    requires Enabled(s, step)
    requires s.feed.walOffset <= |s.feed.wal| && s.feed.mockOffset <= |s.feed.mock|
  {
    var v, f, now := s.server, s.feed, |s.drained|;
    match step
    case Append(Wal, line) => s.(feed := f.(wal := f.wal + [line]))
    case Append(Mock, line) => s.(feed := f.(mock := f.mock + [line]))
    case Poll =>
      var w, m := Parsed(f.wal[f.walOffset..]), Parsed(f.mock[f.mockOffset..]);
      s.(feed := f.(walOffset := |f.wal|, mockOffset := |f.mock|, pending := w + m),
         polled := s.polled + WithSource(Wal, w) + WithSource(Mock, m))
    case Dispatch => s.(feed := f.(pending := f.pending[1..]), server := DoEnqueue(v, f.pending[0]))
    case Drain => s.(server := DoDrain(v), drained := s.drained + [v.queue[0]])
    case Connect(ws) => s.(server := DoConnect(v, ws))
    case Disconnect(ws) =>
      s.(server := DoDisconnect(v, ws), stays := Close(s.stays, now, Socket(ws)))
    case Join(ws, topic, joinRef, claims, subs) =>
      if AuthorizeJoin(claims, s.requireAuth).Some? then s
      else
        var session := Session(v.created, topic, joinRef, claims, subs);
        s.(server := DoJoin(v, ws, topic, joinRef, claims, subs, s.requireAuth),
           stays := Close(s.stays, now, Channel(ws, topic))
                    + [Stay(ws, session, now, None)])
    case Leave(ws, topic) =>
      s.(server := DoLeave(v, ws, topic), stays := Close(s.stays, now, Channel(ws, topic)))
  }

  // ---------------------------------------------------------------- the invariant

  function Events(polled: seq<(Source, Event)>): seq<Event> {
    seq(|polled|, i requires 0 <= i < |polled| => polled[i].1)
  }

  /** The events of one file among the polled ones. */
  function OfSource(polled: seq<(Source, Event)>, src: Source): seq<Event> {
    if polled == [] then []
    else
      var n := |polled| - 1;
      OfSource(polled[..n], src) + if polled[n].0 == src then [polled[n].1] else []
  }

  /** The frames sent on behalf of one session. */
  function FramesOf(sent: seq<Sent>, id: nat): seq<Frame> {
    if sent == [] then []
    else
      var n := |sent| - 1;
      FramesOf(sent[..n], id) + if sent[n].session == id then [sent[n].frame] else []
  }

  /** Nothing read from the files is lost, repeated or reordered on the way to the broadcast. */
  ghost predicate FeedInv(s: System) {
    && s.feed.walOffset <= |s.feed.wal| && s.feed.mockOffset <= |s.feed.mock|
    && OfSource(s.polled, Wal) == Parsed(s.feed.wal[..s.feed.walOffset])
    && OfSource(s.polled, Mock) == Parsed(s.feed.mock[..s.feed.mockOffset])
    && Events(s.polled) == s.drained + s.server.queue + s.feed.pending
  }

  /** Both tables hold the same sessions, for connected sockets only. */
  ghost predicate TablesInv(v: Server) {
    && Distinct(v.channels) && Distinct(v.wsIndex)
    && (forall ws :: Has(v.channels, ws) <==> ws in v.active)
    && (forall ws :: TopicsOf(v.wsIndex, ws) == TopicsOf(v.channels, ws))
    && (forall ws :: Distinct(TopicsOf(v.wsIndex, ws)))
  }

  /** The session a channel currently holds. */
  function Joined(v: Server, ws: int, topic: string): Option<Session> {
    Get(TopicsOf(v.wsIndex, ws), topic)
  }

  /** The number of events drained when a stay ended, or so far. */
  function EndOf(stay: Stay, drained: seq<Event>): nat {
    if stay.until.Some? then stay.until.value else |drained|
  }

  predicate InTime(stay: Stay, drained: seq<Event>) {
    stay.from <= EndOf(stay, drained) <= |drained|
  }

  /** The events drained during a stay. */
  function During(stay: Stay, drained: seq<Event>): seq<Event>
    requires InTime(stay, drained)
  {
    drained[stay.from..EndOf(stay, drained)]
  }

  ghost predicate Numbered(stays: seq<Stay>, drained: seq<Event>) {
    forall j :: 0 <= j < |stays| ==> stays[j].session.id == j && InTime(stays[j], drained)
  }

  /** A stay is open exactly while the table holds its session, and the table holds nothing else. */
  ghost predicate TableHoldsOpenStays(stays: seq<Stay>, v: Server) {
    && (forall j :: 0 <= j < |stays| ==>
         (stays[j].until.None? <==> Joined(v, stays[j].ws, stays[j].session.topic) == Some(stays[j].session)))
    && (forall w, t :: Joined(v, w, t).Some? ==> IsStay(stays, w, t, Joined(v, w, t).value))
  }

  ghost predicate IsStay(stays: seq<Stay>, w: int, t: string, session: Session) {
    session.topic == t && session.id < |stays| && stays[session.id].ws == w && stays[session.id].session == session
  }

  ghost predicate StaysInv(s: System) {
    |s.stays| == s.server.created && Numbered(s.stays, s.drained) && TableHoldsOpenStays(s.stays, s.server)
  }

  /** Every session has been sent exactly the frames of the events drained during its stay. */
  ghost predicate Delivered(stays: seq<Stay>, drained: seq<Event>, sent: seq<Sent>)
    requires Numbered(stays, drained)
  {
    forall j :: 0 <= j < |stays| ==>
      FramesOf(sent, j) == Expected(stays[j].session, During(stays[j], drained))
  }

  /** Every frame went to the socket of its session. */
  ghost predicate Addressed(stays: seq<Stay>, sent: seq<Sent>) {
    forall i :: 0 <= i < |sent| ==> sent[i].session < |stays| && sent[i].ws == stays[sent[i].session].ws
  }

  ghost predicate Inv(s: System) {
    && FeedInv(s) && TablesInv(s.server) && StaysInv(s)
    && Delivered(s.stays, s.drained, s.server.sent) && Addressed(s.stays, s.server.sent)
  }
}
