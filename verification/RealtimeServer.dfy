/** The realtime server and its changefeed as objects. Each method is shown to be
    the corresponding step of the Realtime step system. */
module RealtimeServer {
  import opened Wrappers
  import opened Dicts
  import opened Realtime
  import opened Text

  /** A decoded client message, as far as channel handling reads it. */
  datatype Message = Message(
    event: string, topic: string, ref: Option<string>, joinRef: Option<string>,
    changes: Option<seq<RawChange>>, claims: Claims)

  method ParsePostgresChanges(raw: Option<seq<RawChange>>) returns (out: seq<Subscription>)
    ensures out == if raw.Some? then ParsedChanges(raw.value) else []
  {
    out := [];
    if raw.None? { return; }
    var items, idx := raw.value, 0;
    while idx < |items|
      invariant 0 <= idx <= |items| && out == ParsedChanges(items[..idx])
    {
      assert items[..idx + 1][..idx] == items[..idx];
      match items[idx] {
        case NotADict =>
        case Change(event, schema, table, filter) =>
          out := out + [Subscription(100_000 + idx, Upper(Or(event, "*")), Or(schema, "public"), Or(table, ""),
                                     if Or(filter, "") != "" then filter else None)];
      }
      idx := idx + 1;
    }
    assert items[..idx] == items;
  }

  predicate TopicsNamed(topics: Dict<string, Session>) {
    forall k :: 0 <= k < |topics| ==> topics[k].1.topic == topics[k].0
  }

  /** `d.setdefault(ws, {})[topic] = session`, in its two steps. */
  lemma SetDefaultThenSet(c: Channels, ws: int, topic: string, session: Session)
    ensures var c' := if Has(c, ws) then c else Put(c, ws, []);
            Put(c', ws, Put(TopicsOf(c', ws), topic, session)) == SetTopic(c, ws, topic, session)
  {
    if !Has(c, ws) {
      var d: Channels := c + [(ws, [])];
      var i := Find(d, ws);
      assert d[|c|].0 == ws;
    }
  }

  lemma NamedAfterSet(c: Channels, ws: int, topic: string, session: Session)
    requires (forall i :: 0 <= i < |c| ==> TopicsNamed(c[i].1)) && session.topic == topic
    ensures var c' := SetTopic(c, ws, topic, session); forall i :: 0 <= i < |c'| ==> TopicsNamed(c'[i].1)
  {}

  class RealtimeServer {
    var channels: Channels
    var wsIndex: Channels
    var active: set<int>
    var queue: seq<Event>
    var sent: seq<Sent>
    var created: nat
    const requireAuth: bool

    function View(): Server
      reads this
    {
      Server(channels, wsIndex, active, queue, sent, created)
    }

    /** Sessions are filed under their own topic. */
    ghost predicate Valid()
      reads this
    {
      forall i :: 0 <= i < |wsIndex| ==> TopicsNamed(wsIndex[i].1)
    }

    constructor (requireAuth: bool)
      ensures Valid() && View() == Initial(requireAuth).server && this.requireAuth == requireAuth
    {
      channels, wsIndex, active, queue, sent, created := [], [], {}, [], [], 0;
      this.requireAuth := requireAuth;
    }

    method EnqueueChangefeedEvent(e: Event)
      modifies `queue
      ensures View() == DoEnqueue(old(View()), e)
    {
      queue := queue + [e];
    }

    /** One round of the drain loop: take an event from the queue and broadcast it. */
    method DrainOne()
      requires Valid() && queue != []
      modifies `queue, `sent
      ensures Valid() && View() == DoDrain(old(View()))
    {
      var event := queue[0];
      queue := queue[1..];
      BroadcastEvent(event);
    }

    method BroadcastEvent(e: Event)
      requires Valid()
      modifies `sent
      ensures sent == old(sent) + BroadcastFrames(wsIndex, active, e)
    {
      var items, i := wsIndex, 0;
      while i < |items|
        invariant 0 <= i <= |items|
        invariant sent == old(sent) + BroadcastFrames(items[..i], active, e)
      {
        var (ws, topics) := items[i];
        assert items[..i + 1][..i] == items[..i];
        if ws in active { SendToTopics(ws, topics, e); }
        i := i + 1;
      }
      assert items[..i] == items;
    }

    method SendToTopics(ws: int, topics: Dict<string, Session>, e: Event)
      requires TopicsNamed(topics)
      modifies `sent
      ensures sent == old(sent) + TopicFrames(ws, topics, e)
    {
      var j := 0;
      while j < |topics|
        invariant 0 <= j <= |topics|
        invariant sent == old(sent) + TopicFrames(ws, topics[..j], e)
      {
        assert topics[..j + 1][..j] == topics[..j];
        SendToSession(ws, topics[j].0, topics[j].1, e);
        j := j + 1;
      }
      assert topics[..j] == topics;
    }

    method SendToSession(ws: int, topic: string, session: Session, e: Event)
      requires session.topic == topic
      modifies `sent
      ensures sent == old(sent) + Tagged(ws, session.id, FramesFor(session, e))
    {
      var pgType := WalOpToPg(e.op);
      var subs, k := session.subs, 0;
      while k < |subs|
        invariant 0 <= k <= |subs|
        invariant sent == old(sent) + Tagged(ws, session.id, SubFrames(session, subs[..k], e))
      {
        var sub := subs[k];
        assert subs[..k + 1][..k] == subs[..k];
        if EventMatches(sub, e.schema, e.table, pgType) && RlsAllowsRow(session.claims, e.record) {
          sent := sent + [Sent(ws, session.id, Frame(topic, session.joinRef, sub.id, pgType, e))];
        }
        k := k + 1;
      }
      assert subs[..k] == subs;
    }

    /** The start and the end of a connection handler. */
    method Connect(ws: int)
      requires Valid()
      modifies `active, `channels
      ensures Valid() && View() == DoConnect(old(View()), ws)
    {
      active := active + {ws};
      channels := Put(channels, ws, []);
    }

    method Disconnect(ws: int)
      requires Valid()
      modifies `active, `channels, `wsIndex
      ensures Valid() && View() == DoDisconnect(old(View()), ws)
    {
      active := active - {ws};
      channels := Pop(channels, ws);
      wsIndex := Pop(wsIndex, ws);
    }

    method HandleMessage(ws: int, msg: Message)
      requires Valid()
      modifies `channels, `wsIndex, `created
      ensures Valid()
      ensures View() ==
              if msg.event == "heartbeat" then old(View())
              else if msg.event == "phx_join" then
                DoJoin(old(View()), ws, msg.topic, Or(msg.joinRef, Or(msg.ref, "1")), msg.claims,
                       if msg.changes.Some? then ParsedChanges(msg.changes.value) else [], requireAuth)
              else if msg.event == "phx_leave" then DoLeave(old(View()), ws, msg.topic)
              else old(View())
    {
      if msg.event == "heartbeat" { return; }
      if msg.event == "phx_join" {
        var subs := ParsePostgresChanges(msg.changes);
        HandleJoin(ws, msg.topic, Or(msg.joinRef, Or(msg.ref, "1")), msg.claims, subs);
        return;
      }
      if msg.event == "phx_leave" { HandleLeave(ws, msg.topic); }
    }

    method HandleLeave(ws: int, topic: string)
      requires Valid()
      modifies `channels, `wsIndex
      ensures Valid() && View() == DoLeave(old(View()), ws, topic)
    {
      if Has(channels, ws) { channels := Put(channels, ws, Pop(TopicsOf(channels, ws), topic)); }
      if Has(wsIndex, ws) { wsIndex := Put(wsIndex, ws, Pop(TopicsOf(wsIndex, ws), topic)); }
    }

    method HandleJoin(ws: int, topic: string, joinRef: string, claims: Claims, subs: seq<Subscription>)
      requires Valid()
      modifies `channels, `wsIndex, `created
      ensures Valid() && View() == DoJoin(old(View()), ws, topic, joinRef, claims, subs, requireAuth)
    {
      var err := AuthorizeJoin(claims, requireAuth);
      if err.Some? { return; }
      var session := Session(created, topic, joinRef, claims, subs);
      created := created + 1;
      NamedAfterSet(wsIndex, ws, topic, session);
      FileSession(ws, topic, session);
    }

    method FileSession(ws: int, topic: string, session: Session)
      modifies `channels, `wsIndex
      ensures channels == SetTopic(old(channels), ws, topic, session)
      ensures wsIndex == SetTopic(old(wsIndex), ws, topic, session)
    {
      SetDefaultThenSet(channels, ws, topic, session);
      SetDefaultThenSet(wsIndex, ws, topic, session);
      if !Has(channels, ws) { channels := Put(channels, ws, []); }
      channels := Put(channels, ws, Put(TopicsOf(channels, ws), topic, session));
      if !Has(wsIndex, ws) { wsIndex := Put(wsIndex, ws, []); }
      wsIndex := Put(wsIndex, ws, Put(TopicsOf(wsIndex, ws), topic, session));
    }
  }

  class ChangefeedSource {
    var offsets: map<Source, nat>
    var listeners: seq<RealtimeServer>

    constructor ()
      ensures offsets == map[] && listeners == []
    {
      offsets, listeners := map[], [];
    }

    function Offset(src: Source): nat
      reads this
    {
      if src in offsets then offsets[src] else 0
    }

    method Subscribe(listener: RealtimeServer)
      modifies `listeners
      ensures listeners == old(listeners) + [listener]
    {
      listeners := listeners + [listener];
    }

    /** The lines after the remembered offset; blank and unreadable ones are skipped. */
    method ReadNewLines(src: Source, lines: seq<Line>) returns (out: seq<Event>)
      requires Offset(src) <= |lines|
      modifies `offsets
      ensures out == Parsed(lines[old(Offset(src))..])
      ensures offsets == old(offsets)[src := |lines|]
    {
      var start := Offset(src);
      var unread := lines[start..];
      out := [];
      var i := 0;
      while i < |unread|
        invariant 0 <= i <= |unread| && out == Parsed(unread[..i])
      {
        assert unread[..i + 1][..i] == unread[..i];
        var parsed := ParseLine(unread[i]);
        if parsed.Some? { out := out + [parsed.value]; }
        i := i + 1;
      }
      assert unread[..i] == unread;
      offsets := offsets[src := |lines|];
    }

    /** Both files in turn; a file that does not exist is skipped. */
    method PollOnce(wal: Option<seq<Line>>, mock: Option<seq<Line>>) returns (events: seq<Event>)
      requires wal.Some? ==> Offset(Wal) <= |wal.value|
      requires mock.Some? ==> Offset(Mock) <= |mock.value|
      modifies `offsets
      ensures events == (if wal.Some? then Parsed(wal.value[old(Offset(Wal))..]) else []) +
                        (if mock.Some? then Parsed(mock.value[old(Offset(Mock))..]) else [])
      ensures Offset(Wal) == (if wal.Some? then |wal.value| else old(Offset(Wal)))
      ensures Offset(Mock) == (if mock.Some? then |mock.value| else old(Offset(Mock)))
    {
      events := [];
      if wal.Some? {
        events := ReadNewLines(Wal, wal.value);
      }
      if mock.Some? {
        var more := ReadNewLines(Mock, mock.value);
        events := events + more;
      }
    }

    /** Every registration of a listener gets the event once. */
    method Dispatch(e: Event)
      modifies set l | l in listeners
      ensures forall l :: l in old(listeners) ==> l.View() == EnqueuedTimes(old(l.View()), e, Count(listeners, l))
    {
      var todo, i := listeners, 0;
      while i < |todo|
        invariant 0 <= i <= |todo|
        invariant forall l :: l in todo ==> l.View() == EnqueuedTimes(old(l.View()), e, Count(todo[..i], l))
      {
        assert todo[..i + 1][..i] == todo[..i];
        todo[i].EnqueueChangefeedEvent(e);
        i := i + 1;
      }
      assert todo[..i] == todo;
    }
  }

  function Count(ls: seq<RealtimeServer>, l: RealtimeServer): nat {
    if ls == [] then 0 else Count(ls[..|ls| - 1], l) + if ls[|ls| - 1] == l then 1 else 0
  }

  function EnqueuedTimes(v: Server, e: Event, n: nat): Server {
    if n == 0 then v else DoEnqueue(EnqueuedTimes(v, e, n - 1), e)
  }
}
