/** Every step keeps the delivery invariant; what that means over whole runs. */
module RealtimeProofs {
  import opened Wrappers
  import opened Dicts
  import opened Realtime
  import Text

  // ---------------------------------------------------------------- one broadcast

  lemma {:induction false} FramesOfConcat(a: seq<Sent>, b: seq<Sent>, id: nat)
    ensures FramesOf(a + b, id) == FramesOf(a, id) + FramesOf(b, id)
    decreases |b|
  {
    if b == [] {
      assert a + b == a;
    } else {
      assert (a + b)[..|a + b| - 1] == a + b[..|b| - 1];
      FramesOfConcat(a, b[..|b| - 1], id);
    }
  }

  lemma {:induction false} FramesOfTagged(ws: int, id: nat, frames: seq<Frame>, j: nat)
    ensures FramesOf(Tagged(ws, id, frames), j) == if id == j then frames else []
    decreases |frames|
  {
    if frames != [] {
      var n := |frames| - 1;
      assert Tagged(ws, id, frames)[..n] == Tagged(ws, id, frames[..n]);
      FramesOfTagged(ws, id, frames[..n], j);
    }
  }

  /** The frames of a held session if it is `j`. */
  function FramesIf(held: Option<Session>, j: nat, e: Event): seq<Frame> {
    if held.Some? && held.value.id == j then FramesFor(held.value, e) else []
  }

  lemma GetOneMore<K, V>(d: Dict<K, V>, k: K)
    requires Distinct(d) && d != []
    ensures var n := |d| - 1; Get(d, k) == if d[n].0 == k then Some(d[n].1) else Get(d[..n], k)
  {}

  lemma OneMoreTopic(ws: int, topics: Dict<string, Session>, e: Event, j: nat)
    requires topics != []
    ensures var n := |topics| - 1;
            FramesOf(TopicFrames(ws, topics, e), j) ==
            FramesOf(TopicFrames(ws, topics[..n], e), j) + FramesIf(Some(topics[n].1), j, e)
  {
    var n := |topics| - 1;
    var frames := FramesFor(topics[n].1, e);
    FramesOfConcat(TopicFrames(ws, topics[..n], e), Tagged(ws, topics[n].1.id, frames), j);
    FramesOfTagged(ws, topics[n].1.id, frames, j);
  }

  lemma {:induction false} NoFramesIn(ws: int, topics: Dict<string, Session>, e: Event, j: nat)
    requires NoneIs(topics, j)
    ensures FramesOf(TopicFrames(ws, topics, e), j) == []
    decreases |topics|
  {
    if topics != [] {
      OneMoreTopic(ws, topics, e, j);
      NoFramesIn(ws, topics[..|topics| - 1], e, j);
    }
  }

  /** Session `j` occurs under topic `t` at most, or not at all. */
  ghost predicate OnlyUnder(topics: Dict<string, Session>, t: string, j: nat) {
    forall k :: 0 <= k < |topics| && topics[k].1.id == j ==> topics[k].0 == t
  }

  ghost predicate NoneIs(topics: Dict<string, Session>, j: nat) {
    forall k :: 0 <= k < |topics| ==> topics[k].1.id != j
  }

  lemma {:induction false} TopicFramesOf(ws: int, topics: Dict<string, Session>, e: Event, t: string, j: nat)
    requires Distinct(topics) && OnlyUnder(topics, t, j)
    ensures FramesOf(TopicFrames(ws, topics, e), j) == FramesIf(Get(topics, t), j, e)
    decreases |topics|
  {
    if topics != [] {
      var n := |topics| - 1;
      OneMoreTopic(ws, topics, e, j);
      GetOneMore(topics, t);
      if topics[n].0 == t { NoFramesIn(ws, topics[..n], e, j); } else { TopicFramesOf(ws, topics[..n], e, t, j); }
    }
  }

  /** A session identity occurs only at the place where it joined. */
  ghost predicate OnlyAt(index: Channels, ws: int, t: string, j: nat) {
    && Distinct(index)
    && (forall i :: 0 <= i < |index| ==> Distinct(index[i].1))
    && (forall i :: 0 <= i < |index| ==>
         if index[i].0 == ws then OnlyUnder(index[i].1, t, j) else NoneIs(index[i].1, j))
  }

  lemma OneMoreSocket(index: Channels, active: set<int>, e: Event, j: nat)
    requires index != []
    ensures var n := |index| - 1;
            FramesOf(BroadcastFrames(index, active, e), j) ==
            FramesOf(BroadcastFrames(index[..n], active, e), j) +
            (if index[n].0 in active then FramesOf(TopicFrames(index[n].0, index[n].1, e), j) else [])
  {
    var n := |index| - 1;
    FramesOfConcat(BroadcastFrames(index[..n], active, e),
                   if index[n].0 in active then TopicFrames(index[n].0, index[n].1, e) else [], j);
  }

  lemma {:induction false} NoFramesAmong(index: Channels, active: set<int>, e: Event, j: nat)
    requires forall i :: 0 <= i < |index| ==> NoneIs(index[i].1, j)
    ensures FramesOf(BroadcastFrames(index, active, e), j) == []
    decreases |index|
  {
    if index != [] {
      var n := |index| - 1;
      OneMoreSocket(index, active, e, j);
      NoFramesIn(index[n].0, index[n].1, e, j);
      NoFramesAmong(index[..n], active, e, j);
    }
  }

  lemma TopicsOneMore(index: Channels, ws: int)
    requires Distinct(index) && index != []
    ensures var n := |index| - 1;
            TopicsOf(index, ws) == if index[n].0 == ws then index[n].1 else TopicsOf(index[..n], ws)
  {
    GetOneMore(index, ws);
  }

  lemma OnlyAtInit(index: Channels, ws: int, t: string, j: nat)
    requires OnlyAt(index, ws, t, j) && index != []
    ensures var n := |index| - 1;
            && OnlyAt(index[..n], ws, t, j)
            && (index[n].0 == ws ==> forall i :: 0 <= i < n ==> NoneIs(index[..n][i].1, j))
            && (index[n].0 == ws ==> OnlyUnder(index[n].1, t, j))
            && (index[n].0 != ws ==> NoneIs(index[n].1, j))
            && Distinct(index[n].1)
  {
    var n := |index| - 1;
    var init := index[..n];
    assert forall i :: 0 <= i < n ==> init[i] == index[i];
  }

  lemma FramesOfLast(index: Channels, active: set<int>, e: Event, ws: int, t: string, j: nat)
    requires OnlyAt(index, ws, t, j) && index != []
    ensures var n := |index| - 1;
            FramesOf(BroadcastFrames(index, active, e), j) ==
            if index[n].0 != ws then FramesOf(BroadcastFrames(index[..n], active, e), j)
            else if ws in active then FramesIf(Get(index[n].1, t), j, e) else []
  {
    var n := |index| - 1;
    OnlyAtInit(index, ws, t, j);
    OneMoreSocket(index, active, e, j);
    if index[n].0 == ws {
      NoFramesAmong(index[..n], active, e, j);
      TopicFramesOf(ws, index[n].1, e, t, j);
    } else {
      NoFramesIn(index[n].0, index[n].1, e, j);
    }
  }

  lemma {:induction false} BroadcastFramesOf(index: Channels, active: set<int>, e: Event, ws: int, t: string, j: nat)
    requires OnlyAt(index, ws, t, j)
    ensures FramesOf(BroadcastFrames(index, active, e), j) ==
            if ws in active then FramesIf(Get(TopicsOf(index, ws), t), j, e) else []
    decreases |index|
  {
    if index != [] {
      FramesOfLast(index, active, e, ws, t, j);
      TopicsOneMore(index, ws);
      if index[|index| - 1].0 != ws {
        OnlyAtInit(index, ws, t, j);
        BroadcastFramesOf(index[..|index| - 1], active, e, ws, t, j);
      }
    }
  }

  // ---------------------------------------------------------------- tables

  lemma TopicsAfterSet(c: Channels, ws: int, topic: string, s: Session)
    requires Distinct(c)
    ensures var c' := SetTopic(c, ws, topic, s);
            && Distinct(c')
            && (forall q :: Has(c', q) <==> q == ws || Has(c, q))
            && (forall q :: TopicsOf(c', q) == if q == ws then Put(TopicsOf(c, ws), topic, s) else TopicsOf(c, q))
  {
    var topics := Put(TopicsOf(c, ws), topic, s);
    forall q ensures Get(Put(c, ws, topics), q) == if q == ws then Some(topics) else Get(c, q) {
      GetPut(c, ws, topics, q);
    }
    var c' := SetTopic(c, ws, topic, s);
    assert forall q :: Has(c', q) <==> Get(c', q).Some?;
    assert forall q :: Has(c, q) <==> Get(c, q).Some?;
  }

  lemma TopicsAfterDrop(c: Channels, ws: int, topic: string)
    requires Distinct(c)
    ensures var c' := DropTopic(c, ws, topic);
            && Distinct(c')
            && (forall q :: Has(c', q) <==> Has(c, q))
            && (forall q :: TopicsOf(c', q) == if q == ws then Pop(TopicsOf(c, ws), topic) else TopicsOf(c, q))
  {
    if Has(c, ws) {
      var topics := Pop(TopicsOf(c, ws), topic);
      forall q ensures Get(Put(c, ws, topics), q) == if q == ws then Some(topics) else Get(c, q) {
        GetPut(c, ws, topics, q);
      }
      var c' := DropTopic(c, ws, topic);
      assert forall q :: Has(c', q) <==> Get(c', q).Some?;
      assert forall q :: Has(c, q) <==> Get(c, q).Some?;
    }
  }

  lemma TopicsAfterPop(c: Channels, ws: int)
    requires Distinct(c)
    ensures var c' := Pop(c, ws);
            && Distinct(c')
            && (forall q :: Has(c', q) <==> q != ws && Has(c, q))
            && (forall q :: TopicsOf(c', q) == if q == ws then [] else TopicsOf(c, q))
  {
    forall q ensures Get(Pop(c, ws), q) == if q == ws then None else Get(c, q) { GetPop(c, ws, q); }
    var c' := Pop(c, ws);
    assert forall q :: Has(c', q) <==> Get(c', q).Some?;
    assert forall q :: Has(c, q) <==> Get(c, q).Some?;
  }

  lemma TopicsAfterConnect(c: Channels, ws: int)
    requires Distinct(c) && !Has(c, ws)
    ensures var c' := Put(c, ws, []);
            && Distinct(c')
            && (forall q :: Has(c', q) <==> q == ws || Has(c, q))
            && (forall q :: TopicsOf(c', q) == TopicsOf(c, q))
  {
    forall q ensures Get(Put(c, ws, []), q) == if q == ws then Some([]) else Get(c, q) { GetPut(c, ws, [], q); }
    var c' := Put(c, ws, []);
    assert forall q :: Has(c', q) <==> Get(c', q).Some?;
    assert forall q :: Has(c, q) <==> Get(c, q).Some?;
  }

  // ---------------------------------------------------------------- each step keeps the invariant

  lemma {:induction false} OfSourceConcat(a: seq<(Source, Event)>, b: seq<(Source, Event)>, src: Source)
    ensures OfSource(a + b, src) == OfSource(a, src) + OfSource(b, src)
    decreases |b|
  {
    if b == [] {
      assert a + b == a;
    } else {
      assert (a + b)[..|a + b| - 1] == a + b[..|b| - 1];
      OfSourceConcat(a, b[..|b| - 1], src);
    }
  }

  lemma {:induction false} OfSourceWith(src: Source, events: seq<Event>, q: Source)
    ensures OfSource(WithSource(src, events), q) == if q == src then events else []
    decreases |events|
  {
    if events != [] {
      var n := |events| - 1;
      assert WithSource(src, events)[..n] == WithSource(src, events[..n]);
      OfSourceWith(src, events[..n], q);
    }
  }

  lemma PollAdds(polled: seq<(Source, Event)>, w: seq<Event>, m: seq<Event>)
    ensures var all := polled + WithSource(Wal, w) + WithSource(Mock, m);
            && OfSource(all, Wal) == OfSource(polled, Wal) + w
            && OfSource(all, Mock) == OfSource(polled, Mock) + m
            && Events(all) == Events(polled) + (w + m)
  {
    forall src: Source
      ensures OfSource(polled + WithSource(Wal, w) + WithSource(Mock, m), src) ==
              OfSource(polled, src) + (if src == Wal then w else m)
    {
      OfSourceConcat(polled + WithSource(Wal, w), WithSource(Mock, m), src);
      OfSourceConcat(polled, WithSource(Wal, w), src);
      OfSourceWith(Wal, w, src);
      OfSourceWith(Mock, m, src);
    }
  }

  /** One file is read to its end. */
  lemma SourceReadOn(polled: seq<(Source, Event)>, all: seq<(Source, Event)>, src: Source, lines: seq<Line>,
                     offset: nat)
    requires offset <= |lines| && OfSource(polled, src) == Parsed(lines[..offset])
    requires OfSource(all, src) == OfSource(polled, src) + Parsed(lines[offset..])
    ensures OfSource(all, src) == Parsed(lines[..|lines|])
  {
    ParsedConcat(lines[..offset], lines[offset..]);
    assert lines[..offset] + lines[offset..] == lines[..|lines|];
  }

  lemma FeedPoll(s: System)
    requires FeedInv(s) && Enabled(s, Poll)
    ensures FeedInv(Next(s, Poll))
  {
    var f := s.feed;
    var w, m := Parsed(f.wal[f.walOffset..]), Parsed(f.mock[f.mockOffset..]);
    var all := s.polled + WithSource(Wal, w) + WithSource(Mock, m);
    PollAdds(s.polled, w, m);
    SourceReadOn(s.polled, all, Wal, f.wal, f.walOffset);
    SourceReadOn(s.polled, all, Mock, f.mock, f.mockOffset);
    PollQueues(s.drained, s.server.queue, s.feed.pending, w + m);
    assert Next(s, Poll) ==
           s.(feed := f.(walOffset := |f.wal|, mockOffset := |f.mock|, pending := w + m), polled := all);
  }

  lemma PollQueues(drained: seq<Event>, queue: seq<Event>, pending: seq<Event>, more: seq<Event>)
    requires pending == []
    ensures drained + queue + pending + more == drained + queue + more
  {}

  lemma FeedMoves(drained: seq<Event>, queue: seq<Event>, pending: seq<Event>)
    ensures queue != [] ==> (drained + [queue[0]]) + queue[1..] + pending == drained + queue + pending
    ensures pending != [] ==> drained + (queue + [pending[0]]) + pending[1..] == drained + queue + pending
  {}

  lemma FeedAppend(s: System, file: Source, line: Line)
    requires FeedInv(s)
    ensures FeedInv(Next(s, Append(file, line)))
  {
    var f := s.feed;
    assert (f.wal + [line])[..f.walOffset] == f.wal[..f.walOffset];
    assert (f.mock + [line])[..f.mockOffset] == f.mock[..f.mockOffset];
  }

  lemma FeedStep(s: System, step: Step)
    requires FeedInv(s) && Enabled(s, step)
    ensures FeedInv(Next(s, step))
  {
    FeedMoves(s.drained, s.server.queue, s.feed.pending);
    match step
    case Append(file, line) => FeedAppend(s, file, line);
    case Poll => FeedPoll(s);
    case _ =>
  }

  lemma TablesJoin(v: Server, ws: int, topic: string, session: Session)
    requires TablesInv(v) && ws in v.active
    ensures TablesInv(v.(channels := SetTopic(v.channels, ws, topic, session),
                         wsIndex := SetTopic(v.wsIndex, ws, topic, session), created := v.created + 1))
  {
    TopicsAfterSet(v.channels, ws, topic, session);
    TopicsAfterSet(v.wsIndex, ws, topic, session);
  }

  lemma TablesLeave(v: Server, ws: int, topic: string)
    requires TablesInv(v)
    ensures TablesInv(DoLeave(v, ws, topic))
  {
    TopicsAfterDrop(v.channels, ws, topic);
    TopicsAfterDrop(v.wsIndex, ws, topic);
  }

  lemma TablesDisconnect(v: Server, ws: int)
    requires TablesInv(v)
    ensures TablesInv(DoDisconnect(v, ws))
  {
    TopicsAfterPop(v.channels, ws);
    TopicsAfterPop(v.wsIndex, ws);
  }

  lemma TablesConnect(v: Server, ws: int)
    requires TablesInv(v) && ws !in v.active
    ensures TablesInv(DoConnect(v, ws))
  {
    TopicsAfterConnect(v.channels, ws);
  }

  lemma TablesStep(s: System, step: Step)
    requires FeedInv(s) && TablesInv(s.server) && Enabled(s, step)
    ensures TablesInv(Next(s, step).server)
  {
    match step
    case Connect(ws) => TablesConnect(s.server, ws);
    case Disconnect(ws) => TablesDisconnect(s.server, ws);
    case Join(ws, topic, joinRef, claims, subs) =>
      TablesJoin(s.server, ws, topic, Session(s.server.created, topic, joinRef, claims, subs));
    case Leave(ws, topic) => TablesLeave(s.server, ws, topic);
    case _ =>
  }

  // ---------------------------------------------------------------- stays

  /** `v'` is `v` with the hit channels emptied. */
  ghost predicate Emptied(v: Server, v': Server, c: Closing) {
    forall w, t :: Joined(v', w, t) == if Hits(c, w, t) then None else Joined(v, w, t)
  }

  ghost predicate Filled(v: Server, v': Server, ws: int, topic: string, session: Session) {
    forall w, t :: Joined(v', w, t) == if w == ws && t == topic then Some(session) else Joined(v, w, t)
  }

  lemma LeaveEmpties(v: Server, ws: int, topic: string)
    requires TablesInv(v)
    ensures Emptied(v, DoLeave(v, ws, topic), Channel(ws, topic))
  {
    TopicsAfterDrop(v.wsIndex, ws, topic);
    var v' := DoLeave(v, ws, topic);
    forall w, t ensures Joined(v', w, t) == if w == ws && t == topic then None else Joined(v, w, t) {
      if w == ws { GetPop(TopicsOf(v.wsIndex, ws), topic, t); }
    }
  }

  lemma DisconnectEmpties(v: Server, ws: int)
    requires TablesInv(v)
    ensures Emptied(v, DoDisconnect(v, ws), Socket(ws))
  {
    TopicsAfterPop(v.wsIndex, ws);
  }

  lemma JoinFills(v: Server, v': Server, ws: int, topic: string, session: Session)
    requires TablesInv(v) && v'.wsIndex == SetTopic(v.wsIndex, ws, topic, session)
    ensures Filled(v, v', ws, topic, session)
  {
    TopicsAfterSet(v.wsIndex, ws, topic, session);
    forall w, t ensures Joined(v', w, t) == if w == ws && t == topic then Some(session) else Joined(v, w, t) {
      if w == ws { GetPut(TopicsOf(v.wsIndex, ws), topic, session, t); }
    }
  }

  lemma StaysEmptied(stays: seq<Stay>, now: nat, v: Server, v': Server, c: Closing)
    requires TableHoldsOpenStays(stays, v) && Emptied(v, v', c)
    ensures TableHoldsOpenStays(Close(stays, now, c), v')
  {
    var closed := Close(stays, now, c);
    forall j | 0 <= j < |stays|
      ensures closed[j].until.None? <==>
              Joined(v', closed[j].ws, closed[j].session.topic) == Some(closed[j].session)
    {
      assert closed[j] == CloseOne(stays[j], now, c);
    }
    forall w, t | Joined(v', w, t).Some? ensures IsStay(closed, w, t, Joined(v', w, t).value) {
      assert IsStay(stays, w, t, Joined(v, w, t).value);
    }
  }

  /** A join ends the stay it replaces and begins a new one. */
  lemma StaysFilled(stays: seq<Stay>, now: nat, v: Server, v': Server, ws: int, session: Session)
    requires TableHoldsOpenStays(stays, v) && Filled(v, v', ws, session.topic, session) && session.id == |stays|
    requires forall j :: 0 <= j < |stays| ==> stays[j].session.id == j
    ensures TableHoldsOpenStays(Close(stays, now, Channel(ws, session.topic)) + [Stay(ws, session, now, None)], v')
  {
    var closed := Close(stays, now, Channel(ws, session.topic));
    var all := closed + [Stay(ws, session, now, None)];
    forall j | 0 <= j < |all|
      ensures all[j].until.None? <==> Joined(v', all[j].ws, all[j].session.topic) == Some(all[j].session)
    {
      if j < |stays| { assert all[j] == CloseOne(stays[j], now, Channel(ws, session.topic)); }
    }
    forall w, t | Joined(v', w, t).Some? ensures IsStay(all, w, t, Joined(v', w, t).value) {
      if !(w == ws && t == session.topic) {
        assert IsStay(stays, w, t, Joined(v, w, t).value);
        assert all[Joined(v, w, t).value.id] == closed[Joined(v, w, t).value.id];
      }
    }
  }

  lemma SameTableSameStays(stays: seq<Stay>, v: Server, v': Server)
    requires TableHoldsOpenStays(stays, v) && v'.wsIndex == v.wsIndex
    ensures TableHoldsOpenStays(stays, v')
  {
    assert forall w, t :: Joined(v', w, t) == Joined(v, w, t);
  }

  // ---------------------------------------------------------------- deliveries

  lemma {:induction false} NoFramesYet(sent: seq<Sent>, id: nat)
    requires forall i :: 0 <= i < |sent| ==> sent[i].session != id
    ensures FramesOf(sent, id) == []
    decreases |sent|
  {
    if sent != [] { NoFramesYet(sent[..|sent| - 1], id); }
  }

  lemma DeliveredClosed(stays: seq<Stay>, drained: seq<Event>, sent: seq<Sent>, c: Closing)
    requires Numbered(stays, drained) && Delivered(stays, drained, sent) && Addressed(stays, sent)
    ensures var closed := Close(stays, |drained|, c);
            Numbered(closed, drained) && Delivered(closed, drained, sent) && Addressed(closed, sent)
  {}

  lemma DeliveredOpened(stays: seq<Stay>, drained: seq<Event>, sent: seq<Sent>, ws: int, session: Session)
    requires Numbered(stays, drained) && Delivered(stays, drained, sent) && Addressed(stays, sent)
    requires session.id == |stays|
    ensures var all := stays + [Stay(ws, session, |drained|, None)];
            Numbered(all, drained) && Delivered(all, drained, sent) && Addressed(all, sent)
  {
    NoFramesYet(sent, |stays|);
    var all := stays + [Stay(ws, session, |drained|, None)];
    forall j | 0 <= j < |all|
      ensures InTime(all[j], drained) && FramesOf(sent, j) == Expected(all[j].session, During(all[j], drained))
    {
      if j == |stays| { assert During(all[j], drained) == []; }
    }
  }

  lemma ClosedIsNotHeld(s: System, j: nat)
    requires StaysInv(s) && j < |s.stays| && s.stays[j].until.Some?
    ensures var held := Joined(s.server, s.stays[j].ws, s.stays[j].session.topic); held.Some? ==> held.value.id != j
  {}

  lemma SessionOnlyAt(s: System, j: nat)
    requires TablesInv(s.server) && StaysInv(s) && j < |s.stays|
    ensures OnlyAt(s.server.wsIndex, s.stays[j].ws, s.stays[j].session.topic, j)
  {
    var index := s.server.wsIndex;
    forall i | 0 <= i < |index| ensures index[i].1 == TopicsOf(index, index[i].0) { GetAt(index, i); }
    forall i | 0 <= i < |index|
      ensures if index[i].0 == s.stays[j].ws then OnlyUnder(index[i].1, s.stays[j].session.topic, j)
              else NoneIs(index[i].1, j)
    {
      forall k | 0 <= k < |index[i].1| && index[i].1[k].1.id == j
        ensures index[i].0 == s.stays[j].ws && index[i].1[k].0 == s.stays[j].session.topic
      {
        GetAt(index, i);
        GetAt(index[i].1, k);
        assert Joined(s.server, index[i].0, index[i].1[k].0) == Some(index[i].1[k].1);
        assert IsStay(s.stays, index[i].0, index[i].1[k].0, index[i].1[k].1);
      }
    }
  }

  /** What one broadcast adds for one session: the frames of the event if its stay is open, nothing otherwise. */
  lemma BroadcastIsExact(s: System, e: Event, j: nat)
    requires TablesInv(s.server) && StaysInv(s) && j < |s.stays|
    ensures FramesOf(BroadcastFrames(s.server.wsIndex, s.server.active, e), j) ==
            if s.stays[j].until.None? then FramesFor(s.stays[j].session, e) else []
  {
    var v, stay := s.server, s.stays[j];
    SessionOnlyAt(s, j);
    BroadcastFramesOf(v.wsIndex, v.active, e, stay.ws, stay.session.topic, j);
    if stay.until.None? {
      assert TopicsOf(v.channels, stay.ws) != [];
      assert Has(v.channels, stay.ws);
    } else {
      ClosedIsNotHeld(s, j);
    }
  }

  lemma ExpectedOneMore(stay: Stay, drained: seq<Event>, e: Event)
    requires InTime(stay, drained)
    ensures InTime(stay, drained + [e])
    ensures Expected(stay.session, During(stay, drained + [e])) ==
            Expected(stay.session, During(stay, drained)) + if stay.until.None? then FramesFor(stay.session, e) else []
  {
    var before, after := During(stay, drained), During(stay, drained + [e]);
    if stay.until.None? {
      assert after == before + [e];
      assert after[..|after| - 1] == before && after[|after| - 1] == e;
    } else {
      assert after == before;
    }
  }

  lemma DeliveredDrain(s: System, e: Event)
    requires Inv(s)
    ensures var sent := s.server.sent + BroadcastFrames(s.server.wsIndex, s.server.active, e);
            && Numbered(s.stays, s.drained + [e])
            && Delivered(s.stays, s.drained + [e], sent)
            && Addressed(s.stays, sent)
  {
    var out := BroadcastFrames(s.server.wsIndex, s.server.active, e);
    forall j | 0 <= j < |s.stays|
      ensures InTime(s.stays[j], s.drained + [e])
      ensures FramesOf(s.server.sent + out, j) == Expected(s.stays[j].session, During(s.stays[j], s.drained + [e]))
    {
      FramesOfConcat(s.server.sent, out, j);
      BroadcastIsExact(s, e, j);
      ExpectedOneMore(s.stays[j], s.drained, e);
    }
    BroadcastGoesHome(s, e, s.server.wsIndex);
  }

  /** Each frame of a broadcast goes to the socket of its session. */
  lemma {:induction false} BroadcastGoesHome(s: System, e: Event, index: Channels)
    requires TablesInv(s.server) && StaysInv(s) && index <= s.server.wsIndex
    ensures Addressed(s.stays, BroadcastFrames(index, s.server.active, e))
    decreases |index|
  {
    if index != [] {
      var n := |index| - 1;
      assert index[..n] <= s.server.wsIndex;
      BroadcastGoesHome(s, e, index[..n]);
      GetAt(s.server.wsIndex, n);
      TopicsGoHome(s, e, index[n].0, index[n].1);
    }
  }

  lemma {:induction false} TopicsGoHome(s: System, e: Event, ws: int, topics: Dict<string, Session>)
    requires TablesInv(s.server) && StaysInv(s) && topics <= TopicsOf(s.server.wsIndex, ws)
    ensures Addressed(s.stays, TopicFrames(ws, topics, e))
    decreases |topics|
  {
    if topics != [] {
      var n := |topics| - 1;
      assert topics[..n] <= TopicsOf(s.server.wsIndex, ws);
      TopicsGoHome(s, e, ws, topics[..n]);
      GetAt(TopicsOf(s.server.wsIndex, ws), n);
      assert Joined(s.server, ws, topics[n].0) == Some(topics[n].1);
      assert IsStay(s.stays, ws, topics[n].0, topics[n].1);
    }
  }

  // ---------------------------------------------------------------- every step keeps the invariant

  lemma StayStep(s: System, step: Step)
    requires Inv(s) && Enabled(s, step)
    ensures var s' := Next(s, step);
            StaysInv(s') && Delivered(s'.stays, s'.drained, s'.server.sent) && Addressed(s'.stays, s'.server.sent)
  {
    var v, v' := s.server, Next(s, step).server;
    match step
    case Drain =>
      DeliveredDrain(s, v.queue[0]);
      SameTableSameStays(s.stays, v, v');
    case Disconnect(ws) =>
      DisconnectEmpties(v, ws);
      StaysEmptied(s.stays, |s.drained|, v, v', Socket(ws));
      DeliveredClosed(s.stays, s.drained, v.sent, Socket(ws));
    case Leave(ws, topic) =>
      LeaveEmpties(v, ws, topic);
      StaysEmptied(s.stays, |s.drained|, v, v', Channel(ws, topic));
      DeliveredClosed(s.stays, s.drained, v.sent, Channel(ws, topic));
    case Join(ws, topic, joinRef, claims, subs) =>
      if AuthorizeJoin(claims, s.requireAuth).None? {
        var session := Session(v.created, topic, joinRef, claims, subs);
        JoinFills(v, v', ws, topic, session);
        StaysFilled(s.stays, |s.drained|, v, v', ws, session);
        DeliveredClosed(s.stays, s.drained, v.sent, Channel(ws, topic));
        DeliveredOpened(Close(s.stays, |s.drained|, Channel(ws, topic)), s.drained, v.sent, ws, session);
      }
    case _ =>
      SameTableSameStays(s.stays, v, v');
  }

  lemma StepKeepsInv(s: System, step: Step)
    requires Inv(s) && Enabled(s, step)
    ensures Inv(Next(s, step))
  {
    FeedStep(s, step);
    TablesStep(s, step);
    StayStep(s, step);
  }

  // ---------------------------------------------------------------- whole runs

  /** The state after some steps, if each was enabled when its turn came. */
  function Execute(s: System, steps: seq<Step>): Option<System>
    decreases |steps|
  {
    if steps == [] then Some(s)
    else if s.feed.walOffset <= |s.feed.wal| && s.feed.mockOffset <= |s.feed.mock| && Enabled(s, steps[0])
    then Execute(Next(s, steps[0]), steps[1..])
    else None
  }

  lemma InitialInv(requireAuth: bool)
    ensures Inv(Initial(requireAuth))
  {
    var v := Initial(requireAuth).server;
    var none: Channels := [];
    assert forall ws :: TopicsOf(none, ws) == [] && !Has(none, ws);
    assert TablesInv(v);
    assert forall w, t :: Joined(v, w, t) == None;
  }

  lemma {:induction false} RunKeepsInv(s: System, steps: seq<Step>)
    requires Inv(s) && Execute(s, steps).Some?
    ensures Inv(Execute(s, steps).value)
    decreases |steps|
  {
    if steps != [] {
      StepKeepsInv(s, steps[0]);
      RunKeepsInv(Next(s, steps[0]), steps[1..]);
    }
  }

  ghost predicate Reachable(s: System) {
    exists auth, steps :: Execute(Initial(auth), steps) == Some(s)
  }

  lemma ReachableInv(s: System)
    requires Reachable(s)
    ensures Inv(s)
  {
    var auth, steps :| Execute(Initial(auth), steps) == Some(s);
    InitialInv(auth);
    RunKeepsInv(Initial(auth), steps);
  }

  /** The events of the frames that carry one subscription id. */
  function EventsTo(frames: seq<Frame>, id: int): seq<Event> {
    if frames == [] then []
    else
      var n := |frames| - 1;
      EventsTo(frames[..n], id) + if frames[n].subscriptionId == id then [frames[n].event] else []
  }

  /** The events a subscription asks for and may see, in order. */
  function Matching(sub: Subscription, claims: Claims, events: seq<Event>): seq<Event> {
    if events == [] then []
    else
      var n := |events| - 1;
      Matching(sub, claims, events[..n]) + if Receives(sub, claims, events[n]) then [events[n]] else []
  }

  predicate DistinctIds(subs: seq<Subscription>) {
    forall i, j :: 0 <= i < j < |subs| ==> subs[i].id != subs[j].id
  }

  lemma {:induction false} EventsToConcat(a: seq<Frame>, b: seq<Frame>, id: int)
    ensures EventsTo(a + b, id) == EventsTo(a, id) + EventsTo(b, id)
    decreases |b|
  {
    if b == [] {
      assert a + b == a;
    } else {
      assert (a + b)[..|a + b| - 1] == a + b[..|b| - 1];
      EventsToConcat(a, b[..|b| - 1], id);
    }
  }

  /** The frames of a list are those of its subscriptions one by one. */
  lemma LastSub(s: Session, subs: seq<Subscription>, e: Event)
    requires subs != []
    ensures var n := |subs| - 1; SubFrames(s, subs, e) == SubFrames(s, subs[..n], e) + SubFrames(s, [subs[n]], e)
  {}

  lemma OneSub(s: Session, sub: Subscription, e: Event, id: int)
    ensures EventsTo(SubFrames(s, [sub], e), id) == if sub.id == id && Receives(sub, s.claims, e) then [e] else []
  {}

  lemma {:induction false} NoSuchSub(s: Session, subs: seq<Subscription>, e: Event, id: int)
    requires forall i :: 0 <= i < |subs| ==> subs[i].id != id
    ensures EventsTo(SubFrames(s, subs, e), id) == []
    decreases |subs|
  {
    if subs != [] {
      var n := |subs| - 1;
      LastSub(s, subs, e);
      EventsToConcat(SubFrames(s, subs[..n], e), SubFrames(s, [subs[n]], e), id);
      OneSub(s, subs[n], e, id);
      NoSuchSub(s, subs[..n], e, id);
    }
  }

  /** The events of one subscription's frames in a list are those of its frames alone. */
  lemma {:induction false} EventsToSub(s: Session, subs: seq<Subscription>, e: Event, k: nat)
    requires DistinctIds(subs) && k < |subs|
    ensures EventsTo(SubFrames(s, subs, e), subs[k].id) == EventsTo(SubFrames(s, [subs[k]], e), subs[k].id)
    decreases |subs|
  {
    var n := |subs| - 1;
    LastSub(s, subs, e);
    EventsToConcat(SubFrames(s, subs[..n], e), SubFrames(s, [subs[n]], e), subs[k].id);
    if k < n {
      OneSub(s, subs[n], e, subs[k].id);
      EventsToSub(s, subs[..n], e, k);
    } else {
      NoSuchSub(s, subs[..n], e, subs[k].id);
    }
  }

  lemma {:induction false} EventsToExpected(s: Session, events: seq<Event>, k: nat)
    requires k < |s.subs| && DistinctIds(s.subs)
    ensures EventsTo(Expected(s, events), s.subs[k].id) == Matching(s.subs[k], s.claims, events)
    decreases |events|
  {
    if events != [] {
      var n := |events| - 1;
      EventsToExpected(s, events[..n], k);
      EventsToConcat(Expected(s, events[..n]), FramesFor(s, events[n]), s.subs[k].id);
      EventsToSub(s, s.subs, events[n], k);
      OneSub(s, s.subs[k], events[n], s.subs[k].id);
    }
  }

  lemma {:induction false} ParsedHaveTables(lines: seq<Line>)
    ensures forall i :: 0 <= i < |Parsed(lines)| ==> Parsed(lines)[i].table != ""
  {
    if lines != [] { ParsedHaveTables(lines[..|lines| - 1]); }
  }

  lemma {:induction false} NothingForNoTable(sub: Subscription, claims: Claims, events: seq<Event>)
    requires sub.table == "" && forall i :: 0 <= i < |events| ==> events[i].table != ""
    ensures Matching(sub, claims, events) == []
    decreases |events|
  {
    if events != [] { NothingForNoTable(sub, claims, events[..|events| - 1]); }
  }

  /** A join entry that names no table is given the empty one and matches nothing in any file. */
  lemma NoTableMeansNoEvents(sub: Subscription, claims: Claims, lines: seq<Line>)
    requires sub.table == ""
    ensures Matching(sub, claims, Parsed(lines)) == []
  {
    ParsedHaveTables(lines);
    NothingForNoTable(sub, claims, Parsed(lines));
  }

  lemma {:induction false} OfOneSource(polled: seq<(Source, Event)>, src: Source, other: Source)
    requires src != other && OfSource(polled, other) == []
    ensures Events(polled) == OfSource(polled, src)
    decreases |polled|
  {
    if polled != [] {
      var n := |polled| - 1;
      OfOneSource(polled[..n], src, other);
      assert Events(polled) == Events(polled[..n]) + [polled[n].1];
    }
  }

  lemma {:induction false} OfSourcePrefix(polled: seq<(Source, Event)>, n: nat, src: Source)
    requires n <= |polled|
    ensures OfSource(polled[..n], src) <= OfSource(polled, src)
    decreases |polled|
  {
    if n < |polled| {
      assert polled[..|polled| - 1][..n] == polled[..n];
      OfSourcePrefix(polled[..|polled| - 1], n, src);
    } else {
      assert polled[..n] == polled;
    }
  }

  lemma {:induction false} ParsedPrefix(lines: seq<Line>, n: nat)
    requires n <= |lines|
    ensures Parsed(lines[..n]) <= Parsed(lines)
    decreases |lines|
  {
    if n < |lines| {
      assert lines[..|lines| - 1][..n] == lines[..n];
      ParsedPrefix(lines[..|lines| - 1], n);
    } else {
      assert lines[..n] == lines;
    }
  }

  /** The drained events are the first polled ones, and those of each file are its first events in file order. */
  lemma DrainedFollowsTheFiles(s: System)
    requires Reachable(s)
    ensures |s.drained| <= |s.polled| && s.drained == Events(s.polled[..|s.drained|])
    ensures OfSource(s.polled[..|s.drained|], Wal) <= Parsed(s.feed.wal)
    ensures OfSource(s.polled[..|s.drained|], Mock) <= Parsed(s.feed.mock)
    ensures s.feed.mock == [] ==> s.drained <= Parsed(s.feed.wal)
    ensures s.feed.wal == [] ==> s.drained <= Parsed(s.feed.mock)
  {
    ReachableInv(s);
    var n := |s.drained|;
    assert |Events(s.polled)| == |s.polled|;
    assert s.drained == Events(s.polled)[..n] == Events(s.polled[..n]);
    ParsedPrefix(s.feed.wal, s.feed.walOffset);
    ParsedPrefix(s.feed.mock, s.feed.mockOffset);
    OfSourcePrefix(s.polled, n, Wal);
    OfSourcePrefix(s.polled, n, Mock);
    PrefixTrans(OfSource(s.polled[..n], Wal), OfSource(s.polled, Wal), Parsed(s.feed.wal));
    PrefixTrans(OfSource(s.polled[..n], Mock), OfSource(s.polled, Mock), Parsed(s.feed.mock));
    if s.feed.mock == [] { OfOneSource(s.polled[..n], Wal, Mock); }
    if s.feed.wal == [] { OfOneSource(s.polled[..n], Mock, Wal); }
  }

  /** When the files are read to the end and both queues are empty, every event of the files was broadcast. */
  lemma QuiescentMeansComplete(s: System)
    requires Reachable(s) && s.feed.pending == [] && s.server.queue == []
    requires s.feed.walOffset == |s.feed.wal| && s.feed.mockOffset == |s.feed.mock|
    ensures s.drained == Events(s.polled)
    ensures OfSource(s.polled, Wal) == Parsed(s.feed.wal) && OfSource(s.polled, Mock) == Parsed(s.feed.mock)
  {
    ReachableInv(s);
    assert s.feed.wal[..s.feed.walOffset] == s.feed.wal && s.feed.mock[..s.feed.mockOffset] == s.feed.mock;
    assert s.drained + [] + [] == s.drained;
  }

  lemma PrefixTrans(a: seq<Event>, b: seq<Event>, c: seq<Event>)
    requires a <= b <= c
    ensures a <= c
  {}

  lemma SubscriptionGets(s: System, j: nat, k: nat)
    requires StaysInv(s) && Delivered(s.stays, s.drained, s.server.sent) && j < |s.stays|
    requires k < |s.stays[j].session.subs| && DistinctIds(s.stays[j].session.subs)
    ensures var stay := s.stays[j];
            EventsTo(FramesOf(s.server.sent, j), stay.session.subs[k].id) ==
            Matching(stay.session.subs[k], stay.session.claims, During(stay, s.drained))
  {
    EventsToExpected(s.stays[j].session, During(s.stays[j], s.drained), k);
  }

  /** The polled events a subscription asks for and may see, with the file each came from. */
  function Passing(sub: Subscription, claims: Claims, polled: seq<(Source, Event)>): seq<(Source, Event)> {
    if polled == [] then []
    else
      var n := |polled| - 1;
      Passing(sub, claims, polled[..n]) + if Receives(sub, claims, polled[n].1) then [polled[n]] else []
  }

  lemma {:induction false} PassingEvents(sub: Subscription, claims: Claims, polled: seq<(Source, Event)>)
    ensures Events(Passing(sub, claims, polled)) == Matching(sub, claims, Events(polled))
    decreases |polled|
  {
    if polled != [] {
      var n := |polled| - 1;
      PassingEvents(sub, claims, polled[..n]);
      assert Events(polled)[..n] == Events(polled[..n]);
    }
  }

  lemma MatchingOneMore(sub: Subscription, claims: Claims, events: seq<Event>, e: Event)
    ensures Matching(sub, claims, events + [e]) ==
            if Receives(sub, claims, e) then Matching(sub, claims, events) + [e] else Matching(sub, claims, events)
  {
    assert (events + [e])[..|events|] == events;
  }

  lemma PassingOneMore(sub: Subscription, claims: Claims, polled: seq<(Source, Event)>, x: (Source, Event))
    ensures Passing(sub, claims, polled + [x]) ==
            if Receives(sub, claims, x.1) then Passing(sub, claims, polled) + [x] else Passing(sub, claims, polled)
  {
    assert (polled + [x])[..|polled|] == polled;
  }

  lemma OfSourceOneMore(polled: seq<(Source, Event)>, x: (Source, Event), src: Source)
    ensures OfSource(polled + [x], src) == if x.0 == src then OfSource(polled, src) + [x.1] else OfSource(polled, src)
  {
    assert (polled + [x])[..|polled|] == polled;
  }

  lemma {:induction false} PassingOfSource(sub: Subscription, claims: Claims, polled: seq<(Source, Event)>, src: Source)
    ensures OfSource(Passing(sub, claims, polled), src) == Matching(sub, claims, OfSource(polled, src))
    decreases |polled|
  {
    if polled != [] {
      var init, x := polled[..|polled| - 1], polled[|polled| - 1];
      assert polled == init + [x];
      PassingOfSource(sub, claims, init, src);
      PassingOneMore(sub, claims, init, x);
      OfSourceOneMore(init, x, src);
      OfSourceOneMore(Passing(sub, claims, init), x, src);
      MatchingOneMore(sub, claims, OfSource(init, src), x.1);
    }
  }

  function FileOf(feed: Feed, src: Source): seq<Line> { if src.Wal? then feed.wal else feed.mock }

  /** A stretch of the polled events holds a stretch of each file. */
  lemma StretchOfFile(polled: seq<(Source, Event)>, from: nat, to: nat, src: Source, file: seq<Event>)
    requires from <= to <= |polled| && OfSource(polled[..to], src) <= file
    ensures var a, b := |OfSource(polled[..from], src)|, |OfSource(polled[..to], src)|;
            a <= b <= |file| && OfSource(polled[from..to], src) == file[a..b]
  {
    assert polled[..from] + polled[from..to] == polled[..to];
    OfSourceConcat(polled[..from], polled[from..to], src);
  }

  lemma StayOfPolled(s: System, j: nat)
    requires Inv(s) && j < |s.stays| && |s.drained| <= |s.polled| && s.drained == Events(s.polled[..|s.drained|])
    ensures var stay := s.stays[j];
            var end := EndOf(stay, s.drained);
            stay.from <= end <= |s.drained| && During(stay, s.drained) == Events(s.polled[stay.from..end])
  {
    EventsOfSlice(s.polled, |s.drained|, s.stays[j].from, EndOf(s.stays[j], s.drained));
  }

  lemma EventsOfSlice(polled: seq<(Source, Event)>, n: nat, from: nat, to: nat)
    requires from <= to <= n <= |polled|
    ensures Events(polled[..n])[from..to] == Events(polled[from..to])
  {}

  /** End to end, in every interleaving: what one subscription is sent during a stay are the matching and permitted
      ones of the events polled in a contiguous stretch, in order; and of each file these are the matching and
      permitted events of a contiguous stretch of the file, in file order, each once, none missing. */
  lemma EndToEndDelivery(s: System, j: nat, k: nat, src: Source)
    requires Reachable(s)
    requires j < |s.stays| && k < |s.stays[j].session.subs| && DistinctIds(s.stays[j].session.subs)
    ensures var stay, file := s.stays[j], Parsed(FileOf(s.feed, src));
            var sub, claims, end := stay.session.subs[k], stay.session.claims, EndOf(stay, s.drained);
            && stay.from <= end <= |s.polled|
            && var passed := Passing(sub, claims, s.polled[stay.from..end]);
            && EventsTo(FramesOf(s.server.sent, j), sub.id) == Events(passed)
            && var a, b := |OfSource(s.polled[..stay.from], src)|, |OfSource(s.polled[..end], src)|;
            && a <= b <= |file| && OfSource(passed, src) == Matching(sub, claims, file[a..b])
  {
    DrainedFollowsTheFiles(s);
    ReachableInv(s);
    SubscriptionGets(s, j, k);
    StayOfPolled(s, j);
    var stay := s.stays[j];
    var sub, end := stay.session.subs[k], EndOf(stay, s.drained);
    PassingEvents(sub, stay.session.claims, s.polled[stay.from..end]);
    PassingOfSource(sub, stay.session.claims, s.polled[stay.from..end], src);
    var n := |s.drained|;
    assert s.polled[..n][..end] == s.polled[..end];
    OfSourcePrefix(s.polled[..n], end, src);
    PrefixTrans(OfSource(s.polled[..end], src), OfSource(s.polled[..n], src), Parsed(FileOf(s.feed, src)));
    StretchOfFile(s.polled, stay.from, end, src, Parsed(FileOf(s.feed, src)));
  }

  /** With one changefeed file the stretch is that of the events drained while the session stayed joined. */
  lemma OneFileDelivery(s: System, j: nat, k: nat)
    requires Reachable(s) && s.feed.mock == []
    requires j < |s.stays| && k < |s.stays[j].session.subs| && DistinctIds(s.stays[j].session.subs)
    ensures var stay, file := s.stays[j], Parsed(s.feed.wal);
            var sub, end := stay.session.subs[k], EndOf(stay, s.drained);
            && stay.from <= end <= |file|
            && EventsTo(FramesOf(s.server.sent, j), sub.id) == Matching(sub, stay.session.claims, file[stay.from..end])
  {
    DrainedFollowsTheFiles(s);
    ReachableInv(s);
    SubscriptionGets(s, j, k);
    SlicePrefix(s.drained, Parsed(s.feed.wal), s.stays[j].from, EndOf(s.stays[j], s.drained));
  }

  lemma SlicePrefix(a: seq<Event>, b: seq<Event>, from: nat, to: nat)
    requires a <= b && from <= to <= |a|
    ensures a[from..to] == b[from..to]
  {}

  /** `_channels` and `_ws_index` agree, and a session is held exactly while its stay is open. */
  lemma TablesAgree(s: System, ws: int, topic: string)
    requires Reachable(s)
    ensures TopicsOf(s.server.channels, ws) == TopicsOf(s.server.wsIndex, ws)
    ensures Joined(s.server, ws, topic).Some? ==> ws in s.server.active
    ensures Joined(s.server, ws, topic).Some? <==>
            exists j :: 0 <= j < |s.stays| && s.stays[j].until.None? && s.stays[j].ws == ws &&
              s.stays[j].session.topic == topic
  {
    ReachableInv(s);
    var held := Joined(s.server, ws, topic);
    if held.Some? {
      assert IsStay(s.stays, ws, topic, held.value);
      assert s.stays[held.value.id].until.None?;
      assert Has(s.server.channels, ws);
    }
  }

  lemma {:induction false} FrameIsExpected(sent: seq<Sent>, i: nat)
    requires i < |sent|
    ensures sent[i].frame in FramesOf(sent, sent[i].session)
    decreases |sent|
  {
    if i < |sent| - 1 { FrameIsExpected(sent[..|sent| - 1], i); }
  }

  lemma {:induction false} SubFramesAre(s: Session, subs: seq<Subscription>, e: Event, f: Frame)
    requires f in SubFrames(s, subs, e)
    ensures exists k :: 0 <= k < |subs| && Receives(subs[k], s.claims, e) && f == FrameFor(s, subs[k], e)
    decreases |subs|
  {
    var n := |subs| - 1;
    if f in SubFrames(s, subs[..n], e) {
      SubFramesAre(s, subs[..n], e, f);
      var k :| 0 <= k < n && Receives(subs[..n][k], s.claims, e) && f == FrameFor(s, subs[..n][k], e);
      assert subs[k] == subs[..n][k];
    }
  }

  lemma {:induction false} ExpectedAre(s: Session, events: seq<Event>, f: Frame)
    requires f in Expected(s, events)
    ensures f.event in events
    ensures exists k :: 0 <= k < |s.subs| && Receives(s.subs[k], s.claims, f.event) &&
              f == FrameFor(s, s.subs[k], f.event)
    decreases |events|
  {
    var n := |events| - 1;
    if f in Expected(s, events[..n]) {
      ExpectedAre(s, events[..n], f);
    } else {
      SubFramesAre(s, s.subs, events[n], f);
    }
  }

  lemma {:induction false} InOfSource(polled: seq<(Source, Event)>, i: nat)
    requires i < |polled|
    ensures polled[i].1 in OfSource(polled, polled[i].0)
    decreases |polled|
  {
    if i < |polled| - 1 { InOfSource(polled[..|polled| - 1], i); }
  }

  /** Every drained event is that of a line of one of the files. */
  lemma DrainedIsOfALine(s: System, e: Event)
    requires Reachable(s) && e in s.drained
    ensures exists src: Source, i :: 0 <= i < |FileOf(s.feed, src)| && IsEventOf(FileOf(s.feed, src)[i], e)
  {
    DrainedFollowsTheFiles(s);
    var polled := s.polled[..|s.drained|];
    var i :| 0 <= i < |polled| && polled[i].1 == e;
    var src := polled[i].0;
    InOfSource(polled, i);
    assert e in Parsed(FileOf(s.feed, src));
    ParsedAre(FileOf(s.feed, src), e);
  }

  /** What any frame ever sent says: the channel and join reference of its session, the operation in capitals, and an
      entry of a file, which its subscription asks for and its session may see. */
  lemma EveryFrame(s: System, i: nat)
    requires Reachable(s) && i < |s.server.sent|
    ensures s.server.sent[i].session < |s.stays|
    ensures var f, session := s.server.sent[i].frame, s.stays[s.server.sent[i].session].session;
            && s.server.sent[i].ws == s.stays[s.server.sent[i].session].ws
            && f.topic == session.topic && f.joinRef == session.joinRef && f.pgType == Text.Upper(f.event.op)
            && MaySee(session.claims, f.event.record)
            && (exists k :: 0 <= k < |session.subs| && session.subs[k].id == f.subscriptionId &&
                 AsksFor(session.subs[k], f.event))
            && (exists src: Source, l :: 0 <= l < |FileOf(s.feed, src)| && IsEventOf(FileOf(s.feed, src)[l], f.event))
  {
    ReachableInv(s);
    var x := s.server.sent[i];
    var stay := s.stays[x.session];
    FrameIsExpected(s.server.sent, i);
    ExpectedAre(stay.session, During(stay, s.drained), x.frame);
    var k :| 0 <= k < |stay.session.subs| && Receives(stay.session.subs[k], stay.session.claims, x.frame.event) &&
             x.frame == FrameFor(stay.session, stay.session.subs[k], x.frame.event);
    ReceivesIff(stay.session.subs[k], stay.session.claims, x.frame.event);
    assert AsksFor(stay.session.subs[k], x.frame.event);
    PgTypeIsUpperCase(x.frame.event.op);
    assert x.frame.event in s.drained;
    DrainedIsOfALine(s, x.frame.event);
  }

  /** A poll takes the unread lines of both files, those of the log first. */
  lemma PollReadsBoth(s: System)
    requires Inv(s) && Enabled(s, Poll)
    ensures var f, f' := s.feed, Next(s, Poll).feed;
            && f'.pending == Parsed(f.wal[f.walOffset..]) + Parsed(f.mock[f.mockOffset..])
            && f'.walOffset == |f.wal| && f'.mockOffset == |f.mock| && f'.wal == f.wal && f'.mock == f.mock
  {}

  /** A join that is not refused opens a stay with the session asked for, and ends the one it replaces; a refused one
      changes nothing. */
  lemma JoinOpensStay(s: System, ws: int, topic: string, joinRef: string, claims: Claims, subs: seq<Subscription>)
    requires Inv(s) && ws in s.server.active
    ensures var s', n := Next(s, Step.Join(ws, topic, joinRef, claims, subs)), |s.stays|;
            if s.requireAuth && claims.role == "anon" && (claims.sub == None || claims.sub == Some("")) then s' == s
            else
              && |s'.stays| == n + 1 && s'.stays[n].ws == ws
              && s'.stays[n].from == |s.drained| && s'.stays[n].until == None
              && s'.stays[n].session.topic == topic && s'.stays[n].session.joinRef == joinRef
              && s'.stays[n].session.claims == claims && s'.stays[n].session.subs == subs
              && forall j :: 0 <= j < n ==> Ended(s, s', j, s.stays[j].ws == ws && s.stays[j].session.topic == topic)
  {
    JoinRefusedIff(claims, s.requireAuth);
  }

  /** Stay `j` is as it was, but for ending now if it was open and is hit. */
  predicate Ended(s: System, s': System, j: nat, hit: bool)
    requires j < |s.stays| && j < |s'.stays|
  {
    var stay, stay' := s.stays[j], s'.stays[j];
    && stay'.ws == stay.ws && stay'.session == stay.session && stay'.from == stay.from
    && stay'.until == if stay.until == None && hit then Some(|s.drained|) else stay.until
  }

  /** Leaving ends the stay in that channel, and no other. */
  lemma LeavingEndsStay(s: System, ws: int, topic: string)
    requires Inv(s) && ws in s.server.active
    ensures var s' := Next(s, Step.Leave(ws, topic));
            |s'.stays| == |s.stays| &&
            forall j :: 0 <= j < |s.stays| ==> Ended(s, s', j, s.stays[j].ws == ws && s.stays[j].session.topic == topic)
  {}

  /** Disconnecting ends the stays of the socket, and no other. */
  lemma DisconnectingEndsStays(s: System, ws: int)
    requires Inv(s) && ws in s.server.active
    ensures var s' := Next(s, Step.Disconnect(ws));
            |s'.stays| == |s.stays| && forall j :: 0 <= j < |s.stays| ==> Ended(s, s', j, s.stays[j].ws == ws)
  {}

  /** Tenant isolation: no frame of a publisher's session carries a row of another publisher. */
  lemma PublishersAreIsolated(s: System, i: nat)
    requires Reachable(s) && i < |s.server.sent|
    ensures s.server.sent[i].session < |s.stays|
    ensures var claims := s.stays[s.server.sent[i].session].session.claims;
            var owner := Column(s.server.sent[i].frame.event.record, "publisher_id");
            claims.role != "service_role" && claims.publisherId.Some? && owner.Some? ==> owner == claims.publisherId
  {
    EveryFrame(s, i);
  }

  /** What later steps cannot change: past events, past frames and ended stays. */
  lemma StepExtends(s: System, step: Step)
    requires Inv(s) && Enabled(s, step)
    ensures var s' := Next(s, step);
            && s.drained <= s'.drained && |s.stays| <= |s'.stays|
            && forall j :: 0 <= j < |s.stays| && s.stays[j].until.Some? ==> s'.stays[j] == s.stays[j]
  {}

  lemma EndedStep(s: System, step: Step, j: nat)
    requires Inv(s) && Enabled(s, step) && j < |s.stays| && s.stays[j].until.Some?
    ensures var s' := Next(s, step);
            && Inv(s') && j < |s'.stays| && s'.stays[j] == s.stays[j]
            && FramesOf(s'.server.sent, j) == FramesOf(s.server.sent, j)
  {
    StepKeepsInv(s, step);
    StepExtends(s, step);
    SlicePrefix(s.drained, Next(s, step).drained, s.stays[j].from, EndOf(s.stays[j], s.drained));
  }

  /** Nothing is sent to a session after it left, was replaced or was disconnected. */
  lemma {:induction false} EndedStaysAreFinal(s: System, steps: seq<Step>, j: nat)
    requires Inv(s) && Execute(s, steps).Some? && j < |s.stays| && s.stays[j].until.Some?
    ensures var s' := Execute(s, steps).value;
            j < |s'.stays| && s'.stays[j] == s.stays[j] && FramesOf(s'.server.sent, j) == FramesOf(s.server.sent, j)
    decreases |steps|
  {
    if steps != [] {
      EndedStep(s, steps[0], j);
      EndedStaysAreFinal(Next(s, steps[0]), steps[1..], j);
    }
  }
}
