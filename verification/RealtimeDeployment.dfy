/** A changefeed source and a server wired together: any run of the objects is a
    run of the step system, so what holds of reachable systems holds of them. */
module RealtimeDeployment {
  import opened Wrappers
  import opened Realtime
  import opened RealtimeProofs
  import opened RealtimeServer

  class Deployment {
    const feed: ChangefeedSource
    const server: RealtimeServer
    var wal: seq<Line>
    var mock: seq<Line>
    /** Polled events the poll thread has not dispatched yet. */
    var pending: seq<Event>
    ghost var polled: seq<(Source, Event)>
    ghost var drained: seq<Event>
    ghost var stays: seq<Stay>

    ghost function View(): System
      reads this, feed, server
    {
      System(Feed(wal, mock, feed.Offset(Wal), feed.Offset(Mock), pending), server.View(), polled, drained, stays,
             server.requireAuth)
    }

    ghost predicate Valid()
      reads this, feed, server
    {
      && feed.listeners == [server] && server.Valid()
      && feed.Offset(Wal) <= |wal| && feed.Offset(Mock) <= |mock|
    }

    constructor (requireAuth: bool)
      ensures Valid() && View() == Initial(requireAuth) && fresh(feed) && fresh(server)
    {
      var s := new RealtimeServer(requireAuth);
      var f := new ChangefeedSource();
      f.Subscribe(s);
      server, feed := s, f;
      wal, mock, pending, polled, drained, stays := [], [], [], [], [], [];
    }

    method DispatchToServer(e: Event)
      requires feed.listeners == [server] && server.Valid()
      modifies server
      ensures server.Valid() && server.View() == DoEnqueue(old(server.View()), e)
    {
      feed.Dispatch(e);
      assert Count([server], server) == 1 by { assert [server][..0] == []; }
      assert EnqueuedTimes(old(server.View()), e, 1) == DoEnqueue(EnqueuedTimes(old(server.View()), e, 0), e);
    }

    method Perform(step: Step)
      requires Valid() && Enabled(View(), step)
      modifies this, feed, server
      ensures Valid() && View() == Next(old(View()), step)
    {
      ghost var next := Next(View(), step);
      polled, drained, stays := next.polled, next.drained, next.stays;
      match step
      case Append(Wal, line) => wal := wal + [line];
      case Append(Mock, line) => mock := mock + [line];
      case Poll => pending := feed.PollOnce(Some(wal), Some(mock));
      case Dispatch =>
        var e := pending[0];
        pending := pending[1..];
        DispatchToServer(e);
      case Drain => server.DrainOne();
      case Connect(ws) => server.Connect(ws);
      case Disconnect(ws) => server.Disconnect(ws);
      case Join(ws, topic, joinRef, claims, subs) => server.HandleJoin(ws, topic, joinRef, claims, subs);
      case Leave(ws, topic) => server.HandleLeave(ws, topic);
    }

    method Run(steps: seq<Step>)
      requires Valid() && Execute(View(), steps).Some?
      modifies this, feed, server
      ensures Valid() && Execute(old(View()), steps) == Some(View())
    {
      ghost var s0 := View();
      var i := 0;
      while i < |steps|
        invariant 0 <= i <= |steps| && Valid()
        invariant Execute(View(), steps[i..]) == Execute(s0, steps)
      {
        assert steps[i..][0] == steps[i] && steps[i..][1..] == steps[i + 1..];
        Perform(steps[i]);
        i := i + 1;
      }
    }
  }
}
