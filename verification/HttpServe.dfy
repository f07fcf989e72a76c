/** Serving static files over keep-alive connections. */
module HttpServe {
  import opened HttpScan
  import opened HttpHost
  import opened Wrappers

  /** The document root and the literal name of its index. */
  datatype Site = Site(root: Bytes, index: Bytes)

  // ---------------------------------------------------------------- answers

  /** How an answer was sent: its result, how many calls were made by then, and whether it was the error page. */
  datatype Sending = Sending(rc: int, made: nat, error: bool)

  function SentError(results: Results, n: nat): Sending {
    if results(n) < 0 then Sending(-1, n + 1, true)
    else Sending(if results(n + 1) < 0 then -1 else results(n + 2), n + 3, true)
  }

  function SentLarge(results: Results, n: nat): Sending {
    if results(n) < 0 then SentError(results, n + 1)
    else if results(n + 1) < 0 then Sending(-1, n + 2, false)
    else Sending(results(n + 2), n + 3, false)
  }

  function SentSmall(results: Results, n: nat): Sending {
    if results(n) < 0 then SentError(results, n + 1)
    else if results(n + 1) < 0 then SentError(results, n + 2)
    else Sending(results(n + 2), n + 3, false)
  }

  function SentStatic(results: Results, n: nat): Sending {
    if results(n) < 0 then SentError(results, n + 1)
    else if results(n + 1) < 0 then SentError(results, n + 2)
    else if results(n + 1) > 16384 then SentLarge(results, n + 2)
    else SentSmall(results, n + 2)
  }

  /** The answer for a target, when `n` calls were made before. */
  function Sent(target: Target, results: Results, n: nat): Sending {
    match target
    case CachedIndex => Sending(results(n), n + 1, false)
    case File(_) => SentStatic(results, n)
  }

  /** An answer fails exactly if the last call made for it failed, or, for the error page, the last but one. */
  lemma SendFailsIff(target: Target, results: Results, n: nat)
    ensures var s := Sent(target, results, n);
            n < s.made && (s.rc < 0 <==> results(s.made - 1) < 0 || (s.error && results(s.made - 2) < 0))
  {}

  /** What becomes of an answer by the five calls made for a file, one after the other: open, size, header, read
      or first send, send. A file of at most 16384 bytes is read before it is sent. */
  lemma FileIsSent(path: Bytes, results: Results, n: nat)
    requires results(n) >= 0 && results(n + 1) >= 0 && results(n + 2) >= 0 && results(n + 3) >= 0
    ensures Sent(File(path), results, n) == Sending(results(n + 4), n + 5, false)
  {}

  /** A file that cannot be opened, sized or given a header is answered with the error page, and so is a small one
      that cannot be read; a large one whose first part cannot be sent fails. */
  lemma FileIsMissing(path: Bytes, results: Results, n: nat)
    ensures results(n) < 0 ==> Sent(File(path), results, n) == ErrorPage(results, n + 1)
    ensures results(n) >= 0 && results(n + 1) < 0 ==> Sent(File(path), results, n) == ErrorPage(results, n + 2)
    ensures results(n) >= 0 && results(n + 1) >= 0 && results(n + 2) < 0 ==>
              Sent(File(path), results, n) == ErrorPage(results, n + 3)
    ensures results(n) >= 0 && results(n + 1) >= 0 && results(n + 2) >= 0 && results(n + 3) < 0 ==>
              Sent(File(path), results, n) ==
              if results(n + 1) <= 16384 then ErrorPage(results, n + 4) else Sending(-1, n + 4, false)
  {}

  /** The error page from call `m` on: its header is written, and both parts are sent even if the first fails. */
  function ErrorPage(results: Results, m: nat): Sending {
    if results(m) < 0 then Sending(-1, m + 1, true)
    else if results(m + 1) < 0 then Sending(-1, m + 3, true)
    else Sending(results(m + 2), m + 3, true)
  }

  /** The cached index takes one send. */
  lemma IndexIsSent(results: Results, n: nat)
    ensures Sent(CachedIndex, results, n) == Sending(results(n), n + 1, false)
  {}

  method SendError(host: Host, slot: Slot, keepAlive: bool) returns (rc: int)
    modifies host`heap, slot`made
    ensures host.heap == old(host.heap)
    ensures var s := SentError(slot.results, old(slot.made)); rc == s.rc && slot.made == s.made
  {
    var body := host.NetBufAlloc();
    var hdr := host.NetBufAlloc();
    var hlen := slot.WriteResponseHdr();
    if hlen < 0 {
      host.NetBufFree(hdr);
      host.NetBufFree(body);
      return -1;
    }
    var s1 := slot.TcpSend();
    var s2 := slot.TcpSend();
    host.NetBufFree(hdr);
    host.NetBufFree(body);
    if s1 < 0 { return -1; }
    return s2;
  }

  method SendStaticLarge(host: Host, slot: Slot, file: int, keepAlive: bool) returns (rc: int)
    requires file in host.files
    modifies host`heap, host`files, slot`made
    ensures host.heap == old(host.heap) && host.files == old(host.files) - {file}
    ensures var s := SentLarge(slot.results, old(slot.made)); rc == s.rc && slot.made == s.made
  {
    var hdr := host.NetBufAlloc();
    var hlen := slot.WriteResponseHdr();
    if hlen < 0 {
      host.NetBufFree(hdr);
      host.NetCloseFd(file);
      rc := SendError(host, slot, keepAlive);
      return;
    }
    rc := slot.TcpSend();
    host.NetBufFree(hdr);
    if rc < 0 {
      host.NetCloseFd(file);
      return -1;
    }
    rc := slot.TcpSend();
    host.NetCloseFd(file);
  }

  method SendStaticSmall(host: Host, slot: Slot, file: int, keepAlive: bool) returns (rc: int)
    requires file in host.files
    modifies host`heap, host`files, slot`made
    ensures host.heap == old(host.heap) && host.files == old(host.files) - {file}
    ensures var s := SentSmall(slot.results, old(slot.made)); rc == s.rc && slot.made == s.made
  {
    var hdr := host.NetBufAlloc();
    var hlen := slot.WriteResponseHdr();
    if hlen < 0 {
      host.NetBufFree(hdr);
      host.NetCloseFd(file);
      rc := SendError(host, slot, keepAlive);
      return;
    }
    var body := host.NetBufAlloc();
    var rd := slot.ReadFd();
    host.NetCloseFd(file);
    if rd < 0 {
      host.NetBufFree(hdr);
      host.NetBufFree(body);
      rc := SendError(host, slot, keepAlive);
      return;
    }
    rc := slot.TcpSend();
    host.NetBufFree(hdr);
    host.NetBufFree(body);
  }

  /** Both the keep-alive and the closing variant: every buffer and file is released on every path. */
  method SendStatic(host: Host, slot: Slot, path: Bytes, keepAlive: bool) returns (rc: int)
    modifies host`heap, host`files, host`tried, slot`made
    ensures host.heap == old(host.heap) && host.files == old(host.files)
    ensures host.tried == old(host.tried) + [path]
    ensures var s := SentStatic(slot.results, old(slot.made)); rc == s.rc && slot.made == s.made
  {
    var file := host.NetOpenReadonly(path, slot);
    if file < 0 {
      rc := SendError(host, slot, keepAlive);
      return;
    }
    var sz := slot.FstatSize();
    if sz < 0 {
      host.NetCloseFd(file);
      rc := SendError(host, slot, keepAlive);
      return;
    }
    if sz > 16384 {
      rc := SendStaticLarge(host, slot, file, keepAlive);
    } else {
      rc := SendStaticSmall(host, slot, file, keepAlive);
    }
  }

  // ---------------------------------------------------------------- one request

  function TargetOf(site: Site, cacheReady: bool, req: Bytes): Target
    requires 4 <= |req|
  {
    var path := GetPath(req, site.index);
    if (path == [] || path == [47]) && cacheReady then CachedIndex else File(site.root + path)
  }

  ghost predicate KeepsAlive(req: Bytes) {
    HeaderEnd(req) > 0 ==> !LooksLikeClose(req[..HeaderEnd(req)])
  }

  /** The answer to a request is determined by its bytes and by how the calls made for it fare. */
  ghost predicate Answers(r: Reply, site: Site, cacheReady: bool, results: Results, n: nat) {
    && 4 <= |r.request| && r.target == TargetOf(site, cacheReady, r.request) && r.keepAlive == KeepsAlive(r.request)
    && r.failed == (Sent(r.target, results, n).rc < 0)
  }

  /** The connection ends after this reply. */
  predicate Closes(r: Reply) { !r.keepAlive || r.failed }

  method KeepAliveOf(buf: Bytes, reqLen: nat) returns (keepAlive: int)
    requires reqLen <= |buf|
    ensures keepAlive == if KeepsAlive(buf[..reqLen]) then 1 else 0
  {
    var hdrEnd := HdrEndAt(buf, 0, reqLen);
    keepAlive := 1;
    if hdrEnd > 0 {
      var close := BufHasConnectionClose(buf, hdrEnd);
      assert buf[..hdrEnd] == buf[..reqLen][..hdrEnd];
      if close == 1 { keepAlive := 0; }
    }
  }

  method ServeOneRequest(host: Host, site: Site, cacheReady: bool, slot: Slot, reqLen: nat) returns (closeAfter: int)
    requires 4 <= reqLen <= |slot.buf|
    modifies host`heap, host`files, host`tried, slot`replies, slot`made
    ensures host.heap == old(host.heap) && host.files == old(host.files)
    ensures exists r :: slot.replies == old(slot.replies) + [r] && r.request == slot.buf[..reqLen] &&
              Answers(r, site, cacheReady, slot.results, old(slot.made)) &&
              slot.made == Sent(r.target, slot.results, old(slot.made)).made &&
              closeAfter == (if Closes(r) then 1 else 0) &&
              host.tried == old(host.tried) + if r.target.File? then [r.target.path] else []
  {
    var keepAlive := KeepAliveOf(slot.buf, reqLen);
    var path := ParseGetPath(slot.buf, reqLen, site.index);
    var plen := |path|;
    var useIdx := 1;
    if plen > 1 { useIdx := 0; }
    if plen == 1 {
      if path[0] != 47 { useIdx := 0; }
    }
    var rc;
    if useIdx == 1 && cacheReady {
      rc := slot.TcpSend();
      slot.replies := slot.replies + [Reply(slot.buf[..reqLen], CachedIndex, keepAlive == 1, rc < 0)];
      return if rc < 0 || keepAlive == 0 then 1 else 0;
    }
    rc := SendStatic(host, slot, site.root + path, keepAlive == 1);
    slot.replies := slot.replies + [Reply(slot.buf[..reqLen], File(site.root + path), keepAlive == 1, rc < 0)];
    if keepAlive == 1 { return if rc < 0 then 1 else 0; }
    return 1;
  }

  // ---------------------------------------------------------------- a connection's requests

  function Requests(replies: seq<Reply>): seq<Bytes> {
    seq(|replies|, i requires 0 <= i < |replies| => replies[i].request)
  }

  /** How many calls were made after these replies, if `n` were before. */
  function MadeFrom(n: nat, replies: seq<Reply>, results: Results): nat
    decreases |replies|
  {
    if replies == [] then n else MadeFrom(Sent(replies[0].target, results, n).made, replies[1..], results)
  }

  ghost predicate AllAnswer(replies: seq<Reply>, site: Site, results: Results) {
    forall i :: 0 <= i < |replies| ==> Answers(replies[i], site, false, results, MadeFrom(0, replies[..i], results))
  }

  lemma {:induction false} MadeByOneMore(n: nat, replies: seq<Reply>, r: Reply, results: Results)
    ensures MadeFrom(n, replies + [r], results) == Sent(r.target, results, MadeFrom(n, replies, results)).made
    decreases |replies|
  {
    if replies == [] {
      assert ([] + [r])[1..] == [];
    } else {
      assert (replies + [r])[1..] == replies[1..] + [r];
      MadeByOneMore(Sent(replies[0].target, results, n).made, replies[1..], r, results);
    }
  }

  lemma OneMoreAnswer(replies: seq<Reply>, r: Reply, site: Site, results: Results)
    requires AllAnswer(replies, site, results)
    requires Answers(r, site, false, results, MadeFrom(0, replies, results))
    ensures AllAnswer(replies + [r], site, results)
  {
    var all := replies + [r];
    assert all[..|replies|] == replies;
    forall i | 0 <= i < |replies| ensures all[..i] == replies[..i] && all[i] == replies[i] {}
  }

  predicate NoneCloses(replies: seq<Reply>) {
    forall i :: 0 <= i < |replies| ==> !Closes(replies[i])
  }

  /** The replies answer the first requests of a stream, and end early only after one that closes. */
  ghost predicate AnswersStream(replies: seq<Reply>, stream: Bytes, site: Site, results: Results) {
    && AllAnswer(replies, site, results)
    && Requests(replies) <= Frames(stream)
    && (forall i :: 0 <= i < |replies| - 1 ==> !Closes(replies[i]))
    && (|replies| < |Frames(stream)| ==> replies != [] && Closes(replies[|replies| - 1]))
  }

  /** Every reply of a slot answers its request, and the calls made are those of its replies. */
  ghost predicate Answered(slot: Slot, site: Site)
    reads slot
  {
    AllAnswer(slot.replies, site, slot.results) && slot.made == MadeFrom(0, slot.replies, slot.results)
  }

  /** While draining: what was served and what is in the buffer make up what was received. */
  ghost predicate Draining(slot: Slot, site: Site)
    reads slot
  {
    && Answered(slot, site) && NoneCloses(slot.replies)
    && Frames(slot.received) == Requests(slot.replies) + Frames(slot.buf)
    && Leftover(slot.received) == Leftover(slot.buf)
  }

  /** Between receives on an open connection: every complete request was served, and the buffer holds the rest. */
  ghost predicate Open(slot: Slot, site: Site)
    reads slot
  {
    && Answered(slot, site) && NoneCloses(slot.replies)
    && Frames(slot.received) == Requests(slot.replies) && slot.buf == Leftover(slot.received)
  }

  /** After a request that closes. */
  ghost predicate ClosedByServe(slot: Slot, site: Site)
    reads slot
  {
    && Answered(slot, site) && slot.replies != []
    && Closes(slot.replies[|slot.replies| - 1]) && NoneCloses(slot.replies[..|slot.replies| - 1])
    && Requests(slot.replies) <= Frames(slot.received)
  }

  method TryDrainSlot(host: Host, site: Site, slot: Slot) returns (d: int)
    requires Draining(slot, site)
    modifies host`heap, host`files, host`tried, slot`replies, slot`made
    ensures host.heap == old(host.heap) && host.files == old(host.files)
    ensures d == 0 ==> Open(slot, site) && slot.replies == old(slot.replies)
    ensures d < 0 ==> ClosedByServe(slot, site)
    ensures d > 0 ==> 4 <= d <= |slot.buf| && Answered(slot, site) && NoneCloses(slot.replies) &&
                      Frames(slot.received) == Requests(slot.replies) + Frames(slot.buf[d..]) &&
                      Leftover(slot.received) == Leftover(slot.buf[d..])
  {
    var filled := |slot.buf|;
    if filled <= 0 { return 0; }
    var hdrDone := HdrEndAt(slot.buf, 0, filled);
    assert slot.buf[..filled] == slot.buf;
    if hdrDone < 0 { return 0; }
    ghost var before, made := slot.replies, slot.made;
    var closeAfter := ServeOneRequest(host, site, false, slot, hdrDone);
    ghost var r :| slot.replies == before + [r] && r.request == slot.buf[..hdrDone] &&
                   Answers(r, site, false, slot.results, made) &&
                   slot.made == Sent(r.target, slot.results, made).made &&
                   closeAfter == if Closes(r) then 1 else 0;
    AnsweredOneMore(slot, site, before, made, r);
    AfterServing(slot, site, before, r, hdrDone);
    return if closeAfter == 1 then -1 else hdrDone;
  }

  lemma AnsweredOneMore(slot: Slot, site: Site, before: seq<Reply>, made: nat, r: Reply)
    requires AllAnswer(before, site, slot.results) && made == MadeFrom(0, before, slot.results)
    requires slot.replies == before + [r] && Answers(r, site, false, slot.results, made)
    requires slot.made == Sent(r.target, slot.results, made).made
    ensures Answered(slot, site)
  {
    OneMoreAnswer(before, r, site, slot.results);
    MadeByOneMore(0, before, r, slot.results);
  }

  lemma AfterServing(slot: Slot, site: Site, before: seq<Reply>, r: Reply, h: nat)
    requires Answered(slot, site) && NoneCloses(before) && slot.replies == before + [r]
    requires Frames(slot.received) == Requests(before) + Frames(slot.buf)
    requires Leftover(slot.received) == Leftover(slot.buf)
    requires h == HeaderEnd(slot.buf) && r.request == slot.buf[..h]
    ensures Closes(r) ==> ClosedByServe(slot, site)
    ensures !Closes(r) ==> NoneCloses(slot.replies)
    ensures Frames(slot.received) == Requests(slot.replies) + Frames(slot.buf[h..])
    ensures Leftover(slot.received) == Leftover(slot.buf[h..])
  {
    OneMoreServed(before, r, slot.buf, h);
    assert slot.replies[..|slot.replies| - 1] == before;
  }

  lemma OneMoreServed(before: seq<Reply>, r: Reply, buf: Bytes, h: nat)
    requires h == HeaderEnd(buf) && r.request == buf[..h]
    ensures Requests(before) + Frames(buf) == Requests(before + [r]) + Frames(buf[h..])
    ensures Requests(before + [r]) <= Requests(before) + Frames(buf)
    ensures Leftover(buf) == Leftover(buf[h..])
  {
    assert Requests(before + [r]) == Requests(before) + [r.request];
    assert Frames(buf) == [r.request] + Frames(buf[h..]);
    assert Requests(before) + ([r.request] + Frames(buf[h..])) == Requests(before) + [r.request] + Frames(buf[h..]);
  }

  /** The drain loop of both connection handlers. */
  method DrainSlot(host: Host, site: Site, slot: Slot) returns (closed: bool)
    requires Draining(slot, site)
    modifies host`heap, host`files, host`tried, slot`replies, slot`made, slot`buf
    ensures host.heap == old(host.heap) && host.files == old(host.files)
    ensures closed ==> ClosedByServe(slot, site)
    ensures !closed ==> Open(slot, site)
  {
    var draining := 1;
    while draining == 1
      invariant host.heap == old(host.heap) && host.files == old(host.files)
      invariant draining == 1 || draining == 0
      invariant draining == 1 ==> Draining(slot, site)
      invariant draining == 0 ==> Open(slot, site)
      decreases |slot.buf|, draining
    {
      var d := TryDrainSlot(host, site, slot);
      if d < 0 { return true; }
      if d == 0 { draining := 0; }
      if d > 0 { slot.Consume(d); }
    }
    return false;
  }

  // ---------------------------------------------------------------- ownership of descriptors

  /** The client sockets the slots were allocated for. */
  function Conns(slots: map<int, Slot>): set<int> {
    set s | s in slots :: slots[s].conn
  }

  ghost predicate OnePerSocket(slots: map<int, Slot>) {
    forall s, t :: s in slots && t in slots && slots[s].conn == slots[t].conn ==> s == t
  }

  /** The open client sockets, those of allocated slots and those registered with epoll
      are the same, and no two slots share one. */
  ghost predicate Owned(host: Host)
    reads host
  {
    host.clients == Conns(host.slots) == host.polled && OnePerSocket(host.slots)
  }

  lemma ConnsAfterAlloc(slots: map<int, Slot>, id: int, slot: Slot)
    requires id !in slots && OnePerSocket(slots) && slot.conn !in Conns(slots)
    ensures Conns(slots[id := slot]) == Conns(slots) + {slot.conn} && OnePerSocket(slots[id := slot])
    ensures slots[id := slot] - {id} == slots
  {
    var more := slots[id := slot];
    assert slot.conn in Conns(more) by { assert id in more; }
    forall c | c in Conns(slots) ensures c in Conns(more) {
      var s :| s in slots && slots[s].conn == c;
      assert s in more && more[s] == slots[s];
    }
    forall s | s in slots ensures slots[s].conn != slot.conn { assert slots[s].conn in Conns(slots); }
  }

  lemma ConnsAfterFree(slots: map<int, Slot>, id: int)
    requires OnePerSocket(slots) && id in slots
    ensures Conns(slots - {id}) == Conns(slots) - {slots[id].conn}
  {
    var less := slots - {id};
    forall c | c in Conns(slots) && c != slots[id].conn ensures c in Conns(less) {
      var s :| s in slots && slots[s].conn == c;
      assert s in less && less[s] == slots[s];
    }
  }

  /** Closing a connection gives back everything it held, exactly if epoll has a positive descriptor: with
      descriptor 0 the socket is not deregistered. The kernel may drop a closed socket by itself; `polled` is what
      was registered and deregistered by calls. */
  method ConnClose(host: Host, epfd: nat, conn: int, slot: int)
    requires Owned(host) && slot in host.slots && host.slots[slot].conn == conn
    modifies host`polled, host`clients, host`slots
    ensures host.clients == old(host.clients) - {conn} && host.slots == old(host.slots) - {slot}
    ensures host.polled == if epfd > 0 then old(host.polled) - {conn} else old(host.polled)
    ensures Owned(host) <==> epfd > 0
  {
    ConnsAfterFree(host.slots, slot);
    assert conn in Conns(host.slots);
    if epfd > 0 { host.EpollDel(conn); }
    host.TcpClose(conn);
    host.SlotFree(slot);
  }

  /** A live connection: its complete requests are served and its bytes are accounted for. */
  ghost predicate Live(slot: Slot, site: Site)
    reads slot
  {
    Receivable(slot.inbox, RECV_MAX) && Open(slot, site) && slot.received + Stream(slot.inbox) == slot.stream
  }

  function SlotSet(slots: map<int, Slot>): set<Slot> {
    set s | s in slots :: slots[s]
  }

  ghost predicate AllLive(host: Host, site: Site)
    reads host, SlotSet(host.slots)
  {
    forall s :: s in host.slots ==> Live(host.slots[s], site)
  }

  lemma FreshSlotIsLive(slot: Slot, site: Site)
    requires slot.buf == [] && slot.replies == [] && slot.received == [] && slot.made == 0
    requires Receivable(slot.inbox, RECV_MAX) && slot.stream == Stream(slot.inbox)
    ensures Live(slot, site)
  {}

  /** `slots` holds everything `before` held, and what was added is new and live. */
  twostate predicate OnlyFreshAdded(before: map<int, Slot>, new slots: map<int, Slot>) {
    && before.Keys <= slots.Keys
    && (forall s :: s in before ==> slots[s] == before[s])
    && (forall s :: s in slots && s !in before ==> fresh(slots[s]))
  }

  predicate AllReceivable(backlog: seq<Client>) {
    forall i :: 0 <= i < |backlog| ==> Receivable(backlog[i].sends, RECV_MAX)
  }

  /** The slots of the clients taken from the backlog that were not turned away. */
  function Accepted(taken: seq<Option<Slot>>): set<Slot> {
    set i | 0 <= i < |taken| && taken[i].Some? :: taken[i].value
  }

  /** The first clients of the backlog were taken, in order; each has a slot of its own, or was turned away. */
  ghost predicate FromBacklog(taken: seq<Option<Slot>>, before: seq<Client>, after: seq<Client>) {
    && |taken| <= |before| && after == before[|taken|..]
    && (forall i :: 0 <= i < |taken| && taken[i].Some? ==> IsClient(taken[i].value, before[i]))
    && (forall i, j :: 0 <= i < j < |taken| && taken[i].Some? ==> taken[i] != taken[j])
  }

  /** How many clients were taken from the backlog and turned away. */
  function TurnedAway(taken: seq<Option<Slot>>): nat {
    if taken == [] then 0 else TurnedAway(taken[..|taken| - 1]) + if taken[|taken| - 1].None? then 1 else 0
  }

  lemma {:induction false} TurnedAwayConcat(taken: seq<Option<Slot>>, more: seq<Option<Slot>>)
    ensures TurnedAway(taken + more) == TurnedAway(taken) + TurnedAway(more)
    decreases |more|
  {
    if more == [] {
      assert taken + more == taken;
    } else {
      assert (taken + more)[..|taken + more| - 1] == taken + more[..|more| - 1];
      TurnedAwayConcat(taken, more[..|more| - 1]);
    }
  }

  lemma MoreTaken(taken: seq<Option<Slot>>, more: seq<Option<Slot>>,
                  all: seq<Client>, mid: seq<Client>, end: seq<Client>)
    requires FromBacklog(taken, all, mid) && FromBacklog(more, mid, end) && Accepted(taken) !! Accepted(more)
    ensures FromBacklog(taken + more, all, end) && Accepted(taken + more) == Accepted(taken) + Accepted(more)
    ensures TurnedAway(taken + more) == TurnedAway(taken) + TurnedAway(more)
  {
    TurnedAwayConcat(taken, more);
    var both := taken + more;
    assert forall i :: 0 <= i < |more| ==> mid[i] == all[|taken| + i];
    forall i | 0 <= i < |taken| && taken[i].Some?
      ensures taken[i].value in Accepted(taken) && both[i] == taken[i] && taken[i].value in Accepted(both)
    {
      assert both[i].value in Accepted(both);
    }
    forall i | 0 <= i < |more| && more[i].Some?
      ensures more[i].value in Accepted(more) && both[|taken| + i] == more[i] && more[i].value in Accepted(both)
    {
      assert both[|taken| + i].value in Accepted(both);
    }
  }

  lemma SlotsAfterAlloc(slots: map<int, Slot>, id: int, slot: Slot)
    requires id !in slots
    ensures SlotSet(slots[id := slot]) == SlotSet(slots) + {slot} && |slots[id := slot]| == |slots| + 1
  {
    var more := slots[id := slot];
    assert more[id] in SlotSet(more);
    forall s | s in slots ensures slots[s] in SlotSet(more) { assert more[s] == slots[s]; }
    assert |more.Keys| == |slots.Keys + {id}|;
  }

  lemma OneTaken(slot: Slot, backlog: seq<Client>)
    requires backlog != [] && IsClient(slot, backlog[0])
    ensures Accepted([Some(slot)]) == {slot} && FromBacklog([Some(slot)], backlog, backlog[1..])
    ensures TurnedAway([Some(slot)]) == 0
  {
    assert [Some(slot)][0].value in Accepted([Some(slot)]);
  }

  lemma NoneTaken(backlog: seq<Client>)
    ensures Accepted([]) == {} && FromBacklog([], backlog, backlog)
    ensures backlog != [] ==> Accepted([None]) == {} && FromBacklog([None], backlog, backlog[1..])
    ensures TurnedAway([]) == 0 && TurnedAway([None]) == 1
  {}

  /** Accepting stopped because no client waits any more, or because one call failed. */
  predicate AllTakenOrFailed(backlog: seq<Client>, before: nat, fails: nat) {
    fails == before + 1 || (fails == before && backlog == [])
  }

  /** One round of the accept loop. The next client gets a slot, is turned away, or there is none. */
  method AcceptOne(host: Host, epfd: nat, site: Site) returns (ok: bool, ghost taken: seq<Option<Slot>>)
    requires Owned(host) && AllLive(host, site) && AllReceivable(host.backlog)
    modifies host`polled, host`clients, host`slots, host`backlog, host`refusals, host`misses
    ensures Owned(host) && AllLive(host, site) && AllReceivable(host.backlog)
    ensures ok ==> taken != [] && host.refusals + host.misses == old(host.refusals + host.misses)
    ensures !ok ==> AllTakenOrFailed(host.backlog, old(host.refusals + host.misses), host.refusals + host.misses)
    ensures FromBacklog(taken, old(host.backlog), host.backlog) && forall s :: s in Accepted(taken) ==> fresh(s)
    ensures TurnedAway(taken) == host.refusals - old(host.refusals)
    ensures SlotSet(host.slots) == old(SlotSet(host.slots)) + Accepted(taken)
    ensures forall s :: s in Accepted(taken) ==> s.inbox == s.sends
    ensures OnlyFreshAdded(old(host.slots), host.slots)
    ensures |host.slots| == |old(host.slots)| + if ok then 1 else 0
  {
    NoneTaken(host.backlog);
    var conn, client := host.TcpAcceptNb();
    if conn < 0 { return false, []; }
    ghost var slot;
    ok, slot := Register(host, epfd, site, conn, client);
    if ok { OneTaken(slot.value, old(host.backlog)); }
    return ok, [slot];
  }

  /** Give an accepted socket a slot and an epoll registration, or close it. */
  method Register(host: Host, epfd: nat, site: Site, conn: int, client: Client)
    returns (ok: bool, ghost slot: Option<Slot>)
    requires conn in host.clients && Conns(host.slots) == host.polled == host.clients - {conn}
    requires OnePerSocket(host.slots)
    requires AllLive(host, site) && Receivable(client.sends, RECV_MAX)
    modifies host`polled, host`clients, host`slots, host`refusals
    ensures Owned(host) && AllLive(host, site)
    ensures ok == slot.Some? && host.refusals == old(host.refusals) + if ok then 0 else 1
    ensures !ok ==> host.slots == old(host.slots)
    ensures ok ==> fresh(slot.value) && IsClient(slot.value, client) && slot.value.inbox == client.sends
    ensures ok ==> SlotSet(host.slots) == old(SlotSet(host.slots)) + {slot.value}
    ensures OnlyFreshAdded(old(host.slots), host.slots)
    ensures |host.slots| == |old(host.slots)| + if ok then 1 else 0
  {
    var id := host.SlotAlloc(conn, client);
    if id < 0 {
      host.TcpClose(conn);
      return false, None;
    }
    ghost var s := host.slots[id];
    assert host.slots == old(host.slots)[id := s];
    ConnsAfterAlloc(old(host.slots), id, s);
    var rc := host.EpollAdd(conn);
    if rc < 0 {
      host.TcpClose(conn);
      host.SlotFree(id);
      return false, None;
    }
    FreshSlotIsLive(s, site);
    SlotsAfterAlloc(old(host.slots), id, s);
    return true, Some(s);
  }

  method AcceptBatch(host: Host, epfd: nat, site: Site) returns (accepted: nat, ghost taken: seq<Option<Slot>>)
    requires Owned(host) && AllLive(host, site) && AllReceivable(host.backlog)
    modifies host`polled, host`clients, host`slots, host`backlog, host`refusals, host`misses
    ensures Owned(host) && AllLive(host, site) && AllReceivable(host.backlog)
    ensures FromBacklog(taken, old(host.backlog), host.backlog) && forall s :: s in Accepted(taken) ==> fresh(s)
    ensures TurnedAway(taken) == host.refusals - old(host.refusals)
    ensures SlotSet(host.slots) == old(SlotSet(host.slots)) + Accepted(taken)
    ensures forall s :: s in Accepted(taken) ==> s.inbox == s.sends
    ensures OnlyFreshAdded(old(host.slots), host.slots)
    ensures AllTakenOrFailed(host.backlog, old(host.refusals + host.misses), host.refusals + host.misses)
    ensures |host.slots| == |old(host.slots)| + accepted
  {
    accepted, taken := 0, [];
    var keep := 1;
    while keep == 1
      invariant Owned(host) && AllLive(host, site) && AllReceivable(host.backlog)
      invariant FromBacklog(taken, old(host.backlog), host.backlog) && forall s :: s in Accepted(taken) ==> fresh(s)
      invariant TurnedAway(taken) == host.refusals - old(host.refusals)
      invariant SlotSet(host.slots) == old(SlotSet(host.slots)) + Accepted(taken)
      invariant forall s :: s in Accepted(taken) ==> s.inbox == s.sends
      invariant host.refusals + host.misses == old(host.refusals + host.misses)
      invariant OnlyFreshAdded(old(host.slots), host.slots)
      invariant |host.slots| == |old(host.slots)| + accepted
      decreases |host.backlog|
    {
      ghost var backlog := host.backlog;
      ghost var more;
      var ok;
      ok, more := AcceptOne(host, epfd, site);
      MoreTaken(taken, more, old(host.backlog), backlog, host.backlog);
      taken := taken + more;
      if !ok { return; }
      accepted := accepted + 1;
    }
  }

  // ---------------------------------------------------------------- connection handlers

  lemma {:induction false} FramesPrefix(s: Bytes, t: Bytes)
    ensures Frames(s) <= Frames(s + t)
  {
    FramesResume(s, t);
  }

  lemma ReceivedThenDraining(slot: Slot, site: Site, before: Bytes, rest: Bytes, got: Bytes)
    requires Answered(slot, site) && NoneCloses(slot.replies)
    requires Frames(before) == Requests(slot.replies) && rest == Leftover(before)
    requires slot.received == before + got && slot.buf == rest + got
    ensures Draining(slot, site)
  {
    FramesResume(before, got);
  }

  lemma ClosedAnswers(slot: Slot, site: Site, stream: Bytes, more: Bytes)
    requires ClosedByServe(slot, site) && slot.received + more == stream
    ensures AnswersStream(slot.replies, stream, site, slot.results)
  {
    FramesPrefix(slot.received, more);
    var n := |slot.replies| - 1;
    assert forall i :: 0 <= i < n ==> slot.replies[i] == slot.replies[..n][i];
  }

  lemma OpenAnswers(slot: Slot, site: Site)
    requires Open(slot, site) && slot.received == slot.stream
    ensures AnswersStream(slot.replies, slot.stream, site, slot.results)
  {}

  /** One receive moves its bytes from what is to come to what was received. */
  lemma OneReceive(before: Bytes, inbox: seq<Recv>)
    requires inbox != []
    ensures inbox[0].End? || inbox[0].Error? ==> before + Stream(inbox) == before
    ensures !inbox[0].End? && !inbox[0].Error? ==>
              before + Stream(inbox) == before + BytesOf(inbox[0]) + Stream(inbox[1..])
  {}

  /** A receive on a live connection. */
  method Receive(slot: Slot, site: Site) returns (r: int)
    requires Live(slot, site)
    modifies slot`inbox, slot`buf, slot`received
    ensures old(slot.inbox) != [] ==> slot.inbox == old(slot.inbox)[1..] && r == ResultOf(old(slot.inbox)[0])
    ensures old(slot.inbox) == [] ==> slot.inbox == [] && r == -1
    ensures r == 0 || r == -2 ==> AnswersStream(slot.replies, slot.stream, site, slot.results)
    ensures r == -1 ==> Live(slot, site)
    ensures r > 0 || r == -1 ==> Draining(slot, site) && Pending(slot)
  {
    if slot.inbox != [] { OneReceive(slot.received, slot.inbox); }
    ghost var before, rest := slot.received, slot.buf;
    ghost var got := if slot.inbox == [] then [] else BytesOf(slot.inbox[0]);
    r := slot.TcpRecvSlot();
    if r > 0 {
      ReceivedThenDraining(slot, site, before, rest, got);
    } else {
      assert slot.received == before && slot.buf == rest;
      if r == -1 { OpenIsDraining(slot, site); } else { OpenAnswers(slot, site); }
    }
  }

  lemma OpenIsDraining(slot: Slot, site: Site)
    requires Open(slot, site)
    ensures Draining(slot, site)
  {}

  /** The client's stream is what was received and what is still to come. */
  ghost predicate Pending(slot: Slot)
    reads slot
  {
    Receivable(slot.inbox, RECV_MAX) && slot.received + Stream(slot.inbox) == slot.stream
  }

  /** Serve what was received; the connection stays live or has answered its client's stream. */
  method ServeReceived(host: Host, site: Site, slot: Slot) returns (closed: bool)
    requires Draining(slot, site) && Pending(slot)
    modifies host`heap, host`files, host`tried, slot`replies, slot`made, slot`buf
    ensures host.heap == old(host.heap) && host.files == old(host.files)
    ensures closed ==> AnswersStream(slot.replies, slot.stream, site, slot.results)
    ensures !closed ==> Live(slot, site)
  {
    closed := DrainSlot(host, site, slot);
    if closed { ClosedAnswers(slot, site, slot.stream, Stream(slot.inbox)); }
  }

  /** One round of the loop below: -1 asks to close, 0 would block. */
  method ReceiveAndServe(host: Host, site: Site, slot: Slot) returns (r: int)
    requires Live(slot, site)
    modifies host`heap, host`files, host`tried, slot
    ensures host.heap == old(host.heap) && host.files == old(host.files)
    ensures r < 0 ==> AnswersStream(slot.replies, slot.stream, site, slot.results)
    ensures r >= 0 ==> Live(slot, site)
    ensures r == 0 ==> slot.inbox == AfterBlock(old(slot.inbox))
    ensures r > 0 ==> |slot.inbox| < |old(slot.inbox)| && AfterBlock(slot.inbox) == AfterBlock(old(slot.inbox))
  {
    r := Receive(slot, site);
    if r == 0 || r == -2 { return -1; }
    if r == -1 { return 0; }
    var done := ServeReceived(host, site, slot);
    if done { return -1; }
  }

  /** One epoll wake-up of a connection: receive and serve until it would block, ends or is closed. */
  method HandleConnIo(host: Host, epfd: nat, site: Site, id: int) returns (closed: bool)
    requires Owned(host) && id in host.slots && Live(host.slots[id], site)
    modifies host, host.slots[id]
    ensures host.heap == old(host.heap) && host.files == old(host.files) && host.backlog == old(host.backlog)
    ensures host.refusals == old(host.refusals) && host.misses == old(host.misses)
    ensures !closed ==> host.slots == old(host.slots) && host.clients == old(host.clients)
    ensures !closed ==> host.polled == old(host.polled) && Live(old(host.slots[id]), site)
    ensures !closed ==> old(host.slots[id]).inbox == AfterBlock(old(host.slots[id].inbox))
    ensures closed ==> host.slots == old(host.slots) - {id}
    ensures closed ==> var slot := old(host.slots[id]); AnswersStream(slot.replies, slot.stream, site, slot.results)
    ensures Owned(host) <==> !closed || epfd > 0
  {
    var slot := host.slots[id];
    var running := 1;
    while running == 1
      invariant host.heap == old(host.heap) && host.files == old(host.files) && host.backlog == old(host.backlog)
      invariant host.refusals == old(host.refusals) && host.misses == old(host.misses)
      invariant host.slots == old(host.slots) && host.clients == old(host.clients) && host.polled == old(host.polled)
      invariant Live(slot, site) && AfterBlock(slot.inbox) == AfterBlock(old(slot.inbox))
      decreases |slot.inbox|
    {
      var r := ReceiveAndServe(host, site, slot);
      if r < 0 {
        ConnClose(host, epfd, slot.conn, id);
        return true;
      }
      if r == 0 { return false; }
    }
    return false;
  }

  /** The blocking handler drains even when a receive gave nothing. */
  method HandleConnBlocking(host: Host, site: Site, slot: Slot)
    requires Live(slot, site) && EventuallyEnds(slot.inbox)
    modifies host`heap, host`files, host`tried, slot
    ensures host.heap == old(host.heap) && host.files == old(host.files)
    ensures AnswersStream(slot.replies, slot.stream, site, slot.results)
  {
    var done := 0;
    while done == 0
      invariant host.heap == old(host.heap) && host.files == old(host.files)
      invariant Live(slot, site) && EventuallyEnds(slot.inbox) && done == 0
      decreases |slot.inbox|
    {
      var r := Receive(slot, site);
      if r == 0 || r == -2 { return; }
      var closed := ServeReceived(host, site, slot);
      if closed { return; }
    }
  }

  // ---------------------------------------------------------------- independence from chunking

  ghost function ReplyTo(site: Site, req: Bytes, results: Results, n: nat): Reply
    requires 4 <= |req|
  {
    var target := TargetOf(site, false, req);
    Reply(req, target, KeepsAlive(req), Sent(target, results, n).rc < 0)
  }

  /** The answers to requests, one after the other up to the first that closes. */
  ghost function ExpectedReplies(site: Site, frames: seq<Bytes>, results: Results, n: nat): seq<Reply>
    requires forall i :: 0 <= i < |frames| ==> 4 <= |frames[i]|
    decreases |frames|
  {
    if frames == [] then []
    else
      var r := ReplyTo(site, frames[0], results, n);
      [r] + if Closes(r) then [] else ExpectedReplies(site, frames[1..], results, Sent(r.target, results, n).made)
  }

  /** The answers end with the requests, or with the first that closes. */
  lemma {:induction false} ExpectedLength(site: Site, frames: seq<Bytes>, results: Results, n: nat)
    requires forall i :: 0 <= i < |frames| ==> 4 <= |frames[i]|
    ensures var want := ExpectedReplies(site, frames, results, n);
            && |want| <= |frames|
            && (forall i :: 0 <= i < |want| - 1 ==> !Closes(want[i]))
            && (|want| < |frames| ==> want != [] && Closes(want[|want| - 1]))
    decreases |frames|
  {
    if frames != [] {
      var r := ReplyTo(site, frames[0], results, n);
      ExpectedLength(site, frames[1..], results, Sent(r.target, results, n).made);
    }
  }

  lemma MadeCons(n: nat, r: Reply, replies: seq<Reply>, results: Results)
    ensures MadeFrom(n, [r] + replies, results) == MadeFrom(Sent(r.target, results, n).made, replies, results)
  {
    assert ([r] + replies)[1..] == replies;
  }

  lemma {:induction false} ExpectedAt(site: Site, frames: seq<Bytes>, results: Results, n: nat, i: nat)
    requires forall i :: 0 <= i < |frames| ==> 4 <= |frames[i]|
    requires i < |ExpectedReplies(site, frames, results, n)| <= |frames|
    ensures var want := ExpectedReplies(site, frames, results, n);
            want[i] == ReplyTo(site, frames[i], results, MadeFrom(n, want[..i], results))
    decreases i
  {
    var want, r := ExpectedReplies(site, frames, results, n), ReplyTo(site, frames[0], results, n);
    if i > 0 {
      var n' := Sent(r.target, results, n).made;
      var rest := ExpectedReplies(site, frames[1..], results, n');
      assert want == [r] + rest && want[..i] == [r] + rest[..i - 1];
      MadeCons(n, r, rest[..i - 1], results);
      ExpectedAt(site, frames[1..], results, n', i - 1);
    } else {
      assert want[..0] == [];
    }
  }

  lemma ExpectedAnswers(stream: Bytes, site: Site, results: Results)
    ensures AnswersStream(ExpectedReplies(site, Frames(stream), results, 0), stream, site, results)
  {
    var frames := Frames(stream);
    var want := ExpectedReplies(site, frames, results, 0);
    ExpectedLength(site, frames, results, 0);
    forall i | 0 <= i < |want|
      ensures want[i] == ReplyTo(site, frames[i], results, MadeFrom(0, want[..i], results))
    {
      ExpectedAt(site, frames, results, 0, i);
    }
    assert Requests(want) == frames[..|want|];
  }

  lemma RequestAt(replies: seq<Reply>, frames: seq<Bytes>, k: nat)
    requires Requests(replies) <= frames && k < |replies|
    ensures |replies| <= |frames| && replies[k].request == frames[k]
  {
    assert Requests(replies)[k] == frames[k];
  }

  lemma SameNextAnswer(stream: Bytes, one: seq<Reply>, two: seq<Reply>, site: Site, results: Results, k: nat)
    requires AnswersStream(one, stream, site, results) && AnswersStream(two, stream, site, results)
    requires k < |one| && k < |two| && one[..k] == two[..k]
    ensures one[k] == two[k]
  {
    RequestAt(one, Frames(stream), k);
    RequestAt(two, Frames(stream), k);
  }

  lemma {:induction false} SamePrefix(one: seq<Reply>, two: seq<Reply>, k: nat)
    requires k <= |one| && k <= |two|
    requires forall i :: 0 <= i < k && one[..i] == two[..i] ==> one[i] == two[i]
    ensures one[..k] == two[..k]
  {
    if k > 0 {
      SamePrefix(one, two, k - 1);
      assert one[..k] == one[..k - 1] + [one[k - 1]] && two[..k] == two[..k - 1] + [two[k - 1]];
    }
  }

  lemma SameAnswers(stream: Bytes, one: seq<Reply>, two: seq<Reply>, site: Site, results: Results, k: nat)
    requires AnswersStream(one, stream, site, results) && AnswersStream(two, stream, site, results)
    requires k <= |one| && k <= |two|
    ensures one[..k] == two[..k]
  {
    forall i | 0 <= i < k && one[..i] == two[..i] ensures one[i] == two[i] {
      SameNextAnswer(stream, one, two, site, results, i);
    }
    SamePrefix(one, two, k);
  }

  lemma NotShorter(stream: Bytes, one: seq<Reply>, two: seq<Reply>, site: Site, results: Results)
    requires AnswersStream(one, stream, site, results) && AnswersStream(two, stream, site, results)
    ensures |one| >= |two|
  {
    var k := if |one| < |two| then |one| else |two|;
    SameAnswers(stream, one, two, site, results, k);
    assert |two| == |Requests(two)| <= |Frames(stream)|;
    assert forall i :: 0 <= i < k ==> one[i] == one[..k][i] == two[..k][i] == two[i];
  }

  /** However a client's bytes were cut into receives, if the calls made for it fare the same, then the same requests
      get the same replies in the same order. */
  lemma ChunkingIsInvisible(stream: Bytes, one: seq<Reply>, two: seq<Reply>, site: Site, results: Results)
    requires AnswersStream(one, stream, site, results) && AnswersStream(two, stream, site, results)
    ensures one == two
  {
    NotShorter(stream, one, two, site, results);
    NotShorter(stream, two, one, site, results);
    SameAnswers(stream, one, two, site, results, |one|);
    assert one[..|one|] == one && two[..|one|] == two;
  }

  /** What a connection is answered is a function of its stream and of how the calls made for it fare. */
  lemma RepliesAreDetermined(replies: seq<Reply>, stream: Bytes, site: Site, results: Results)
    ensures AnswersStream(replies, stream, site, results) <==>
            replies == ExpectedReplies(site, Frames(stream), results, 0)
  {
    ExpectedAnswers(stream, site, results);
    if AnswersStream(replies, stream, site, results) {
      ChunkingIsInvisible(stream, replies, ExpectedReplies(site, Frames(stream), results, 0), site, results);
    }
  }

  /** The requests up to and including the first that is not kept alive. */
  ghost function UpToClose(frames: seq<Bytes>): seq<Bytes> {
    if frames == [] then []
    else [frames[0]] + if KeepsAlive(frames[0]) then UpToClose(frames[1..]) else []
  }

  lemma {:induction false} ExpectedInFull(site: Site, frames: seq<Bytes>, results: Results, n: nat)
    requires forall i :: 0 <= i < |frames| ==> 4 <= |frames[i]|
    requires forall k :: k >= n ==> results(k) >= 0
    ensures var want := ExpectedReplies(site, frames, results, n);
            Requests(want) == UpToClose(frames) && forall i :: 0 <= i < |want| ==> !want[i].failed
    decreases |frames|
  {
    if frames != [] {
      var r := ReplyTo(site, frames[0], results, n);
      var n' := Sent(r.target, results, n).made;
      SendFailsIff(r.target, results, n);
      if KeepsAlive(frames[0]) {
        ExpectedInFull(site, frames[1..], results, n');
        var rest := ExpectedReplies(site, frames[1..], results, n');
        assert Requests([r] + rest) == [frames[0]] + Requests(rest);
      } else {
        assert Requests([r]) == [frames[0]];
      }
    }
  }

  /** If no call fails, the requests answered are those of the stream up to and including the first that
      is not kept alive, and every one of them is sent its answer. */
  lemma AnsweredInFull(replies: seq<Reply>, stream: Bytes, site: Site, results: Results)
    requires AnswersStream(replies, stream, site, results) && forall k :: results(k) >= 0
    ensures Requests(replies) == UpToClose(Frames(stream)) && forall i :: 0 <= i < |replies| ==> !replies[i].failed
  {
    RepliesAreDetermined(replies, stream, site, results);
    ExpectedInFull(site, Frames(stream), results, 0);
  }

  // ---------------------------------------------------------------- what a reply means, in bytes

  lemma ReplyRequest(replies: seq<Reply>, stream: Bytes, site: Site, results: Results, i: nat)
    requires AnswersStream(replies, stream, site, results) && i < |replies|
    ensures i < |Frames(stream)| && replies[i].request == Frames(stream)[i]
    ensures HeaderEnd(replies[i].request) == |replies[i].request| >= 4
  {
    RequestAt(replies, Frames(stream), i);
    FrameIsBlock(stream, i);
  }

  /** A reply is kept alive exactly if its request has no 'C' with a ':' ten bytes on and a 'c' behind that. */
  lemma KeptAliveIff(replies: seq<Reply>, stream: Bytes, site: Site, results: Results, i: nat)
    requires AnswersStream(replies, stream, site, results) && i < |replies|
    ensures replies[i].keepAlive <==>
            var req := replies[i].request;
            !exists j, k :: 0 <= j && j + 10 < k < |req| && req[j] == 67 && req[j + 10] == 58 && req[k] == 99
  {
    var req := replies[i].request;
    ReplyRequest(replies, stream, site, results, i);
    assert req[..|req|] == req;
    LooksLikeCloseIff(req);
  }

  /** A reply is the last exactly if it is not kept alive, could not be sent, or answers the last request. */
  lemma LastReplyIff(replies: seq<Reply>, stream: Bytes, site: Site, results: Results, i: nat)
    requires AnswersStream(replies, stream, site, results) && i < |replies|
    ensures i == |replies| - 1 <==> !replies[i].keepAlive || replies[i].failed || i == |Frames(stream)| - 1
  {
    ReplyRequest(replies, stream, site, results, i);
    assert |Requests(replies)| <= |Frames(stream)|;
  }

  /** A request that says `Connection: close` is the last to be answered. */
  lemma CloseIsHonoured(replies: seq<Reply>, stream: Bytes, site: Site, results: Results, i: nat,
                        before: Bytes, after: Bytes)
    requires AnswersStream(replies, stream, site, results) && i < |replies|
    requires replies[i].request == before + Ascii("Connection: close") + after
    ensures !replies[i].keepAlive && i == |replies| - 1
  {
    var req := replies[i].request;
    ReplyRequest(replies, stream, site, results, i);
    assert req[..|req|] == req;
    ConnectionCloseIsHeard(before, after);
  }

  /** A request without a 'C' is kept alive: if its answer was sent and another request follows, that is answered. */
  lemma StaysOpen(replies: seq<Reply>, stream: Bytes, site: Site, results: Results, i: nat)
    requires AnswersStream(replies, stream, site, results) && i < |replies| && 67 !in replies[i].request
    ensures replies[i].keepAlive
    ensures !replies[i].failed && i + 1 < |Frames(stream)| ==> i + 1 < |replies|
  {
    KeptAliveIff(replies, stream, site, results, i);
  }

  /** A request for a path opens the file of that path below the root; any other opens the index. */
  lemma TargetIs(replies: seq<Reply>, stream: Bytes, site: Site, results: Results, i: nat, path: Bytes, rest: Bytes)
    requires AnswersStream(replies, stream, site, results) && i < |replies|
    ensures path != [] && 32 !in path && replies[i].request == Ascii("GET ") + path + [32] + rest ==>
              replies[i].target == File(site.root + path)
    ensures 4 <= |replies[i].request| && (replies[i].request[0] != 71 || 32 !in replies[i].request[3..]) ==>
              replies[i].target == File(site.root + site.index)
  {
    var req := replies[i].request;
    ReplyRequest(replies, stream, site, results, i);
    if path != [] && 32 !in path { GetPathRoundTrip(path, rest, site.index); }
    if req[0] != 71 || 32 !in req[3..] {
      assert req[3] == req[3..][0] && forall k :: 4 <= k < |req| ==> req[k] == req[3..][k - 3];
      OtherwiseIndex(req, site.index);
    }
  }

  /** With the index in the cache, it answers the root path and the empty index name. */
  lemma CachedTargetIs(site: Site, rest: Bytes, path: Bytes)
    requires path != [] && 32 !in path
    ensures TargetOf(site, true, Ascii("GET ") + path + [32] + rest) ==
            if path == [47] then CachedIndex else File(site.root + path)
  {
    GetPathRoundTrip(path, rest, site.index);
  }

  // ---------------------------------------------------------------- runs of the event loop

  datatype Wake = Acceptable | Readable(slot: int)

  ghost predicate AllAnswered(ended: set<Slot>, site: Site)
    reads ended
  {
    forall s :: s in ended ==> AnswersStream(s.replies, s.stream, site, s.results)
  }

  lemma SlotsAfterFree(slots: map<int, Slot>, id: int)
    requires OnePerSocket(slots) && id in slots
    ensures SlotSet(slots - {id}) == SlotSet(slots) - {slots[id]}
  {
    var less := slots - {id};
    forall x | x in SlotSet(slots) && x != slots[id] ensures x in SlotSet(less) {
      var s :| s in slots && slots[s] == x;
      assert s in less && less[s] == x;
    }
  }

  /** What a client still gives after these wake-ups, if its slot has this number. */
  function AfterWakes(inbox: seq<Recv>, wakes: seq<Wake>, id: int): seq<Recv> {
    if wakes == [] then inbox
    else
      var before := AfterWakes(inbox, wakes[..|wakes| - 1], id);
      if wakes[|wakes| - 1] == Readable(id) then AfterBlock(before) else before
  }

  ghost function Inboxes(slots: map<int, Slot>): map<int, seq<Recv>>
    reads SlotSet(slots)
  {
    map id | id in slots :: slots[id].inbox
  }

  /** Every slot was there before the wake-ups, or was taken at one of them; each wake-up of it since has received
      all that had arrived. */
  ghost predicate KeptUp(before: map<int, Slot>, inboxes: map<int, seq<Recv>>,
                         slots: map<int, Slot>, left: map<int, seq<Recv>>,
                         taken: seq<Option<Slot>>, wakes: seq<Wake>)
    requires inboxes.Keys == before.Keys && left.Keys == slots.Keys
  {
    forall id :: id in slots ==>
      || (id in before && slots[id] == before[id] && left[id] == AfterWakes(inboxes[id], wakes, id))
      || (slots[id] in Accepted(taken) && exists n :: TakenAt(slots[id], left[id], wakes, n, id))
  }

  ghost predicate TakenAt(slot: Slot, left: seq<Recv>, wakes: seq<Wake>, n: int, id: int) {
    0 < n <= |wakes| && wakes[n - 1].Acceptable? && left == AfterWakes(slot.sends, wakes[n..], id)
  }

  lemma OneMoreWake(inbox: seq<Recv>, wakes: seq<Wake>, n: nat, wake: Wake, id: int)
    requires n <= |wakes|
    ensures AfterWakes(inbox, (wakes + [wake])[n..], id) == AfterWakes(AfterWakes(inbox, wakes[n..], id), [wake], id)
  {
    assert (wakes + [wake])[n..] == wakes[n..] + [wake];
    assert (wakes[n..] + [wake])[..|wakes| - n] == wakes[n..];
    assert [wake][..0] == [];
  }

  /** Keeping up over some wake-ups and over one more is keeping up over all. */
  lemma KeptUpFurther(a: map<int, Slot>, ia: map<int, seq<Recv>>, b: map<int, Slot>, ib: map<int, seq<Recv>>,
                      c: map<int, Slot>, ic: map<int, seq<Recv>>,
                      taken: seq<Option<Slot>>, more: seq<Option<Slot>>, wakes: seq<Wake>, wake: Wake)
    requires ia.Keys == a.Keys && ib.Keys == b.Keys && ic.Keys == c.Keys
    requires KeptUp(a, ia, b, ib, taken, wakes) && KeptUp(b, ib, c, ic, more, [wake])
    requires Accepted(taken + more) == Accepted(taken) + Accepted(more)
    ensures KeptUp(a, ia, c, ic, taken + more, wakes + [wake])
  {
    var all := wakes + [wake];
    forall id | id in c
      ensures (id in a && c[id] == a[id] && ic[id] == AfterWakes(ia[id], all, id))
           || (c[id] in Accepted(taken + more) && exists n :: TakenAt(c[id], ic[id], all, n, id))
    {
      if id in b && c[id] == b[id] && ic[id] == AfterWakes(ib[id], [wake], id) {
        if id in a && b[id] == a[id] && ib[id] == AfterWakes(ia[id], wakes, id) {
          OneMoreWake(ia[id], wakes, 0, wake, id);
          assert all[0..] == all && wakes[0..] == wakes;
        } else {
          var n :| TakenAt(b[id], ib[id], wakes, n, id);
          OneMoreWake(b[id].sends, wakes, n, wake, id);
          assert TakenAt(c[id], ic[id], all, n, id);
        }
      } else {
        var n :| TakenAt(c[id], ic[id], [wake], n, id);
        assert [wake][1..] == [] == all[|all|..];
        assert TakenAt(c[id], ic[id], all, |all|, id);
      }
    }
  }

  lemma AcceptKeepsUp(before: map<int, Slot>, inboxes: map<int, seq<Recv>>,
                      slots: map<int, Slot>, left: map<int, seq<Recv>>, more: seq<Option<Slot>>)
    requires inboxes.Keys == before.Keys && left.Keys == slots.Keys
    requires forall id :: id in slots ==>
               || (id in before && slots[id] == before[id] && left[id] == inboxes[id])
               || (slots[id] in Accepted(more) && left[id] == slots[id].sends)
    ensures KeptUp(before, inboxes, slots, left, more, [Acceptable])
  {
    var wakes := [Acceptable];
    assert wakes[..0] == [] == wakes[1..];
    forall id | id in slots && left[id] == slots[id].sends ensures TakenAt(slots[id], left[id], wakes, 1, id) {}
  }

  lemma ReadKeepsUp(before: map<int, Slot>, inboxes: map<int, seq<Recv>>,
                    slots: map<int, Slot>, left: map<int, seq<Recv>>, slot: int)
    requires inboxes.Keys == before.Keys && left.Keys == slots.Keys
    requires forall id :: id in slots ==>
               id in before && slots[id] == before[id] &&
               left[id] == if id == slot then AfterBlock(inboxes[id]) else inboxes[id]
    ensures KeptUp(before, inboxes, slots, left, [], [Readable(slot)])
  {
    assert [Readable(slot)][..0] == [];
  }

  lemma DistinctSlots(slots: map<int, Slot>, id: int)
    requires OnePerSocket(slots) && id in slots
    ensures forall k :: k in slots && k != id ==> slots[k] != slots[id]
  {}

  method HandleAcceptable(host: Host, epfd: nat, site: Site) returns (ghost more: seq<Option<Slot>>)
    requires Owned(host) && AllLive(host, site) && AllReceivable(host.backlog)
    modifies host`polled, host`clients, host`slots, host`backlog, host`refusals, host`misses
    ensures Owned(host) && AllLive(host, site) && AllReceivable(host.backlog)
    ensures FromBacklog(more, old(host.backlog), host.backlog) && forall s :: s in Accepted(more) ==> fresh(s)
    ensures TurnedAway(more) == host.refusals - old(host.refusals)
    ensures SlotSet(host.slots) == old(SlotSet(host.slots)) + Accepted(more)
    ensures AllTakenOrFailed(host.backlog, old(host.refusals + host.misses), host.refusals + host.misses)
    ensures KeptUp(old(host.slots), old(Inboxes(host.slots)), host.slots, Inboxes(host.slots), more, [Acceptable])
  {
    var n;
    n, more := AcceptBatch(host, epfd, site);
    forall id | id in host.slots && id !in old(host.slots) ensures host.slots[id] in Accepted(more) {
      assert host.slots[id] in SlotSet(host.slots);
    }
    AcceptKeepsUp(old(host.slots), old(Inboxes(host.slots)), host.slots, Inboxes(host.slots), more);
  }

  /** The slot that is read ends, or has received all that had arrived; the others stay as they are. */
  method ReadHeld(host: Host, epfd: nat, site: Site, id: int) returns (ghost gone: set<Slot>)
    requires epfd > 0 && Owned(host) && AllLive(host, site) && id in host.slots
    modifies host, SlotSet(host.slots)
    ensures Owned(host) && AllLive(host, site) && host.backlog == old(host.backlog)
    ensures host.heap == old(host.heap) && host.files == old(host.files)
    ensures host.refusals == old(host.refusals) && host.misses == old(host.misses)
    ensures host.slots == if gone == {} then old(host.slots) else old(host.slots) - {id}
    ensures gone == {} || gone == {old(host.slots[id])}
    ensures AllAnswered(gone, site)
    ensures forall k :: k in host.slots ==>
              host.slots[k].inbox == old(if k == id then AfterBlock(host.slots[k].inbox) else host.slots[k].inbox)
  {
    gone := {};
    DistinctSlots(host.slots, id);
    ghost var slot := host.slots[id];
    var closed := HandleConnIo(host, epfd, site, id);
    if closed { gone := {slot}; }
  }

  method HandleReadable(host: Host, epfd: nat, site: Site, id: int) returns (ghost gone: set<Slot>)
    requires epfd > 0 && Owned(host) && AllLive(host, site) && AllReceivable(host.backlog)
    modifies host, SlotSet(host.slots)
    ensures Owned(host) && AllLive(host, site) && host.backlog == old(host.backlog)
    ensures host.heap == old(host.heap) && host.files == old(host.files)
    ensures host.refusals == old(host.refusals) && host.misses == old(host.misses)
    ensures SlotSet(host.slots) + gone == old(SlotSet(host.slots)) && SlotSet(host.slots) !! gone
    ensures AllAnswered(gone, site)
    ensures KeptUp(old(host.slots), old(Inboxes(host.slots)), host.slots, Inboxes(host.slots), [], [Readable(id)])
  {
    gone := {};
    if id in host.slots {
      SlotsAfterFree(host.slots, id);
      gone := ReadHeld(host, epfd, site, id);
    }
    ReadKeepsUp(old(host.slots), old(Inboxes(host.slots)), host.slots, Inboxes(host.slots), id);
  }

  /** One wake-up. `more` are the clients taken from the backlog, `gone` the slots whose connection ended. */
  method HandleWake(host: Host, epfd: nat, site: Site, wake: Wake)
    returns (ghost more: seq<Option<Slot>>, ghost gone: set<Slot>)
    requires epfd > 0 && Owned(host) && AllLive(host, site) && AllReceivable(host.backlog)
    modifies host, SlotSet(host.slots)
    ensures Owned(host) && AllLive(host, site) && AllReceivable(host.backlog) && AllAnswered(gone, site)
    ensures host.heap == old(host.heap) && host.files == old(host.files)
    ensures forall s :: s in Accepted(more) ==> fresh(s)
    ensures Account(old(StartOf(host)), StartOf(host), more, gone, [wake])
    ensures forall s :: s in SlotSet(host.slots) ==> s in old(SlotSet(host.slots)) || fresh(s)
  {
    more, gone := [], {};
    OneWake(wake, host.backlog);
    match wake
    case Acceptable => more := HandleAcceptable(host, epfd, site);
    case Readable(id) => gone := HandleReadable(host, epfd, site, id);
  }

  lemma OneWake(wake: Wake, backlog: seq<Client>)
    ensures Acceptables([wake]) == (if wake.Acceptable? then 1 else 0)
    ensures Accepted([]) == {} && FromBacklog([], backlog, backlog) && TurnedAway([]) == 0
  {
    assert [wake][..0] == [];
  }

  lemma HeldAndEnded(start: set<Slot>, taken: set<Slot>, mid: set<Slot>, ended: set<Slot>,
                     more: set<Slot>, held: set<Slot>, gone: set<Slot>)
    requires mid + ended == start + taken && mid !! ended && more !! ended
    requires held + gone == mid + more && held !! gone
    ensures held + (ended + gone) == start + (taken + more) && held !! ended + gone
  {}

  /** Where a host stood when a run began. */
  datatype Start = Start(slots: map<int, Slot>, inboxes: map<int, seq<Recv>>, backlog: seq<Client>, refusals: nat,
                         misses: nat)

  ghost function StartOf(host: Host): Start
    reads host, SlotSet(host.slots)
  {
    Start(host.slots, Inboxes(host.slots), host.backlog, host.refusals, host.misses)
  }

  function Acceptables(wakes: seq<Wake>): nat {
    if wakes == [] then 0 else Acceptables(wakes[..|wakes| - 1]) + if wakes[|wakes| - 1].Acceptable? then 1 else 0
  }

  /** Each acceptable wake-up took all waiting clients or met a failure. */
  predicate Accepting(wakes: seq<Wake>, backlog: seq<Client>, fails: int) {
    0 <= fails <= Acceptables(wakes) && (backlog != [] ==> fails == Acceptables(wakes))
  }

  lemma AcceptingFurther(wakes: seq<Wake>, wake: Wake, before: seq<Client>, after: seq<Client>, fails: int, more: int)
    requires Accepting(wakes, before, fails) && |after| <= |before| && Accepting([wake], after, more)
    ensures Accepting(wakes + [wake], after, fails + more)
  {
    assert (wakes + [wake])[..|wakes|] == wakes && [wake][..0] == [];
    assert Acceptables(wakes + [wake]) == Acceptables(wakes) + Acceptables([wake]);
  }

  /** The account of a run that began with `start`: every slot there was or that was taken for a waiting client is
      held or has ended, and the backlog shrank by those taken. */
  ghost predicate Account(start: Start, now: Start, taken: seq<Option<Slot>>, ended: set<Slot>, wakes: seq<Wake>) {
    && FromBacklog(taken, start.backlog, now.backlog) && start.refusals + TurnedAway(taken) == now.refusals
    && Accepting(wakes, now.backlog, now.refusals + now.misses - (start.refusals + start.misses))
    && SlotSet(now.slots) + ended == SlotSet(start.slots) + Accepted(taken) && SlotSet(now.slots) !! ended
    && start.inboxes.Keys == start.slots.Keys && now.inboxes.Keys == now.slots.Keys
    && KeptUp(start.slots, start.inboxes, now.slots, now.inboxes, taken, wakes)
  }

  /** After these wake-ups the account holds, slots held are live, and slots ended have answered. */
  ghost predicate SoFar(host: Host, site: Site, start: Start, taken: seq<Option<Slot>>, ended: set<Slot>,
                        wakes: seq<Wake>)
    reads host, SlotSet(host.slots), ended
  {
    && Owned(host) && AllLive(host, site) && AllReceivable(host.backlog) && AllAnswered(ended, site)
    && Account(start, StartOf(host), taken, ended, wakes)
  }

  lemma AccountFurther(start: Start, mid: Start, now: Start, taken: seq<Option<Slot>>, more: seq<Option<Slot>>,
                       ended: set<Slot>, gone: set<Slot>, done: seq<Wake>, wake: Wake)
    requires Account(start, mid, taken, ended, done) && Account(mid, now, more, gone, [wake])
    requires Accepted(more) !! ended && Accepted(more) !! Accepted(taken)
    ensures Account(start, now, taken + more, ended + gone, done + [wake])
  {
    MoreTaken(taken, more, start.backlog, mid.backlog, now.backlog);
    AcceptingFurther(done, wake, mid.backlog, now.backlog, mid.refusals + mid.misses - (start.refusals + start.misses),
                     now.refusals + now.misses - (mid.refusals + mid.misses));
    HeldAndEnded(SlotSet(start.slots), Accepted(taken), SlotSet(mid.slots), ended,
                 Accepted(more), SlotSet(now.slots), gone);
    KeptUpFurther(start.slots, start.inboxes, mid.slots, mid.inboxes, now.slots, now.inboxes, taken, more, done, wake);
  }

  /** One more wake-up of a run. */
  method WakeNext(host: Host, epfd: nat, site: Site, wake: Wake, ghost start: Start,
                  ghost taken: seq<Option<Slot>>, ghost ended: set<Slot>, ghost done: seq<Wake>)
    returns (ghost taken': seq<Option<Slot>>, ghost ended': set<Slot>)
    requires epfd > 0 && SoFar(host, site, start, taken, ended, done)
    modifies host, SlotSet(host.slots)
    ensures SoFar(host, site, start, taken', ended', done + [wake])
    ensures host.heap == old(host.heap) && host.files == old(host.files)
    ensures forall s :: s in Accepted(taken') ==> s in Accepted(taken) || fresh(s)
    ensures forall s :: s in SlotSet(host.slots) ==> s in old(SlotSet(host.slots)) || fresh(s)
  {
    ghost var before := StartOf(host);
    ghost var more, gone;
    more, gone := HandleWake(host, epfd, site, wake);
    AccountFurther(start, before, StartOf(host), taken, more, ended, gone, done, wake);
    AcceptedMore(taken, more);
    taken', ended' := taken + more, ended + gone;
  }

  lemma AcceptedMore(taken: seq<Option<Slot>>, more: seq<Option<Slot>>)
    ensures forall s :: s in Accepted(taken + more) ==> s in Accepted(taken) || s in Accepted(more)
  {
    forall s | s in Accepted(taken + more) ensures s in Accepted(taken) || s in Accepted(more) {
      var i :| 0 <= i < |taken + more| && (taken + more)[i] == Some(s);
      if i < |taken| { assert taken[i] == Some(s); } else { assert more[i - |taken|] == Some(s); }
    }
  }

  lemma UpTo(wakes: seq<Wake>, i: nat)
    requires i <= |wakes|
    ensures if i < |wakes| then wakes[..i + 1] == wakes[..i] + [wakes[i]] else wakes[..i] == wakes
  {}

  lemma NothingYet(host: Host, site: Site)
    requires Owned(host) && AllLive(host, site) && AllReceivable(host.backlog)
    ensures SoFar(host, site, StartOf(host), [], {}, [])
  {}

  /** Any sequence of wake-ups, from any state of the host. Descriptors stay owned and buffers and files are all
      given back. Every slot there was at the start or that was taken for a waiting client is now either held, with
      all it received served and all received that had arrived at its wake-ups, or has ended, with its client's
      stream answered. */
  method RunLoop(host: Host, epfd: nat, site: Site, wakes: seq<Wake>)
    returns (ghost taken: seq<Option<Slot>>, ghost ended: set<Slot>)
    requires epfd > 0 && Owned(host) && AllLive(host, site) && AllReceivable(host.backlog)
    modifies host, SlotSet(host.slots)
    ensures SoFar(host, site, old(StartOf(host)), taken, ended, wakes)
    ensures host.heap == old(host.heap) && host.files == old(host.files)
    ensures forall s :: s in Accepted(taken) ==> fresh(s)
  {
    ghost var start := StartOf(host);
    NothingYet(host, site);
    taken, ended := [], {};
    var i := 0;
    while i < |wakes|
      invariant 0 <= i <= |wakes| && SoFar(host, site, start, taken, ended, wakes[..i])
      invariant host.heap == old(host.heap) && host.files == old(host.files)
      invariant forall s :: s in Accepted(taken) ==> fresh(s)
      invariant forall s :: s in SlotSet(host.slots) ==> s in old(SlotSet(host.slots)) || fresh(s)
    {
      UpTo(wakes, i);
      taken, ended := WakeNext(host, epfd, site, wakes[i], start, taken, ended, wakes[..i]);
      i := i + 1;
    }
    UpTo(wakes, i);
  }
}
