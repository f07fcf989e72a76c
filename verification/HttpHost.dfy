/** The world li-httpd runs in: buffers, files, client sockets, epoll and connection
    slots. Every call into the runtime may succeed or fail; what it does to the
    resources is tracked exactly. */
module HttpHost {
  import opened HttpScan

  /** What one receive call on a client socket gives. */
  datatype Recv = Chunk(bytes: Bytes) | WouldBlock | End | Error

  datatype Target = CachedIndex | File(path: Bytes)

  /** A request that was served, and whether sending the answer failed. */
  datatype Reply = Reply(request: Bytes, target: Target, keepAlive: bool, failed: bool)

  const RECV_MAX := 16384

  /** Every receive gives at least one byte and at most as many as asked for. */
  predicate Receivable(inbox: seq<Recv>, max: nat) {
    forall i :: 0 <= i < |inbox| && inbox[i].Chunk? ==> 0 < |inbox[i].bytes| <= max
  }

  function BytesOf(event: Recv): Bytes {
    if event.Chunk? then event.bytes else []
  }

  function ResultOf(event: Recv): int {
    match event
    case Chunk(bytes) => |bytes|
    case WouldBlock => -1
    case End => 0
    case Error => -2
  }

  /** The bytes a client sends before it ends or breaks the connection. */
  function Stream(inbox: seq<Recv>): Bytes {
    if inbox == [] || inbox[0].End? || inbox[0].Error? then []
    else BytesOf(inbox[0]) + Stream(inbox[1..])
  }

  /** A client that sends these parts and then ends the connection; nothing to send yet is an empty part. */
  function Sending(parts: seq<Bytes>): seq<Recv> {
    if parts == [] then [End]
    else [if parts[0] == [] then WouldBlock else Chunk(parts[0])] + Sending(parts[1..])
  }

  /** Every way of splitting a text into parts sends the same stream. */
  lemma {:induction false} StreamOfParts(parts: seq<Bytes>)
    ensures Stream(Sending(parts)) == Flat(parts)
  {
    if parts != [] {
      StreamOfParts(parts[1..]);
      assert Sending(parts)[1..] == Sending(parts[1..]);
    }
  }

  /** What a client still sends after the next receive that would block. */
  function AfterBlock(inbox: seq<Recv>): seq<Recv> {
    if inbox == [] then []
    else if inbox[0].WouldBlock? then inbox[1..]
    else AfterBlock(inbox[1..])
  }

  /** Everything up to the first receive that would block has then been received; without one, everything. */
  lemma {:induction false} AfterBlockIs(now: seq<Recv>, later: seq<Recv>)
    requires WouldBlock !in now
    ensures AfterBlock(now + [WouldBlock] + later) == later && AfterBlock(now) == []
  {
    var inbox := now + [WouldBlock] + later;
    if now == [] {
      assert inbox[1..] == later;
    } else {
      AfterBlockIs(now[1..], later);
      assert inbox[1..] == now[1..] + [WouldBlock] + later;
    }
  }

  /** What the calls made for one connection give: the `n`-th send, open, read and so on. Negative means it failed. */
  type Results = nat -> int

  /** A client: what it sends, and how the calls made for it fare. */
  datatype Client = Client(sends: seq<Recv>, results: Results)

  /** The client ends or breaks the connection sooner or later. */
  predicate EventuallyEnds(inbox: seq<Recv>) {
    inbox != [] && (inbox[0].End? || inbox[0].Error? || EventuallyEnds(inbox[1..]))
  }

  lemma {:induction false} EventuallyEndsIff(inbox: seq<Recv>)
    ensures EventuallyEnds(inbox) <==> End in inbox || Error in inbox
  {
    if inbox != [] {
      EventuallyEndsIff(inbox[1..]);
      assert inbox == [inbox[0]] + inbox[1..];
    }
  }

  /** A connection slot: its buffer, what its client still sends, and what was served. */
  class Slot {
    const conn: int
    const results: Results
    /** How many calls were made. */
    var made: nat
    var inbox: seq<Recv>
    var buf: Bytes
    var replies: seq<Reply>
    /** What was received so far, and everything the client ever gives and sends. */
    ghost var received: Bytes
    ghost const sends: seq<Recv>
    ghost const stream: Bytes

    constructor (conn: int, client: Client)
      ensures IsClient(this, client) && inbox == client.sends
      ensures this.conn == conn && buf == [] && replies == [] && received == [] && made == 0
    {
      this.conn, inbox, buf, replies, received := conn, client.sends, [], [], [];
      sends, stream, results, made := client.sends, Stream(client.sends), client.results, 0;
    }

    /** `tcp_recv_slot`: the number of bytes appended, 0 at the end, -1 would block, -2 error. */
    method TcpRecvSlot() returns (r: int)
      requires Receivable(inbox, RECV_MAX)
      modifies `inbox, `buf, `received
      ensures Receivable(inbox, RECV_MAX)
      ensures old(inbox) == [] ==> r == -1 && buf == old(buf) && received == old(received) && inbox == []
      ensures old(inbox) != [] ==> inbox == old(inbox)[1..]
      ensures old(inbox) != [] ==> buf == old(buf) + BytesOf(old(inbox)[0])
      ensures old(inbox) != [] ==> received == old(received) + BytesOf(old(inbox)[0])
      ensures old(inbox) != [] ==> r == ResultOf(old(inbox)[0])
    {
      if inbox == [] { return -1; }
      var event := inbox[0];
      inbox := inbox[1..];
      match event
      case Chunk(bytes) =>
        buf, received := buf + bytes, received + bytes;
        return |bytes|;
      case WouldBlock => return -1;
      case End => return 0;
      case Error => return -2;
    }

    // Calls that only move bytes to and from the outside.

    method WriteResponseHdr() returns (len: int)
      modifies `made
      ensures len == results(old(made)) && made == old(made) + 1
    {
      len, made := results(made), made + 1;
    }

    method TcpSend() returns (rc: int)
      modifies `made
      ensures rc == results(old(made)) && made == old(made) + 1
    {
      rc, made := results(made), made + 1;
    }

    method FstatSize() returns (size: int)
      modifies `made
      ensures size == results(old(made)) && made == old(made) + 1
    {
      size, made := results(made), made + 1;
    }

    method ReadFd() returns (rc: int)
      modifies `made
      ensures rc == results(old(made)) && made == old(made) + 1
    {
      rc, made := results(made), made + 1;
    }

    /** `net_slot_consume`. */
    method Consume(n: nat)
      requires n <= |buf|
      modifies `buf
      ensures buf == old(buf)[n..]
    {
      buf := buf[n..];
    }
  }

  /** The slot was made for this client. */
  ghost predicate IsClient(slot: Slot, client: Client) {
    slot.sends == client.sends && slot.stream == Stream(client.sends) && slot.results == client.results
  }

  /** A number that is not in use, as the kernel or the allocator picks it. */
  method Unused(taken: set<int>) returns (x: int)
    ensures x >= 0 && x !in taken
  {
    x := *;
    if x < 0 { x := 0; }
    ghost var tried := {};
    while x in taken
      invariant x >= 0 && forall e :: e in tried ==> e < x
      decreases taken - tried
    {
      tried := tried + {x};
      x := x + 1;
    }
  }

  class Host {
    var heap: set<int>
    var files: set<int>
    /** The paths whose opening was tried, in order. */
    var tried: seq<Bytes>
    var clients: set<int>
    var polled: set<int>
    var slots: map<int, Slot>
    /** Clients waiting to be accepted. */
    var backlog: seq<Client>
    /** How often no slot was left for a client, or epoll did not take it. */
    ghost var refusals: nat
    /** How often no client was there to accept although more were to come. */
    ghost var misses: nat

    constructor (backlog: seq<Client>)
      ensures heap == {} && files == {} && tried == [] && clients == {} && polled == {} && slots == map[]
      ensures this.backlog == backlog && refusals == 0 && misses == 0
    {
      heap, files, tried, clients, polled, slots, this.backlog := {}, {}, [], {}, {}, map[], backlog;
      refusals, misses := 0, 0;
    }

    method NetBufAlloc() returns (p: int)
      modifies `heap
      ensures p !in old(heap) && heap == old(heap) + {p}
    {
      p := Unused(heap);
      heap := heap + {p};
    }

    method NetBufFree(p: int)
      requires p in heap
      modifies `heap
      ensures heap == old(heap) - {p}
    {
      heap := heap - {p};
    }

    method NetOpenReadonly(path: Bytes, slot: Slot) returns (fd: int)
      modifies `files, `tried, slot`made
      ensures tried == old(tried) + [path] && slot.made == old(slot.made) + 1
      ensures fd < 0 <==> slot.results(old(slot.made)) < 0
      ensures fd < 0 ==> files == old(files)
      ensures fd >= 0 ==> fd !in old(files) && files == old(files) + {fd}
    {
      tried := tried + [path];
      var rc := slot.results(slot.made);
      slot.made := slot.made + 1;
      if rc < 0 { return -1; }
      fd := Unused(files);
      files := files + {fd};
    }

    method NetCloseFd(fd: int)
      requires fd in files
      modifies `files
      ensures files == old(files) - {fd}
    {
      files := files - {fd};
    }

    /** Accept a waiting client on a descriptor that is not in use, if there is one. */
    method TcpAcceptNb() returns (conn: int, client: Client)
      modifies `clients, `backlog, `misses
      ensures conn < 0 ==> clients == old(clients) && backlog == old(backlog)
      ensures misses == old(misses) + if conn < 0 && backlog != [] then 1 else 0
      ensures conn >= 0 ==> old(backlog) != [] && backlog == old(backlog)[1..] && client == old(backlog)[0] &&
                            conn !in old(clients) && clients == old(clients) + {conn}
    {
      client := Client([], _ => -1);
      if backlog == [] { return -1, client; }
      var ok: bool := *;
      if !ok {
        misses := misses + 1;
        return -1, client;
      }
      conn := Unused(clients);
      clients := clients + {conn};
      client := backlog[0];
      backlog := backlog[1..];
    }

    method TcpClose(conn: int)
      requires conn in clients
      modifies `clients
      ensures clients == old(clients) - {conn}
    {
      clients := clients - {conn};
    }

    method SlotAlloc(conn: int, client: Client) returns (slot: int)
      modifies `slots, `refusals
      ensures slot < 0 ==> slots == old(slots) && refusals == old(refusals) + 1
      ensures slot >= 0 ==> refusals == old(refusals)
      ensures slot >= 0 ==> slot !in old(slots) && slot in slots && slots == old(slots)[slot := slots[slot]]
      ensures slot >= 0 ==> fresh(slots[slot]) && slots[slot].conn == conn
      ensures slot >= 0 ==> IsClient(slots[slot], client) && slots[slot].inbox == client.sends
      ensures slot >= 0 ==> slots[slot].buf == [] && slots[slot].replies == [] && slots[slot].received == []
      ensures slot >= 0 ==> slots[slot].made == 0
    {
      var ok: bool := *;
      if !ok {
        refusals := refusals + 1;
        return -1;
      }
      slot := Unused(slots.Keys);
      var s := new Slot(conn, client);
      slots := slots[slot := s];
    }

    method SlotFree(slot: int)
      requires slot in slots
      modifies `slots
      ensures slots == old(slots) - {slot}
    {
      slots := slots - {slot};
    }

    method EpollAdd(conn: int) returns (rc: int)
      modifies `polled, `refusals
      ensures polled == if rc < 0 then old(polled) else old(polled) + {conn}
      ensures refusals == old(refusals) + if rc < 0 then 1 else 0
    {
      rc := *;
      if rc >= 0 { polled := polled + {conn}; } else { refusals := refusals + 1; }
    }

    method EpollDel(conn: int)
      modifies `polled
      ensures polled == old(polled) - {conn}
    {
      polled := polled - {conn};
    }
  }
}
