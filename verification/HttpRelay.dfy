/** The reverse-proxy relay: reading Content-Length, forwarding the response header,
    and pumping the body across any number of wake-ups. */
module HttpRelay {
  import opened HttpScan
  import opened HttpHost
  import opened Wrappers

  // ---------------------------------------------------------------- Content-Length

  predicate Digit(b: Byte) { 48 <= b <= 57 }

  /** 'C', 'o' and ':' at offsets 0, 1 and 14. */
  predicate FieldAt(s: Bytes, i: nat) {
    i + 15 < |s| && s[i] == 67 && s[i + 1] == 111 && s[i + 14] == 58
  }

  /** The first such position from `i` on, or the length of the block. */
  function FirstField(s: Bytes, i: nat): (r: nat)
    requires i <= |s|
    ensures i <= r <= |s| && (r < |s| ==> FieldAt(s, r)) && forall k :: i <= k < r ==> !FieldAt(s, k)
    decreases |s| - i
  {
    if i == |s| || FieldAt(s, i) then i else FirstField(s, i + 1)
  }

  function FirstDigit(s: Bytes, j: nat): (r: nat)
    requires j <= |s|
    ensures j <= r <= |s| && (r < |s| ==> Digit(s[r])) && forall k :: j <= k < r ==> !Digit(s[k])
    decreases |s| - j
  {
    if j == |s| || Digit(s[j]) then j else FirstDigit(s, j + 1)
  }

  function DigitsEnd(s: Bytes, j: nat): (r: nat)
    requires j <= |s|
    ensures j <= r <= |s| && (r < |s| ==> !Digit(s[r])) && forall k :: j <= k < r ==> Digit(s[k])
    decreases |s| - j
  {
    if j < |s| && Digit(s[j]) then DigitsEnd(s, j + 1) else j
  }

  function Value(digits: Bytes): nat
    requires forall i :: 0 <= i < |digits| ==> Digit(digits[i])
  {
    if digits == [] then 0
    else
      assert Digit(digits[|digits| - 1]);
      Shifted(Value(digits[..|digits| - 1]), digits[|digits| - 1])
  }

  /** One more decimal digit. */
  function Shifted(value: nat, digit: Byte): nat
    requires Digit(digit)
  {
    value * 10 + (digit - 48)
  }

  lemma ValueOneMore(mem: Bytes, from: nat, j: nat)
    requires from <= j < |mem| && forall k :: from <= k <= j ==> Digit(mem[k])
    ensures Value(mem[from..j + 1]) == Shifted(Value(mem[from..j]), mem[j])
  {
    assert mem[from..j + 1][..j - from] == mem[from..j];
  }

  /** The value of the first digit run after the first field position, or -1. */
  function RespCl(s: Bytes): (r: int)
    ensures r >= -1
  {
    var i := FirstField(s, 0);
    if i == |s| then -1
    else
      var j := FirstDigit(s, i + 15);
      if j == |s| then -1 else Value(s[j..DigitsEnd(s, j)])
  }

  /** A block has no length exactly if no digit stands behind a position with 'C', 'o' and ':' at offsets 0, 1
      and 14. */
  lemma NoLengthIff(s: Bytes)
    ensures RespCl(s) == -1 <==>
            forall i, j :: 0 <= i && i + 15 <= j < |s| && s[i] == 67 && s[i + 1] == 111 && s[i + 14] == 58 ==>
              !(48 <= s[j] <= 57)
  {
    var f := FirstField(s, 0);
    if RespCl(s) == -1 {
      forall i, j | 0 <= i && i + 15 <= j < |s| && s[i] == 67 && s[i + 1] == 111 && s[i + 14] == 58
        ensures !(48 <= s[j] <= 57)
      {
        assert FieldAt(s, i);
        assert f <= i && !Digit(s[j]);
      }
    }
  }

  /** Otherwise the length is the number written by the first digits behind the first such position. */
  lemma LengthIs(s: Bytes, i: nat, j: nat, n: nat)
    requires i + 15 <= j && j + |Decimal(n)| <= |s| && s[i] == 67 && s[i + 1] == 111 && s[i + 14] == 58
    requires forall k :: 0 <= k < i && k + 15 < |s| ==> s[k] != 67 || s[k + 1] != 111 || s[k + 14] != 58
    requires forall k :: i + 15 <= k < j ==> !(48 <= s[k] <= 57)
    requires s[j..j + |Decimal(n)|] == Decimal(n)
    requires j + |Decimal(n)| < |s| ==> !(48 <= s[j + |Decimal(n)|] <= 57)
    ensures RespCl(s) == n
  {
    var d := Decimal(n);
    FirstFieldIs(s, i);
    DigitsAt(s, j, d);
    FirstDigitIs(s, i + 15, j);
    DecimalValue(n);
  }

  lemma DigitsAt(s: Bytes, j: nat, d: Bytes)
    requires j + |d| <= |s| && s[j..j + |d|] == d != [] && forall k :: 0 <= k < |d| ==> Digit(d[k])
    requires j + |d| < |s| ==> !Digit(s[j + |d|])
    ensures Digit(s[j]) && DigitsEnd(s, j) == j + |d|
  {
    forall k | j <= k < j + |d| ensures Digit(s[k]) { assert s[k] == s[j..j + |d|][k - j] == d[k - j]; }
    DigitsEndIs(s, j, j + |d|);
  }

  lemma FirstFieldIs(s: Bytes, i: nat)
    requires FieldAt(s, i) && forall k :: 0 <= k < i ==> !FieldAt(s, k)
    ensures FirstField(s, 0) == i
  {}

  lemma FirstDigitIs(s: Bytes, from: nat, j: nat)
    requires from <= j < |s| && Digit(s[j]) && forall k :: from <= k < j ==> !Digit(s[k])
    ensures FirstDigit(s, from) == j
  {}

  /** A block in memory. If it ends in a digit, the byte after it can be read. */
  predicate Readable(mem: Bytes, len: nat) {
    len <= |mem| && (len > 0 && Digit(mem[len - 1]) ==> len < |mem|)
  }

  lemma DigitsEndIs(s: Bytes, from: nat, j: nat)
    requires from <= j <= |s| && (forall k :: from <= k < j ==> Digit(s[k])) && (j < |s| ==> !Digit(s[j]))
    ensures DigitsEnd(s, from) == j
  {}

  /** A digit run read to its end, or to the end of the block. */
  method ReadDigits(mem: Bytes, len: nat, from: nat) returns (cl: nat)
    requires Readable(mem, len) && from < len && Digit(mem[from])
    ensures cl == Value(mem[..len][from..DigitsEnd(mem[..len], from)])
  {
    ghost var hdr := mem[..len];
    cl := 0;
    var j := from;
    while j < len
      invariant from <= j <= len && forall k :: from <= k < j ==> Digit(hdr[k])
      invariant j < len ==> Digit(hdr[j])
      invariant cl == Value(hdr[from..j])
    {
      if mem[j] >= 48 {
        if mem[j] <= 57 {
          ValueOneMore(hdr, from, j);
          cl := Shifted(cl, mem[j]);
          j := j + 1;
        }
        if mem[j] < 48 {
          DigitsEndIs(hdr, from, j);
          return;
        }
        if mem[j] > 57 {
          DigitsEndIs(hdr, from, j);
          return;
        }
      }
    }
    DigitsEndIs(hdr, from, len);
  }

  /** The value of the first digit run of a block from `from` on, or -1. */
  method FirstNumber(mem: Bytes, len: nat, from: nat) returns (r: int)
    requires Readable(mem, len) && from <= len
    ensures var j := FirstDigit(mem[..len], from);
            r == if j == len then -1 else Value(mem[..len][j..DigitsEnd(mem[..len], j)])
  {
    ghost var hdr := mem[..len];
    var j := from;
    while j < len
      invariant from <= j
      invariant forall k :: from <= k < j && k < len ==> !Digit(hdr[k])
    {
      if mem[j] == 32 { j := j + 1; }
      if j < len {
        if mem[j] >= 48 {
          if mem[j] <= 57 {
            assert FirstDigit(hdr, from) == j;
            r := ReadDigits(mem, len, j);
            return;
          }
        }
      }
      j := j + 1;
    }
    assert FirstDigit(hdr, from) == len;
    return -1;
  }

  /** Terminates on every block. It reads inside the block, and the byte after it only if the block ends in a digit. */
  method ProxyParseRespCl(mem: Bytes, len: nat) returns (r: int)
    requires Readable(mem, len)
    ensures r == RespCl(mem[..len])
  {
    ghost var hdr := mem[..len];
    var i := 0;
    while i + 15 < len
      invariant 0 <= i <= len
      invariant FirstField(hdr, 0) == FirstField(hdr, i) ||
                (RespCl(hdr) == -1 && forall k :: i + 14 <= k < len ==> !Digit(hdr[k]))
    {
      if mem[i] == 67 {
        if mem[i + 1] == 111 {
          if mem[i + 14] == 58 {
            r := FirstNumber(mem, len, i + 15);
            if r >= 0 { return; }
          }
        }
      }
      i := i + 1;
    }
    return -1;
  }

  function Decimal(n: nat): (d: Bytes)
    ensures d != [] && forall i :: 0 <= i < |d| ==> Digit(d[i])
  {
    if n < 10 then [48 + n] else Decimal(n / 10) + [48 + n % 10]
  }

  lemma {:induction false} DecimalValue(n: nat)
    ensures Value(Decimal(n)) == n
  {
    if n < 10 {
      assert Decimal(n)[..0] == [];
    } else {
      DecimalValue(n / 10);
      assert Decimal(n)[..|Decimal(n)| - 1] == Decimal(n / 10);
    }
  }

  /** A block with a Content-Length line printed from `n`. */
  function ClBlock(before: Bytes, n: nat, after: Bytes): Bytes {
    before + Ascii("Content-Length: ") + Decimal(n) + after
  }

  /** If that line is the block's first field position, the block gives `n` back. */
  lemma ContentLengthRoundTrip(before: Bytes, n: nat, after: Bytes)
    requires after != [] && !Digit(after[0])
    requires forall i :: 0 <= i < |before| ==> !FieldAt(ClBlock(before, n, after), i)
    ensures RespCl(ClBlock(before, n, after)) == n
  {
    var name, d, s, i := Ascii("Content-Length: "), Decimal(n), ClBlock(before, n, after), |before|;
    assert s == before + name + d + after;
    assert name[0] == 67 && name[1] == 111 && name[14] == 58 && name[15] == 32;
    assert s[i] == name[0] && s[i + 1] == name[1] && s[i + 14] == name[14] && s[i + 15] == name[15];
    assert FieldAt(s, i);
    assert FirstField(s, 0) == i;
    var j := i + 16;
    assert forall k :: 0 <= k < |d| ==> s[j + k] == d[k];
    assert s[j] == d[0] && FirstDigit(s, i + 15) == j;
    assert s[j + |d|] == after[0];
    assert DigitsEnd(s, j) == j + |d|;
    assert s[j..j + |d|] == d;
    DecimalValue(n);
  }

  // ---------------------------------------------------------------- what a relay is to send

  /** A response header block with its length value. */
  datatype Header = Header(bytes: Bytes, cl: int)

  /** As a relay stores it: one whole block and the value parsed from it. */
  predicate Storable(h: Header) {
    h.cl >= 0 && HeaderEnd(h.bytes) == |h.bytes| && RespCl(h.bytes) == h.cl
  }

  /** Before each wake-up other slots may have stored another header; the upstream may have hung up. */
  datatype Wakeup = Wakeup(hangup: bool, stored: Option<Header>)

  predicate AllStorable(wakes: seq<Wakeup>) {
    forall i :: 0 <= i < |wakes| && wakes[i].stored.Some? ==> Storable(wakes[i].stored.value)
  }

  /** What becomes of a response header: it is still counted, the relay fails, or `start` is sent and
      then `len` more bytes of the upstream from `at` on. */
  datatype Plan = Counting | Fails | Sends(start: Bytes, at: nat, len: int)

  /** The header is parsed from `acc`, after `at` bytes were taken from the upstream. */
  function ParsedPlan(acc: Bytes, at: nat): (plan: Plan)
    ensures !plan.Counting?
  {
    var he := HeaderEnd(acc);
    if he < 0 || RespCl(acc[..he]) < 0 then Fails else Sends(acc, at, RespCl(acc[..he]) - (|acc| - he))
  }

  /** A chunk that arrives: the first one is parsed, or it is counted, behind `acc`, against the cached header. */
  function ChunkPlan(cached: bool, held: Header, acc: Bytes, data: Bytes): Plan
    requires !cached ==> acc == []
  {
    var at := |acc| + |data|;
    if !cached then ParsedPlan(data, at)
    else if |held.bytes| <= |acc| then ParsedPlan(acc, at)
    else if at < |held.bytes| then Counting
    else Sends(held.bytes, at, held.cl - (at - |held.bytes|))
  }

  function ReceivePlan(cached: bool, held: Header, acc: Bytes, inbox: seq<Recv>): Plan
    requires !cached ==> acc == []
  {
    if inbox == [] || inbox[0].WouldBlock? then Counting
    else if inbox[0].Chunk? then ChunkPlan(cached, held, acc, inbox[0].bytes)
    else Fails
  }

  lemma ReceivePlanIs(cached: bool, held: Header, acc: Bytes, inbox: seq<Recv>)
    requires !cached ==> acc == []
    ensures var plan := ReceivePlan(cached, held, acc, inbox);
            if inbox == [] || inbox[0].WouldBlock? then
              plan == Counting && acc + Head(inbox) == acc && AfterBlock(inbox) == Rest(inbox)
            else if inbox[0].Chunk? then
              plan == ChunkPlan(cached, held, acc, Head(inbox)) && AfterBlock(inbox) == AfterBlock(Rest(inbox))
            else plan == Fails
  {}

  function Rest(inbox: seq<Recv>): seq<Recv> { if inbox == [] then [] else inbox[1..] }

  function Head(inbox: seq<Recv>): Bytes { if inbox == [] then [] else BytesOf(inbox[0]) }

  function HeldAt(held: Header, wake: Wakeup): Header {
    if wake.stored.Some? then wake.stored.value else held
  }

  /** The plan of a whole run, from the chunks that arrive and what the cache holds at each wake-up. */
  function HeaderPlan(cached: bool, held: Header, acc: Bytes, inbox: seq<Recv>, wakes: seq<Wakeup>): Plan
    requires !cached ==> acc == []
    decreases |wakes|, 0
  {
    if wakes == [] then Counting
    else PlanThen(wakes[0].hangup, cached, HeldAt(held, wakes[0]), acc, inbox, wakes[1..])
  }

  /** One wake-up, with this header in the cache, and those after it. */
  function PlanThen(hangup: bool, cached: bool, held: Header, acc: Bytes, inbox: seq<Recv>, left: seq<Wakeup>): Plan
    requires !cached ==> acc == []
    decreases |left|, 1
  {
    if hangup then Fails
    else
      var plan := ReceivePlan(cached, held, acc, inbox);
      if plan.Counting? then HeaderPlan(cached, held, acc + Head(inbox), Rest(inbox), left) else plan
  }

  /** The plan of a relay that begins with this header in the cache. */
  function RelayPlan(held: Header, inbox: seq<Recv>, wakes: seq<Wakeup>): Plan {
    HeaderPlan(held.cl >= 0 && held.bytes != [], held, [], inbox, wakes)
  }

  /** What is still to arrive after the wake-ups of a body: each takes all that has arrived. */
  function LeftOfBody(inbox: seq<Recv>, wakes: seq<Wakeup>): seq<Recv>
    decreases |wakes|
  {
    if wakes == [] then inbox else LeftOfBody(AfterBlock(inbox), wakes[1..])
  }

  /** What is still to arrive after the wake-ups of a relay: one receive is taken at each until the header is
      complete, and from then on all that has arrived. */
  function LeftAfter(cached: bool, held: Header, acc: Bytes, inbox: seq<Recv>, wakes: seq<Wakeup>): seq<Recv>
    requires !cached ==> acc == []
    decreases |wakes|, 0
  {
    if wakes == [] then inbox else LeftThen(cached, HeldAt(held, wakes[0]), acc, inbox, wakes[1..])
  }

  function LeftThen(cached: bool, held: Header, acc: Bytes, inbox: seq<Recv>, left: seq<Wakeup>): seq<Recv>
    requires !cached ==> acc == []
    decreases |left|, 1
  {
    if ReceivePlan(cached, held, acc, inbox).Counting? then
      LeftAfter(cached, held, acc + Head(inbox), Rest(inbox), left)
    else LeftOfBody(AfterBlock(inbox), left)
  }

  function RelayLeft(held: Header, inbox: seq<Recv>, wakes: seq<Wakeup>): seq<Recv> {
    LeftAfter(held.cl >= 0 && held.bytes != [], held, [], inbox, wakes)
  }

  /** The bytes a plan owes the client, as far as the upstream has them. */
  function Owed(plan: Plan, wire: Bytes): Bytes {
    if plan.Sends? && plan.at <= |wire| then plan.start + wire[plan.at..Min(plan.at + Max(plan.len, 0), |wire|)] else []
  }

  function Max(a: int, b: int): int { if a > b then a else b }

  function Min(a: int, b: int): int { if a < b then a else b }

  // ---------------------------------------------------------------- one relayed response

  datatype Outcome = Active | Done | Failed

  const PARSE_DONE := 0
  const PARSE_HEADER := 1
  const PARSE_CACHED := 2
  const BODY_NONE := 0
  const BODY_CL := 1
  const CHUNK := 8192

  /** The shared response-header cache. */
  class Cache {
    var hdr: Bytes
    var cl: int

    function Held(): Header
      reads this
    {
      Header(hdr, cl)
    }

    /** It has nothing that a relay would use, or it holds one header block and its length value. */
    ghost predicate Valid()
      reads this
    {
      cl >= 0 && hdr != [] ==> Storable(Held())
    }

    /** Another slot stores its header, if it did. */
    method Change(stored: Option<Header>)
      requires stored.Some? ==> Storable(stored.value)
      modifies this
      ensures Held() == if stored.Some? then stored.value else old(Held())
    {
      if stored.Some? { hdr, cl := stored.value.bytes, stored.value.cl; }
    }
  }

  /** The first `take` bytes received are forwarded. */
  lemma Relayed(start: Bytes, wire: Bytes, at: nat, from: nat, data: Bytes, take: nat)
    requires at <= from && from + |data| <= |wire| && data == wire[from..from + |data|] && take <= |data|
    ensures start + wire[at..from] + data[..take] == start + wire[at..from + take]
  {
    assert data[..take] == wire[from..from + take];
    Joined(start, wire, at, from, from + take);
  }

  lemma Joined(start: Bytes, wire: Bytes, a: nat, b: nat, c: nat)
    requires a <= b <= c <= |wire|
    ensures start + wire[a..b] + wire[b..c] == start + wire[a..c]
  {}

  lemma NothingMoved(start: Bytes, wire: Bytes, at: nat)
    requires at <= |wire|
    ensures start + wire[at..at] == start
  {}

  lemma HeaderAndTail(hdr: Bytes, acc: Bytes)
    requires hdr <= acc
    ensures [] + hdr == hdr && hdr + acc[|hdr|..] == acc && (|hdr| == |acc| ==> hdr == acc)
  {}

  /** What was sent of the body so far is a first part of what is owed. */
  lemma SentSoFar(start: Bytes, wire: Bytes, at: nat, to: nat, len: int)
    requires at <= to <= |wire| && to - at <= Max(len, 0)
    ensures start + wire[at..to] <= Owed(Sends(start, at, len), wire)
  {
    var end := Min(at + Max(len, 0), |wire|);
    Joined(start, wire, at, to, end);
  }

  lemma SameAfterBlock(data: Bytes, rest: seq<Recv>)
    ensures AfterBlock([Chunk(data)] + rest) == AfterBlock(rest)
  {
    assert ([Chunk(data)] + rest)[1..] == rest;
  }

  lemma StillEnds(data: Bytes, rest: seq<Recv>)
    ensures EventuallyEnds([Chunk(data)] + rest) <==> EventuallyEnds(rest)
  {
    assert ([Chunk(data)] + rest)[1..] == rest;
  }

  /** What is still to arrive after `n` bytes of the first chunk were moved. */
  function Spliced(inbox: seq<Recv>, n: nat): seq<Recv>
    requires inbox != [] && inbox[0].Chunk? && n <= |inbox[0].bytes|
  {
    if n == |inbox[0].bytes| then inbox[1..] else [Chunk(inbox[0].bytes[n..])] + inbox[1..]
  }

  lemma SplicedRest(wire: Bytes, pos: nat, inbox: seq<Recv>, n: nat)
    requires inbox != [] && inbox[0].Chunk? && n <= |inbox[0].bytes| && Receivable(inbox, CHUNK)
    requires pos <= |wire| && wire[pos..] == Stream(inbox)
    ensures pos + n <= |wire| && inbox[0].bytes[..n] == wire[pos..pos + n]
    ensures Receivable(Spliced(inbox, n), CHUNK) && wire[pos + n..] == Stream(Spliced(inbox, n))
    ensures AfterBlock(Spliced(inbox, n)) == AfterBlock(inbox)
    ensures EventuallyEnds(Spliced(inbox, n)) == EventuallyEnds(inbox)
  {
    var data, rest := inbox[0].bytes, inbox[1..];
    Moved(wire, pos, data, rest, n);
    SameAfterBlock(data[n..], rest);
    StillEnds(data[n..], rest);
  }

  lemma TakenSoFar(wire: Bytes, acc: Bytes, pos: nat, data: Bytes)
    requires pos + |data| <= |wire| && acc == wire[..pos] && data == wire[pos..pos + |data|]
    ensures acc + data == wire[..pos + |data|] && (pos == 0 ==> data == wire[..|data|])
  {}

  /** A chunk of which the first `n` bytes are moved leaves the others to come. */
  lemma Moved(wire: Bytes, pos: nat, data: Bytes, rest: seq<Recv>, n: nat)
    requires n <= |data| && pos <= |wire| && wire[pos..] == data + Stream(rest)
    ensures pos + |data| <= |wire| && data[..n] == wire[pos..pos + n]
    ensures wire[pos + n..] == data[n..] + Stream(rest) == Stream([Chunk(data[n..])] + rest)
    ensures n == |data| ==> wire[pos + n..] == Stream(rest)
  {
    assert |wire[pos..]| == |data| + |Stream(rest)|;
    assert wire[pos..][..n] == wire[pos..pos + n] && wire[pos..][n..] == wire[pos + n..];
    assert ([Chunk(data[n..])] + rest)[1..] == rest;
  }

  lemma MovedWhole(wire: Bytes, pos: nat, data: Bytes, rest: seq<Recv>)
    requires pos <= |wire| && wire[pos..] == data + Stream(rest)
    ensures pos + |data| <= |wire| && data == wire[pos..pos + |data|] && wire[pos + |data|..] == Stream(rest)
  {
    Moved(wire, pos, data, rest, |data|);
    assert data[..|data|] == data;
  }

  lemma PlanOfBlock(acc: Bytes, hdr: Bytes, at: nat)
    requires HeaderEnd(acc) >= 0 && hdr == acc[..HeaderEnd(acc)] && RespCl(hdr) >= 0
    ensures ParsedPlan(acc, at) == Sends(acc, at, RespCl(hdr) - (|acc| - |hdr|))
  {}

  lemma OnwardFrom(wakes: seq<Wakeup>, i: nat)
    requires i <= |wakes| && AllStorable(wakes)
    ensures AllStorable(wakes[i..])
    ensures if i == |wakes| then wakes[i..] == []
            else wakes[i..] != [] && wakes[i..][1..] == wakes[i + 1..] && (wakes[i..][0].hangup ==> !NoHangup(wakes))
  {}

  /** A slot with an active proxy exchange, and its upstream and client connections. */
  class Proxy {
    /** What the upstream still gives, receive by receive. */
    var inbox: seq<Recv>
    /** Everything sent to the client. */
    var sent: Bytes
    var parsing: int
    var bodyMode: int
    var bodyLeft: int
    var hdrAcc: Bytes
    var outcome: Outcome
    /** Everything the upstream gives, and how much of it was taken. */
    ghost const wire: Bytes
    ghost var pos: nat
    /** What had been sent when the body began, where the body then continues on the wire, and what it still owes. */
    ghost var start: Bytes
    ghost var at: nat
    ghost var len: int
    /** Whether the `n`-th send to the client or append to the header succeeds, and how many were tried. */
    const oks: nat -> bool
    var tries: nat
    /** All the upstream gives, receive by receive. */
    ghost const gives: seq<Recv>

    constructor (inbox: seq<Recv>, oks: nat -> bool)
      ensures this.inbox == inbox == gives && this.oks == oks && wire == Stream(inbox) && pos == 0 && tries == 0
      ensures sent == [] && hdrAcc == [] && outcome == Active
    {
      this.inbox, sent, parsing, bodyMode, bodyLeft := inbox, [], PARSE_HEADER, BODY_NONE, 0;
      hdrAcc, outcome, wire, pos := [], Active, Stream(inbox), 0;
      this.oks, tries, gives := oks, 0, inbox;
    }

    /** What was taken and what is still to come make up the upstream's bytes. */
    ghost predicate Taking()
      reads this
    {
      && Receivable(inbox, CHUNK) && pos <= |wire| && wire[pos..] == Stream(inbox)
      && (EventuallyEnds(inbox) ==> EventuallyEnds(gives))
    }

    ghost predicate CallFailed()
      reads this
    {
      exists k :: 0 <= k < tries && !oks(k)
    }

    /** The upstream ends or breaks before it has given all that the plan needs. */
    ghost predicate EndsShort(plan: Plan) {
      plan.Sends? && plan.at + Max(plan.len, 0) > |wire| && EventuallyEnds(gives)
    }

    /** Why a relay may fail, but for a hang-up. */
    ghost predicate Excused(plan: Plan)
      reads this
    {
      plan.Fails? || EndsShort(plan) || CallFailed()
    }

    /** The body is being relayed: `start` and the wire from `at` were sent, in order. */
    ghost predicate Flowing()
      reads this
    {
      && outcome == Active && parsing == PARSE_DONE && bodyMode == BODY_CL
      && Taking() && at <= pos && sent == start + wire[at..pos]
      && bodyLeft == len - (pos - at) && (pos > at ==> bodyLeft >= 0)
    }

    ghost function Framed(): Plan
      reads this
    {
      Sends(start, at, len)
    }

    /** The client got exactly what it was owed. */
    ghost predicate Complete()
      reads this
    {
      at + Max(len, 0) <= |wire| && sent == Owed(Framed(), wire)
    }

    /** The client got a first part of what it was owed. */
    ghost predicate Truncated()
      reads this
    {
      sent <= Owed(Framed(), wire)
    }

    /** `httpd_proxy_splice_cl_i`: move at most `max` bytes of what has arrived straight to the client. */
    method SpliceCl(max: nat) returns (sp: int)
      requires Taking()
      modifies `inbox, `pos, `sent
      ensures Taking() && sp <= max && (sp <= 0 ==> pos == old(pos) && sent == old(sent) && inbox == old(inbox))
      ensures AfterBlock(inbox) == AfterBlock(old(inbox))
      ensures sp > 0 ==> pos == old(pos) + sp && sent == old(sent) + wire[old(pos)..pos]
    {
      sp := *;
      if sp > max || inbox == [] || !inbox[0].Chunk? || sp > |inbox[0].bytes| { sp := -1; }
      if sp > 0 {
        SplicedRest(wire, pos, inbox, sp);
        sent := sent + inbox[0].bytes[..sp];
        inbox := Spliced(inbox, sp);
        pos := pos + sp;
      }
    }

    /** `tcp_recv_nb_i` on the upstream: bytes, or 0 at the end, -1 would block, -2 error. */
    method RecvNb() returns (r: int, data: Bytes)
      requires Taking()
      modifies `inbox, `pos
      ensures inbox == Rest(old(inbox)) && data == Head(old(inbox)) && pos == old(pos) + |data| <= |wire|
      ensures r == if old(inbox) == [] then -1 else ResultOf(old(inbox)[0])
      ensures r > 0 || r == -1 ==> Taking()
      ensures r > 0 <==> old(inbox) != [] && old(inbox)[0].Chunk?
      ensures r > 0 ==> data == wire[old(pos)..pos]
      ensures r == -1 <==> old(inbox) == [] || old(inbox)[0].WouldBlock?
      ensures r == 0 || r == -2 ==> pos == |wire| && EventuallyEnds(gives)
    {
      if inbox == [] { return -1, []; }
      var event := inbox[0];
      if event.Chunk? { MovedWhole(wire, pos, event.bytes, inbox[1..]); }
      inbox := inbox[1..];
      match event
      case Chunk(bytes) =>
        pos := pos + |bytes|;
        return |bytes|, bytes;
      case WouldBlock => return -1, [];
      case End => return 0, [];
      case Error => return -2, [];
    }

    /** Send everything to the client, or fail. */
    method Forward(data: Bytes) returns (rc: int)
      modifies `sent, `tries
      ensures tries == old(tries) + 1 && (rc < 0 <==> !oks(old(tries)))
      ensures sent == (if rc < 0 then old(sent) else old(sent) + data) && (rc < 0 ==> CallFailed())
    {
      var ok := oks(tries);
      tries := tries + 1;
      if ok {
        sent := sent + data;
        return 0;
      }
      return -1;
    }

    /** Append to the accumulated header; the new length, or a failure. */
    method AppendRespHdr(data: Bytes) returns (n: int)
      modifies `hdrAcc, `tries
      ensures tries == old(tries) + 1 && (n < 0 <==> !oks(old(tries)))
      ensures n < 0 ==> hdrAcc == old(hdrAcc) && CallFailed()
      ensures n >= 0 ==> hdrAcc == old(hdrAcc) + data && n == |hdrAcc|
    {
      var ok := oks(tries);
      tries := tries + 1;
      if !ok { return -1; }
      hdrAcc := hdrAcc + data;
      return |hdrAcc|;
    }

    method FinishErr() returns (rc: int)
      modifies `outcome
      ensures outcome == Failed && rc == -1
    {
      outcome := Failed;
      return -1;
    }

    /** Of the bytes received, forward at most what is left and drop the rest. */
    method ForwardTaken(data: Bytes, ghost before: nat) returns (stop: Option<Outcome>)
      requires outcome == Active && parsing == PARSE_DONE && bodyMode == BODY_CL && Taking() && data != []
      requires at <= before && pos == before + |data| && data == wire[before..pos]
      requires sent == start + wire[at..before] && bodyLeft == len - (before - at) > 0
      modifies `sent, `bodyLeft, `tries
      ensures stop.None? ==> bodyLeft < old(bodyLeft) && (if bodyLeft > 0 then Flowing() else Complete())
      ensures stop.Some? ==> stop.value == Failed && Truncated() && CallFailed()
    {
      SentSoFar(start, wire, at, before, len);
      var take := |data|;
      if take > bodyLeft { take := bodyLeft; }
      Relayed(start, wire, at, before, data, take);
      var fwd := Forward(data[..take]);
      if fwd < 0 { return Some(Failed); }
      bodyLeft := bodyLeft - take;
      return None;
    }

    /** The receiving half of a pump round: at most what is left is forwarded, the rest is dropped. */
    method ReceiveRound() returns (stop: Option<Outcome>)
      requires Flowing() && bodyLeft > 0
      modifies `inbox, `pos, `sent, `bodyLeft, `tries
      ensures stop.None? ==> bodyLeft < old(bodyLeft) && (if bodyLeft > 0 then Flowing() else Complete())
      ensures stop.None? ==> AfterBlock(inbox) == AfterBlock(old(inbox))
      ensures stop == Some(Active) ==> Flowing() && bodyLeft > 0 && inbox == AfterBlock(old(inbox))
      ensures stop == Some(Failed) ==> Truncated() && Excused(Framed())
      ensures stop != Some(Done)
    {
      ghost var before := pos;
      SentSoFar(start, wire, at, pos, len);
      var r, data := RecvNb();
      if r == -2 || r == 0 { return Some(Failed); }
      if r == -1 { return Some(Active); }
      stop := ForwardTaken(data, before);
    }

    /** One round of the pump: splice, or receive and forward. None means the round relayed something. */
    method PumpRound() returns (stop: Option<Outcome>)
      requires Flowing() && bodyLeft > 0
      modifies `inbox, `pos, `sent, `bodyLeft, `tries
      ensures stop.None? ==> bodyLeft < old(bodyLeft) && (if bodyLeft > 0 then Flowing() else Complete())
      ensures stop.None? ==> AfterBlock(inbox) == AfterBlock(old(inbox))
      ensures stop == Some(Active) ==> Flowing() && bodyLeft > 0 && inbox == AfterBlock(old(inbox))
      ensures stop == Some(Failed) ==> Truncated() && Excused(Framed())
      ensures stop != Some(Done)
    {
      var maxSp := bodyLeft;
      if maxSp > CHUNK { maxSp := CHUNK; }
      ghost var before := pos;
      var sp := SpliceCl(maxSp);
      if sp > 0 {
        Joined(start, wire, at, before, pos);
        bodyLeft := bodyLeft - sp;
        return None;
      }
      stop := ReceiveRound();
    }

    /** The loop of the pump. None means that the length is reached. */
    method PumpRounds() returns (stop: Option<Outcome>)
      requires Flowing()
      modifies `inbox, `pos, `sent, `bodyLeft, `tries
      ensures stop.None? ==> Complete()
      ensures stop == Some(Active) ==> Flowing() && bodyLeft > 0 && inbox == AfterBlock(old(inbox))
      ensures stop == Some(Failed) ==> Truncated() && Excused(Framed())
      ensures stop != Some(Done)
    {
      while bodyLeft > 0
        invariant if bodyLeft > 0 then Flowing() else Complete()
        invariant AfterBlock(inbox) == AfterBlock(old(inbox))
        decreases bodyLeft
      {
        stop := PumpRound();
        if stop.Some? { return; }
      }
      return None;
    }

    /** Relay body bytes until the length is reached, the upstream would block, or something fails. */
    method PumpCl(host: Host) returns (rc: int)
      requires Flowing()
      modifies `inbox, `pos, `sent, `bodyLeft, `outcome, `tries, host`heap
      ensures host.heap == old(host.heap)
      ensures outcome == Active ==> Flowing() && bodyLeft > 0 && inbox == AfterBlock(old(inbox))
      ensures outcome == Done ==> Complete()
      ensures outcome == Failed ==> Truncated() && Excused(Framed())
    {
      var chunk := host.NetBufAlloc();
      var stop := PumpRounds();
      host.NetBufFree(chunk);
      if stop.Some? {
        if stop.value == Active { return 0; }
        rc := FinishErr();
        return;
      }
      outcome := Done;
      return 0;
    }

    /** The accumulated header is complete and has a length. */
    ghost predicate HeaderReady()
      reads this
    {
      HeaderEnd(hdrAcc) >= 0 && RespCl(hdrAcc[..HeaderEnd(hdrAcc)]) >= 0
    }

    /** Find and parse the accumulated header and store it in the cache. */
    method CacheHeader(cache: Cache) returns (ok: bool)
      requires cache.Valid()
      modifies cache
      ensures ok == HeaderReady() && cache.Valid()
      ensures !ok ==> unchanged(cache)
      ensures ok ==> cache.hdr == hdrAcc[..HeaderEnd(hdrAcc)] && cache.cl == RespCl(cache.hdr) && |cache.hdr| >= 4
    {
      var hlen := |hdrAcc|;
      var heEnd := HdrEndAt(hdrAcc, 0, hlen);
      assert hdrAcc[..hlen] == hdrAcc;
      if heEnd < 0 { return false; }
      var cl := ProxyParseRespCl(hdrAcc[..heEnd], heEnd);
      assert hdrAcc[..heEnd][..heEnd] == hdrAcc[..heEnd];
      if cl < 0 { return false; }
      HeaderEndStable(hdrAcc, []);
      cache.hdr, cache.cl := hdrAcc[..heEnd], cl;
      return true;
    }

    /** Forward the cached header and the accumulated bytes behind it; the rest of the length is left to pump. */
    method SendHeader(cache: Cache) returns (ok: bool)
      requires sent == [] && cache.hdr <= hdrAcc
      modifies `sent, `parsing, `bodyMode, `bodyLeft, `tries
      ensures !ok ==> sent <= hdrAcc && CallFailed()
      ensures ok ==> sent == hdrAcc && parsing == PARSE_DONE && bodyMode == BODY_CL
      ensures ok ==> bodyLeft == cache.cl - (|hdrAcc| - |cache.hdr|)
    {
      HeaderAndTail(cache.hdr, hdrAcc);
      var hdrBytes := |cache.hdr|;
      var fwd := Forward(cache.hdr);
      if fwd < 0 { return false; }
      parsing, bodyMode, bodyLeft := PARSE_DONE, BODY_CL, cache.cl;
      var tail := |hdrAcc| - hdrBytes;
      if tail > 0 {
        var snd := Forward(hdrAcc[hdrBytes..]);
        if snd < 0 { return false; }
        bodyLeft := bodyLeft - tail;
      }
      return true;
    }

    lemma Begins()
      requires outcome == Active && parsing == PARSE_DONE && bodyMode == BODY_CL && Taking()
      requires sent == start && at == pos && bodyLeft == len
      ensures Flowing()
    {
      NothingMoved(start, wire, at);
    }

    /** The relay has done what the plan says, as far as it got: what it sent is a first part of what is owed;
        when done it is all of it. */
    ghost predicate Met(plan: Plan)
      reads this
    {
      && sent <= Owed(plan, wire)
      && (plan.Counting? ==> outcome == Failed || parsing != PARSE_DONE)
      && (plan.Fails? ==> outcome == Failed)
      && (plan.Sends? ==> outcome == Failed || (parsing == PARSE_DONE && plan == Framed()))
      && (outcome == Active && parsing == PARSE_DONE ==> plan.Sends? && Flowing() && bodyLeft > 0)
      && (outcome == Done ==> plan.Sends? && parsing == PARSE_DONE && Complete())
    }

    lemma EndedEarly(plan: Plan)
      requires outcome == Failed
      requires sent == [] || (plan.Sends? && plan.at <= |wire| && sent <= plan.start)
      ensures Met(plan)
    {}

    lemma Pumped()
      requires parsing == PARSE_DONE
      requires match outcome
               case Active => Flowing() && bodyLeft > 0
               case Done => Complete()
               case Failed => Truncated()
      ensures Met(Framed())
    {
      if outcome == Active { SentSoFar(start, wire, at, pos, len); }
    }

    /** The header is sent; pump the body. */
    method BeginBody(host: Host) returns (rc: int)
      requires outcome == Active && parsing == PARSE_DONE && bodyMode == BODY_CL && Taking()
      modifies this, host`heap
      ensures host.heap == old(host.heap) && hdrAcc == old(hdrAcc)
      ensures var plan := old(Sends(sent, pos, bodyLeft)); Met(plan) && (outcome == Failed ==> Excused(plan))
      ensures outcome == Active ==> inbox == AfterBlock(old(inbox))
    {
      start, at, len := sent, pos, bodyLeft;
      Begins();
      rc := PumpCl(host);
      Pumped();
    }

    /** Forward the header just stored and the bytes behind it, then pump. */
    method SendParsed(host: Host, cache: Cache, ghost plan: Plan) returns (rc: int)
      requires outcome == Active && Taking() && sent == [] && cache.hdr <= hdrAcc
      requires plan == Sends(hdrAcc, pos, cache.cl - (|hdrAcc| - |cache.hdr|))
      modifies this, host`heap
      ensures host.heap == old(host.heap) && hdrAcc == old(hdrAcc)
      ensures Met(plan) && (outcome == Failed ==> Excused(plan))
      ensures outcome == Active ==> inbox == AfterBlock(old(inbox))
    {
      var ok := SendHeader(cache);
      if !ok {
        rc := FinishErr();
        EndedEarly(plan);
        return;
      }
      rc := BeginBody(host);
    }

    /** Parse and cache the accumulated header, forward it and the body bytes behind it, then pump. */
    method FinishRespHeaders(host: Host, cache: Cache) returns (rc: int)
      requires outcome == Active && Taking() && sent == [] && cache.Valid()
      modifies this, host`heap, cache
      ensures host.heap == old(host.heap) && hdrAcc == old(hdrAcc) && cache.Valid()
      ensures !old(HeaderReady()) ==> outcome == Failed && sent == [] && unchanged(cache)
      ensures old(HeaderReady()) ==> cache.hdr == hdrAcc[..HeaderEnd(hdrAcc)] && cache.cl == RespCl(cache.hdr)
      ensures var plan := ParsedPlan(hdrAcc, old(pos)); Met(plan) && (outcome == Failed ==> Excused(plan))
      ensures outcome == Active ==> inbox == AfterBlock(old(inbox))
    {
      ghost var plan := ParsedPlan(hdrAcc, pos);
      var ready := CacheHeader(cache);
      if !ready {
        rc := FinishErr();
        EndedEarly(plan);
        return;
      }
      PlanOfBlock(hdrAcc, cache.hdr, pos);
      rc := SendParsed(host, cache, plan);
    }

    /** Forward the cached header; of the body, `extra` bytes have already been taken. */
    method SendCached(host: Host, cache: Cache, extra: nat) returns (rc: int)
      requires outcome == Active && Taking() && sent == []
      modifies this, host`heap
      ensures host.heap == old(host.heap)
      ensures var plan := Sends(cache.hdr, old(pos), cache.cl - extra);
              Met(plan) && (outcome == Failed ==> Excused(plan))
      ensures outcome == Active ==> inbox == AfterBlock(old(inbox))
    {
      var fwd := Forward(cache.hdr);
      if fwd < 0 {
        rc := FinishErr();
        EndedEarly(Sends(cache.hdr, pos, cache.cl - extra));
        return;
      }
      parsing, bodyMode := PARSE_DONE, BODY_CL;
      bodyLeft := cache.cl - extra;
      HeaderAndTail(cache.hdr, cache.hdr);
      rc := BeginBody(host);
    }

    /** Header bytes while a cached header is expected: they are only counted, and the cached header is forwarded. */
    method FeedCachedHdr(host: Host, cache: Cache, data: Bytes) returns (rc: int)
      requires outcome == Active && parsing == PARSE_CACHED && Taking() && sent == []
      requires Storable(cache.Held()) && |hdrAcc| + |data| == pos
      modifies this, host`heap, cache
      ensures host.heap == old(host.heap) && cache.Valid()
      ensures old(|hdrAcc| < |cache.hdr|) ==> unchanged(cache)
      ensures var plan := old(ChunkPlan(true, cache.Held(), hdrAcc, data));
              && Met(plan)
              && (outcome == Failed ==> Excused(plan))
              && (plan.Sends? && outcome == Active ==> inbox == AfterBlock(old(inbox)))
              && (plan.Counting? && outcome == Active ==>
                   hdrAcc == old(hdrAcc) + data && unchanged(`parsing, `inbox, `pos))
    {
      ghost var plan := ChunkPlan(true, cache.Held(), hdrAcc, data);
      var need, got := |cache.hdr|, |hdrAcc|;
      if got >= need {
        assert plan == ParsedPlan(hdrAcc, pos);
        rc := FinishRespHeaders(host, cache);
        return;
      }
      var room := need - got;
      var take := |data|;
      if take > room { take := room; }
      var extra := |data| - take;
      assert plan == if |data| < room then Counting else Sends(cache.hdr, pos, cache.cl - extra);
      var appended := AppendRespHdr(data[..take]);
      if appended < 0 {
        rc := FinishErr();
        EndedEarly(plan);
        return;
      }
      if appended >= need {
        rc := SendCached(host, cache, extra);
        return;
      }
      assert data[..take] == data;
      return 0;
    }

    method EnterRelay(cache: Cache) returns (rc: int)
      modifies `parsing, `bodyMode
      ensures parsing == if cache.cl >= 0 && |cache.hdr| > 0 then PARSE_CACHED else PARSE_HEADER
    {
      if cache.cl >= 0 {
        if |cache.hdr| > 0 {
          parsing, bodyMode := PARSE_CACHED, BODY_NONE;
          return 0;
        }
      }
      parsing := PARSE_HEADER;
      return 0;
    }

    /** Between wake-ups before the response header is complete. */
    ghost predicate AwaitsHeader(cache: Cache)
      reads this, cache
    {
      && outcome == Active && Taking() && sent == [] && hdrAcc == wire[..pos] && cache.Valid()
      && (parsing == PARSE_HEADER || (parsing == PARSE_CACHED && Storable(cache.Held())))
      && (parsing == PARSE_HEADER ==> pos == 0)
    }

    /** One wake-up of the upstream socket. Before the header is complete it takes one receive and does what the
        plan for it says; afterwards it pumps. */
    method OnUp(host: Host, cache: Cache, hangup: bool) returns (rc: int)
      requires AwaitsHeader(cache) || (Flowing() && bodyLeft > 0 && cache.Valid())
      modifies this, host`heap, cache
      ensures host.heap == old(host.heap) && cache.Valid()
      ensures hangup ==> outcome == Failed && sent == old(sent) && unchanged(cache)
      ensures !hangup && old(parsing) == PARSE_DONE ==>
                && Met(old(Framed())) && unchanged(cache) && (outcome == Failed ==> Excused(old(Framed())))
                && (outcome == Active ==> inbox == AfterBlock(old(inbox)))
      ensures !hangup && old(parsing) != PARSE_DONE ==>
                var plan := old(ReceivePlan(parsing == PARSE_CACHED, cache.Held(), hdrAcc, inbox));
                && Met(plan)
                && (outcome == Failed ==> Excused(plan))
                && (plan.Sends? && outcome == Active ==> inbox == AfterBlock(old(inbox)))
                && (plan.Counting? && outcome == Active ==>
                     && AwaitsHeader(cache) && unchanged(cache, `parsing)
                     && hdrAcc == old(hdrAcc + Head(inbox)) && inbox == Rest(old(inbox)))
    {
      if hangup {
        rc := FinishErr();
        return;
      }
      if parsing == PARSE_DONE {
        if bodyMode == BODY_CL {
          rc := PumpCl(host);
          Pumped();
          return;
        }
        return 0;
      }
      rc := OnUpHeader(host, cache);
    }

    /** The receiving part of a wake-up before the header is complete. */
    method OnUpHeader(host: Host, cache: Cache) returns (rc: int)
      requires AwaitsHeader(cache)
      modifies this, host`heap, cache
      ensures host.heap == old(host.heap) && cache.Valid()
      ensures var plan := old(ReceivePlan(parsing == PARSE_CACHED, cache.Held(), hdrAcc, inbox));
              && Met(plan)
              && (outcome == Failed ==> Excused(plan))
              && (plan.Sends? && outcome == Active ==> inbox == AfterBlock(old(inbox)))
              && (plan.Counting? && outcome == Active ==>
                   && AwaitsHeader(cache) && unchanged(cache, `parsing)
                   && hdrAcc == old(hdrAcc + Head(inbox)) && inbox == Rest(old(inbox)))
    {
      ghost var plan := ReceivePlan(parsing == PARSE_CACHED, cache.Held(), hdrAcc, inbox);
      ReceivePlanIs(parsing == PARSE_CACHED, cache.Held(), hdrAcc, inbox);
      var chunk := host.NetBufAlloc();
      var nr, data := RecvHeader(cache);
      if nr == -2 || nr == 0 {
        host.NetBufFree(chunk);
        rc := FinishErr();
        EndedEarly(plan);
        return;
      }
      if nr == -1 {
        host.NetBufFree(chunk);
        return 0;
      }
      rc := OnUpRecv(host, cache, chunk, data);
    }

    /** A receive while the header is awaited. */
    method RecvHeader(cache: Cache) returns (nr: int, data: Bytes)
      requires AwaitsHeader(cache)
      modifies `inbox, `pos
      ensures nr >= -2 && inbox == Rest(old(inbox)) && data == Head(old(inbox))
      ensures nr == -1 <==> old(inbox) == [] || old(inbox)[0].WouldBlock?
      ensures nr > 0 <==> old(inbox) != [] && old(inbox)[0].Chunk?
      ensures nr == -1 ==> AwaitsHeader(cache)
      ensures nr > 0 ==> Received(cache, data)
    {
      ghost var before, acc := pos, hdrAcc;
      nr, data := RecvNb();
      if nr > 0 { TakenSoFar(wire, acc, before, data); }
    }

    /** A chunk was received while the header is awaited, and is not yet accumulated. */
    ghost predicate Received(cache: Cache, data: Bytes)
      reads this, cache
    {
      && outcome == Active && Taking() && sent == [] && cache.Valid()
      && hdrAcc + data == wire[..pos] && parsing in {PARSE_HEADER, PARSE_CACHED}
      && if parsing == PARSE_CACHED then Storable(cache.Held()) else hdrAcc == [] && data == wire[..pos]
    }

    /** A received chunk, which belongs to a cached header or is the first. */
    method OnUpRecv(host: Host, cache: Cache, chunk: int, data: Bytes) returns (rc: int)
      requires Received(cache, data) && chunk in host.heap
      modifies this, host`heap, cache
      ensures host.heap == old(host.heap) - {chunk} && cache.Valid()
      ensures var plan := old(ChunkPlan(parsing == PARSE_CACHED, cache.Held(), hdrAcc, data));
              && Met(plan)
              && (outcome == Failed ==> Excused(plan))
              && (plan.Sends? && outcome == Active ==> inbox == AfterBlock(old(inbox)))
              && (plan.Counting? && outcome == Active ==>
                   AwaitsHeader(cache) && unchanged(cache, `parsing, `inbox) && hdrAcc == old(hdrAcc) + data)
    {
      if parsing == PARSE_CACHED {
        rc := OnUpRecvCached(host, cache, chunk, data);
      } else {
        rc := OnUpRecvParse(host, cache, chunk, data);
      }
    }

    method OnUpRecvCached(host: Host, cache: Cache, chunk: int, data: Bytes) returns (rc: int)
      requires outcome == Active && parsing == PARSE_CACHED && Taking() && sent == []
      requires Storable(cache.Held()) && hdrAcc + data == wire[..pos] && chunk in host.heap
      modifies this, host`heap, cache
      ensures host.heap == old(host.heap) - {chunk} && cache.Valid()
      ensures var plan := old(ChunkPlan(true, cache.Held(), hdrAcc, data));
              && Met(plan)
              && (outcome == Failed ==> Excused(plan))
              && (plan.Sends? && outcome == Active ==> inbox == AfterBlock(old(inbox)))
              && (plan.Counting? && outcome == Active ==>
                   AwaitsHeader(cache) && unchanged(cache, `parsing, `inbox) && hdrAcc == old(hdrAcc) + data)
    {
      rc := FeedCachedHdr(host, cache, data);
      host.NetBufFree(chunk);
    }

    method OnUpRecvParse(host: Host, cache: Cache, chunk: int, data: Bytes) returns (rc: int)
      requires outcome == Active && parsing == PARSE_HEADER && Taking() && sent == []
      requires hdrAcc == [] && data == wire[..pos] && cache.Valid() && chunk in host.heap
      modifies this, host`heap, cache
      ensures host.heap == old(host.heap) - {chunk} && cache.Valid()
      ensures var plan := ParsedPlan(data, |data|); Met(plan) && (outcome == Failed ==> Excused(plan))
      ensures outcome == Active ==> inbox == AfterBlock(old(inbox))
    {
      var appended := AppendRespHdr(data);
      host.NetBufFree(chunk);
      if appended < 0 {
        rc := FinishErr();
        return;
      }
      assert [] + data == data;
      rc := FinishRespHeaders(host, cache);
    }

    /** The relay does what the plan for the wake-ups that are left says, or has done so, and after them `end` is
        still to arrive. */
    ghost predicate OnPlan(cache: Cache, plan: Plan, end: seq<Recv>, left: seq<Wakeup>)
      reads this, cache
    {
      && cache.Valid()
      && if outcome == Active && parsing != PARSE_DONE then
           && AwaitsHeader(cache)
           && plan == HeaderPlan(parsing == PARSE_CACHED, cache.Held(), hdrAcc, inbox, left)
           && end == LeftAfter(parsing == PARSE_CACHED, cache.Held(), hdrAcc, inbox, left)
         else
           Met(plan) && (outcome == Active ==> end == LeftOfBody(inbox, left))
    }

    /** A wake-up before the header is complete. */
    method HeaderWake(host: Host, cache: Cache, hangup: bool, ghost plan: Plan, ghost end: seq<Recv>,
                      ghost left: seq<Wakeup>) returns (rc: int)
      requires AwaitsHeader(cache)
      requires plan == PlanThen(hangup, parsing == PARSE_CACHED, cache.Held(), hdrAcc, inbox, left)
      requires hangup || end == LeftThen(parsing == PARSE_CACHED, cache.Held(), hdrAcc, inbox, left)
      modifies this, host`heap, cache
      ensures host.heap == old(host.heap) && OnPlan(cache, plan, end, left)
      ensures outcome == Failed ==> Excused(plan) || hangup
    {
      rc := OnUp(host, cache, hangup);
      if hangup { EndedEarly(plan); }
    }

    /** A wake-up while the body is pumped. */
    method BodyWake(host: Host, cache: Cache, hangup: bool, ghost plan: Plan, ghost end: seq<Recv>,
                    ghost left: seq<Wakeup>) returns (rc: int)
      requires Flowing() && bodyLeft > 0 && cache.Valid() && Met(plan) && end == LeftOfBody(AfterBlock(inbox), left)
      modifies this, host`heap, cache
      ensures host.heap == old(host.heap) && OnPlan(cache, plan, end, left)
      ensures outcome == Failed ==> Excused(plan) || hangup
    {
      rc := OnUp(host, cache, hangup);
    }

    /** The next wake-up, after what other slots have stored since the last. */
    method NextWake(host: Host, cache: Cache, wakes: seq<Wakeup>, ghost plan: Plan, ghost end: seq<Recv>)
      returns (rc: int)
      requires outcome == Active && wakes != [] && AllStorable(wakes) && OnPlan(cache, plan, end, wakes)
      modifies this, host`heap, cache
      ensures host.heap == old(host.heap) && OnPlan(cache, plan, end, wakes[1..])
      ensures outcome == Failed ==> Excused(plan) || wakes[0].hangup
    {
      cache.Change(wakes[0].stored);
      if parsing == PARSE_DONE {
        rc := BodyWake(host, cache, wakes[0].hangup, plan, end, wakes[1..]);
      } else {
        rc := HeaderWake(host, cache, wakes[0].hangup, plan, end, wakes[1..]);
      }
    }

    /** A whole relay: enter it, then any number of wake-ups, whatever other slots store in between. It does what
        the plan for the upstream's chunks says, fails only for a reason, and takes what has arrived. */
    method Relay(host: Host, cache: Cache, wakes: seq<Wakeup>)
      requires outcome == Active && Taking() && pos == 0 && sent == [] && hdrAcc == []
      requires cache.Valid() && AllStorable(wakes)
      modifies this, host`heap, cache
      ensures host.heap == old(host.heap)
      ensures var plan := old(RelayPlan(cache.Held(), inbox, wakes));
              Met(plan) && (outcome == Failed ==> Excused(plan) || !NoHangup(wakes))
      ensures outcome == Active ==> Taking() && inbox == old(RelayLeft(cache.Held(), inbox, wakes))
    {
      ghost var plan, end := RelayPlan(cache.Held(), inbox, wakes), RelayLeft(cache.Held(), inbox, wakes);
      var rc := EnterRelay(cache);
      Entered(cache, wakes);
      var i := 0;
      while i < |wakes| && outcome == Active
        invariant 0 <= i <= |wakes| && host.heap == old(host.heap) && OnPlan(cache, plan, end, wakes[i..])
        invariant outcome == Failed ==> Excused(plan) || !NoHangup(wakes)
      {
        OnwardFrom(wakes, i);
        rc := NextWake(host, cache, wakes[i..], plan, end);
        i := i + 1;
      }
      OnwardFrom(wakes, i);
      PlanMet(cache, plan, end, wakes[i..]);
    }

    lemma Entered(cache: Cache, wakes: seq<Wakeup>)
      requires outcome == Active && Taking() && pos == 0 && sent == [] && hdrAcc == [] && cache.Valid()
      requires parsing == if cache.cl >= 0 && cache.hdr != [] then PARSE_CACHED else PARSE_HEADER
      ensures OnPlan(cache, RelayPlan(cache.Held(), inbox, wakes), RelayLeft(cache.Held(), inbox, wakes), wakes[0..])
    {
      assert wakes[0..] == wakes && wire[..0] == [];
    }

    lemma PlanMet(cache: Cache, plan: Plan, end: seq<Recv>, left: seq<Wakeup>)
      requires OnPlan(cache, plan, end, left) && (outcome == Active ==> left == [])
      ensures Met(plan) && (outcome == Active ==> Taking() && inbox == end)
    {}

    /** A relay is done as soon as all it owes has arrived, if no call failed and nothing hung up. */
    lemma DoneOnceArrived(plan: Plan, wakes: seq<Wakeup>, left: seq<Recv>)
      requires Met(plan) && (outcome == Failed ==> Excused(plan) || !NoHangup(wakes))
      requires outcome == Active ==> Taking() && inbox == left
      requires plan.Sends? && plan.at + Max(plan.len, 0) + |Stream(left)| <= |wire|
      requires NoHangup(wakes) && forall k :: oks(k)
      ensures outcome == Done && sent == Owed(plan, wire)
    {}
  }

  // ---------------------------------------------------------------- which schedules give the client the response

  /** The response on the wire: its header block and as many body bytes as its length says. */
  predicate IsResponse(wire: Bytes, he: nat, cl: nat) {
    HeaderEnd(wire) == he && he + cl <= |wire| && RespCl(wire[..he]) == cl
  }

  /** How much was taken once at least `need` bytes were, in whole receives. */
  function Boundary(inbox: seq<Recv>, need: nat): (r: nat)
    ensures r <= |Stream(inbox)| && (need <= |Stream(inbox)| ==> need <= r)
  {
    if need == 0 || inbox == [] || inbox[0].End? || inbox[0].Error? then 0
    else
      var n := |BytesOf(inbox[0])|;
      n + Boundary(inbox[1..], if n < need then need - n else 0)
  }

  predicate NoHangup(wakes: seq<Wakeup>) {
    forall i :: 0 <= i < |wakes| ==> !wakes[i].hangup
  }

  /** The wake-ups were enough to come to a plan, and no hang-up prevented it. */
  predicate Decided(plan: Plan, wakes: seq<Wakeup>) {
    plan.Sends? || (plan.Fails? && NoHangup(wakes))
  }

  lemma FirstChunk(held: Header, inbox: seq<Recv>)
    requires inbox != [] && inbox[0].Chunk? && inbox[0].bytes != []
    ensures var first := Boundary(inbox, 1);
            && first == |inbox[0].bytes| && Stream(inbox)[..first] == inbox[0].bytes
            && ReceivePlan(false, held, [], inbox) == ParsedPlan(Stream(inbox)[..first], first)
  {
    assert [] + inbox[0].bytes == inbox[0].bytes;
  }

  lemma PlanUnfolds(cached: bool, held: Header, acc: Bytes, inbox: seq<Recv>, wakes: seq<Wakeup>)
    requires (!cached ==> acc == []) && Decided(HeaderPlan(cached, held, acc, inbox, wakes), wakes)
    ensures wakes != [] && !wakes[0].hangup && (NoHangup(wakes) ==> NoHangup(wakes[1..]))
    ensures HeaderPlan(cached, held, acc, inbox, wakes) ==
            PlanThen(false, cached, HeldAt(held, wakes[0]), acc, inbox, wakes[1..])
  {
    if wakes != [] {
      assert HeaderPlan(cached, held, acc, inbox, wakes) ==
             PlanThen(wakes[0].hangup, cached, HeldAt(held, wakes[0]), acc, inbox, wakes[1..]);
      assert NoHangup(wakes) ==> !wakes[0].hangup;
    }
  }

  lemma FirstWakeDecided(held: Header, inbox: seq<Recv>, wakes: seq<Wakeup>)
    requires Decided(HeaderPlan(false, held, [], inbox, wakes), wakes)
    ensures wakes != [] && !wakes[0].hangup
    ensures var now, plan := HeldAt(held, wakes[0]), HeaderPlan(false, held, [], inbox, wakes);
            if inbox == [] || inbox[0].WouldBlock? then
              plan == HeaderPlan(false, now, [], Rest(inbox), wakes[1..]) && Decided(plan, wakes[1..])
            else plan == ReceivePlan(false, now, [], inbox)
  {
    PlanUnfolds(false, held, [], inbox, wakes);
    assert inbox == [] || inbox[0].WouldBlock? ==> [] + Head(inbox) == [];
  }

  lemma NothingYet(inbox: seq<Recv>, need: nat)
    requires inbox != [] && inbox[0].WouldBlock?
    ensures Stream(inbox) == Stream(inbox[1..]) && Boundary(inbox, need) == Boundary(inbox[1..], need)
  {
    assert [] + Stream(inbox[1..]) == Stream(inbox[1..]);
  }

  lemma {:induction false} ParsedPlanIs(held: Header, inbox: seq<Recv>, wakes: seq<Wakeup>)
    requires Receivable(inbox, CHUNK) && Stream(inbox) != []
    requires Decided(HeaderPlan(false, held, [], inbox, wakes), wakes)
    ensures var first := Boundary(inbox, 1);
            && first > 0
            && HeaderPlan(false, held, [], inbox, wakes) == ParsedPlan(Stream(inbox)[..first], first)
    decreases |wakes|
  {
    FirstWakeDecided(held, inbox, wakes);
    if inbox[0].WouldBlock? {
      NothingYet(inbox, 1);
      ParsedPlanIs(HeldAt(held, wakes[0]), inbox[1..], wakes[1..]);
    } else {
      FirstChunk(HeldAt(held, wakes[0]), inbox);
    }
  }

  /** The header parsed from the first bytes of a response. */
  lemma ParsedExactIff(wire: Bytes, first: nat, he: nat, cl: nat)
    requires IsResponse(wire, he, cl) && first <= |wire|
    ensures var plan := ParsedPlan(wire[..first], first);
            && (plan.Sends? <==> he <= first)
            && (plan.Sends? ==> Owed(plan, wire) == wire[..Max(first, he + cl)])
  {
    var acc := wire[..first];
    assert acc + wire[first..] == wire;
    if he <= first {
      SameFirstTerminator(wire, acc, he);
      assert acc[..he] == wire[..he];
      Joined([], wire, 0, first, Max(first, he + cl));
    } else if HeaderEnd(acc) >= 0 {
      HeaderEndStable(acc, wire[first..]);
    }
  }

  /** The cache holds nothing that a relay would use. */
  predicate Uncached(held: Header) { held.cl < 0 || held.bytes == [] }

  /** A relay without a cached header, whatever the cache holds later. It sends something exactly if its first
      receive holds the whole header, and sends exactly the response if and only if that receive also does
      not run past it; otherwise it sends all it received. */
  lemma ParsedRelayIff(held: Header, inbox: seq<Recv>, wakes: seq<Wakeup>, he: nat, cl: nat)
    requires Uncached(held) && Receivable(inbox, CHUNK) && IsResponse(Stream(inbox), he, cl)
    requires Decided(RelayPlan(held, inbox, wakes), wakes)
    ensures var plan, wire, first := RelayPlan(held, inbox, wakes), Stream(inbox), Boundary(inbox, 1);
            && (plan.Sends? <==> he <= first)
            && (plan.Sends? ==> Owed(plan, wire) == wire[..Max(first, he + cl)])
            && (Owed(plan, wire) == wire[..he + cl] <==> he <= first <= he + cl)
  {
    ParsedPlanIs(held, inbox, wakes);
    ParsedExactIff(Stream(inbox), Boundary(inbox, 1), he, cl);
  }

  /** Bytes 'C', 'o' and ':' at offsets 0, 1 and 14 of some position, and a digit behind them. */
  predicate GivesLength(block: Bytes) {
    exists i, j :: 0 <= i && i + 15 <= j < |block| && 48 <= block[j] <= 57 &&
      block[i] == 67 && block[i + 1] == 111 && block[i + 14] == 58
  }

  lemma NoLengthPlan(acc: Bytes, at: nat)
    requires HeaderEnd(acc) >= 0 ==> !GivesLength(acc[..HeaderEnd(acc)])
    ensures ParsedPlan(acc, at) == Fails
  {
    if HeaderEnd(acc) >= 0 { NoLengthIff(acc[..HeaderEnd(acc)]); }
  }

  /** Without a cached header, a response whose whole header arrives first and gives no length fails the relay,
      and the client is sent nothing. */
  lemma NoLengthFails(p: Proxy, held: Header, inbox: seq<Recv>, wakes: seq<Wakeup>, he: nat)
    requires Uncached(held) && Receivable(inbox, CHUNK) && HeaderEnd(Stream(inbox)) == he <= Boundary(inbox, 1)
    requires !GivesLength(Stream(inbox)[..he]) && Decided(RelayPlan(held, inbox, wakes), wakes)
    requires p.Met(RelayPlan(held, inbox, wakes))
    ensures p.outcome == Failed && p.sent == []
  {
    ParsedPlanIs(held, inbox, wakes);
    NoLengthInFirst(Stream(inbox), Boundary(inbox, 1), he);
  }

  lemma NoLengthInFirst(wire: Bytes, first: nat, he: nat)
    requires HeaderEnd(wire) == he <= first <= |wire| && !GivesLength(wire[..he])
    ensures ParsedPlan(wire[..first], first) == Fails
  {
    SameFirstTerminator(wire, wire[..first], he);
    assert wire[..first][..he] == wire[..he];
    NoLengthPlan(wire[..first], first);
  }

  predicate KeepsHeader(wakes: seq<Wakeup>, held: Header) {
    forall i :: 0 <= i < |wakes| ==> wakes[i].stored in {None, Some(held)}
  }

  lemma {:induction false} CountedPlanIs(held: Header, acc: Bytes, inbox: seq<Recv>, wakes: seq<Wakeup>)
    requires Receivable(inbox, CHUNK) && KeepsHeader(wakes, held) && |acc| < |held.bytes|
    requires Decided(HeaderPlan(true, held, acc, inbox, wakes), wakes)
    ensures var need := |held.bytes|;
            var plan, at := HeaderPlan(true, held, acc, inbox, wakes), |acc| + Boundary(inbox, need - |acc|);
            && (plan.Sends? <==> need <= |acc| + |Stream(inbox)|)
            && (plan.Sends? ==> need <= at <= |acc| + |Stream(inbox)|)
            && (plan.Sends? ==> plan == Sends(held.bytes, at, held.cl - (at - need)))
    decreases |wakes|
  {
    PlanUnfolds(true, held, acc, inbox, wakes);
    assert HeldAt(held, wakes[0]) == held;
    if ReceivePlan(true, held, acc, inbox).Counting? {
      CountedPlanIs(held, acc + Head(inbox), Rest(inbox), wakes[1..]);
    }
  }

  lemma CountedFromStart(held: Header, inbox: seq<Recv>, wakes: seq<Wakeup>)
    requires Receivable(inbox, CHUNK) && KeepsHeader(wakes, held) && held.bytes != []
    requires Decided(HeaderPlan(true, held, [], inbox, wakes), wakes)
    ensures var plan, n, at := HeaderPlan(true, held, [], inbox, wakes), |held.bytes|, Boundary(inbox, |held.bytes|);
            if n <= |Stream(inbox)| then n <= at <= |Stream(inbox)| && plan == Sends(held.bytes, at, held.cl - (at - n))
            else plan == Fails
  {
    CountedPlanIs(held, [], inbox, wakes);
  }

  /** The header held when the counting ends is sent, and the bytes behind it in the same receive are dropped: the
      client has exactly the response if and only if the upstream sent that header and nothing was dropped
      or there is no body. */
  lemma CountedExactIff(wire: Bytes, h: Header, at: nat, he: nat, cl: nat)
    requires Storable(h) && IsResponse(wire, he, cl) && |h.bytes| <= at <= |wire|
    ensures Owed(Sends(h.bytes, at, h.cl - (at - |h.bytes|)), wire) == wire[..he + cl] <==>
            wire[..he] == h.bytes && (at == |h.bytes| || h.cl == 0)
  {
    var n := |h.bytes|;
    var end := Min(at + Max(h.cl - (at - n), 0), |wire|);
    if h.bytes + wire[at..end] == wire[..he + cl] { StartsWithHeader(wire, h, wire[at..end], he, cl); }
    if wire[..he] == h.bytes && (at == n || h.cl == 0) { NothingDropped(wire, h, at, cl); }
  }

  lemma NothingDropped(wire: Bytes, h: Header, at: nat, cl: nat)
    requires |h.bytes| <= at <= |wire| && |h.bytes| + cl <= |wire| && h.bytes <= wire && h.cl == cl
    requires at == |h.bytes| || cl == 0
    ensures Owed(Sends(h.bytes, at, h.cl - (at - |h.bytes|)), wire) == wire[..|h.bytes| + cl]
  {
    if at == |h.bytes| { Joined([], wire, 0, at, at + cl); }
  }

  lemma StartsWithHeader(wire: Bytes, h: Header, more: Bytes, he: nat, cl: nat)
    requires Storable(h) && IsResponse(wire, he, cl) && h.bytes + more == wire[..he + cl]
    ensures wire[..he] == h.bytes && h.cl == cl == |more|
  {
    HeaderEndStable(h.bytes, more);
    SameFirstTerminator(wire, wire[..he + cl], he);
    assert (h.bytes + more)[..he] == wire[..he + cl][..he];
    assert |h.bytes + more| == he + cl;
  }

  /** A relay that counts against a cached header which stays the same: the client has exactly the response if and
      only if the upstream repeated that header and a receive ended with it or there is no body. */
  lemma CachedRelayIff(held: Header, inbox: seq<Recv>, wakes: seq<Wakeup>, he: nat, cl: nat)
    requires Storable(held) && Receivable(inbox, CHUNK) && IsResponse(Stream(inbox), he, cl) && KeepsHeader(wakes, held)
    requires Decided(RelayPlan(held, inbox, wakes), wakes)
    ensures var plan, wire, n := RelayPlan(held, inbox, wakes), Stream(inbox), |held.bytes|;
            Owed(plan, wire) == wire[..he + cl] <==>
            wire[..he] == held.bytes && (Boundary(inbox, n) == n || held.cl == 0)
  {
    CountedFromStart(held, inbox, wakes);
    var plan, at := RelayPlan(held, inbox, wakes), Boundary(inbox, |held.bytes|);
    DecidedExactIff(plan, Stream(inbox), held, at, he, cl);
  }

  lemma DecidedExactIff(plan: Plan, wire: Bytes, h: Header, at: nat, he: nat, cl: nat)
    requires Storable(h) && IsResponse(wire, he, cl)
    requires if |h.bytes| <= |wire| then
               |h.bytes| <= at <= |wire| && plan == Sends(h.bytes, at, h.cl - (at - |h.bytes|))
             else plan == Fails
    ensures Owed(plan, wire) == wire[..he + cl] <==> wire[..he] == h.bytes && (at == |h.bytes| || h.cl == 0)
  {
    if |h.bytes| <= |wire| {
      CountedExactIff(wire, h, at, he, cl);
    } else {
      assert |wire[..he + cl]| >= 4 && |wire[..he]| < |h.bytes|;
    }
  }

  lemma RepeatedHeader(held: Header, wire: Bytes)
    requires Storable(held) && held.bytes <= wire && |held.bytes| + held.cl <= |wire|
    ensures IsResponse(wire, |held.bytes|, held.cl) && wire[..|held.bytes|] == held.bytes
  {
    assert held.bytes + wire[|held.bytes|..] == wire;
    HeaderEndStable(held.bytes, wire[|held.bytes|..]);
  }

  /** When the upstream repeats the cached header, a receive ends with it, and the parsing relay's first receive
      holds the header and stays inside the response, both paths owe the client the same bytes. */
  lemma BothPathsAgree(held: Header, cached: seq<Recv>, parsed: seq<Recv>, other: Header,
                       cwakes: seq<Wakeup>, pwakes: seq<Wakeup>)
    requires Storable(held) && Uncached(other) && Receivable(cached, CHUNK) && Receivable(parsed, CHUNK)
    requires KeepsHeader(cwakes, held)
    requires Stream(cached) == Stream(parsed) && held.bytes <= Stream(cached)
    requires |held.bytes| + held.cl <= |Stream(cached)|
    requires Boundary(cached, |held.bytes|) == |held.bytes| <= Boundary(parsed, 1) <= |held.bytes| + held.cl
    requires Decided(RelayPlan(held, cached, cwakes), cwakes)
    requires Decided(RelayPlan(other, parsed, pwakes), pwakes)
    ensures Owed(RelayPlan(held, cached, cwakes), Stream(cached)) ==
            Owed(RelayPlan(other, parsed, pwakes), Stream(parsed)) ==
            Stream(cached)[..|held.bytes| + held.cl]
  {
    RepeatedHeader(held, Stream(cached));
    CachedRelayIff(held, cached, cwakes, |held.bytes|, held.cl);
    ParsedRelayIff(other, parsed, pwakes, |held.bytes|, held.cl);
  }

  /** What the cache holds after these wake-ups. */
  function HeldAfter(held: Header, wakes: seq<Wakeup>): Header
    decreases |wakes|
  {
    if wakes == [] then held else HeldAfter(HeldAt(held, wakes[0]), wakes[1..])
  }

  /** What is counted after `n` receives. */
  function Counted(acc: Bytes, inbox: seq<Recv>, n: nat): Bytes
    decreases n
  {
    if n == 0 then acc else Counted(acc + Head(inbox), Rest(inbox), n - 1)
  }

  /** Wake-up `i` ends the counting. */
  predicate EndsAt(held: Header, acc: Bytes, inbox: seq<Recv>, wakes: seq<Wakeup>, i: nat) {
    && i < |wakes| && HeaderPlan(true, held, acc, inbox, wakes[..i]).Counting?
    && HeaderPlan(true, held, acc, inbox, wakes[..i + 1]) == HeaderPlan(true, held, acc, inbox, wakes)
  }

  /** The counting ends while the cache holds `h`: that header is sent; but if as many bytes as it has were counted
      before, those are parsed, and the receive that came last is skipped. */
  predicate EndsCounting(plan: Plan, wire: Bytes, h: Header, counted: Bytes)
    requires plan.Sends?
  {
    && Storable(h) && counted <= wire && |counted| < plan.at <= |wire|
    && if |counted| < |h.bytes| then
         |h.bytes| <= plan.at && plan == Sends(h.bytes, plan.at, h.cl - (plan.at - |h.bytes|))
       else plan == ParsedPlan(counted, plan.at)
  }

  lemma ChunkEndsCounting(held: Header, acc: Bytes, data: Bytes, wire: Bytes)
    requires Storable(held) && data != [] && acc + data <= wire && ChunkPlan(true, held, acc, data).Sends?
    ensures EndsCounting(ChunkPlan(true, held, acc, data), wire, held, acc)
  {
    assert acc <= acc + data;
  }

  lemma EndsOneLater(held: Header, acc: Bytes, inbox: seq<Recv>, wakes: seq<Wakeup>, i: nat)
    requires wakes != [] && !wakes[0].hangup && ReceivePlan(true, HeldAt(held, wakes[0]), acc, inbox).Counting?
    requires EndsAt(HeldAt(held, wakes[0]), acc + Head(inbox), Rest(inbox), wakes[1..], i)
    ensures EndsAt(held, acc, inbox, wakes, i + 1)
    ensures HeldAfter(held, wakes[..i + 2]) == HeldAfter(HeldAt(held, wakes[0]), wakes[1..][..i + 1])
    ensures Counted(acc, inbox, i + 1) == Counted(acc + Head(inbox), Rest(inbox), i)
  {
    assert wakes[..i + 1][1..] == wakes[1..][..i] && wakes[..i + 2][1..] == wakes[1..][..i + 1];
  }

  lemma EndsAtOnce(held: Header, acc: Bytes, inbox: seq<Recv>, wakes: seq<Wakeup>)
    requires wakes != [] && !wakes[0].hangup && !ReceivePlan(true, HeldAt(held, wakes[0]), acc, inbox).Counting?
    ensures EndsAt(held, acc, inbox, wakes, 0)
    ensures HeldAfter(held, wakes[..1]) == HeldAt(held, wakes[0])
  {
    assert wakes[..0] == [] && wakes[..1][1..] == [] && wakes[..1][0] == wakes[0];
  }

  lemma OneCounted(acc: Bytes, inbox: seq<Recv>)
    requires inbox == [] || !(inbox[0].End? || inbox[0].Error?)
    ensures acc + Head(inbox) + Stream(Rest(inbox)) == acc + Stream(inbox)
  {
    if inbox != [] {
      assert Stream(inbox) == Head(inbox) + Stream(Rest(inbox));
      Regroup(acc, Head(inbox), Stream(Rest(inbox)));
    }
  }

  lemma Regroup(a: Bytes, b: Bytes, c: Bytes)
    ensures a + b + c == a + (b + c)
  {}

  /** What a counting relay sends when others may store new headers at any wake-up: it is decided by the header held
      at the wake-up that ends the counting. */
  lemma {:induction false} CountingEnds(held: Header, acc: Bytes, inbox: seq<Recv>, wakes: seq<Wakeup>, wire: Bytes)
    requires Storable(held) && AllStorable(wakes) && Receivable(inbox, CHUNK) && acc + Stream(inbox) == wire
    requires HeaderPlan(true, held, acc, inbox, wakes).Sends?
    ensures exists i: nat :: EndsAt(held, acc, inbox, wakes, i) &&
              EndsCounting(HeaderPlan(true, held, acc, inbox, wakes), wire, HeldAfter(held, wakes[..i + 1]),
                           Counted(acc, inbox, i))
    decreases |wakes|
  {
    var now := HeldAt(held, wakes[0]);
    if ReceivePlan(true, now, acc, inbox).Counting? {
      OneCounted(acc, inbox);
      var plan := HeaderPlan(true, now, acc + Head(inbox), Rest(inbox), wakes[1..]);
      CountingEnds(now, acc + Head(inbox), Rest(inbox), wakes[1..], wire);
      var j: nat :| EndsAt(now, acc + Head(inbox), Rest(inbox), wakes[1..], j) &&
                    EndsCounting(plan, wire, HeldAfter(now, wakes[1..][..j + 1]),
                                 Counted(acc + Head(inbox), Rest(inbox), j));
      EndsOneLater(held, acc, inbox, wakes, j);
      assert EndsAt(held, acc, inbox, wakes, j + 1);
    } else {
      ChunkEndsCounting(now, acc, inbox[0].bytes, wire);
      EndsAtOnce(held, acc, inbox, wakes);
      assert EndsAt(held, acc, inbox, wakes, 0);
    }
  }

  lemma PlanOfPrefix(wire: Bytes, start: Bytes, at: nat, he: nat, cl: nat)
    requires IsResponse(wire, he, cl) && start <= wire && ParsedPlan(start, at).Sends?
    ensures ParsedPlan(start, at) == Sends(start, at, he + cl - |start|)
  {
    assert start + wire[|start|..] == wire;
    HeaderEndStable(start, wire[|start|..]);
    assert start[..he] == wire[..he];
  }

  /** A relay that skipped the bytes from |start| to `at` has exactly the response if and only if the bytes that
      follow happen to be those that were still missing. */
  lemma SkippedExactIff(wire: Bytes, start: Bytes, at: nat, he: nat, cl: nat)
    requires IsResponse(wire, he, cl) && start <= wire && |start| <= at <= |wire| && ParsedPlan(start, at).Sends?
    ensures var missing := he + cl - |start|;
            Owed(ParsedPlan(start, at), wire) == wire[..he + cl] <==>
            0 <= missing && at + missing <= |wire| && wire[at..at + missing] == wire[|start|..he + cl]
  {
    PlanOfPrefix(wire, start, at, he, cl);
    var missing := he + cl - |start|;
    ContinuesIff(wire, start, wire[at..Min(at + Max(missing, 0), |wire|)], he + cl);
    if 0 <= missing { CutIff(wire, at, wire[|start|..he + cl]); }
  }

  lemma CutIff(wire: Bytes, at: nat, more: Bytes)
    requires at <= |wire|
    ensures wire[at..Min(at + |more|, |wire|)] == more <==>
            at + |more| <= |wire| && wire[at..at + |more|] == more
  {}

  lemma ContinuesIff(wire: Bytes, start: Bytes, more: Bytes, n: nat)
    requires start <= wire && n <= |wire|
    ensures start + more == wire[..n] <==> |start| <= n && more == wire[|start|..n]
  {
    if start + more == wire[..n] {
      assert (start + more)[|start|..] == more && wire[..n][|start|..] == wire[|start|..n];
    }
    if |start| <= n { Joined([], wire, 0, |start|, n); }
  }

  // ---------------------------------------------------------------- schedules that fail

  const BLANK: Bytes := [13, 10, 13, 10]

  function Sample(n: nat): Header { Header(ClBlock([], n, BLANK), n) }

  lemma SampleStorable(n: nat)
    ensures Storable(Sample(n)) && |Sample(n).bytes| == |Decimal(n)| + 20
  {
    var line := [] + Ascii("Content-Length: ") + Decimal(n);
    var name := Ascii("Content-Length: ");
    var s := ClBlock([], n, BLANK);
    assert forall k :: 0 <= k < |name| ==> name[k] != 13;
    assert s == line + BLANK;
    assert forall k :: 0 <= k < |line| ==> s[k] == line[k] != 13;
    assert TerminatorAt(s, |line|);
    ContentLengthRoundTrip([], n, BLANK);
  }

  const ONE_WAKE := [Wakeup(false, None)]

  lemma OneReceive(held: Header, data: Bytes)
    ensures Stream([Chunk(data)]) == data
    ensures RelayPlan(held, [Chunk(data)], ONE_WAKE) == ChunkPlan(!Uncached(held), held, [], data)
  {
    assert [Chunk(data)][1..] == [] && data + [] == data && ONE_WAKE[1..] == [];
  }

  /** Header and body in one receive, the header cached: the client never gets the body. */
  lemma BodyDropped(h: Header, body: Bytes)
    requires Storable(h) && |body| == h.cl
    ensures var wire := h.bytes + body;
            && IsResponse(wire, |h.bytes|, h.cl)
            && RelayPlan(h, [Chunk(wire)], ONE_WAKE) == Sends(h.bytes, |wire|, 0)
            && Owed(Sends(h.bytes, |wire|, 0), wire) == h.bytes
  {
    OneReceive(h, h.bytes + body);
    RepeatedHeader(h, h.bytes + body);
  }

  lemma CachedRelayDrops()
    ensures var wire := Sample(2).bytes + Ascii("ab");
            && Stream([Chunk(wire)]) == wire && IsResponse(wire, |Sample(2).bytes|, 2)
            && Owed(RelayPlan(Sample(2), [Chunk(wire)], ONE_WAKE), wire) == Sample(2).bytes != wire
  {
    SampleStorable(2);
    OneReceive(Sample(2), Sample(2).bytes + Ascii("ab"));
    BodyDropped(Sample(2), Ascii("ab"));
  }

  /** Nothing cached, more bytes behind the response in its first receive: the client gets them too. */
  lemma MoreSent(h: Header, body: Bytes)
    requires Storable(h) && |body| > h.cl
    ensures var wire := h.bytes + body;
            && Stream([Chunk(wire)]) == wire && IsResponse(wire, |h.bytes|, h.cl)
            && Owed(RelayPlan(Header([], -1), [Chunk(wire)], ONE_WAKE), wire) == wire
  {
    var wire := h.bytes + body;
    OneReceive(Header([], -1), wire);
    RepeatedHeader(h, wire);
    assert wire[..|wire|] == wire;
    ParsedExactIff(wire, |wire|, |h.bytes|, h.cl);
  }

  lemma ParsedRelayOversends()
    ensures var wire := Sample(2).bytes + Ascii("abc");
            && Stream([Chunk(wire)]) == wire && IsResponse(wire, |Sample(2).bytes|, 2)
            && Owed(RelayPlan(Header([], -1), [Chunk(wire)], ONE_WAKE), wire) == wire
  {
    SampleStorable(2);
    MoreSent(Sample(2), Ascii("abc"));
  }

  /** A chunked response gives no length. */
  lemma ChunkedIsRefused()
    ensures var block := Ascii("HTTP/1.1 200 OK\r\n") + Ascii("Transfer-Encoding: chunked\r\n\r\n");
            RelayPlan(Header([], -1), [Chunk(block)], ONE_WAKE) == Fails
  {
    var status, field := "HTTP/1.1 200 OK\r\n", "Transfer-Encoding: chunked\r\n\r\n";
    var data := Ascii(status) + Ascii(field);
    assert forall i :: 0 <= i < |status| ==> status[i] != 'C';
    assert forall i :: 0 <= i < |field| ==> field[i] != 'C';
    assert forall i :: 0 <= i < |Ascii(status)| ==> Ascii(status)[i] != 67;
    assert forall i :: 0 <= i < |Ascii(field)| ==> Ascii(field)[i] != 67;
    assert forall i :: 0 <= i < |data| ==> data[i] != 67;
    OneReceive(Header([], -1), data);
    NoLengthPlan(data, |data|);
  }

  /** A first receive is counted against a long header; before the second, a header no longer than it is stored. */
  lemma SecondIsSkipped(long: Header, h: Header, first: Bytes, second: Bytes)
    requires |h.bytes| <= |first| < |long.bytes|
    ensures HeaderPlan(true, long, [], [Chunk(first), Chunk(second)], [Wakeup(false, None), Wakeup(false, Some(h))]) ==
            ParsedPlan(first, |first| + |second|)
    ensures Stream([Chunk(first), Chunk(second)]) == first + second
  {
    var inbox, wakes := [Chunk(first), Chunk(second)], [Wakeup(false, None), Wakeup(false, Some(h))];
    assert inbox[1..] == [Chunk(second)] && wakes[1..] == [Wakeup(false, Some(h))] && [] + first == first;
    assert HeaderPlan(true, long, first, inbox[1..], wakes[1..]) == ParsedPlan(first, |first| + |second|);
    OneReceive(h, second);
  }

  /** The body in the second receive is skipped, and as many bytes again are waited for. */
  lemma BodySkipped(h: Header, body: Bytes)
    requires Storable(h) && |body| == h.cl
    ensures ParsedPlan(h.bytes, |h.bytes| + |body|) == Sends(h.bytes, |h.bytes| + |body|, h.cl)
    ensures Owed(Sends(h.bytes, |h.bytes| + |body|, h.cl), h.bytes + body) == h.bytes
  {
    assert h.bytes[..|h.bytes|] == h.bytes;
  }

  lemma ChangedCacheSkips()
    ensures var wire := Sample(2).bytes + Ascii("ab");
            var inbox := [Chunk(Sample(2).bytes), Chunk(Ascii("ab"))];
            var wakes := [Wakeup(false, None), Wakeup(false, Some(Sample(2)))];
            && Stream(inbox) == wire && IsResponse(wire, |Sample(2).bytes|, 2) && Storable(Sample(10))
            && Owed(RelayPlan(Sample(10), inbox, wakes), wire) == Sample(2).bytes != wire
  {
    SampleStorable(10);
    SampleStorable(2);
    assert |Decimal(10)| == |Decimal(1)| + 1 == 2 && |Decimal(2)| == 1;
    RepeatedHeader(Sample(2), Sample(2).bytes + Ascii("ab"));
    SecondIsSkipped(Sample(10), Sample(2), Sample(2).bytes, Ascii("ab"));
    BodySkipped(Sample(2), Ascii("ab"));
  }
}
