/** Byte scanning of li-httpd: where a header block ends, what a request asks for,
    and how a byte stream is cut into requests. */
module HttpScan {
  type Byte = b: int | 0 <= b < 256 witness 0
  type Bytes = seq<Byte>

  /** Text in ASCII codes. */
  function Ascii(s: string): Bytes {
    seq(|s|, i requires 0 <= i < |s| => if s[i] < 128 as char then s[i] as int else 63)
  }

  // ---------------------------------------------------------------- header blocks

  predicate TerminatorAt(s: Bytes, i: nat) {
    i + 4 <= |s| && s[i] == 13 && s[i + 1] == 10 && s[i + 2] == 13 && s[i + 3] == 10
  }

  /** The end of the first CRLFCRLF at or after `i`, or -1. */
  function HeaderEndFrom(s: Bytes, i: nat): (r: int)
    ensures r == -1 || (i + 4 <= r <= |s| && TerminatorAt(s, r - 4))
    ensures forall k :: i <= k && (r == -1 || k < r - 4) ==> !TerminatorAt(s, k)
    decreases |s| - i
  {
    if i + 4 > |s| then -1 else if TerminatorAt(s, i) then i + 4 else HeaderEndFrom(s, i + 1)
  }

  function HeaderEnd(s: Bytes): int { HeaderEndFrom(s, 0) }

  predicate BlankLineAt(s: Bytes, k: nat) {
    k + 4 <= |s| && s[k..k + 4] == [13, 10, 13, 10]
  }

  /** A block ends behind the first CR LF CR LF. */
  lemma HeaderEndIff(s: Bytes, h: nat)
    ensures HeaderEnd(s) == h <==> 4 <= h && BlankLineAt(s, h - 4) && forall k :: 0 <= k < h - 4 ==> !BlankLineAt(s, k)
    ensures HeaderEnd(s) < 0 <==> forall k: nat :: !BlankLineAt(s, k)
  {
    forall k: nat ensures BlankLineAt(s, k) <==> TerminatorAt(s, k) {
      if k + 4 <= |s| { assert s[k..k + 4] == [s[k], s[k + 1], s[k + 2], s[k + 3]]; }
    }
  }

  method HdrEndAt(buf: Bytes, start: nat, limit: nat) returns (r: int)
    requires start <= limit <= |buf|
    ensures r == HeaderEndFrom(buf[..limit], start)
  {
    var i := start;
    while i + 3 < limit
      invariant start <= i
      invariant HeaderEndFrom(buf[..limit], start) == HeaderEndFrom(buf[..limit], i)
    {
      if buf[i] == 13 {
        if buf[i + 1] == 10 {
          if buf[i + 2] == 13 {
            if buf[i + 3] == 10 { return i + 4; }
          }
        }
      }
      i := i + 1;
    }
    return -1;
  }

  /** A complete block is found at the same place whatever follows it, and is itself one block. */
  lemma HeaderEndStable(s: Bytes, t: Bytes)
    requires HeaderEnd(s) >= 0
    ensures HeaderEnd(s + t) == HeaderEnd(s) == HeaderEnd(s[..HeaderEnd(s)])
  {
    var h := HeaderEnd(s);
    SameFirstTerminator(s, s + t, h);
    SameFirstTerminator(s, s[..h], h);
  }

  lemma SameFirstTerminator(s: Bytes, t: Bytes, h: nat)
    requires HeaderEnd(s) == h && h <= |t| && s[..h] == t[..h]
    ensures HeaderEnd(t) == h
  {
    assert forall k :: 0 <= k < h ==> s[k] == t[k];
    assert TerminatorAt(t, h - 4);
    assert forall k :: 0 <= k < h - 4 ==> (TerminatorAt(t, k) <==> TerminatorAt(s, k));
  }

  // ---------------------------------------------------------------- cutting a stream

  /** The complete requests of a stream, each cut after its first CRLFCRLF. */
  function Frames(s: Bytes): (fs: seq<Bytes>)
    ensures forall i :: 0 <= i < |fs| ==> 4 <= |fs[i]|
    decreases |s|
  {
    var h := HeaderEnd(s);
    if h < 0 then [] else [s[..h]] + Frames(s[h..])
  }

  /** What follows the last complete request. */
  function Leftover(s: Bytes): (r: Bytes)
    ensures HeaderEnd(r) == -1
    decreases |s|
  {
    var h := HeaderEnd(s);
    if h < 0 then s else Leftover(s[h..])
  }

  function Flat(fs: seq<Bytes>): Bytes {
    if fs == [] then [] else fs[0] + Flat(fs[1..])
  }

  lemma FlatCons(f: Bytes, fs: seq<Bytes>, rest: Bytes)
    ensures Flat([f] + fs) + rest == f + (Flat(fs) + rest)
  {
    assert ([f] + fs)[1..] == fs;
  }

  lemma {:induction false} FrameIsBlock(s: Bytes, i: nat)
    requires i < |Frames(s)|
    ensures HeaderEnd(Frames(s)[i]) == |Frames(s)[i]|
    decreases |s|
  {
    HeaderEndStable(s, []);
    if i > 0 { FrameIsBlock(s[HeaderEnd(s)..], i - 1); }
  }

  /** Cutting conserves bytes, and every piece is exactly one block. */
  lemma {:induction false} FramesConserve(s: Bytes)
    ensures Flat(Frames(s)) + Leftover(s) == s
    ensures forall i :: 0 <= i < |Frames(s)| ==> HeaderEnd(Frames(s)[i]) == |Frames(s)[i]| >= 4
    decreases |s|
  {
    forall i | 0 <= i < |Frames(s)| ensures HeaderEnd(Frames(s)[i]) == |Frames(s)[i]| { FrameIsBlock(s, i); }
    FramesFlat(s);
  }

  lemma {:induction false} FramesFlat(s: Bytes)
    ensures Flat(Frames(s)) + Leftover(s) == s
    decreases |s|
  {
    var h := HeaderEnd(s);
    if h >= 0 {
      FramesFlat(s[h..]);
      assert Frames(s) == [s[..h]] + Frames(s[h..]) && Leftover(s) == Leftover(s[h..]);
      FlatCons(s[..h], Frames(s[h..]), Leftover(s[h..]));
      assert s[..h] + s[h..] == s;
    }
  }

  /** There is no other way to cut: any pieces that are single blocks followed by an incomplete rest are these. */
  lemma {:induction false} FramesUnique(fs: seq<Bytes>, rest: Bytes)
    requires forall i :: 0 <= i < |fs| ==> HeaderEnd(fs[i]) == |fs[i]|
    requires HeaderEnd(rest) == -1
    ensures Frames(Flat(fs) + rest) == fs && Leftover(Flat(fs) + rest) == rest
  {
    var s := Flat(fs) + rest;
    if fs == [] {
      assert s == rest;
    } else {
      var more := Flat(fs[1..]) + rest;
      assert s == fs[0] + more;
      HeaderEndStable(fs[0], more);
      assert s[..|fs[0]|] == fs[0] && s[|fs[0]|..] == more;
      FramesUnique(fs[1..], rest);
    }
  }

  /** Cutting may stop after any received part and go on with the leftover. */
  lemma {:induction false} FramesResume(s: Bytes, t: Bytes)
    ensures Frames(s + t) == Frames(s) + Frames(Leftover(s) + t)
    ensures Leftover(s + t) == Leftover(Leftover(s) + t)
    decreases |s|
  {
    var h := HeaderEnd(s);
    if h >= 0 {
      HeaderEndStable(s, t);
      assert (s + t)[..h] == s[..h] && (s + t)[h..] == s[h..] + t;
      FramesResume(s[h..], t);
    }
  }

  // ---------------------------------------------------------------- keep-alive and path

  /** A block that says it closes holds a 'C'; the test for it is one on three bytes. */
  lemma LooksLikeCloseIff(req: Bytes)
    ensures LooksLikeClose(req) <==>
            exists i, j :: 0 <= i && i + 10 < j < |req| && req[i] == 67 && req[i + 10] == 58 && req[j] == 99
  {
    if i, j :| 0 <= i && i + 10 < j < |req| && req[i] == 67 && req[i + 10] == 58 && req[j] == 99 {
      assert ClosesFrom(req, i);
    }
  }

  /** Some 'C' with a ':' ten bytes on has a 'c' somewhere after that. */
  ghost predicate LooksLikeClose(req: Bytes) {
    exists i :: 0 <= i && i + 10 < |req| && ClosesFrom(req, i)
  }

  ghost predicate ClosesFrom(req: Bytes, i: nat)
    requires i + 10 < |req|
  {
    req[i] == 67 && req[i + 10] == 58 && exists j :: i + 11 <= j < |req| && req[j] == 99
  }

  method BufHasConnectionClose(buf: Bytes, hdrEnd: nat) returns (r: int)
    requires hdrEnd <= |buf|
    ensures r == if LooksLikeClose(buf[..hdrEnd]) then 1 else 0
  {
    ghost var req := buf[..hdrEnd];
    var i := 0;
    while i + 10 < hdrEnd
      invariant 0 <= i
      invariant forall k :: 0 <= k < i && k + 10 < hdrEnd ==> !ClosesFrom(req, k)
    {
      if buf[i] == 67 {
        if buf[i + 10] == 58 {
          var j := i + 11;
          while j < hdrEnd
            invariant i + 11 <= j
            invariant forall k :: i + 11 <= k < j && k < hdrEnd ==> req[k] != 99
          {
            if buf[j] == 99 {
              assert req[j] == 99 && ClosesFrom(req, i);
              return 1;
            }
            j := j + 1;
          }
        }
      }
      i := i + 1;
    }
    return 0;
  }

  /** A client that says `Connection: close`, in exactly this spelling, is always heard. */
  lemma ConnectionCloseIsHeard(before: Bytes, after: Bytes)
    ensures LooksLikeClose(before + Ascii("Connection: close") + after)
  {
    var line := Ascii("Connection: close");
    var req := before + line + after;
    var i := |before|;
    assert req[i] == line[0] == 67 && req[i + 10] == line[10] == 58 && req[i + 12] == line[12] == 99;
    assert ClosesFrom(req, i);
  }

  /** Field names are case-insensitive, but the lower-case spelling is not heard. */
  lemma LowerCaseCloseIsMissed()
    ensures !LooksLikeClose(Ascii("GET / HTTP/1.1\r\nconnection: close\r\n\r\n"))
  {
    var text := "GET / HTTP/1.1\r\nconnection: close\r\n\r\n";
    var req := Ascii(text);
    assert forall i :: 0 <= i < |text| ==> text[i] != 'C';
    assert forall i :: 0 <= i < |req| ==> req[i] != 67;
  }

  /** A 'c' behind the Connection line closes the connection, whatever that line says. */
  lemma ClosedByLaterC(before: Bytes, after: Bytes)
    requires 99 in after
    ensures LooksLikeClose(before + Ascii("Connection: keep-alive") + after)
  {
    var line := Ascii("Connection: keep-alive");
    var req, i := before + line + after, |before|;
    var k :| 0 <= k < |after| && after[k] == 99;
    assert req[i] == line[0] == 67 && req[i + 10] == line[10] == 58 && req[i + |line| + k] == 99;
    assert ClosesFrom(req, i);
  }

  /** A keep-alive request that is closed: the 'c' of its Accept line follows the Connection line. */
  lemma KeepAliveMisread()
    ensures LooksLikeClose(Ascii("GET / HTTP/1.1\r\n") + Ascii("Connection: keep-alive") +
                           Ascii("\r\nAccept: */*\r\n\r\n"))
  {
    assert Ascii("\r\nAccept: */*\r\n\r\n")[3] == 99;
    ClosedByLaterC(Ascii("GET / HTTP/1.1\r\n"), Ascii("\r\nAccept: */*\r\n\r\n"));
  }

  /** A client that says `Connection: keep-alive`, in a request with no other 'C' ten bytes before a ':',
      is taken to ask for a close exactly if a 'c' occurs after that header's value. */
  lemma KeepAliveMisreadIff(before: Bytes, after: Bytes)
    requires var req := before + Ascii("Connection: keep-alive") + after;
             forall i :: 0 <= i && i + 10 < |req| && i != |before| ==> req[i] != 67 || req[i + 10] != 58
    ensures LooksLikeClose(before + Ascii("Connection: keep-alive") + after) <==> 99 in after
  {
    var line := Ascii("Connection: keep-alive");
    var req, i := before + line + after, |before|;
    assert req[i] == line[0] == 67 && req[i + 10] == line[10] == 58;
    assert forall j :: 11 <= j < |line| ==> line[j] != 99;
    assert forall j :: i <= j < i + |line| ==> req[j] == line[j - i];
    assert forall j :: i + |line| <= j < |req| ==> req[j] == after[j - i - |line|];
    if 99 in after { ClosedByLaterC(before, after); }
    if LooksLikeClose(req) { assert ClosesFrom(req, i); }
  }

  /** The path of a GET, or the index path. */
  function GetPath(req: Bytes, index: Bytes): Bytes
    requires 4 <= |req|
  {
    if req[0] != 71 || req[3] != 32 then index
    else
      var i := NextSpace(req, 4);
      if i == |req| || i == 4 then index else req[4..i]
  }

  function NextSpace(s: Bytes, i: nat): (r: nat)
    requires i <= |s|
    ensures i <= r <= |s| && (r < |s| ==> s[r] == 32) && forall k :: i <= k < r ==> s[k] != 32
    decreases |s| - i
  {
    if i == |s| || s[i] == 32 then i else NextSpace(s, i + 1)
  }

  method ParseGetPath(buf: Bytes, reqLen: nat, index: Bytes) returns (path: Bytes)
    requires 4 <= reqLen <= |buf|
    ensures path == GetPath(buf[..reqLen], index)
  {
    if buf[0] != 71 { return index; }
    if buf[3] != 32 { return index; }
    ghost var req := buf[..reqLen];
    var i := 4;
    while i < reqLen
      invariant 4 <= i <= reqLen && NextSpace(req, 4) == NextSpace(req, i)
    {
      if buf[i] == 32 {
        if i == 4 { return index; }
        assert req[4..i] == buf[4..i];
        return buf[4..i];
      }
      i := i + 1;
    }
    return index;
  }

  /** Every other request asks for the index: one whose bytes 0 and 3 are not 'G' and a space, one without a
      space behind them, and one with nothing before that space. */
  lemma OtherwiseIndex(req: Bytes, index: Bytes)
    requires 4 <= |req|
    requires req[0] != 71 || req[3] != 32 || 32 !in req[4..] || req[4] == 32
    ensures GetPath(req, index) == index
  {
    if req[0] == 71 && req[3] == 32 && NextSpace(req, 4) < |req| {
      assert req[4..][NextSpace(req, 4) - 4] == 32;
    }
  }

  /** A request line written for a path is read back to that path. */
  lemma GetPathRoundTrip(path: Bytes, rest: Bytes, index: Bytes)
    requires path != [] && 32 !in path
    ensures GetPath(Ascii("GET ") + path + [32] + rest, index) == path
  {
    var get := Ascii("GET ");
    var req := get + path + [32] + rest;
    assert |get| == 4 && get[0] == 71 && get[3] == 32;
    assert req[0] == get[0] && req[3] == get[3];
    var i := NextSpace(req, 4);
    assert req[4 + |path|] == 32;
    assert forall k :: 4 <= k < 4 + |path| ==> req[k] == path[k - 4];
    assert req[4..4 + |path|] == path;
  }
}
