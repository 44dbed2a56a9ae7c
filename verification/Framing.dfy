/**
 * Messages over a byte stream: readn(), writen(), msg_send() and msg_recv().  A read or a write may be
 * interrupted, transfer less than asked for or fail, as the wire's schedule says.  As long as none fails, what
 * arrives does not depend on it.
 */
module Framing {
  import opened Octets
  import opened NetInt
  import opened Ttlv
  import opened TtlvImpl
  import opened TtlvRoom
  import opened TtlvCut
  import opened TtlvExact
  import opened ServerSpec

  const MAGIC: nat := 0x4a55_575a

  function Frame(msg: Node): Bytes { Put32(MAGIC) + Encode([msg]) }

  function Frames(msgs: seq<Node>): Bytes {
    if msgs == [] then [] else Frame(msgs[0]) + Frames(msgs[1..])
  }

  /** What msg_send() accepts. */
  predicate Sendable(msg: Node) { Fits(msg) && Built(msg) && Size([msg]) <= MAX_MSG }

  // ---------- what msg_recv() makes of a stream ----------

  /** What msg_recv() returned and left in the stream; or it goes on to read more than its buffer holds. */
  datatype Received = Received(msg: Option<seq<Node>>, rest: Bytes) | PastBuffer

  /** taglen: ROUND8() of the length field in 32 bits. */
  function TagLen(length: nat): nat { (length + 7) % P32 / 8 * 8 }

  /** Its size check, in 32 bits too. */
  predicate TooBig(taglen: nat) { (taglen + 8) % P32 > MAX_MSG }

  function Recv(b: Bytes): Received {
    if |b| < 4 then Received(None, [])
    else if Get32(b[..4]) != MAGIC then Received(None, b[4..])
    else if |b| < 12 then Received(None, [])
    else
      var taglen := TagLen(Get32(b[8..12]));
      if TooBig(taglen) then Received(None, b[12..])
      else if taglen + 8 > MAX_MSG then PastBuffer
      else if |b| < 12 + taglen then Received(None, [])
      else Received(Handed(b[4..12 + taglen]), b[12 + taglen..])
  }

  /** The body may be read: the header is complete and passes. */
  predicate InBody(b: Bytes) {
    |b| >= 12 && Get32(b[..4]) == MAGIC && TagLen(Get32(b[8..12])) + 8 <= MAX_MSG
  }

  /**
   * The result when a read fails after k bytes.  In the body the failure goes unnoticed, since -1 is compared as
   * unsigned: the bytes that did not come are those of the message before, still in the buffer.
   */
  function RecvFailing(b: Bytes, k: nat, stale: Bytes): Option<seq<Node>>
    requires k <= |b| && |stale| == MAX_MSG
  {
    if k < 12 || !InBody(b) then None
    else
      var end := TagLen(Get32(b[8..12])) + 8;
      if k - 4 > end then None else Handed(b[4..k] + stale[k - 4..end])
  }

  /** The size check is sound except for the eight length fields whose rounded size wraps around. */
  lemma SizeCheck(length: nat)
    requires length < P32
    ensures !TooBig(TagLen(length)) && TagLen(length) + 8 > MAX_MSG <==> P32 - 16 < length <= P32 - 8
    ensures length <= P32 - 16 ==> TagLen(length) == Round8(length)
  {}

  lemma FrameSize(msg: Node)
    requires Sendable(msg)
    ensures var e := Encode([msg]); 8 <= |e| == Size([msg]) && 8 + Round8(Get32(e[4..8])) == |e|
  {
    hide Put32, Get32;
    assert BuiltAll([msg]);
    SizeIsLength([msg]);
    EncodeOne(msg);
    if msg.Struct? {
      assert BuiltAll(msg.children);
      SizeIsLength(msg.children);
      HeaderParts(msg.tag, 6, |Encode(msg.children)|, Encode(msg.children));
    } else {
      ValueLength(msg);
      HeaderParts(msg.tag, Type(msg), Length(msg), Value(msg));
    }
  }

  /** The length field of a message that was built tells how long it is. */
  lemma FrameLength(msg: Node)
    requires Sendable(msg)
    ensures var e := Encode([msg]);
            8 <= |e| == Size([msg]) && TagLen(Get32(e[4..8])) + 8 == |e| <= MAX_MSG && !TooBig(|e| - 8)
  {
    hide Get32, Encode, Size, Fits, Built, Round8, TagLen, TooBig;
    FrameSize(msg);
    SmallLength(Get32(Encode([msg])[4..8]));
  }

  lemma SmallLength(length: nat)
    requires length < P32 && Round8(length) + 8 <= MAX_MSG
    ensures TagLen(length) == Round8(length) && !TooBig(Round8(length))
  {
    SizeCheck(length);
  }

  lemma FrameParts(p: Bytes, e: Bytes, rest: Bytes)
    requires |p| == 4 && |e| >= 8
    ensures var b := p + e + rest;
            && |b| == 4 + |e| + |rest| && b[..4] == p && b[8..12] == e[4..8]
            && b[4..4 + |e|] == e && b[4 + |e|..] == rest
  {}

  /** One framed message is received as it was sent, and no byte of the next one is touched. */
  lemma RecvFrame(msg: Node, rest: Bytes)
    requires Sendable(msg)
    ensures Recv(Frame(msg) + rest) == Received(Some([msg]), rest)
  {
    hide Put32, Get32, Encode, Decode, Size, Round8;
    FrameLength(msg);
    assert FitAll([msg]) && BuiltAll([msg]);
    DecodeEncode([msg]);
    FrameParts(Put32(MAGIC), Encode([msg]), rest);
    GetPut32(MAGIC);
  }

  /** Repeated msg_recv(). */
  function RecvN(b: Bytes, k: nat): seq<Received>
    decreases k
  {
    if k == 0 then []
    else [Recv(b)] + if Recv(b).PastBuffer? then [] else RecvN(Recv(b).rest, k - 1)
  }

  /** A sequence of messages arrives as the same sequence, each leaving exactly those after it in the stream. */
  lemma {:induction false} RecvFrames(msgs: seq<Node>, rest: Bytes)
    requires forall i :: 0 <= i < |msgs| ==> Sendable(msgs[i])
    ensures var r := RecvN(Frames(msgs) + rest, |msgs|);
            && |r| == |msgs|
            && forall i :: 0 <= i < |msgs| ==> r[i] == Received(Some([msgs[i]]), Frames(msgs[i + 1..]) + rest)
  {
    hide Recv, Frame, Sendable;
    if msgs != [] {
      var more := Frames(msgs[1..]) + rest;
      assert Frames(msgs) + rest == Frame(msgs[0]) + more;
      RecvFrame(msgs[0], more);
      RecvFrames(msgs[1..], rest);
      assert forall i :: 1 <= i < |msgs| ==> msgs[1..][i..] == msgs[i + 1..];
    }
  }

  /** An OUTPUT message never exceeds what msg_send() takes: this is the first #error check of server.c. */
  lemma OutputFits(z: Sizes, tag: nat, data: Bytes)
    requires z.Valid() && |data| <= z.raw && tag < P24
    ensures Sendable(Raw(tag, data))
  {
    assert Size([Raw(tag, data)]) == SizeNode(Raw(tag, data)) by { assert [Raw(tag, data)][..0] == []; }
  }

  /** The magic number goes first, in network order. */
  lemma MagicBytes(msg: Node)
    ensures Frame(msg)[..4] == [0x4a, 0x55, 0x57, 0x5a] && Frame(msg)[4..] == EncodeNode(msg)
  {
    hide Put32, EncodeNode;
    BigEndian(0x4a, 0x55, 0x57, 0x5a);
    EncodeOne(msg);
  }

  /**
   * What is no message: nothing is made of another magic number or of a length that does not fit, and reading stops
   * right after what shows it; nor of a stream that ends early.
   */
  lemma NoMessage(b: Bytes)
    ensures |b| >= 4 && b[..4] != [0x4a, 0x55, 0x57, 0x5a] ==> Recv(b) == Received(None, b[4..])
    ensures |b| < 12 && (|b| >= 4 ==> b[..4] == [0x4a, 0x55, 0x57, 0x5a]) ==> Recv(b) == Received(None, [])
    ensures |b| >= 12 && b[..4] == [0x4a, 0x55, 0x57, 0x5a] ==>
              var length := Get32(b[8..12]);
              && (64 * 1024 - 8 < length <= P32 - 16 ==> Recv(b) == Received(None, b[12..]))
              && (length <= 64 * 1024 - 8 && |b| < 12 + Round8(length) ==> Recv(b) == Received(None, []))
  {
    hide Recv, Get32, Put32, Handed, TagLen, TooBig, Round8;
    if |b| >= 4 { MagicIs(b[..4]); }
    RecvCases(b);
    if |b| >= 12 { LengthLimit(Get32(b[8..12])); }
  }

  lemma MagicIs(b: Bytes)
    requires |b| == 4
    ensures Get32(b) == MAGIC <==> b == [0x4a, 0x55, 0x57, 0x5a]
  {
    hide Put32, Get32;
    BigEndian(0x4a, 0x55, 0x57, 0x5a);
    PutGet32(b);
  }

  lemma LengthLimit(length: nat)
    requires length < P32
    ensures 64 * 1024 - 8 < length <= P32 - 16 ==> TooBig(TagLen(length))
    ensures length <= 64 * 1024 - 8 ==>
              TagLen(length) == Round8(length) && !TooBig(TagLen(length)) && TagLen(length) + 8 <= MAX_MSG
  {}

  // ---------- what goes wrong ----------

  /** A frame that is cut off is never taken for a message. */
  lemma TornFrame(msg: Node, k: nat)
    requires Sendable(msg) && k < |Frame(msg)|
    ensures Recv(Frame(msg)[..k]) == Received(None, [])
  {
    hide Put32, Get32, Encode, Decode, Size, Round8, Handed;
    FrameLength(msg);
    FrameParts(Put32(MAGIC), Encode([msg]), []);
    var b := Frame(msg);
    assert Put32(MAGIC) + Encode([msg]) + [] == b;
    GetPut32(MAGIC);
    if k >= 4 { assert b[..k][..4] == b[..4]; }
    if k >= 12 { assert b[..k][8..12] == b[8..12]; }
  }

  /** When the last read of a message fails at once, the message before it is received a second time. */
  lemma StaleMessage(tag: nat, before: Bytes, now: Bytes, stale: Bytes)
    requires 0 < |before| == |now| && Sendable(Raw(tag, before)) && Sendable(Raw(tag, now))
    requires |stale| == MAX_MSG && Encode([Raw(tag, before)]) <= stale
    ensures RecvFailing(Frame(Raw(tag, now)), 12, stale) == Some([Raw(tag, before)])
  {
    hide Put32, Get32, Encode, Decode, Size, Round8, Value, Leftover;
    var a, m := Raw(tag, before), Raw(tag, now);
    var b, e := Frame(m), Encode([a]);
    FrameLength(m);
    FrameLength(a);
    FrameParts(Put32(MAGIC), Encode([m]), []);
    assert Put32(MAGIC) + Encode([m]) + [] == b;
    GetPut32(MAGIC);
    EncodeOne(a);
    EncodeOne(m);
    assert e[..8] == Header(tag, 5, |now|) == Encode([m])[..8] == b[4..12];
    assert stale[8..|e|] == e[8..];
    assert b[4..12] + stale[8..|e|] == e;
    assert FitAll([a]) && BuiltAll([a]);
    DecodeEncode([a]);
  }

  /** A failing read is noticed, whatever is in the buffer, iff it comes before the body. */
  lemma FailureNoticed(msg: Node, k: nat)
    requires Sendable(msg) && k < |Frame(msg)|
    ensures (forall stale: Bytes | |stale| == MAX_MSG :: RecvFailing(Frame(msg), k, stale) == None) <==> k < 12
  {
    hide RecvFailing, Encode, Size, Zeros, Put32, Get32;
    var b := Frame(msg);
    FrameLength(msg);
    if k < 12 {
      forall stale: Bytes | |stale| == MAX_MSG ensures RecvFailing(b, k, stale) == None {
        RecvFailingHead(b, k, stale);
      }
    } else {
      var stale := Encode([msg]) + Zeros(MAX_MSG - |Encode([msg])|);
      RecvFailingOwn(msg, k, stale);
    }
  }

  /** The message itself may be what is left in the buffer. */
  lemma RecvFailingOwn(msg: Node, k: nat, stale: Bytes)
    requires Sendable(msg) && 12 <= k < |Frame(msg)| && |stale| == MAX_MSG && Encode([msg]) <= stale
    ensures RecvFailing(Frame(msg), k, stale) == Some([msg])
  {
    hide Put32, Get32, Encode, Decode, Size, Leftover, RecvFailing, TagLen;
    var b, e := Frame(msg), Encode([msg]);
    FrameLength(msg);
    FrameParts(Put32(MAGIC), e, []);
    assert Put32(MAGIC) + e + [] == b;
    GetPut32(MAGIC);
    RecvFailingBody(b, k, stale);
    assert b[4..k] == e[..k - 4] && stale[k - 4..|e|] == e[k - 4..];
    assert b[4..k] + stale[k - 4..|e|] == e;
    assert FitAll([msg]) && BuiltAll([msg]);
    DecodeEncode([msg]);
  }

  /** A structure with a LONG of length 0 is received like any other message. */
  lemma ShortLongReceived(tag: nat, v: Bytes, rest: Bytes)
    requires 0 < tag < P24 && |v| == 8
    ensures var b := Header(tag, 6, 16) + (Header(tag, 2, 0) + v);
            && Recv(Put32(MAGIC) + b + rest).Received? && Recv(Put32(MAGIC) + b + rest).msg == Decode(b)
            && Decode(b).Some? && !AllFit(WalkOf(b, false).stored)
  {
    hide Put32, Get32, Header, Decode, Leftover, WalkOf, AllFit, Signed, Get64;
    var inner := Header(tag, 2, 0) + v;
    var b := Header(tag, 6, 16) + inner;
    ShortLong(tag, v);
    HeaderParts(tag, 6, 16, inner);
    FrameParts(Put32(MAGIC), b, rest);
    GetPut32(MAGIC);
  }

  // ---------- the loops ----------

  /** What happens to one system call: it is interrupted, it fails, or it transfers at most so many bytes. */
  datatype Io = Intr | Fail | Chunk(n: nat)

  datatype Errno = Ok | EIntr | Other

  predicate Later(sched: seq<Io>, was: seq<Io>) {
    |sched| <= |was| && sched == was[|was| - |sched|..]
  }

  /** One direction of a socket: the bytes in it, and what will happen to the next calls at either end. */
  class Wire {
    var bytes: Bytes
    var rsched: seq<Io>
    var wsched: seq<Io>

    constructor (wsched: seq<Io>, rsched: seq<Io>)
      ensures bytes == [] && this.wsched == wsched && this.rsched == rsched
    {
      bytes, this.wsched, this.rsched := [], wsched, rsched;
    }

    /** read(): 0 at the end, else at least one byte. */
    method Read(buf: array<Byte>, at: nat, n: nat) returns (ret: int, errno: Errno)
      requires 0 < n && at + n <= buf.Length
      modifies this, buf
      ensures Only(buf, at, if ret < 0 then at else at + ret) && wsched == old(wsched)
      ensures -1 <= ret <= n && ret <= |old(bytes)| && (ret == -1 <==> errno != Ok)
      ensures errno == EIntr ==> |rsched| < |old(rsched)|
      ensures errno == Other ==> Fail in old(rsched)
      ensures ret == -1 ==> bytes == old(bytes)
      ensures ret == 0 ==> old(bytes) == [] == bytes
      ensures ret >= 0 ==> bytes == old(bytes)[ret..] && buf[at..at + ret] == old(bytes)[..ret]
      ensures Later(rsched, old(rsched))
    {
      var k := Min(n, |bytes|);
      if rsched != [] {
        var io := rsched[0];
        rsched := rsched[1..];
        if io.Intr? { return -1, EIntr; }
        if io.Fail? { return -1, Other; }
        k := Min(k, if io.n == 0 then 1 else io.n);
      }
      forall i | 0 <= i < k { buf[at + i] := bytes[i]; }
      bytes := bytes[k..];
      return k, Ok;
    }

    /** write(): how much was taken, possibly nothing. */
    method Write(buf: array<Byte>, at: nat, n: nat) returns (ret: int, errno: Errno)
      requires 0 < n && at + n <= buf.Length
      modifies this
      ensures rsched == old(rsched)
      ensures -1 <= ret <= n && (ret == -1 <==> errno != Ok)
      ensures errno == EIntr || ret == 0 ==> |wsched| < |old(wsched)|
      ensures errno == Other ==> Fail in old(wsched)
      ensures bytes == old(bytes) + if ret > 0 then buf[at..at + ret] else []
      ensures Later(wsched, old(wsched))
    {
      var k := n;
      if wsched != [] {
        var io := wsched[0];
        wsched := wsched[1..];
        if io.Intr? { return -1, EIntr; }
        if io.Fail? { return -1, Other; }
        k := Min(n, io.n);
      }
      bytes := bytes + buf[at..at + k];
      return k, Ok;
    }
  }

  lemma LaterFails(a: seq<Io>, b: seq<Io>)
    requires Later(a, b)
    ensures Fail in a ==> Fail in b
  {}

  lemma LaterTwice(a: seq<Io>, b: seq<Io>, c: seq<Io>)
    requires Later(a, b) && Later(b, c)
    ensures Later(a, c) && (Fail in b ==> Fail in c)
  {
    assert b == c[|c| - |b|..];
    assert c[|c| - |b|..][|b| - |a|..] == c[|c| - |a|..];
  }

  /** readn(): the next bytes of the stream, or -1 with `got` of them lost. */
  method Readn(w: Wire, buf: array<Byte>, at: nat, n: nat) returns (ret: int, ghost got: nat)
    requires at + n <= buf.Length
    modifies w, buf
    ensures Only(buf, at, at + n) && w.wsched == old(w.wsched) && Later(w.rsched, old(w.rsched))
    ensures got <= n && got <= |old(w.bytes)|
    ensures w.bytes == old(w.bytes)[got..] && buf[at..at + got] == old(w.bytes)[..got]
    ensures if ret >= 0 then ret == got == Min(n, |old(w.bytes)|) else ret == -1 && Fail in old(w.rsched) && got < n
    ensures forall i :: at + got <= i < at + n ==> buf[i] == old(buf[i])
  {
    var done := 0;
    while done < n
      invariant 0 <= done <= n && done <= |old(w.bytes)| && Only(buf, at, at + n) && w.wsched == old(w.wsched)
      invariant w.bytes == old(w.bytes)[done..] && buf[at..at + done] == old(w.bytes)[..done]
      invariant Later(w.rsched, old(w.rsched))
      invariant forall i :: at + done <= i < at + n ==> buf[i] == old(buf[i])
      decreases n - done + |w.rsched|
    {
      ghost var before, sched := buf[at..at + done], w.rsched;
      var nread, errno := w.Read(buf, at + done, n - done);
      LaterTwice(w.rsched, sched, old(w.rsched));
      assert buf[at..at + done] == before;
      if nread < 0 {
        if errno == EIntr { continue; }
        return -1, done;
      }
      if nread == 0 { break; }
      assert buf[at..at + done + nread] == before + buf[at + done..at + done + nread];
      assert old(w.bytes)[..done + nread] == old(w.bytes)[..done] + old(w.bytes)[done..][..nread];
      done := done + nread;
    }
    return done, done;
  }

  /** writen(): all bytes once, or -1 with `put` of them written. */
  method Writen(w: Wire, buf: array<Byte>, n: nat) returns (ret: int, ghost put: nat)
    requires n <= buf.Length
    modifies w
    ensures w.rsched == old(w.rsched) && Later(w.wsched, old(w.wsched))
    ensures put <= n && w.bytes == old(w.bytes) + buf[..put]
    ensures if ret >= 0 then ret == n == put else ret == -1 && Fail in old(w.wsched) && put < n
  {
    var done := 0;
    while done < n
      invariant 0 <= done <= n && w.bytes == old(w.bytes) + buf[..done]
      invariant w.rsched == old(w.rsched) && Later(w.wsched, old(w.wsched))
      decreases n - done + |w.wsched|
    {
      ghost var sched := w.wsched;
      var nwritten, errno := w.Write(buf, done, n - done);
      LaterTwice(w.wsched, sched, old(w.wsched));
      if nwritten < 0 {
        if errno == EIntr { continue; }
        return -1, done;
      }
      assert buf[..done + nwritten] == buf[..done] + buf[done..done + nwritten];
      done := done + nwritten;
    }
    return n, n;
  }

  /** msg_send(): the whole frame; nothing of a message that is too large; some front of it if a write fails. */
  method MsgSend(w: Wire, buf: array<Byte>, msg: Node) returns (ok: bool, ghost sent: nat)
    requires buf.Length == MAX_MSG && Fits(msg) && Built(msg)
    modifies w, buf
    ensures w.rsched == old(w.rsched) && Later(w.wsched, old(w.wsched))
    ensures sent <= |Frame(msg)| && w.bytes == old(w.bytes) + Frame(msg)[..sent]
    ensures ok ==> Sendable(msg) && sent == |Frame(msg)|
    ensures !ok && Sendable(msg) ==> Fail in old(w.wsched) && sent < |Frame(msg)|
    ensures !Sendable(msg) ==> sent == 0
  {
    hide Put32, Encode, Size;
    var size := Size([msg]);
    if size > MAX_MSG { return false, 0; }
    assert BuiltAll([msg]);
    SizeIsLength([msg]);
    var ret := TtlvEncode([msg], buf, 0, MAX_MSG);
    if size != ret { assert false; }
    assert buf[..size] == buf[0..size] == Encode([msg]);
    ok, sent := WriteFrame(w, buf, size);
  }

  /** The magic number, then the message. */
  method WriteFrame(w: Wire, buf: array<Byte>, size: nat) returns (ok: bool, ghost sent: nat)
    requires size <= buf.Length
    modifies w
    ensures w.rsched == old(w.rsched) && Later(w.wsched, old(w.wsched)) && sent <= 4 + size
    ensures w.bytes == old(w.bytes) + (Put32(MAGIC) + buf[..size])[..sent]
    ensures if ok then sent == 4 + size else sent < 4 + size && Fail in old(w.wsched)
  {
    hide Put32, Later;
    ghost var all := Put32(MAGIC) + buf[..size];
    var magic := new Byte[4];
    Store(magic, 0, Put32(MAGIC));
    assert magic[..4] == magic[0..4];
    ghost var sched := w.wsched;
    var n, put := Writen(w, magic, 4);
    assert all[..put] == magic[..put];
    LaterFails(w.wsched, sched);
    if n < 4 { return false, put; }
    ghost var sched1 := w.wsched;
    n, put := Writen(w, buf, size);
    LaterTwice(w.wsched, sched1, sched);
    assert all[..4 + put] == Put32(MAGIC) + buf[..put];
    return n >= size, 4 + put;
  }

  /** msg_recv() up to its size check; taglen < 0 if it returns there. */
  method RecvHeader(w: Wire, buf: array<Byte>) returns (taglen: int, past: bool, ghost failed: Option<nat>)
    requires buf.Length == MAX_MSG
    modifies w, buf
    ensures w.wsched == old(w.wsched) && Later(w.rsched, old(w.rsched))
    ensures taglen < 0 && failed.None? ==> Recv(old(w.bytes)) == if past then PastBuffer else Received(None, w.bytes)
    ensures failed.Some? ==>
              && taglen < 0 && !past && Fail in old(w.rsched) && failed.value < 12
              && failed.value <= |old(w.bytes)| && w.bytes == old(w.bytes)[failed.value..]
    ensures taglen >= 0 ==>
              && !past && failed.None? && InBody(old(w.bytes)) && taglen == TagLen(Get32(old(w.bytes)[8..12]))
              && !TooBig(taglen)
              && w.bytes == old(w.bytes)[12..] && buf[0..8] == old(w.bytes)[4..12] && Only(buf, 0, 8)
  {
    hide Get32, Recv, TagLen, TooBig, Later;
    ghost var b, sched := w.bytes, w.rsched;
    RecvCases(b);
    var magic := new Byte[4];
    var ret, got := Readn(w, magic, 0, 4);
    if ret < 4 { return -1, false, if ret < 0 then Some(got) else None; }
    assert magic[0..4] == b[..4];
    if Get32(magic[0..4]) != MAGIC { return -1, false, None; }
    ghost var sched1 := w.rsched;
    ret, got := Readn(w, buf, 0, 8);
    LaterTwice(w.rsched, sched1, sched);
    assert b[4..][got..] == b[4 + got..];
    if ret < 8 { return -1, false, if ret < 0 then Some(4 + got) else None; }
    assert buf[0..8] == b[4..][..8] == b[4..12] && buf[4..8] == buf[0..8][4..8] == b[8..12];
    taglen := TagLen(Get32(buf[4..8]));
    if TooBig(taglen) { return -1, false, None; }
    if taglen + 8 > MAX_MSG { return -1, true, None; }
    return taglen, false, None;
  }

  /**
   * msg_recv(): `failed` tells after how many bytes a read failed, `past` that it would read beyond its buffer.
   */
  method MsgRecv(w: Wire, buf: array<Byte>) returns (msg: Option<seq<Node>>, past: bool, ghost failed: Option<nat>)
    requires buf.Length == MAX_MSG
    modifies w, buf
    ensures w.wsched == old(w.wsched) && Later(w.rsched, old(w.rsched))
    ensures failed.None? ==> Recv(old(w.bytes)) == if past then PastBuffer else Received(msg, w.bytes)
    ensures failed.Some? ==>
              && Fail in old(w.rsched) && failed.value <= |old(w.bytes)| && w.bytes == old(w.bytes)[failed.value..]
              && !past && msg == RecvFailing(old(w.bytes), failed.value, old(buf[..]))
  {
    hide Get32, Recv, RecvFailing, Handed, TagLen, TooBig, Later, Kept, Leftover, Decode;
    ghost var b, sched, stale := w.bytes, w.rsched, buf[..];
    var taglen;
    taglen, past, failed := RecvHeader(w, buf);
    if taglen < 0 {
      if failed.Some? { RecvFailingHead(b, failed.value, stale); }
      return None, past, failed;
    }
    ghost var sched1 := w.rsched;
    var ret, got := RecvBody(w, buf, taglen, b, stale);
    LaterTwice(w.rsched, sched1, sched);
    RecvCases(b);
    if 0 <= ret < taglen { return None, false, None; }
    ghost var all := buf[0..8 + taglen];
    var n, head := TtlvDecode(buf, 0, 8 + taglen);
    DecodeSome(all);
    msg := if 0 <= n < 8 + taglen || head == [] then None else Some(head);
    if ret < 0 {
      RecvFailingBody(b, 12 + got, stale);
      failed := Some(12 + got);
    } else {
      assert all == b[4..12 + taglen];
    }
  }

  lemma RecvCases(b: Bytes)
    ensures |b| < 4 ==> Recv(b) == Received(None, [])
    ensures |b| >= 4 && Get32(b[..4]) != MAGIC ==> Recv(b) == Received(None, b[4..])
    ensures |b| >= 4 && Get32(b[..4]) == MAGIC ==>
              if |b| < 12 then Recv(b) == Received(None, [])
              else
                var taglen := TagLen(Get32(b[8..12]));
                Recv(b) ==
                  if TooBig(taglen) then Received(None, b[12..])
                  else if taglen + 8 > MAX_MSG then PastBuffer
                  else if |b| < 12 + taglen then Received(None, [])
                  else Received(Handed(b[4..12 + taglen]), b[12 + taglen..])
  {
    hide Get32, TagLen, TooBig, Handed;
  }

  lemma RecvFailingHead(b: Bytes, k: nat, stale: Bytes)
    requires k <= |b| && |stale| == MAX_MSG
    ensures k < 12 ==> RecvFailing(b, k, stale) == None
  {}

  lemma RecvFailingBody(b: Bytes, k: nat, stale: Bytes)
    requires 12 <= k <= |b| && |stale| == MAX_MSG && InBody(b) && k - 4 <= TagLen(Get32(b[8..12])) + 8
    ensures RecvFailing(b, k, stale) == Handed(b[4..k] + stale[k - 4..TagLen(Get32(b[8..12])) + 8])
  {
    hide Get32, TagLen, Handed;
  }

  /** The third read of msg_recv(). */
  method RecvBody(w: Wire, buf: array<Byte>, taglen: nat, ghost b: Bytes, ghost stale: Bytes)
    returns (ret: int, ghost got: nat)
    requires 8 + taglen <= buf.Length == |stale| && |b| >= 12 && w.bytes == b[12..] && b[4..12] == buf[0..8]
    requires forall i :: 8 <= i < 8 + taglen ==> buf[i] == stale[i]
    modifies w, buf
    ensures w.wsched == old(w.wsched) && Later(w.rsched, old(w.rsched)) && got <= taglen && 12 + got <= |b|
    ensures w.bytes == b[12 + got..]
    ensures if ret >= 0 then ret == got == Min(taglen, |b| - 12) else ret == -1 && Fail in old(w.rsched)
    ensures buf[0..8 + taglen] == b[4..12 + got] + stale[8 + got..8 + taglen]
  {
    hide Later;
    ghost var header := buf[0..8];
    ret, got := Readn(w, buf, 8, taglen);
    assert b[12..][got..] == b[12 + got..];
    assert buf[0..8] == header;
    BodyRead(buf, header, b, stale, got, taglen);
  }

  lemma DecodeSome(b: Bytes)
    requires b != []
    ensures Decode(b) != Some([])
    ensures Handed(b) == if Decode(b).Some? then Decode(b)
                         else if Kept(Leftover(b)) == [] then None else Some(Kept(Leftover(b)))
  {
    hide Get32, NodeAt, ValidLen, Advance, Leftover;
  }

  /** What is in the buffer when the last read returned, completely or not. */
  lemma BodyRead(buf: array<Byte>, header: Bytes, b: Bytes, stale: Bytes, got: nat, taglen: nat)
    requires |stale| == buf.Length && 8 + taglen <= buf.Length && got <= taglen && 12 + got <= |b|
    requires header == b[4..12] && buf[0..8] == header && buf[8..8 + got] == b[12..][..got]
    requires forall i :: 8 + got <= i < 8 + taglen ==> buf[i] == stale[i]
    ensures buf[0..8 + taglen] == b[4..12 + got] + stale[8 + got..8 + taglen]
  {
    var end := 8 + taglen;
    Sub(buf, 0, end, 0, 8);
    Sub(buf, 0, end, 8, 8 + got);
    Sub(buf, 0, end, 8 + got, end);
    ThreeParts(buf[0..end], 8, 8 + got);
    assert buf[8 + got..end] == stale[8 + got..end];
    assert b[4..12 + got] == b[4..12] + b[12..][..got];
  }

  lemma ThreeParts(s: Bytes, i: nat, j: nat)
    requires i <= j <= |s|
    ensures s == s[..i] + s[i..j] + s[j..]
  {}

  /**
   * Messages sent over one wire and read at its other end, sending and receiving in any order, whatever the two
   * schedules of interruptions and partial transfers are.
   */
  method Exchange(msgs: seq<Node>, order: seq<bool>, wsched: seq<Io>, rsched: seq<Io>) returns (got: seq<Node>)
    requires forall i :: 0 <= i < |msgs| ==> Sendable(msgs[i])
    requires Fail !in wsched && Fail !in rsched
    ensures got == msgs
  {
    hide Sendable, Frame, Recv, Later;
    var w := new Wire(wsched, rsched);
    var sendbuf, recvbuf := new Byte[MAX_MSG], new Byte[MAX_MSG];
    var s, r, k := 0, 0, 0;
    got := [];
    while k < |order| || r < |msgs|
      invariant fresh(w) && fresh(sendbuf) && fresh(recvbuf)
      invariant r <= s <= |msgs| && k <= |order| && Fail !in w.rsched && Fail !in w.wsched
      invariant w.bytes == Frames(msgs[r..s]) && got == msgs[..r]
      decreases |order| - k + |msgs| - s + |msgs| - r
    {
      var send := if k < |order| then order[k] else s < |msgs|;
      k := if k < |order| then k + 1 else k;
      if send && s < |msgs| {
        SendableParts(msgs[s]);
        ghost var sched := w.wsched;
        var ok, sent := MsgSend(w, sendbuf, msgs[s]);
        LaterFails(w.wsched, sched);
        FramesSnoc(msgs[r..], s - r);
        assert msgs[r..][..s - r] == msgs[r..s] && msgs[r..][..s - r + 1] == msgs[r..s + 1];
        s := s + 1;
      } else if !send && r < s {
        RecvFrame(msgs[r], Frames(msgs[r + 1..s]));
        assert msgs[r..s][1..] == msgs[r + 1..s];
        ghost var sched := w.rsched;
        var m, past, failed := MsgRecv(w, recvbuf);
        LaterFails(w.rsched, sched);
        got, r := got + [m.value[0]], r + 1;
      }
    }
  }

  lemma SendableParts(msg: Node)
    requires Sendable(msg)
    ensures Fits(msg) && Built(msg)
  {}

  lemma {:induction false} FramesSnoc(msgs: seq<Node>, i: nat)
    requires i < |msgs|
    ensures Frames(msgs[..i + 1]) == Frames(msgs[..i]) + Frame(msgs[i])
  {
    hide Frame;
    var a, b := msgs[..i], msgs[..i + 1];
    if i == 0 {
      assert b[1..] == [] && Frames([]) == [];
    } else {
      FramesSnoc(msgs[1..], i - 1);
      assert msgs[1..][..i - 1] == a[1..] && msgs[1..][..i] == b[1..];
    }
  }
}
