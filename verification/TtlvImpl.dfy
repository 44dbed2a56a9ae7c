/** ttlv_encode() and ttlv_decode() in their own form: a position that moves through a fixed buffer. */
module TtlvImpl {
  import opened Octets
  import opened NetInt
  import opened Ttlv

  twostate predicate Only(buf: array<Byte>, lo: nat, hi: nat)
    reads buf
  {
    forall i :: 0 <= i < buf.Length && !(lo <= i < hi) ==> buf[i] == old(buf[i])
  }

  method Store(buf: array<Byte>, at: nat, b: Bytes)
    requires at + |b| <= buf.Length
    modifies buf
    ensures buf[at..at + |b|] == b && Only(buf, at, at + |b|)
  {
    forall i | 0 <= i < |b| { buf[at + i] := b[i]; }
  }

  /** ttlv_value_hton(). */
  method ValueHton(n: Node, buf: array<Byte>, at: nat, hi: nat) returns (ret: int)
    requires at <= hi <= buf.Length
    modifies buf
    ensures Only(buf, at, hi)
    ensures if |Value(n)| <= hi - at then ret == |Value(n)| && buf[at..at + ret] == Value(n) else ret == -1
  {
    hide Put32, Put64;
    match n
    case Int(_, _, v) =>
      if hi - at < 8 { return -1; }
      Store(buf, at, Put32(Abs32(v)) + Zeros(4));
      return 8;
    case Bool(_, _, u) =>
      if hi - at < 8 { return -1; }
      Store(buf, at, Put32(u) + Zeros(4));
      return 8;
    case Long(_, _, v) =>
      if hi - at < 8 { return -1; }
      Store(buf, at, Put64(Abs64(v)));
      return 8;
    case Text(_, data) => ret := CopyData(data, buf, at, hi);
    case Raw(_, data) => ret := CopyData(data, buf, at, hi);
    case Struct(_, _) => return 0;
  }

  method CopyData(data: Bytes, buf: array<Byte>, at: nat, hi: nat) returns (ret: int)
    requires at <= hi <= buf.Length
    modifies buf
    ensures Only(buf, at, hi)
    ensures var v := data + Zeros(PadLen(|data|));
            if |v| <= hi - at then ret == |v| && buf[at..at + ret] == v else ret == -1
  {
    if hi - at < Round8(|data|) { return -1; }
    Store(buf, at, data + Zeros(PadLen(|data|)));
    return Round8(|data|);
  }

  function LengthField(n: Node): nat { if n.Struct? then |Encode(n.children)| else Length(n) }

  function Body(n: Node): Bytes { if n.Struct? then Encode(n.children) else Value(n) }

  lemma NodeParts(n: Node)
    ensures EncodeNode(n) == Put32(n.tag * 256 + Type(n)) + Put32(LengthField(n)) + Body(n)
  {
    hide Put32, Encode, Value;
  }

  /** The length and the value; the length of a structure is patched in afterwards. */
  method EncodeBodyAt(n: Node, buf: array<Byte>, at: nat, hi: nat) returns (ret: int)
    requires at + 4 <= hi <= buf.Length
    modifies buf
    ensures Only(buf, at, hi)
    ensures if 4 + |Body(n)| <= hi - at
            then ret == |Body(n)| && buf[at..at + 4] == Put32(LengthField(n)) && buf[at + 4..at + 4 + ret] == Body(n)
            else ret == -1
    decreases n, 0
  {
    hide Put32, Value, Encode, EncodeNode, Length, Type;
    if n.Struct? {
      ret := TtlvEncode(n.children, buf, at + 4, hi);
      if ret < 0 { return ret; }
      PatchLength(buf, at, ret);
    } else {
      Store(buf, at, Put32(Length(n)));
      ret := ValueHton(n, buf, at + 4, hi);
    }
  }

  /** One turn of the loop of ttlv_encode(). */
  method EncodeNodeAt(n: Node, buf: array<Byte>, at: nat, hi: nat) returns (ret: int)
    requires at <= hi <= buf.Length
    modifies buf
    ensures Only(buf, at, hi)
    ensures var e := EncodeNode(n);
            if |e| <= hi - at then ret == |e| && buf[at..at + ret] == e else ret == -1
    decreases n, 1
  {
    hide Put32, Value, Encode, EncodeNode, Length, Type, Body, LengthField;
    NodeParts(n);
    if at + 8 > hi { return -1; }
    Store(buf, at, Put32(n.tag * 256 + Type(n)));
    ret := EncodeBodyAt(n, buf, at + 4, hi);
    if ret < 0 { return ret; }
    Parts(buf, at, ret);
    ret := 8 + ret;
  }

  method PatchLength(buf: array<Byte>, at: nat, n: nat)
    requires at + 4 + n <= buf.Length
    modifies buf
    ensures buf[at..at + 4] == Put32(n) && Only(buf, at, at + 4)
    ensures buf[at + 4..at + 4 + n] == old(buf[at + 4..at + 4 + n])
  {
    hide Put32;
    Store(buf, at, Put32(n));
  }

  lemma Parts(buf: array<Byte>, at: nat, n: nat)
    requires at + 8 + n <= buf.Length
    ensures buf[at..at + 8 + n] == buf[at..at + 4] + buf[at + 4..at + 8] + buf[at + 8..at + 8 + n]
  {}

  lemma EncodeUpTo(f: seq<Node>, i: nat)
    requires i < |f|
    ensures Encode(f[..i + 1]) == Encode(f[..i]) + EncodeNode(f[i]) && |Encode(f[..i + 1])| <= |Encode(f)|
  {
    hide Encode, EncodeNode;
    EncodeLast(f[..i + 1]);
    assert f[..i + 1][..i] == f[..i];
    EncodeConcat(f[..i + 1], f[i + 1..]);
    assert f[..i + 1] + f[i + 1..] == f;
  }

  /** ttlv_encode(): all of it or -1, and nothing outside the buffer it was given. */
  method TtlvEncode(f: seq<Node>, buf: array<Byte>, lo: nat, hi: nat) returns (ret: int)
    requires lo <= hi <= buf.Length
    modifies buf
    ensures Only(buf, lo, hi)
    ensures if |Encode(f)| <= hi - lo then ret == |Encode(f)| && buf[lo..lo + ret] == Encode(f) else ret == -1
    decreases f, 2
  {
    hide EncodeNode, Encode;
    var next := lo;
    assert Encode(f[..0]) == [] by { EncodeNothing(f); }
    for i := 0 to |f|
      invariant next == lo + |Encode(f[..i])| <= hi && buf[lo..next] == Encode(f[..i]) && Only(buf, lo, hi)
    {
      EncodeUpTo(f, i);
      ghost var before := buf[lo..next];
      ret := EncodeNodeAt(f[i], buf, next, hi);
      if ret < 0 { return ret; }
      assert buf[lo..next] == before;
      assert buf[lo..next + ret] == buf[lo..next] + buf[next..next + ret];
      next := next + ret;
    }
    assert f[..|f|] == f;
    return next - lo;
  }

  lemma EncodeNothing(f: seq<Node>)
    ensures Encode(f[..0]) == []
  {}

  /** What became of one node: decoded, refused, or its value cut short. */
  datatype NodeTurn = Good(n: Node, next: nat) | Refused | Short

  /** One turn of the loop of ttlv_decode(): a node and the position after it, or failure. */
  method DecodeNodeAt(buf: array<Byte>, at: nat, hi: nat) returns (t: NodeTurn)
    requires at < hi <= buf.Length
    ensures match t
            case Good(n, next) =>
              && at + 8 <= next <= hi
              && Decode(buf[at..hi]) == Prepend(n, Decode(buf[next..hi]))
              && Leftover(buf[at..hi]) == Prepend(n, Leftover(buf[next..hi]))
            case Refused => Decode(buf[at..hi]).None? && Leftover(buf[at..hi]).None?
            case Short => Decode(buf[at..hi]).None? && Leftover(buf[at..hi]) == Some([])
    decreases hi - at, 0
  {
    hide Get32, NodeAt, ValidLen, Advance, Decode, Leftover;
    ghost var w := buf[at..hi];
    if at + 8 > hi { DecodeFails(w); NothingLeft(w); return Refused; }
    Sub(buf, at, hi, 0, 4);
    Sub(buf, at, hi, 4, 8);
    var tagtype, length := Get32(buf[at..at + 4]), Get32(buf[at + 4..at + 8]);
    var tag, typ := tagtype / 256, tagtype % 256;
    if typ == 0 || typ >= 7 || !ValidLen(tagtype, length) || at + 8 + length > hi {
      DecodeFails(w);
      NothingLeft(w);
      return Refused;
    }
    if typ != 6 {
      var r := NodeAt(tag, typ, length, buf[at + 8..hi]);
      LeftoverLeaf(w);
      if r.None? { DecodeFails(w); return Short; }
      DecodeValueStep(w, r.value);
      var next := at + 8 + Advance(typ, length);
      Sub(buf, at, hi, 0, next - at);
      return Good(r.value, next);
    } else {
      var ret, children := TtlvDecode(buf, at + 8, at + 8 + length);
      Sub(buf, at, hi, 8, 8 + length);
      DecodeStructStep(w);
      LeftoverStruct(w);
      if ret < 0 { return Refused; }
      return Good(Struct(tag, children), at + 8 + ret);
    }
  }

  lemma NothingLeft(b: Bytes)
    requires |b| < 8 || !HeaderOk(b, false)
    ensures Leftover(b).None?
  {}

  lemma LeftoverLeaf(b: Bytes)
    requires |b| >= 8 && HeaderOk(b, false) && Get32(b[..4]) % 256 != 6
    ensures var tt, length := Get32(b[..4]), Get32(b[4..8]);
            var n := NodeAt(tt / 256, tt % 256, length, b[8..]);
            Leftover(b) == if n.None? then Some([]) else Prepend(n.value, Leftover(b[8 + Advance(tt % 256, length)..]))
  {
    hide Get32, ValidLen, NodeAt, Advance;
  }

  lemma LeftoverStruct(b: Bytes)
    requires |b| >= 8 && HeaderOk(b, false) && Get32(b[..4]) % 256 == 6
    ensures var tt, length := Get32(b[..4]), Get32(b[4..8]);
            var children := Decode(b[8..8 + length]);
            Leftover(b) == if children.None? then None
                           else Prepend(Struct(tt / 256, children.value), Leftover(b[8 + length..]))
  {
    hide Get32, ValidLen, NodeAt, Advance, Decode;
  }

  /** The list *head points to: NULL is the empty one. */
  function Kept(f: Option<seq<Node>>): seq<Node> { if f.Some? then f.value else [] }

  /**
   * ttlv_decode(): consumes exactly the buffer, or fails and leaves what Leftover says; the mismatch after its loop
   * cannot happen.
   */
  method TtlvDecode(buf: array<Byte>, lo: nat, hi: nat) returns (ret: int, head: seq<Node>)
    requires lo <= hi <= buf.Length
    ensures var r := Decode(buf[lo..hi]);
            if r.Some? then ret == hi - lo && head == r.value else ret == -1 && head == Kept(Leftover(buf[lo..hi]))
    decreases hi - lo, 1
  {
    hide Decode, Leftover;
    head := [];
    var next := lo;
    ghost var all, left := Decode(buf[lo..hi]), Leftover(buf[lo..hi]);
    GlueNone(all);
    GlueNone(left);
    while next < hi
      invariant lo <= next <= hi
      invariant all == Glue(head, Decode(buf[next..hi])) && left == Glue(head, Leftover(buf[next..hi]))
    {
      var t := DecodeNodeAt(buf, next, hi);
      if t.Refused? { return -1, []; }
      if t.Short? { return -1, head; }
      GlueGlue(head, [t.n], Decode(buf[t.next..hi]));
      GlueGlue(head, [t.n], Leftover(buf[t.next..hi]));
      head, next := head + [t.n], t.next;
    }
    if next != hi { assert false; }
    DecodeNothing(buf[hi..hi]);
    return hi - lo, head;
  }

  lemma DecodeNothing(b: Bytes)
    requires b == []
    ensures Decode(b) == Some([])
  {}
}
