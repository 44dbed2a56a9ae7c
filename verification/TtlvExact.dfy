/**
 * The format byte by byte, and exactly which buffers decode to a given forest: those that its encoding is, whatever
 * their padding holds.
 */
module TtlvExact {
  import opened Octets
  import opened NetInt
  import opened Ttlv
  import opened TtlvCanon

  // ---------- byte by byte ----------

  /** Four bytes in network order. */
  function Big(b3: Byte, b2: Byte, b1: Byte, b0: Byte): nat { b3 * 0x100_0000 + b2 * 0x1_0000 + b1 * 0x100 + b0 }

  lemma BigEndian(b3: Byte, b2: Byte, b1: Byte, b0: Byte)
    ensures Big(b3, b2, b1, b0) < P32
    ensures Put32(Big(b3, b2, b1, b0)) == [b3, b2, b1, b0] && Get32([b3, b2, b1, b0]) == Big(b3, b2, b1, b0)
  {
    JoinParts(b3, b2, b1, b0);
    JoinIsBig(b3, b2, b1, b0);
  }

  lemma JoinIsBig(b3: Byte, b2: Byte, b1: Byte, b0: Byte)
    ensures Join(b3, b2, b1, b0) == Big(b3, b2, b1, b0)
  {}

  /** A header: three bytes of tag, one of type, four of length. */
  lemma HeaderBytes(t2: Byte, t1: Byte, t0: Byte, typ: Byte, l3: Byte, l2: Byte, l1: Byte, l0: Byte)
    ensures Header(Big(0, t2, t1, t0), typ, Big(l3, l2, l1, l0)) == [t2, t1, t0, typ, l3, l2, l1, l0]
  {
    hide Put32;
    BigEndian(t2, t1, t0, typ);
    BigEndian(l3, l2, l1, l0);
    assert Big(0, t2, t1, t0) * 256 + typ == Big(t2, t1, t0, typ);
  }

  /** The int32_t with these bytes in two's complement. */
  function Int32(b3: Byte, b2: Byte, b1: Byte, b0: Byte): int {
    if b3 < 128 then Big(b3, b2, b1, b0) else Big(b3, b2, b1, b0) - 0x1_0000_0000
  }

  /** INT is type 1 with length 4, BOOL type 3: the value, then four zeros. */
  lemma IntBytes(t2: Byte, t1: Byte, t0: Byte, b3: Byte, b2: Byte, b1: Byte, b0: Byte)
    ensures EncodeNode(Int(Big(0, t2, t1, t0), 4, Int32(b3, b2, b1, b0))) ==
            [t2, t1, t0, 1, 0, 0, 0, 4, b3, b2, b1, b0, 0, 0, 0, 0]
    ensures EncodeNode(Bool(Big(0, t2, t1, t0), 4, Big(b3, b2, b1, b0))) ==
            [t2, t1, t0, 3, 0, 0, 0, 4, b3, b2, b1, b0, 0, 0, 0, 0]
  {
    hide Put32, Header;
    HeaderBytes(t2, t1, t0, 1, 0, 0, 0, 4);
    HeaderBytes(t2, t1, t0, 3, 0, 0, 0, 4);
    BigEndian(b3, b2, b1, b0);
    BigIsSigned(b3, b2, b1, b0);
  }

  lemma BigIsSigned(b3: Byte, b2: Byte, b1: Byte, b0: Byte)
    ensures Abs32(Int32(b3, b2, b1, b0)) == Big(b3, b2, b1, b0)
  {}

  /** LONG is type 2 with length 8: the high half first. */
  lemma LongBytes(t2: Byte, t1: Byte, t0: Byte, h3: Byte, h2: Byte, h1: Byte, h0: Byte,
                  b3: Byte, b2: Byte, b1: Byte, b0: Byte)
    ensures var v := Int32(h3, h2, h1, h0) * 0x1_0000_0000 + Big(b3, b2, b1, b0);
            EncodeNode(Long(Big(0, t2, t1, t0), 8, v)) ==
            [t2, t1, t0, 2, 0, 0, 0, 8, h3, h2, h1, h0, b3, b2, b1, b0]
  {
    hide Put32, Header, High, Low;
    HeaderBytes(t2, t1, t0, 2, 0, 0, 0, 8);
    BigEndian(b3, b2, b1, b0);
    BigEndian(h3, h2, h1, h0);
    LongIsHalves(h3, h2, h1, h0, b3, b2, b1, b0);
  }

  lemma LongIsHalves(h3: Byte, h2: Byte, h1: Byte, h0: Byte, b3: Byte, b2: Byte, b1: Byte, b0: Byte)
    ensures var v := Int32(h3, h2, h1, h0) * 0x1_0000_0000 + Big(b3, b2, b1, b0);
            High(Abs64(v)) == Big(h3, h2, h1, h0) && Low(Abs64(v)) == Big(b3, b2, b1, b0)
  {
    hide Big;
    BigEndian(h3, h2, h1, h0);
    BigEndian(b3, b2, b1, b0);
    TopBit(h3, h2, h1, h0);
    HalvesJoin(Big(h3, h2, h1, h0), Big(b3, b2, b1, b0));
  }

  lemma TopBit(b3: Byte, b2: Byte, b1: Byte, b0: Byte)
    ensures b3 < 128 ==> Big(b3, b2, b1, b0) < 0x8000_0000
    ensures b3 >= 128 ==> Big(b3, b2, b1, b0) >= 0x8000_0000
  {}

  /** TEXT is type 4 and RAW type 5: the data, then zeros up to the next multiple of 8. */
  lemma DataBytes(t2: Byte, t1: Byte, t0: Byte, l3: Byte, l2: Byte, l1: Byte, l0: Byte, data: Bytes, pad: nat)
    requires |data| == Big(l3, l2, l1, l0) && pad < 8 && (|data| + pad) % 8 == 0
    ensures EncodeNode(Text(Big(0, t2, t1, t0), data)) == [t2, t1, t0, 4, l3, l2, l1, l0] + (data + Zeros(pad))
    ensures EncodeNode(Raw(Big(0, t2, t1, t0), data)) == [t2, t1, t0, 5, l3, l2, l1, l0] + (data + Zeros(pad))
  {
    hide Header, Big;
    HeaderBytes(t2, t1, t0, 4, l3, l2, l1, l0);
    HeaderBytes(t2, t1, t0, 5, l3, l2, l1, l0);
    assert PadLen(|data|) == pad;
  }

  /** A structure is type 6, its length that of its children, which follow. */
  lemma StructBytes(t2: Byte, t1: Byte, t0: Byte, l3: Byte, l2: Byte, l1: Byte, l0: Byte, children: seq<Node>)
    requires |Encode(children)| == Big(l3, l2, l1, l0)
    ensures EncodeNode(Struct(Big(0, t2, t1, t0), children)) ==
            [t2, t1, t0, 6, l3, l2, l1, l0] + Encode(children)
  {
    hide Header, Big, Encode;
    HeaderBytes(t2, t1, t0, 6, l3, l2, l1, l0);
  }

  // ---------- exactly what decodes ----------

  /** Scalars may carry any length up to the 8 bytes they take; with tag 0, which is checked, only their own. */
  predicate Legal(n: Node) {
    match n
    case Int(tag, length, _) => length <= 8 && (tag == 0 ==> length == 4)
    case Bool(tag, length, _) => length <= 8 && (tag == 0 ==> length == 4)
    case Long(tag, length, _) => length <= 8 && (tag == 0 ==> length == 8)
    case Struct(_, children) => LegalAll(children)
    case _ => true
  }

  predicate LegalAll(f: seq<Node>) { forall i :: 0 <= i < |f| ==> Legal(f[i]) }

  lemma LegalLeaf(n: Node)
    requires !n.Struct? && Fits(n) && Legal(n)
    ensures Length(n) <= |Value(n)| && ValidLen(n.tag * 256 + Type(n), Length(n)) && |Value(n)| % 8 == 0
    ensures Length(n) < P32 && Advance(Type(n), Length(n)) == |Value(n)| && |ValuePad(n)| == |Value(n)|
  {
    hide Put32, Put64, ValuePad, ValidLen;
    LegalLength(n);
  }

  lemma LegalLength(n: Node)
    requires !n.Struct? && Fits(n) && Legal(n)
    ensures ValidLen(n.tag * 256 + Type(n), Length(n))
  {
    if n.tag > 0 { assert n.tag * 256 + Type(n) > 6; }
  }

  /** A value is read from the bytes that are not padding. */
  lemma PaddedValue(n: Node, v: Bytes, rest: Bytes)
    requires !n.Struct? && Fits(n) && Legal(n) && Zeroed(Value(n), ValuePad(n), v)
    ensures |v| == |Value(n)| && Length(n) <= |v + rest|
    ensures NodeAt(n.tag, Type(n), Length(n), v + rest) == Some(n)
  {
    hide Put32, Get32, Put64, Get64;
    var b, e, m := v + rest, Value(n), ValuePad(n);
    LegalLeaf(n);
    match n
    case Int(_, _, x) =>
      SignedUnsigned(x, P32);
      assert b[..4] == Put32(Unsigned(x, P32)) by { Unmarked(e, m, v, 4); }
      GetPut32(Unsigned(x, P32));
    case Bool(_, _, u) =>
      assert b[..4] == Put32(u) by { Unmarked(e, m, v, 4); }
      GetPut32(u);
    case Long(_, _, x) =>
      SignedUnsigned(x, P64);
      assert b[..8] == Put64(Unsigned(x, P64)) by { Unmarked(e, m, v, 8); }
      GetPut64(Unsigned(x, P64));
    case Text(_, data) => assert b[..|data|] == data by { Unmarked(e, m, v, |data|); }
    case Raw(_, data) => assert b[..|data|] == data by { Unmarked(e, m, v, |data|); }
  }

  lemma Unmarked(e: Bytes, m: seq<bool>, b: Bytes, n: nat)
    requires Zeroed(e, m, b) && n <= |b| && forall i :: 0 <= i < n ==> !m[i]
    ensures b[..n] == e[..n]
  {}

  lemma ZeroedSplit(e1: Bytes, m1: seq<bool>, e2: Bytes, m2: seq<bool>, b: Bytes)
    requires Zeroed(e1 + e2, m1 + m2, b) && |e1| == |m1|
    ensures Zeroed(e1, m1, b[..|e1|]) && Zeroed(e2, m2, b[|e1|..])
  {
    var e, m := e1 + e2, m1 + m2;
    assert forall i :: 0 <= i < |e1| ==> e[i] == e1[i] && m[i] == m1[i];
    assert forall i :: 0 <= i < |e2| ==> e[|e1| + i] == e2[i] && m[|m1| + i] == m2[i];
  }

  lemma ExactLeaf(n: Node, v: Bytes, rest: Bytes)
    requires !n.Struct? && Fits(n) && Legal(n) && Zeroed(Value(n), ValuePad(n), v)
    ensures Decode(Header(n.tag, Type(n), Length(n)) + (v + rest)) == Prepend(n, Decode(rest))
  {
    hide Put32, Get32, Header, Value, ValuePad, NodeAt, Advance, Decode, Zeroed;
    var b := Header(n.tag, Type(n), Length(n)) + (v + rest);
    LegalLeaf(n);
    PaddedValue(n, v, rest);
    HeaderParts(n.tag, Type(n), Length(n), v + rest);
    DecodeValueStep(b, n);
    assert b[8 + |v|..] == rest;
  }

  lemma ExactStruct(tag: nat, children: seq<Node>, body: Bytes, rest: Bytes)
    requires tag < P24 && |body| < P32 && |body| % 8 == 0 && Decode(body) == Some(children)
    ensures Decode(Header(tag, 6, |body|) + (body + rest)) == Prepend(Struct(tag, children), Decode(rest))
  {
    hide Put32, Get32, Header, NodeAt, Advance, Decode;
    var b := Header(tag, 6, |body|) + (body + rest);
    HeaderParts(tag, 6, |body|, body + rest);
    BuiltLengthsPass(tag, 6, |body|);
    assert b[8..8 + |body|] == body && b[8 + |body|..] == rest;
    DecodeStructStep(b);
  }

  /** Encodings are made of whole groups of 8 bytes, whatever the lengths say. */
  lemma {:induction false} WholeGroups(f: seq<Node>)
    requires FitAll(f) && LegalAll(f)
    ensures |Encode(f)| % 8 == 0 && |Pad(f)| == |Encode(f)|
    decreases f
  {
    hide Header, Value, ValuePad, Encode, Pad, Fits, Legal;
    if f == [] {
      Nothing();
      ZeroedLength(Encode([]), Pad([]), []);
    } else {
      var n, rest := f[0], f[1..];
      assert [n] + rest == f;
      EncodePrepend(n, rest);
      assert Fits(n) && Legal(n);
      WholeGroups(rest);
      if n.Struct? {
        StructParts(n);
        WholeGroups(n.children);
      } else {
        LegalLeaf(n);
      }
    }
  }

  lemma StructParts(n: Node)
    requires n.Struct? && Fits(n) && Legal(n)
    ensures FitAll(n.children) && LegalAll(n.children) && n.tag < P24
  {}

  lemma {:induction false} DecodePadded(f: seq<Node>, b: Bytes)
    requires FitAll(f) && LegalAll(f) && |b| < P32 && Zeroed(Encode(f), Pad(f), b)
    ensures Decode(b) == Some(f)
    decreases f
  {
    hide Put32, Header, Value, ValuePad, Encode, Pad, Fits, Legal, Zeroed, Decode, Marks;
    if f == [] {
      Nothing();
      ZeroedLength(Encode(f), Pad(f), b);
      ZeroedLength(Encode([]), Pad([]), []);
      NothingThere();
    } else {
      var n, rest := f[0], f[1..];
      assert [n] + rest == f;
      EncodePrepend(n, rest);
      assert Fits(n) && Legal(n);
      WholeGroups([n]);
      assert [n] + [] == [n];
      EncodePrepend(n, []);
      EmptyParts();
      ZeroedLength(Encode(f), Pad(f), b);
      ZeroedSplit(EncodeNode(n), PadNode(n), Encode(rest), Pad(rest), b);
      var k := |EncodeNode(n)|;
      DecodePadded(rest, b[k..]);
      OneNode(n, b[..k], b[k..]);
      assert b == b[..k] + b[k..];
    }
  }

  lemma EmptyParts()
    ensures Encode([]) == [] && Pad([]) == []
  {}

  lemma OneNode(n: Node, a: Bytes, rest: Bytes)
    requires Fits(n) && Legal(n) && |a| < P32 && Zeroed(EncodeNode(n), PadNode(n), a)
    ensures Decode(a + rest) == Prepend(n, Decode(rest))
    decreases n, 1
  {
    hide Put32, Header, Value, ValuePad, Encode, Pad, Fits, Legal, Zeroed, Decode, Marks;
    var h := Header(n.tag, Type(n), if n.Struct? then |Encode(n.children)| else Length(n));
    var e, m := if n.Struct? then Encode(n.children) else Value(n), if n.Struct? then Pad(n.children) else ValuePad(n);
    ZeroedLength(EncodeNode(n), PadNode(n), a);
    ZeroedSplit(h, Marks(8, false), e, m, a);
    AllKept(h, a[..8]);
    ZeroedLength(e, m, a[8..]);
    assert a + rest == h + (a[8..] + rest);
    if n.Struct? {
      StructParts(n);
      WholeGroups(n.children);
      DecodePadded(n.children, a[8..]);
      ExactStruct(n.tag, n.children, a[8..], rest);
    } else {
      ExactLeaf(n, a[8..], rest);
    }
  }

  lemma AllKept(e: Bytes, b: Bytes)
    requires |e| == 8 && Zeroed(e, Marks(8, false), b)
    ensures e == b
  {}

  /** A buffer decodes to a forest with legal lengths iff it is its encoding, whatever the padding holds. */
  lemma DecodesIff(f: seq<Node>, b: Bytes)
    requires LegalAll(f) && |b| < P32
    ensures Decode(b) == Some(f) <==> FitAll(f) && Zeroed(Encode(f), Pad(f), b)
  {
    hide Decode, Encode, Pad, FitAll, LegalAll, Zeroed;
    if Decode(b) == Some(f) { EncodeDecode(b); }
    if FitAll(f) && Zeroed(Encode(f), Pad(f), b) { DecodePadded(f, b); }
  }
}
