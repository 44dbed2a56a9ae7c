/** Encoding what was decoded: the same bytes, with the padding zeroed. */
module TtlvCanon {
  import opened Octets
  import opened NetInt
  import opened Ttlv

  function Marks(n: nat, mark: bool): (m: seq<bool>)
    ensures |m| == n
  {
    seq(n, i => mark)
  }

  /** Which bytes of a value are padding. */
  function ValuePad(n: Node): (m: seq<bool>)
    ensures |m| == |Value(n)|
  {
    match n
    case Int(_, _, _) => Marks(4, false) + Marks(4, true)
    case Bool(_, _, _) => Marks(4, false) + Marks(4, true)
    case Long(_, _, _) => Marks(8, false)
    case Text(_, data) => Marks(|data|, false) + Marks(PadLen(|data|), true)
    case Raw(_, data) => Marks(|data|, false) + Marks(PadLen(|data|), true)
    case Struct(_, _) => []
  }

  function PadNode(n: Node): (m: seq<bool>)
    decreases n
  {
    Marks(8, false) + if n.Struct? then Pad(n.children) else ValuePad(n)
  }

  function Pad(f: seq<Node>): seq<bool>
    decreases f
  {
    if f == [] then [] else PadNode(f[0]) + Pad(f[1..])
  }

  /** `e` is `b` with the marked bytes set to zero. */
  predicate Zeroed(e: Bytes, m: seq<bool>, b: Bytes) {
    && |e| == |m| == |b|
    && forall i :: 0 <= i < |b| ==> e[i] == if m[i] then 0 else b[i]
  }

  lemma ZeroedConcat(e1: Bytes, m1: seq<bool>, b1: Bytes, e2: Bytes, m2: seq<bool>, b2: Bytes)
    requires Zeroed(e1, m1, b1) && Zeroed(e2, m2, b2)
    ensures Zeroed(e1 + e2, m1 + m2, b1 + b2)
  {}

  lemma ZeroedSame(x: Bytes)
    ensures Zeroed(x, Marks(|x|, false), x)
  {}

  /** The header is reproduced as it was. */
  lemma HeaderAgain(b: Bytes)
    requires |b| >= 8
    ensures var tt, length := Get32(b[..4]), Get32(b[4..8]); Header(tt / 256, tt % 256, length) == b[..8]
  {
    hide Put32, Get32;
    PutGet32(b[..4]);
    PutGet32(b[4..8]);
    assert b[..8] == b[..4] + b[4..8];
  }

  /** So is the value, up to padding. */
  lemma ValueAgain(tag: nat, typ: nat, length: nat, b: Bytes)
    requires length <= |b| && length < P32 && 1 <= typ <= 5 && tag < P24 && NodeAt(tag, typ, length, b).Some?
    ensures var n := NodeAt(tag, typ, length, b).value;
            && Fits(n) && !n.Struct? && n.tag == tag && Type(n) == typ && Length(n) == length
            && Advance(typ, length) == |Value(n)| <= |b| && |Value(n)| % 8 == 0
            && Zeroed(Value(n), ValuePad(n), b[..|Value(n)|])
  {
    hide Put32, Get32, Put64, Get64;
    if typ == 1 {
      var u := Get32(b[..4]);
      assert Abs32(Signed(u, P32)) == u;
      PutGet32(b[..4]);
    } else if typ == 3 {
      PutGet32(b[..4]);
    } else if typ == 2 {
      var u := Get64(b[..8]);
      PutGet64(b[..8]);
      assert Abs64(Signed(u, P64)) == u;
    }
  }

  lemma EncodePrepend(n: Node, f: seq<Node>)
    ensures Encode([n] + f) == EncodeNode(n) + Encode(f) && Pad([n] + f) == PadNode(n) + Pad(f)
  {
    EncodeCons([n] + f);
    assert ([n] + f)[1..] == f;
  }

  /** If `b` decodes, encoding the result gives `b` with its padding zeroed, whatever its length fields say. */
  lemma {:induction false} EncodeDecode(b: Bytes)
    requires |b| < P32 && Decode(b).Some?
    ensures var f := Decode(b).value; FitAll(f) && Zeroed(Encode(f), Pad(f), b) && |b| % 8 == 0
    decreases |b|
  {
    hide Get32, Header, Value, ValuePad, Encode, Pad, NodeAt, Zeroed, Fits, Round8;
    if b == [] {
      Nothing();
    } else {
      var tt, length := Get32(b[..4]), Get32(b[4..8]);
      var tag, typ := tt / 256, tt % 256;
      HeaderAgain(b);
      if typ != 6 {
        ValueAgain(tag, typ, length, b[8..]);
        var n := NodeAt(tag, typ, length, b[8..]).value;
        var v := |Value(n)|;
        assert b[8..][..v] == b[8..8 + v];
        EncodeDecode(b[8 + v..]);
        LeafStep(b, n, Decode(b[8 + v..]).value);
      } else {
        EncodeDecode(b[8..8 + length]);
        EncodeDecode(b[8 + length..]);
        ZeroedLength(Encode(Decode(b[8..8 + length]).value), Pad(Decode(b[8..8 + length]).value), b[8..8 + length]);
        StructStep(b, tag, Decode(b[8..8 + length]).value, Decode(b[8 + length..]).value);
      }
    }
  }

  lemma Nothing()
    ensures Zeroed(Encode([]), Pad([]), [])
  {}

  lemma ZeroedLength(e: Bytes, m: seq<bool>, b: Bytes)
    requires Zeroed(e, m, b)
    ensures |e| == |b|
  {}

  lemma LeafStep(b: Bytes, n: Node, rest: seq<Node>)
    requires !n.Struct? && 8 + |Value(n)| <= |b| && Fits(n) && FitAll(rest)
    requires Header(n.tag, Type(n), Length(n)) == b[..8]
    requires Zeroed(Value(n), ValuePad(n), b[8..8 + |Value(n)|]) && |Value(n)| % 8 == 0
    requires Zeroed(Encode(rest), Pad(rest), b[8 + |Value(n)|..]) && |b[8 + |Value(n)|..]| % 8 == 0
    ensures FitAll([n] + rest) && Zeroed(Encode([n] + rest), Pad([n] + rest), b) && |b| % 8 == 0
  {
    hide Put32, Header, Value, ValuePad, Encode, Pad, Fits, Zeroed, Marks;
    var v := |Value(n)|;
    EncodePrepend(n, rest);
    ZeroedSame(b[..8]);
    ZeroedConcat(b[..8], Marks(8, false), b[..8], Value(n), ValuePad(n), b[8..8 + v]);
    ZeroedConcat(EncodeNode(n), PadNode(n), b[..8] + b[8..8 + v], Encode(rest), Pad(rest), b[8 + v..]);
    assert b == b[..8] + b[8..8 + v] + b[8 + v..];
  }

  lemma StructBytes(tag: nat, children: seq<Node>)
    requires tag < P24 && FitAll(children)
    ensures var n := Struct(tag, children);
            && Fits(n) && PadNode(n) == Marks(8, false) + Pad(children)
            && EncodeNode(n) == Header(tag, 6, |Encode(children)|) + Encode(children)
  {}

  lemma StructStep(b: Bytes, tag: nat, children: seq<Node>, rest: seq<Node>)
    requires tag < P24 && FitAll(children) && FitAll(rest)
    requires var k := |Encode(children)|;
             && 8 + k <= |b| && Header(tag, 6, k) == b[..8]
             && Zeroed(Encode(children), Pad(children), b[8..8 + k]) && k % 8 == 0
             && Zeroed(Encode(rest), Pad(rest), b[8 + k..]) && |b[8 + k..]| % 8 == 0
    ensures var f := [Struct(tag, children)] + rest;
            FitAll(f) && Zeroed(Encode(f), Pad(f), b) && |b| % 8 == 0
  {
    hide Put32, Header, Encode, EncodeNode, Pad, PadNode, Fits, Zeroed, Marks;
    var n, k := Struct(tag, children), |Encode(children)|;
    StructBytes(tag, children);
    EncodePrepend(n, rest);
    ZeroedSame(b[..8]);
    ZeroedConcat(b[..8], Marks(8, false), b[..8], Encode(children), Pad(children), b[8..8 + k]);
    ZeroedConcat(EncodeNode(n), PadNode(n), b[..8] + b[8..8 + k], Encode(rest), Pad(rest), b[8 + k..]);
    assert b == b[..8] + b[8..8 + k] + b[8 + k..];
  }
}
