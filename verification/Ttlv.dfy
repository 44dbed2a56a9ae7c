/** proto.c: the tag/type/length/value format, as functions on byte sequences. */
module Ttlv {
  import opened Octets
  import opened NetInt

  /**
   * A ttlv_t.  A scalar keeps the length field it came with: the decoder does not insist on 4 or 8.
   * The length of a text or raw node is the length of its data.
   */
  datatype Node =
    | Int(tag: nat, length: nat, v: int)
    | Long(tag: nat, length: nat, v: int)
    | Bool(tag: nat, length: nat, u: nat)
    | Text(tag: nat, data: Bytes)
    | Raw(tag: nat, data: Bytes)
    | Struct(tag: nat, children: seq<Node>)

  /** The ranges of the C fields. */
  predicate Fits(n: Node) {
    && n.tag < P24
    && match n
       case Int(_, length, v) => length < P32 && 0 <= 2 * v + P32 && 2 * v < P32
       case Long(_, length, v) => length < P32 && 0 <= 2 * v + P64 && 2 * v < P64
       case Bool(_, length, u) => length < P32 && u < P32
       case Text(_, data) => |data| < P32
       case Raw(_, data) => |data| < P32
       case Struct(_, children) => FitAll(children)
  }

  predicate FitAll(f: seq<Node>) { forall i :: 0 <= i < |f| ==> Fits(f[i]) }

  /** As built by ttlv_new_int() and its siblings: scalars carry their own length. */
  predicate Built(n: Node) {
    match n
    case Int(_, length, _) => length == 4
    case Long(_, length, _) => length == 8
    case Bool(_, length, _) => length == 4
    case Struct(_, children) => BuiltAll(children)
    case _ => true
  }

  predicate BuiltAll(f: seq<Node>) { forall i :: 0 <= i < |f| ==> Built(f[i]) }

  function Type(n: Node): (t: nat)
    ensures 1 <= t <= 6
  {
    match n
    case Int(_, _, _) => 1
    case Long(_, _, _) => 2
    case Bool(_, _, _) => 3
    case Text(_, _) => 4
    case Raw(_, _) => 5
    case Struct(_, _) => 6
  }

  function Zeros(n: nat): (z: Bytes)
    ensures |z| == n
  {
    seq(n, i => 0)
  }

  /** ROUND8(n) - n. */
  function PadLen(n: nat): nat { (8 - n % 8) % 8 }

  function Round8(n: nat): (r: nat)
    ensures r == n + PadLen(n) && r % 8 == 0 && n <= r < n + 8
  {
    (n + 7) / 8 * 8
  }

  // ---------- encoding ----------

  function Header(tag: nat, typ: nat, length: nat): (b: Bytes)
    ensures |b| == 8
  {
    Put32(tag * 256 + typ) + Put32(length)
  }

  /** ttlv_value_hton(), for everything but a structure. */
  function Value(n: Node): Bytes {
    match n
    case Int(_, _, v) => Put32(Abs32(v)) + Zeros(4)
    case Bool(_, _, u) => Put32(u) + Zeros(4)
    case Long(_, _, v) => Put64(Abs64(v))
    case Text(_, data) => data + Zeros(PadLen(|data|))
    case Raw(_, data) => data + Zeros(PadLen(|data|))
    case Struct(_, _) => []
  }

  function Abs32(v: int): nat { if 0 <= Unsigned(v, P32) then Unsigned(v, P32) else 0 }
  function Abs64(v: int): nat { if 0 <= Unsigned(v, P64) then Unsigned(v, P64) else 0 }

  function Length(n: Node): nat
    requires !n.Struct?
  {
    match n
    case Int(_, length, _) => length
    case Long(_, length, _) => length
    case Bool(_, length, _) => length
    case Text(_, data) => |data|
    case Raw(_, data) => |data|
  }

  function EncodeNode(n: Node): (b: Bytes)
    ensures |b| >= 8
    decreases n
  {
    if n.Struct? then
      var body := Encode(n.children);
      Header(n.tag, 6, |body|) + body
    else Header(n.tag, Type(n), Length(n)) + Value(n)
  }

  function Encode(f: seq<Node>): Bytes
    decreases f
  {
    if f == [] then [] else Encode(f[..|f| - 1]) + EncodeNode(f[|f| - 1])
  }

  // ---------- sizes ----------

  function SizeNode(n: Node): nat
    decreases n
  {
    if n.Struct? then 8 + Size(n.children) else 8 + Round8(Length(n))
  }

  /** ttlv_calc_size(). */
  function Size(f: seq<Node>): nat
    decreases f
  {
    if f == [] then 0 else Size(f[..|f| - 1]) + SizeNode(f[|f| - 1])
  }

  lemma ValueLength(n: Node)
    requires !n.Struct? && Built(n)
    ensures |Value(n)| == Round8(Length(n))
  {
    hide Put32, Put64;
  }

  lemma LeafSize(n: Node)
    requires !n.Struct? && Built(n)
    ensures |EncodeNode(n)| == SizeNode(n) && SizeNode(n) % 8 == 0
  {
    hide Value, Header, Length, Put32, Encode;
    ValueLength(n);
  }

  lemma StructSize(n: Node)
    requires n.Struct? && |Encode(n.children)| == Size(n.children) && Size(n.children) % 8 == 0
    ensures |EncodeNode(n)| == SizeNode(n) && SizeNode(n) % 8 == 0
  {
    hide Encode, Size, Header, Put32;
  }

  lemma EncodeLast(f: seq<Node>)
    requires f != []
    ensures var front, n := f[..|f| - 1], f[|f| - 1];
            Encode(f) == Encode(front) + EncodeNode(n) && Size(f) == Size(front) + SizeNode(n)
  {
    hide EncodeNode, SizeNode;
  }

  lemma BuiltParts(f: seq<Node>)
    requires BuiltAll(f) && f != []
    ensures var n := f[|f| - 1]; BuiltAll(f[..|f| - 1]) && Built(n) && (n.Struct? ==> BuiltAll(n.children))
  {}

  lemma NoSize()
    ensures Encode([]) == [] && Size([]) == 0
  {}

  /** The size computed beforehand is the length encoded, and a multiple of 8. */
  lemma {:induction false} SizeIsLength(f: seq<Node>)
    requires BuiltAll(f)
    ensures |Encode(f)| == Size(f) && Size(f) % 8 == 0
    decreases f
  {
    hide EncodeNode, SizeNode, Encode, Size, Built, BuiltAll;
    if f == [] {
      NoSize();
    } else {
      var n := f[|f| - 1];
      BuiltParts(f);
      SizeIsLength(f[..|f| - 1]);
      if n.Struct? {
        SizeIsLength(n.children);
        StructSize(n);
      } else {
        LeafSize(n);
      }
      EncodeLast(f);
    }
  }

  lemma {:induction false} EncodeConcat(a: seq<Node>, b: seq<Node>)
    ensures Encode(a + b) == Encode(a) + Encode(b)
  {
    hide EncodeNode;
    if b == [] {
      assert a + b == a;
    } else {
      var b' := b[..|b| - 1];
      EncodeConcat(a, b');
      assert (a + b)[..|a + b| - 1] == a + b' && (a + b)[|a + b| - 1] == b[|b| - 1];
      assert Encode(a) + Encode(b') + EncodeNode(b[|b| - 1]) == Encode(a) + (Encode(b') + EncodeNode(b[|b| - 1]));
    }
  }

  lemma EncodeOne(n: Node)
    ensures Encode([n]) == EncodeNode(n)
  {
    hide EncodeNode;
    assert [n][..0] == [] && Encode([]) == [];
  }

  lemma EncodeCons(f: seq<Node>)
    requires f != []
    ensures Encode(f) == EncodeNode(f[0]) + Encode(f[1..])
  {
    hide EncodeNode;
    EncodeConcat([f[0]], f[1..]);
    EncodeOne(f[0]);
    assert f == [f[0]] + f[1..];
  }

  // ---------- decoding ----------

  /** ttlv_valid_len(); the decoder passes tag and type together, so it only bites when the tag is 0. */
  predicate ValidLen(typ: nat, length: nat) {
    match typ
    case 6 => length % 8 == 0
    case 1 => length == 4
    case 3 => length == 4
    case 2 => length == 8
    case _ => true
  }

  /** ttlv_value_ntoh(): the node, if `b` has room for its value. */
  function NodeAt(tag: nat, typ: nat, length: nat, b: Bytes): Option<Node>
    requires length <= |b|
  {
    if typ == 4 || typ == 5 then
      if |b| < Round8(length) then None
      else Some(if typ == 4 then Text(tag, b[..length]) else Raw(tag, b[..length]))
    else if |b| < 8 then None
    else if typ == 2 then Some(Long(tag, length, Signed(Get64(b[..8]), P64)))
    else if typ == 1 then Some(Int(tag, length, Signed(Get32(b[..4]), P32)))
    else Some(Bool(tag, length, Get32(b[..4])))
  }

  /** How many bytes of value ttlv_value_ntoh() reports. */
  function Advance(typ: nat, length: nat): nat { if typ == 4 || typ == 5 then Round8(length) else 8 }

  /** ttlv_decode() goes on after reading this header; `meant`: if it gave ttlv_valid_len() the type alone. */
  predicate HeaderOk(b: Bytes, meant: bool)
    requires |b| >= 8
  {
    var tagtype, length := Get32(b[..4]), Get32(b[4..8]);
    var typ := tagtype % 256;
    1 <= typ <= 6 && ValidLen(if meant then typ else tagtype, length) && length <= |b| - 8
  }

  /** ttlv_decode(): None when it returns a negative value. */
  function Decode(b: Bytes): Option<seq<Node>>
    decreases |b|
  {
    if b == [] then Some([])
    else if |b| < 8 || !HeaderOk(b, false) then None
    else
      var tagtype, length := Get32(b[..4]), Get32(b[4..8]);
      var tag, typ := tagtype / 256, tagtype % 256;
      if typ != 6 then
        var n := NodeAt(tag, typ, length, b[8..]);
        if n.None? then None else Prepend(n.value, Decode(b[8 + Advance(typ, length)..]))
      else
        var children := Decode(b[8..8 + length]);
        if children.None? then None else Prepend(Struct(tag, children.value), Decode(b[8 + length..]))
  }

  /**
   * What ttlv_decode() leaves in *head when it fails: it frees the nodes it has, except when a value is cut short
   * at the top level.  None for nothing.
   */
  function Leftover(b: Bytes): Option<seq<Node>>
    decreases |b|
  {
    if |b| < 8 || !HeaderOk(b, false) then None
    else
      var tagtype, length := Get32(b[..4]), Get32(b[4..8]);
      var tag, typ := tagtype / 256, tagtype % 256;
      if typ != 6 then
        var n := NodeAt(tag, typ, length, b[8..]);
        if n.None? then Some([]) else Prepend(n.value, Leftover(b[8 + Advance(typ, length)..]))
      else
        var children := Decode(b[8..8 + length]);
        if children.None? then None else Prepend(Struct(tag, children.value), Leftover(b[8 + length..]))
  }

  // ---------- decoding what was encoded ----------

  lemma HeaderParts(tag: nat, typ: nat, length: nat, tail: Bytes)
    requires tag < P24 && typ < 256 && length < P32
    ensures var b := Header(tag, typ, length) + tail;
            && |b| == 8 + |tail| && b[8..] == tail
            && Get32(b[..4]) == tag * 256 + typ && Get32(b[4..8]) == length
            && Get32(b[..4]) / 256 == tag && Get32(b[..4]) % 256 == typ
  {
    hide Put32, Get32;
    var b, tt := Header(tag, typ, length) + tail, tag * 256 + typ;
    assert b[..4] == Put32(tt) && b[4..8] == Put32(length);
    assert tt < P32;
    GetPut32(tt);
    GetPut32(length);
  }

  /** A value decodes to the node it was encoded from. */
  lemma NodeAtValue(n: Node, rest: Bytes)
    requires !n.Struct? && Fits(n) && Built(n)
    ensures Length(n) <= |Value(n) + rest| && NodeAt(n.tag, Type(n), Length(n), Value(n) + rest) == Some(n)
    ensures Advance(Type(n), Length(n)) == |Value(n)|
  {
    hide Put32, Get32, Put64, Get64;
    var b := Value(n) + rest;
    ValueLength(n);
    match n
    case Int(_, _, v) =>
      SignedUnsigned(v, P32);
      assert b[..4] == Put32(Unsigned(v, P32));
      GetPut32(Unsigned(v, P32));
    case Bool(_, _, u) =>
      assert b[..4] == Put32(u);
      GetPut32(u);
    case Long(_, _, v) =>
      SignedUnsigned(v, P64);
      assert b[..8] == Put64(Unsigned(v, P64));
      GetPut64(Unsigned(v, P64));
    case Text(_, data) => assert b[..|data|] == data;
    case Raw(_, data) => assert b[..|data|] == data;
  }

  /** The length check passes for every node that was built, whatever its tag. */
  lemma BuiltLengthsPass(tag: nat, typ: nat, length: nat)
    requires 1 <= typ <= 6 && ValidLen(typ, length)
    ensures ValidLen(tag * 256 + typ, length)
  {}

  /** The branch of ttlv_decode() for anything but a structure. */
  lemma DecodeValueStep(b: Bytes, n: Node)
    requires |b| >= 8
    requires var tt, length := Get32(b[..4]), Get32(b[4..8]);
             && 1 <= tt % 256 <= 5 && ValidLen(tt, length) && length <= |b| - 8
             && NodeAt(tt / 256, tt % 256, length, b[8..]) == Some(n)
    ensures var tt, length := Get32(b[..4]), Get32(b[4..8]);
            Advance(tt % 256, length) <= |b| - 8 && Decode(b) == Prepend(n, Decode(b[8 + Advance(tt % 256, length)..]))
  {
    hide Get32, ValidLen, Put32;
  }

  /** The branch of ttlv_decode() for a structure. */
  lemma DecodeStructStep(b: Bytes)
    requires |b| >= 8
    requires var tt, length := Get32(b[..4]), Get32(b[4..8]);
             tt % 256 == 6 && ValidLen(tt, length) && length <= |b| - 8
    ensures var tt, length := Get32(b[..4]), Get32(b[4..8]);
            var children := Decode(b[8..8 + length]);
            Decode(b) == if children.None? then None
                         else Prepend(Struct(tt / 256, children.value), Decode(b[8 + length..]))
  {
    hide Get32, ValidLen, Put32;
  }

  /** The checks of ttlv_decode() that make it fail. */
  lemma DecodeFails(b: Bytes)
    requires b != []
    requires |b| >= 8 ==>
               var tt, length := Get32(b[..4]), Get32(b[4..8]);
               || tt % 256 == 0 || tt % 256 >= 7 || !ValidLen(tt, length) || length > |b| - 8
               || (tt % 256 != 6 && NodeAt(tt / 256, tt % 256, length, b[8..]).None?)
    ensures Decode(b).None?
  {
    hide Get32, ValidLen, Put32, NodeAt;
  }

  lemma DecodeLeaf(n: Node, rest: Bytes)
    requires !n.Struct? && Fits(n) && Built(n)
    ensures Decode(EncodeNode(n) + rest) == Prepend(n, Decode(rest))
  {
    hide Put32, Get32, Header, Value, NodeAt, Advance, Decode;
    var b, tail := EncodeNode(n) + rest, Value(n) + rest;
    assert b == Header(n.tag, Type(n), Length(n)) + tail;
    HeaderParts(n.tag, Type(n), Length(n), tail);
    BuiltLengthsPass(n.tag, Type(n), Length(n));
    NodeAtValue(n, rest);
    DecodeValueStep(b, n);
    assert b[8 + |Value(n)|..] == rest;
  }

  lemma DecodeStruct(tag: nat, children: seq<Node>, rest: Bytes)
    requires tag < P24 && BuiltAll(children) && |Encode(children)| < P32
    requires Decode(Encode(children)) == Some(children)
    ensures Decode(EncodeNode(Struct(tag, children)) + rest) == Prepend(Struct(tag, children), Decode(rest))
  {
    hide Put32, Get32, Header, NodeAt, Advance, Encode, Decode;
    var body := Encode(children);
    var b := EncodeNode(Struct(tag, children)) + rest;
    assert b == Header(tag, 6, |body|) + (body + rest);
    HeaderParts(tag, 6, |body|, body + rest);
    SizeIsLength(children);
    BuiltLengthsPass(tag, 6, |body|);
    assert b[8..8 + |body|] == body && b[8 + |body|..] == rest;
    DecodeStructStep(b);
  }

  lemma FirstParts(f: seq<Node>)
    requires FitAll(f) && BuiltAll(f) && f != []
    ensures FitAll(f[1..]) && BuiltAll(f[1..]) && Fits(f[0]) && Built(f[0]) && f[0].tag < P24
    ensures f[0].Struct? ==> FitAll(f[0].children) && BuiltAll(f[0].children)
  {}

  lemma StructLonger(n: Node)
    requires n.Struct?
    ensures |EncodeNode(n)| == 8 + |Encode(n.children)| && n == Struct(n.tag, n.children)
  {
    hide Header, Encode;
  }

  lemma NothingThere()
    ensures Encode([]) == [] && Decode([]) == Some([])
  {}

  /** Decoding an encoded forest gives the forest back. */
  lemma {:induction false} DecodeEncode(f: seq<Node>)
    requires FitAll(f) && BuiltAll(f) && |Encode(f)| < P32
    ensures Decode(Encode(f)) == Some(f)
    decreases f
  {
    hide Decode, Encode, EncodeNode, FitAll, BuiltAll, Fits, Built;
    if f != [] {
      var n, rest := f[0], f[1..];
      FirstParts(f);
      EncodeCons(f);
      DecodeEncode(rest);
      if n.Struct? {
        StructLonger(n);
        DecodeEncode(n.children);
        DecodeStruct(n.tag, n.children, Encode(rest));
      } else {
        DecodeLeaf(n, Encode(rest));
      }
      assert [n] + rest == f;
    } else {
      NothingThere();
    }
  }
}
