/** What msg_recv() makes of the buffer it read: not always what ttlv_decode() accepts. */
module TtlvCut {
  import opened Octets
  import opened NetInt
  import opened Ttlv
  import opened TtlvImpl
  import opened TtlvCanon

  /** What msg_recv() makes of a buffer: a decoded message, or what a failing ttlv_decode() left; None for NULL. */
  function Handed(b: Bytes): Option<seq<Node>> {
    var d := Decode(b);
    if d.Some? then d else if Kept(Leftover(b)) == [] then None else Leftover(b)
  }

  /** The bytes that follow the header, as the length field tells msg_recv(). */
  predicate Message(b: Bytes, tag: nat, typ: nat, length: nat) {
    && tag < P24 && 1 <= typ <= 6 && length < P32 && |b| == 8 + Round8(length) < P32
    && b[..8] == Header(tag, typ, length)
  }

  predicate IsScalar(typ: nat) { 1 <= typ <= 3 }

  lemma MessageHeader(b: Bytes, tag: nat, typ: nat, length: nat)
    requires Message(b, tag, typ, length)
    ensures Get32(b[..4]) == tag * 256 + typ && Get32(b[4..8]) == length
    ensures Get32(b[..4]) / 256 == tag && Get32(b[..4]) % 256 == typ
  {
    hide Get32, Header;
    assert b == Header(tag, typ, length) + b[8..];
    HeaderParts(tag, typ, length, b[8..]);
  }

  lemma HandedSame(b: Bytes)
    requires Decode(b).None? ==> Kept(Leftover(b)) == []
    ensures Handed(b) == Decode(b)
  {
    hide Decode, Leftover;
  }

  lemma NothingAfter(n: Node)
    ensures Prepend(n, Leftover([])).None?
  {}

  lemma WholeStruct(b: Bytes, tag: nat, length: nat)
    requires Message(b, tag, 6, length) && HeaderOk(b, false)
    ensures Leftover(b).None?
  {
    hide Get32, Header, Decode, Leftover, ValidLen;
    MessageHeader(b, tag, 6, length);
    LeftoverStruct(b);
    if Decode(b[8..8 + length]).Some? {
      EncodeDecode(b[8..8 + length]);
      assert b[8 + length..] == [];
      NothingAfter(Struct(tag, Decode(b[8..8 + length]).value));
    }
  }

  lemma WholeLeaf(b: Bytes, tag: nat, typ: nat, length: nat)
    requires Message(b, tag, typ, length) && HeaderOk(b, false) && typ != 6 && (IsScalar(typ) ==> length <= 8)
    ensures Kept(Leftover(b)) == []
  {
    hide Get32, Header, Leftover, NodeAt, ValidLen, Advance;
    MessageHeader(b, tag, typ, length);
    LeftoverLeaf(b);
    var n := NodeAt(tag, typ, length, b[8..]);
    if n.Some? {
      EndsThere(tag, typ, length, b[8..]);
      assert b[8 + Advance(typ, length)..] == [];
      NothingAfter(n.value);
    }
  }

  /** A message that is no scalar with a tag and a length over 8 is received iff it decodes. */
  lemma WholeMessage(b: Bytes, tag: nat, typ: nat, length: nat)
    requires Message(b, tag, typ, length) && !(tag > 0 && IsScalar(typ) && length > 8)
    ensures Handed(b) == Decode(b)
  {
    hide Get32, Header, Decode, Leftover, ValidLen, Handed;
    MessageHeader(b, tag, typ, length);
    if tag == 0 && IsScalar(typ) && ValidLen(typ, length) { ScalarLengths(typ, length); }
    if !HeaderOk(b, false) {
      NothingLeft(b);
    } else if typ == 6 {
      WholeStruct(b, tag, length);
    } else {
      WholeLeaf(b, tag, typ, length);
    }
    HandedSame(b);
  }

  lemma ScalarLengths(typ: nat, length: nat)
    requires IsScalar(typ) && ValidLen(typ, length)
    ensures length <= 8
  {}

  lemma EndsThere(tag: nat, typ: nat, length: nat, b: Bytes)
    requires 1 <= typ <= 5 && |b| == Round8(length) && length <= |b| && NodeAt(tag, typ, length, b).Some?
    requires IsScalar(typ) ==> length <= 8
    ensures Advance(typ, length) == |b|
  {
    hide Get32, Get64, Signed;
  }

  /** A node in front, and a value that is cut short after it. */
  function Torn(h: Bytes, n: nat): (b: Bytes)
    requires |h| == 8 && n >= 16 && n % 8 == 0
    ensures |b| == 8 + n && b[..8] == h
  {
    h + (Zeros(8) + TornTail(n))
  }

  lemma CutHere(tag: nat)
    requires 0 < tag < P24
    ensures Decode(Header(tag, 1, 0)).None? && Leftover(Header(tag, 1, 0)) == Some([])
  {
    hide Get32, Header, Decode, Leftover;
    var h := Header(tag, 1, 0);
    HeaderParts(tag, 1, 0, []);
    assert h + [] == h;
    DecodeFails(h);
    LeftoverLeaf(h);
  }

  /** One more leaf in front changes nothing about that. */
  lemma LeafBefore(tag: nat, typ: nat, length: nat, value: Bytes, rest: Bytes)
    requires 0 < tag < P24 && 1 <= typ <= 5 && length < P32 && length <= |value + rest|
    requires NodeAt(tag, typ, length, value + rest).Some? && Advance(typ, length) == |value|
    requires Decode(rest).None? && Leftover(rest).Some?
    ensures var b := Header(tag, typ, length) + (value + rest);
            Decode(b).None? && Leftover(b).Some? && Kept(Leftover(b)) != []
  {
    hide Get32, Header, NodeAt, Advance, Decode, Leftover;
    var b := Header(tag, typ, length) + (value + rest);
    HeaderParts(tag, typ, length, value + rest);
    NonZeroTag(tag, typ, length);
    var n := NodeAt(tag, typ, length, value + rest).value;
    assert b[8 + |value|..] == rest;
    DecodeValueStep(b, n);
    LeftoverLeaf(b);
  }

  lemma NonZeroTag(tag: nat, typ: nat, length: nat)
    requires tag > 0 && typ < 256
    ensures ValidLen(tag * 256 + typ, length)
  {}

  lemma ScalarReads(tag: nat, typ: nat, length: nat, value: Bytes)
    requires IsScalar(typ) && |value| >= 8 && length <= |value|
    ensures NodeAt(tag, typ, length, value).Some? && Advance(typ, length) == 8
  {
    hide Get32, Get64, Signed;
  }

  lemma DataReads(tag: nat, n: nat, rest: Bytes)
    requires n % 8 == 0
    ensures NodeAt(tag, 5, n, Zeros(n) + rest).Some? && Advance(5, n) == n
  {}

  /** What follows the first value: a value that is cut short, perhaps after some data. */
  function TornTail(n: nat): (b: Bytes)
    requires n >= 16 && n % 8 == 0
    ensures |b| == n - 8
  {
    if n == 16 then Header(1, 1, 0) else DataThenCut(n - 24)
  }

  function DataThenCut(m: nat): (b: Bytes)
    ensures |b| == m + 16
  {
    Header(1, 5, m) + (Zeros(m) + Header(1, 1, 0))
  }

  lemma DataThenCutIsCut(m: nat)
    requires m < P32 && m % 8 == 0
    ensures Decode(DataThenCut(m)).None? && Leftover(DataThenCut(m)).Some?
  {
    hide Header, Decode, Leftover, Zeros, Kept, NodeAt, Advance;
    CutHere(1);
    DataReads(1, m, Header(1, 1, 0));
    LeafBefore(1, 5, m, Zeros(m), Header(1, 1, 0));
  }

  lemma TailIsCut(n: nat)
    requires 16 <= n < P32 && n % 8 == 0
    ensures Decode(TornTail(n)).None? && Leftover(TornTail(n)).Some?
  {
    hide Header, Decode, Leftover, DataThenCut;
    if n == 16 { CutHere(1); } else { DataThenCutIsCut(n - 24); }
  }

  lemma TornIsHanded(tag: nat, typ: nat, length: nat)
    requires 0 < tag < P24 && IsScalar(typ) && 8 < length && Round8(length) + 8 < P32
    ensures var b := Torn(Header(tag, typ, length), Round8(length));
            Decode(b).None? && Handed(b).Some?
  {
    hide Header, Decode, Leftover, Zeros, Kept, NodeAt, Advance, TornTail;
    var n := Round8(length);
    TailIsCut(n);
    ScalarReads(tag, typ, length, Zeros(8) + TornTail(n));
    LeafBefore(tag, typ, length, Zeros(8), TornTail(n));
  }

  /**
   * msg_recv() hands on a message iff it decodes, for every body that follows the header, unless the header is that
   * of a scalar with a tag and a length over 8: then a body exists that does not decode and is handed on in part.
   */
  lemma HandedTheorem(tag: nat, typ: nat, length: nat)
    requires tag < P24 && 1 <= typ <= 6 && length < P32 && Round8(length) + 8 < P32
    ensures (forall b | Message(b, tag, typ, length) :: Handed(b) == Decode(b)) <==>
            !(tag > 0 && IsScalar(typ) && length > 8)
  {
    hide Header, Decode, Handed, Round8;
    if tag > 0 && IsScalar(typ) && length > 8 {
      TornIsHanded(tag, typ, length);
      assert Message(Torn(Header(tag, typ, length), Round8(length)), tag, typ, length);
    } else {
      forall b | Message(b, tag, typ, length) ensures Handed(b) == Decode(b) { WholeMessage(b, tag, typ, length); }
    }
  }
}
