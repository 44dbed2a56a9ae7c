/**
 * Does what ttlv_value_ntoh() stores into a node fit the node that ttlv_new() allocated for it?
 *
 * ttlv_new() gives the value as many bytes as the length field says (one more for text and raw), while scalars are
 * stored in 4 or 8 bytes whatever it says.
 */
module TtlvRoom {
  import opened Octets
  import opened NetInt
  import opened Ttlv

  /** The bytes ttlv_new() allocates for the value. */
  function Room(n: Node): nat
    requires !n.Struct?
  {
    if n.Text? || n.Raw? then Length(n) + 1 else Length(n)
  }

  /** The bytes ttlv_value_ntoh() stores: the C field, or the data and a terminator. */
  function Stored(n: Node): nat
    requires !n.Struct?
  {
    match n
    case Int(_, _, _) => 4
    case Long(_, _, _) => 8
    case Bool(_, _, _) => 4
    case Text(_, data) => |data| + 1
    case Raw(_, data) => |data| + 1
  }

  predicate StoreFits(n: Node) { !n.Struct? ==> Stored(n) <= Room(n) }

  predicate AllFit(stored: seq<Node>) { forall i :: 0 <= i < |stored| ==> StoreFits(stored[i]) }

  /** The values stored by a run of ttlv_decode() in order, and whether it succeeded. */
  datatype Walk = Walk(stored: seq<Node>, ok: bool)

  function Both(first: Walk, second: Walk): Walk {
    if first.ok then Walk(first.stored + second.stored, second.ok) else first
  }

  /** The stores of ttlv_decode(), as it is or with the length check as meant. */
  function WalkOf(b: Bytes, meant: bool): Walk
    decreases |b|
  {
    if b == [] then Walk([], true)
    else if |b| < 8 || !HeaderOk(b, meant) then Walk([], false)
    else
      var tagtype, length := Get32(b[..4]), Get32(b[4..8]);
      var tag, typ := tagtype / 256, tagtype % 256;
      if typ != 6 then
        var n := NodeAt(tag, typ, length, b[8..]);
        if n.None? then Walk([], false)
        else Both(Walk([n.value], true), WalkOf(b[8 + Advance(typ, length)..], meant))
      else Both(WalkOf(b[8..8 + length], meant), WalkOf(b[8 + length..], meant))
  }

  // ---------- the stores are the leaves of what is decoded ----------

  function LeavesOf(n: Node): seq<Node>
    decreases n
  {
    if n.Struct? then Leaves(n.children) else [n]
  }

  function Leaves(f: seq<Node>): seq<Node>
    decreases f
  {
    if f == [] then [] else LeavesOf(f[0]) + Leaves(f[1..])
  }

  lemma LeavesCons(n: Node, f: seq<Node>)
    ensures Leaves([n] + f) == LeavesOf(n) + Leaves(f)
  {
    hide LeavesOf;
    assert ([n] + f)[1..] == f;
  }

  lemma WalkLeaf(b: Bytes, meant: bool)
    requires |b| >= 8 && HeaderOk(b, meant) && Get32(b[..4]) % 256 != 6
    ensures var tt, length := Get32(b[..4]), Get32(b[4..8]);
            var n := NodeAt(tt / 256, tt % 256, length, b[8..]);
            WalkOf(b, meant) == if n.None? then Walk([], false)
                                else Both(Walk([n.value], true), WalkOf(b[8 + Advance(tt % 256, length)..], meant))
  {
    hide Get32, HeaderOk, NodeAt, Advance;
  }

  lemma WalkStruct(b: Bytes, meant: bool)
    requires |b| >= 8 && HeaderOk(b, meant) && Get32(b[..4]) % 256 == 6
    ensures var length := Get32(b[4..8]);
            WalkOf(b, meant) == Both(WalkOf(b[8..8 + length], meant), WalkOf(b[8 + length..], meant))
  {
    hide Get32, NodeAt, Advance;
  }

  /** The walk succeeds iff ttlv_decode() does, and then has stored every leaf of the result, in order. */
  lemma {:induction false} WalkDecodes(b: Bytes)
    ensures WalkOf(b, false).ok <==> Decode(b).Some?
    ensures Decode(b).Some? ==> WalkOf(b, false).stored == Leaves(Decode(b).value)
    decreases |b|
  {
    hide Get32, NodeAt, Advance, ValidLen, Decode, WalkOf, Leaves;
    if b == [] {
      WalkNothing();
    } else if |b| < 8 || !HeaderOk(b, false) {
      WalkFails(b);
    } else {
      var tt, length := Get32(b[..4]), Get32(b[4..8]);
      if tt % 256 != 6 {
        WalkLeaf(b, false);
        var n := NodeAt(tt / 256, tt % 256, length, b[8..]);
        if n.None? {
          DecodeFails(b);
        } else {
          NodeIsLeaf(tt / 256, tt % 256, length, b[8..]);
          DecodeValueStep(b, n.value);
          var rest := b[8 + Advance(tt % 256, length)..];
          WalkDecodes(rest);
          if Decode(rest).Some? { LeavesCons(n.value, Decode(rest).value); }
        }
      } else {
        var inner, rest := b[8..8 + length], b[8 + length..];
        WalkStruct(b, false);
        DecodeStructStep(b);
        WalkDecodes(inner);
        WalkDecodes(rest);
        if Decode(inner).Some? && Decode(rest).Some? {
          LeavesCons(Struct(tt / 256, Decode(inner).value), Decode(rest).value);
        }
      }
    }
  }

  lemma NodeIsLeaf(tag: nat, typ: nat, length: nat, b: Bytes)
    requires length <= |b| && 1 <= typ <= 5 && NodeAt(tag, typ, length, b).Some?
    ensures var n := NodeAt(tag, typ, length, b).value;
            !n.Struct? && Type(n) == typ && Length(n) == length && Advance(typ, length) <= |b|
  {}

  lemma WalkNothing()
    ensures WalkOf([], false) == Walk([], true) && Decode([]) == Some([]) && Leaves([]) == []
  {}

  lemma WalkFails(b: Bytes)
    requires b != [] && (|b| < 8 || !HeaderOk(b, false))
    ensures !WalkOf(b, false).ok && Decode(b).None?
  {
    hide Get32, ValidLen;
    DecodeFails(b);
  }

  // ---------- when they fit ----------

  /** A scalar is not shorter than its C field. */
  predicate WideEnough(n: Node) {
    match n
    case Int(_, length, _) => length >= 4
    case Bool(_, length, _) => length >= 4
    case Long(_, length, _) => length >= 8
    case Struct(_, children) => AllWide(children)
    case _ => true
  }

  predicate AllWide(f: seq<Node>) { forall i :: 0 <= i < |f| ==> WideEnough(f[i]) }

  lemma {:induction false} LeavesFit(f: seq<Node>)
    ensures AllFit(Leaves(f)) <==> AllWide(f)
    decreases f
  {
    hide Leaves, AllFit, WideEnough, AllWide;
    if f == [] {
      assert AllFit(Leaves(f)) && AllWide(f) by { NoLeaves(); WideNone(); }
    } else {
      var n := f[0];
      assert [n] + f[1..] == f;
      LeavesCons(n, f[1..]);
      FitConcat(LeavesOf(n), Leaves(f[1..]));
      WideCons(n, f[1..]);
      LeavesFit(f[1..]);
      if n.Struct? { LeavesFit(n.children); }
      LeafFits(n);
    }
  }

  lemma NoLeaves()
    ensures AllFit(Leaves([]))
  {}

  lemma WideNone()
    ensures AllWide([])
  {}

  lemma LeafFits(n: Node)
    ensures WideEnough(n) <==> if n.Struct? then AllWide(n.children) else AllFit([n])
    ensures LeavesOf(n) == if n.Struct? then Leaves(n.children) else [n]
  {
    assert !n.Struct? ==> [n][0] == n;
  }

  lemma FitConcat(a: seq<Node>, b: seq<Node>)
    ensures AllFit(a + b) <==> AllFit(a) && AllFit(b)
  {
    hide StoreFits;
    var c := a + b;
    assert forall i :: 0 <= i < |b| ==> b[i] == c[|a| + i];
    assert forall i :: 0 <= i < |a| ==> a[i] == c[i];
  }

  lemma WideCons(n: Node, f: seq<Node>)
    ensures AllWide([n] + f) <==> WideEnough(n) && AllWide(f)
  {
    hide WideEnough;
    var c := [n] + f;
    assert forall i :: 0 <= i < |f| ==> f[i] == c[i + 1];
    assert c[0] == n;
  }

  /** If a buffer decodes, every store fits iff every scalar of the result has at least its C width as length. */
  lemma RoomTheorem(b: Bytes)
    requires Decode(b).Some?
    ensures AllFit(WalkOf(b, false).stored) <==> AllWide(Decode(b).value)
  {
    hide Decode, WalkOf, AllFit, AllWide;
    WalkDecodes(b);
    LeavesFit(Decode(b).value);
  }

  /** Whether or not it decodes: all stores fit iff no scalar that is stored has too small a length. */
  lemma StoresTheorem(b: Bytes)
    ensures AllFit(WalkOf(b, false).stored) <==> AllWide(WalkOf(b, false).stored)
  {
    hide WalkOf;
    WalkStoresLeaves(b, false);
  }

  lemma {:induction false} WalkStoresLeaves(b: Bytes, meant: bool)
    ensures forall n :: n in WalkOf(b, meant).stored ==> !n.Struct? && (meant ==> ValidLen(Type(n), Length(n)))
    decreases |b|
  {
    hide Get32, NodeAt, Advance, WalkOf;
    if |b| >= 8 && HeaderOk(b, meant) {
      var tt, length := Get32(b[..4]), Get32(b[4..8]);
      if tt % 256 != 6 {
        WalkLeaf(b, meant);
        if NodeAt(tt / 256, tt % 256, length, b[8..]).Some? {
          NodeIsLeaf(tt / 256, tt % 256, length, b[8..]);
          WalkStoresLeaves(b[8 + Advance(tt % 256, length)..], meant);
        }
      } else {
        WalkStruct(b, meant);
        WalkStoresLeaves(b[8..8 + length], meant);
        WalkStoresLeaves(b[8 + length..], meant);
      }
    } else {
      WalkStops(b, meant);
    }
  }

  lemma WalkStops(b: Bytes, meant: bool)
    requires |b| < 8 || !HeaderOk(b, meant)
    ensures WalkOf(b, meant).stored == []
  {}

  /** With the type alone given to ttlv_valid_len(), every store of every buffer would fit. */
  lemma FitsAsMeant(b: Bytes)
    ensures AllFit(WalkOf(b, true).stored)
  {
    hide WalkOf;
    WalkStoresLeaves(b, true);
  }

  lemma {:induction false} BuiltWide(f: seq<Node>)
    requires BuiltAll(f)
    ensures AllWide(f)
    decreases f
  {
    forall i | 0 <= i < |f| ensures WideEnough(f[i]) {
      assert Built(f[i]);
      if f[i].Struct? { BuiltWide(f[i].children); }
    }
  }

  /** Every store fits for what ttlv_new_int() and its siblings build and ttlv_encode() writes. */
  lemma BuiltFits(f: seq<Node>)
    requires FitAll(f) && BuiltAll(f) && |Encode(f)| < P32
    ensures AllFit(WalkOf(Encode(f), false).stored)
  {
    hide Decode, WalkOf, AllFit, AllWide, Encode, BuiltAll, FitAll;
    DecodeEncode(f);
    RoomTheorem(Encode(f));
    BuiltWide(f);
  }

  /** A structure holding a LONG whose length field is 0: it decodes, and 8 bytes are stored where there are none. */
  lemma ShortLong(tag: nat, v: Bytes)
    requires 0 < tag < P24 && |v| == 8
    ensures var b := Header(tag, 6, 16) + (Header(tag, 2, 0) + v);
            var n := Long(tag, 0, Signed(Get64(v), P64));
            Decode(b) == Some([Struct(tag, [n])]) && !AllFit(WalkOf(b, false).stored) && Stored(n) == 8 && Room(n) == 0
  {
    hide Header, Get32, Put32, Get64, Signed, Decode, WalkOf;
    var inner := Header(tag, 2, 0) + v;
    var b := Header(tag, 6, 16) + inner;
    var n := Long(tag, 0, Signed(Get64(v), P64));
    HeaderParts(tag, 2, 0, v);
    HeaderParts(tag, 6, 16, inner);
    assert v[..8] == v && v[8..] == [];
    DecodeValueStep(inner, n);
    assert inner[16..] == [] && b[8..24] == inner && b[24..] == [];
    WalkNothing();
    assert [n] + [] == [n];
    DecodeStructStep(b);
    var s := Struct(tag, [n]);
    assert [s] + [] == [s];
    RoomTheorem(b);
    assert !AllWide([n]) by { assert !WideEnough([n][0]); }
    assert !AllWide([s]) by { assert !WideEnough([s][0]); }
  }
}
