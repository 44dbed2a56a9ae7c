/**
 * C-style escapes: strunesc() (common.c) reads what cli_dump_cstring() (client.c) prints.  A C string is the
 * sequence of its bytes; reading just past them yields the terminating NUL.
 */
module Cstring {
  import opened Octets

  const BACKSLASH: Byte := 92
  const QUOTE: Byte := 39

  // ---------- strunesc() ----------

  /** s[i] of a NUL-terminated string. */
  function At(s: Bytes, i: nat): Byte { if i < |s| then s[i] else NUL }

  predicate IsOctal(c: Byte) { 48 <= c <= 55 }
  predicate IsHex(c: Byte) { 48 <= c <= 57 || 65 <= c <= 70 || 97 <= c <= 102 }

  function HexValue(c: Byte): (v: nat)
    requires IsHex(c)
    ensures v < 16
  {
    if c <= 57 then c - 48 else ToUpper(c) - 65 + 10
  }

  /** The byte an escape stands for and how many bytes it takes. */
  datatype Esc = Bad | Esc(c: Byte, used: nat)

  /** \a \b \e \E \f \n \r \t \v and \\ : NUL if `c` is none of these. */
  function Simple(c: Byte): Byte {
    match c
    case 92 => 92
    case 97 => 7
    case 98 => 8
    case 101 => 27
    case 69 => 27
    case 102 => 12
    case 110 => 10
    case 114 => 13
    case 116 => 9
    case 118 => 11
    case _ => NUL
  }

  function Octal(c1: Byte, c2: Byte, c3: Byte): Esc
    requires IsOctal(c1)
  {
    if !IsOctal(c2) then Esc(c1 - 48, 2)
    else
      var oo := (c1 - 48) * 8 + (c2 - 48);
      if IsOctal(c3) && oo * 8 + (c3 - 48) <= 255 then Esc(oo * 8 + (c3 - 48), 4) else Esc(oo, 3)
  }

  /** The escape at the start of `s`, which begins with a backslash. */
  function Escape(s: Bytes): (e: Esc)
    requires s != [] && s[0] == BACKSLASH && NUL !in s
    ensures e.Esc? ==> 1 <= e.used <= |s|
  {
    var c1 := At(s, 1);
    assert c1 != NUL ==> |s| > 1;
    if Simple(c1) != NUL then Esc(Simple(c1), 2)
    else if c1 == 99 then
      var c := ToUpper(At(s, 2));
      if c < 65 || c > 95 then Bad else Esc(c - 64, 3)
    else if c1 == 120 then
      if !IsHex(At(s, 2)) then Bad
      else if IsHex(At(s, 3)) then Esc(HexValue(s[2]) * 16 + HexValue(s[3]), 4)
      else Esc(HexValue(s[2]), 3)
    else if IsOctal(c1) then Octal(c1, At(s, 2), At(s, 3))
    else if c1 == NUL then Esc(BACKSLASH, 1)
    else Esc(c1, 2)
  }

  /** strunesc(): never longer than its input. */
  function Unesc(s: Bytes): (r: Option<Bytes>)
    requires NUL !in s
    ensures r.Some? ==> |r.value| <= |s|
    decreases |s|
  {
    if s == [] then Some([])
    else if s[0] != BACKSLASH then Prepend(s[0], Unesc(s[1..]))
    else
      var e := Escape(s);
      if e.Bad? then None else Prepend(e.c, Unesc(s[e.used..]))
  }

  // ---------- cli_dump_cstring() ----------

  function HexDigit(n: nat): (c: Byte)
    requires n < 16
    ensures IsHex(c) && HexValue(c) == n
  {
    if n < 10 then 48 + n else 97 + n - 10
  }

  function DumpByte(c: Byte): (r: Bytes)
    ensures r != [] && NUL !in r
  {
    if c == QUOTE then [92, 48, 52, 55]
    else if c == BACKSLASH then [92, 92]
    else if 0x20 <= c <= 0x7e then [c]
    else match c
      case 7 => [92, 97]
      case 8 => [92, 98]
      case 12 => [92, 102]
      case 10 => [92, 110]
      case 13 => [92, 114]
      case 9 => [92, 116]
      case 11 => [92, 118]
      case _ => [92, 120, HexDigit(c / 16), HexDigit(c % 16)]
  }

  function Dump(b: Bytes): (r: Bytes)
    ensures NUL !in r
  {
    if b == [] then [] else DumpByte(b[0]) + Dump(b[1..])
  }

  /** An escape depends on its first four bytes only. */
  lemma EscapeTwo(c: Byte, rest: Bytes)
    requires NUL !in rest && Simple(c) != NUL
    ensures Escape([BACKSLASH, c] + rest) == Esc(Simple(c), 2)
  {}

  lemma EscapeHex(hi: Byte, lo: Byte, rest: Bytes)
    requires NUL !in rest && IsHex(hi) && IsHex(lo)
    ensures Escape([BACKSLASH, 120, hi, lo] + rest) == Esc(HexValue(hi) * 16 + HexValue(lo), 4)
  {
    hide HexValue;
  }

  lemma EscapeQuote(rest: Bytes)
    requires NUL !in rest
    ensures Escape([BACKSLASH, 48, 52, 55] + rest) == Esc(QUOTE, 4)
  {}

  /** The escape that DumpByte() writes stands for the byte it was written for. */
  lemma EscapeDump(c: Byte, rest: Bytes)
    requires NUL !in rest && DumpByte(c) != [c]
    ensures (DumpByte(c) + rest)[0] == BACKSLASH && Escape(DumpByte(c) + rest) == Esc(c, |DumpByte(c)|)
  {
    hide Escape, HexDigit;
    var d := DumpByte(c);
    if c == QUOTE {
      EscapeQuote(rest);
    } else if |d| == 2 {
      EscapeTwo(d[1], rest);
    } else {
      EscapeHex(d[2], d[3], rest);
      assert c / 16 * 16 + c % 16 == c;
    }
  }

  lemma UnescDumpByte(c: Byte, rest: Bytes)
    requires NUL !in rest
    ensures Unesc(DumpByte(c) + rest) == Prepend(c, Unesc(rest))
  {
    hide Escape, Unesc;
    var d := DumpByte(c);
    var s := d + rest;
    assert s[|d|..] == rest;
    if d != [c] { EscapeDump(c, rest); }
    UnescStep(s);
  }

  /** Reading back a dump gives the bytes that were dumped, whatever they are. */
  lemma {:induction false} UnescDump(b: Bytes)
    ensures Unesc(Dump(b)) == Some(b)
  {
    hide DumpByte;
    if b != [] {
      UnescDump(b[1..]);
      UnescDumpByte(b[0], Dump(b[1..]));
      assert [b[0]] + b[1..] == b;
    }
  }

  /** A dump is printable and safe inside single quotes. */
  lemma {:induction false} DumpPrintable(b: Bytes)
    ensures forall i :: 0 <= i < |Dump(b)| ==> 0x20 <= Dump(b)[i] <= 0x7e && Dump(b)[i] != QUOTE
  {
    if b != [] {
      DumpPrintable(b[1..]);
      DumpBytePrintable(b[0]);
    }
  }

  lemma DumpBytePrintable(c: Byte)
    ensures forall i :: 0 <= i < |DumpByte(c)| ==> 0x20 <= DumpByte(c)[i] <= 0x7e && DumpByte(c)[i] != QUOTE
  {}

  /** Bytes that need no escape pass strunesc() unchanged. */
  lemma {:induction false} UnescPlain(s: Bytes)
    requires NUL !in s && BACKSLASH !in s
    ensures Unesc(s) == Some(s)
  {
    if s != [] {
      UnescPlain(s[1..]);
      assert [s[0]] + s[1..] == s;
    }
  }

  // ---------- the loops ----------

  /** The branches of strunesc() for a backslash at in[i]; no read passes the terminator. */
  method EscapeAt(a: array<Byte>, i: nat, ghost n: nat) returns (e: Esc)
    requires IsCString(a, n) && i < n && a[i] == BACKSLASH
    ensures e == Escape(a[i..n])
  {
    ghost var s := a[i..n];
    assert forall k :: 0 <= k <= n - i ==> At(s, k) == a[i + k];
    var c1 := a[i + 1];
    if Simple(c1) != NUL { return Esc(Simple(c1), 2); }
    if c1 == 99 {
      var c := ToUpper(a[i + 2]);
      return if c < 65 || c > 95 then Bad else Esc(c - 64, 3);
    }
    if c1 == 120 {
      if !IsHex(a[i + 2]) { return Bad; }
      if IsHex(a[i + 3]) { return Esc(HexValue(a[i + 2]) * 16 + HexValue(a[i + 3]), 4); }
      return Esc(HexValue(a[i + 2]), 3);
    }
    if IsOctal(c1) {
      if IsOctal(a[i + 2]) {
        if IsOctal(a[i + 3]) { return Octal(c1, a[i + 2], a[i + 3]); }
        return Esc((c1 - 48) * 8 + (a[i + 2] - 48), 3);
      }
      return Esc(c1 - 48, 2);
    }
    if c1 == NUL { return Esc(BACKSLASH, 1); }
    return Esc(c1, 2);
  }

  /** strunesc() on a NUL-terminated string of length n, into a buffer of strlen(in) + 1 bytes. */
  method StrUnesc(a: array<Byte>, n: nat) returns (ok: bool, out: array<Byte>, len: nat)
    requires IsCString(a, n)
    ensures out.Length == n + 1 && len <= n && fresh(out)
    ensures NUL !in a[..n] && Unesc(a[..n]) == (if ok then Some(out[..len]) else None)
    ensures ok ==> out[len] == NUL
  {
    hide Unesc, Escape;
    out := new Byte[n + 1];
    len := 0;
    var i := 0;
    ghost var all := Unesc(a[..n]);
    assert a[..n] == a[0..n];
    GlueNone(all);
    while a[i] != NUL
      invariant 0 <= len <= i <= n && IsCString(a, n)
      invariant NUL !in a[i..n] && all == Glue(out[..len], Unesc(a[i..n]))
      decreases n - i
    {
      ghost var s, before := a[i..n], out[..len];
      var c, used := a[i], 1;
      if a[i] == BACKSLASH {
        var e := EscapeAt(a, i, n);
        if e.Bad? { BadStep(s); return false, out, len; }
        c, used := e.c, e.used;
      }
      UnescStep(s);
      assert s[used..] == a[i + used..n];
      GlueGlue(before, [c], Unesc(a[i + used..n]));
      out[len] := c;
      assert out[..len + 1] == before + [c];
      i, len := i + used, len + 1;
    }
    assert a[i..n] == [];
    EmptyStep();
    assert out[..len] + [] == out[..len];
    out[len] := NUL;
    return true, out, len;
  }

  lemma UnescStep(s: Bytes)
    requires NUL !in s && s != [] && (s[0] == BACKSLASH ==> Escape(s).Esc?)
    ensures Unesc(s) == if s[0] != BACKSLASH then Prepend(s[0], Unesc(s[1..]))
                        else Prepend(Escape(s).c, Unesc(s[Escape(s).used..]))
  {}

  lemma BadStep(s: Bytes)
    requires NUL !in s && s != [] && s[0] == BACKSLASH && Escape(s).Bad?
    ensures Unesc(s) == None
  {}

  lemma EmptyStep()
    ensures Unesc([]) == Some([])
  {}

  /** cli_dump_cstring(): what it prints between the quotes for buf[..num]. */
  method DumpCstring(num: nat, buf: array<Byte>) returns (printed: Bytes)
    requires num <= buf.Length
    ensures printed == Dump(buf[..num])
  {
    hide DumpByte;
    printed := [];
    ghost var all := buf[..num];
    for i := 0 to num
      invariant printed + Dump(all[i..]) == Dump(all)
    {
      assert all[i..][1..] == all[i + 1..] && all[i..][0] == buf[i];
      assert printed + (DumpByte(buf[i]) + Dump(all[i + 1..])) == printed + DumpByte(buf[i]) + Dump(all[i + 1..]);
      printed := printed + DumpByte(buf[i]);
    }
    assert all[num..] == [];
  }
}
