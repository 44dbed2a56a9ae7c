/** The escapes of strunesc(), each by what is written and the byte it stands for, whatever follows. */
module Escapes {
  import opened Octets
  import opened Cstring

  /** In front of any text, `esc` is read as the byte v and no byte of the text is. */
  lemma ReadsAs(esc: Bytes, rest: Bytes, v: Byte)
    requires |esc| >= 1 && esc[0] == 92 && NUL !in esc + rest && Escape(esc + rest) == Esc(v, |esc|)
    ensures Unesc(esc + rest) == Prepend(v, Unesc(rest))
  {
    hide Escape, Unesc;
    UnescStep(esc + rest);
    assert (esc + rest)[|esc|..] == rest;
  }

  /** The letters, and the backslash itself. */
  const LETTERS: seq<(Byte, Byte)> :=
    [(97, 7), (98, 8), (101, 27), (69, 27), (102, 12), (110, 10), (114, 13), (116, 9), (118, 11), (92, 92)]

  lemma LetterEscape(i: nat, rest: Bytes)
    requires i < |LETTERS| && NUL !in rest
    ensures Unesc([92, LETTERS[i].0] + rest) == Prepend(LETTERS[i].1, Unesc(rest))
  {
    hide Unesc;
    var c := LETTERS[i].0;
    EscapeTwo(c, rest);
    ReadsAs([92, c], rest, LETTERS[i].1);
  }

  /** "\cA" to "\cZ" in either case are the bytes 1 to 26, "\c[" to "\c_" the bytes 27 to 31; no other "\c" is valid. */
  lemma ControlEscape(c: Byte, rest: Bytes)
    requires NUL !in [c] + rest
    ensures var s := [92, 99, c] + rest;
            && (65 <= c <= 95 ==> Unesc(s) == Prepend(c - 64, Unesc(rest)))
            && (97 <= c <= 122 ==> Unesc(s) == Prepend(c - 96, Unesc(rest)))
            && (c < 65 || c == 96 || c > 122 ==> Unesc(s) == None)
  {
    var s := [92, 99, c] + rest;
    assert NUL !in s && s[0] == 92 && At(s, 1) == 99 && At(s, 2) == c;
    if 65 <= c <= 95 || 97 <= c <= 122 {
      assert Escape(s) == Esc(if c <= 95 then c - 64 else c - 96, 3);
      hide Unesc, Escape;
      ReadsAs([92, 99, c], rest, if c <= 95 then c - 64 else c - 96);
    } else {
      assert Escape(s).Bad?;
      hide Escape;
      BadStep(s);
    }
  }

  lemma ControlAtEnd()
    ensures Unesc([92, 99]) == None
  {
    var s: Bytes := [92, 99];
    assert Escape(s).Bad?;
    BadStep(s);
  }

  /** The value of a hexadecimal digit. */
  function Hex(c: Byte): Option<nat> {
    if 48 <= c <= 57 then Some(c - 48)
    else if 97 <= c <= 102 then Some(c - 87)
    else if 65 <= c <= 70 then Some(c - 55)
    else None
  }

  lemma HexIs(c: Byte)
    ensures IsHex(c) <==> Hex(c).Some?
    ensures IsHex(c) ==> HexValue(c) == Hex(c).value < 16
  {}

  /** "\xHH" is read to the second digit, "\xH" only if no digit follows, and "\x" without one is an error. */
  lemma HexEscape(h: Byte, l: Byte, rest: Bytes)
    requires NUL !in [h, l] + rest
    ensures Hex(h).Some? && Hex(l).Some? ==>
              Hex(h).value * 16 + Hex(l).value < 256 &&
              Unesc([92, 120, h, l] + rest) == Prepend(Hex(h).value * 16 + Hex(l).value, Unesc(rest))
    ensures Hex(h).Some? && Hex(l).None? ==>
              Unesc([92, 120, h] + ([l] + rest)) == Prepend(Hex(h).value, Unesc([l] + rest))
    ensures Hex(h).None? ==> Unesc([92, 120, h, l] + rest) == None
  {
    HexIs(h);
    HexIs(l);
    hide Hex, HexValue, IsHex, Unesc;
    var s := [92, 120, h, l] + rest;
    assert s == [92, 120, h] + ([l] + rest);
    assert At(s, 1) == 120 && At(s, 2) == h && At(s, 3) == l && s[2] == h && s[3] == l && NUL !in s;
    if Hex(h).Some? && Hex(l).Some? {
      assert Escape(s) == Esc(HexValue(h) * 16 + HexValue(l), 4);
      ReadsAs([92, 120, h, l], rest, HexValue(h) * 16 + HexValue(l));
    } else if Hex(h).Some? {
      assert Escape(s) == Esc(HexValue(h), 3);
      ReadsAs([92, 120, h], [l] + rest, HexValue(h));
    } else {
      assert Escape(s).Bad?;
      BadStep(s);
    }
  }

  /** At the end of the text one digit will do, but not none. */
  lemma HexAtEnd(h: Byte)
    requires h != NUL
    ensures Unesc([92, 120, h]) == if Hex(h).Some? then Some([Hex(h).value]) else None
    ensures Unesc([92, 120]) == None
  {
    HexIs(h);
    hide Hex, HexValue, IsHex;
    var s, t: Bytes := [92, 120, h], [92, 120];
    assert Escape(t).Bad? by { NulIsNoDigit(); }
    NulIsNoDigit();
    BadStep(t);
    if Hex(h).Some? {
      assert Escape(s) == Esc(HexValue(h), 3);
      ReadsAs(s, [], HexValue(h));
      assert s + [] == s && [HexValue(h)] + [] == [HexValue(h)];
    } else {
      BadStep(s);
    }
  }

  lemma NulIsNoDigit()
    ensures !IsHex(NUL) && !IsOctal(NUL)
  {}

  predicate Digit8(c: Byte) { 48 <= c < 56 }

  /** The text that follows does not go on with an octal digit. */
  predicate NoDigit8(rest: Bytes) { rest == [] || !Digit8(rest[0]) }

  /** "\o": one octal digit, if no other follows. */
  lemma OctalOne(a: nat, rest: Bytes)
    requires a < 8 && NUL !in rest && NoDigit8(rest)
    ensures Unesc([92, 48 + a] + rest) == Prepend(a, Unesc(rest))
  {
    var s := [92, 48 + a] + rest;
    assert At(s, 1) == 48 + a && At(s, 2) == (if rest == [] then NUL else rest[0]);
    assert Escape(s) == Esc(a, 2) by { NulIsNoDigit(); }
    hide Unesc, Escape;
    ReadsAs([92, 48 + a], rest, a);
  }

  /** "\oo": two, if no third follows. */
  lemma OctalTwo(a: nat, b: nat, rest: Bytes)
    requires a < 8 && b < 8 && NUL !in rest && NoDigit8(rest)
    ensures Unesc([92, 48 + a, 48 + b] + rest) == Prepend(8 * a + b, Unesc(rest))
  {
    var s := [92, 48 + a, 48 + b] + rest;
    assert At(s, 1) == 48 + a && At(s, 2) == 48 + b && At(s, 3) == (if rest == [] then NUL else rest[0]);
    assert Escape(s) == Esc(8 * a + b, 3) by { NulIsNoDigit(); }
    hide Unesc, Escape;
    ReadsAs([92, 48 + a, 48 + b], rest, 8 * a + b);
  }

  /** "\ooo": three as long as they make a byte; else the third is a character of its own. */
  lemma OctalThree(a: nat, b: nat, c: nat, rest: Bytes)
    requires a < 8 && b < 8 && c < 8 && NUL !in rest
    ensures a < 4 ==> Unesc([92, 48 + a, 48 + b, 48 + c] + rest) == Prepend(64 * a + 8 * b + c, Unesc(rest))
    ensures a >= 4 ==> Unesc([92, 48 + a, 48 + b, 48 + c] + rest) == Prepend(8 * a + b, Unesc([48 + c] + rest))
  {
    hide Unesc, Escape;
    var two, s := [92, 48 + a, 48 + b], [92, 48 + a, 48 + b, 48 + c] + rest;
    assert s[..4] == [92, 48 + a, 48 + b, 48 + c];
    ThreeDigits(s, a, b, c);
    if a < 4 {
      ReadsAs([92, 48 + a, 48 + b, 48 + c], rest, 64 * a + 8 * b + c);
    } else {
      assert s == two + ([48 + c] + rest);
      ReadsAs(two, [48 + c] + rest, 8 * a + b);
    }
  }

  lemma ThreeDigits(s: Bytes, a: nat, b: nat, c: nat)
    requires a < 8 && b < 8 && c < 8 && |s| >= 4 && s[..4] == [92, 48 + a, 48 + b, 48 + c] && NUL !in s
    ensures Escape(s) == if a < 4 then Esc(64 * a + 8 * b + c, 4) else Esc(8 * a + b, 3)
  {
    assert s[..4][0] == s[0] && s[..4][1] == s[1] && s[..4][2] == s[2] && s[..4][3] == s[3];
  }

  /** A backslash before any other character is dropped. */
  lemma OtherEscape(c: Byte, rest: Bytes)
    requires NUL !in [c] + rest && c !in [97, 98, 101, 69, 102, 110, 114, 116, 118, 92, 99, 120] && !Digit8(c)
    ensures Unesc([92, c] + rest) == Prepend(c, Unesc(rest))
  {
    var s := [92, c] + rest;
    assert At(s, 1) == c;
    assert Escape(s) == Esc(c, 2);
    hide Unesc, Escape;
    ReadsAs([92, c], rest, c);
  }

  /** And at the end of the text it stands for itself. */
  lemma BackslashAtEnd()
    ensures Unesc([92]) == Some([92])
  {
    var s: Bytes := [92];
    assert Escape(s) == Esc(92, 1);
    ReadsAs(s, [], 92);
    assert s + [] == s;
    EmptyStep();
  }

  // ---------- what the dump prints ----------

  /** The dump prints printable text as it is, but for quotes and backslashes. */
  lemma {:induction false} PlainDump(s: Bytes)
    requires forall i :: 0 <= i < |s| ==> 0x20 <= s[i] <= 0x7e && s[i] !in [39, 92]
    ensures Dump(s) == s
  {
    if s != [] {
      assert forall i :: 0 <= i < |s| - 1 ==> s[1..][i] == s[i + 1];
      PlainDump(s[1..]);
      assert [s[0]] + s[1..] == s;
    }
  }
}
