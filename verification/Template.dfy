/** The REPLACE part of -subst PATTERN::REPLACE: cli_subst_parse_repl() (client.c). */
module Template {
  import opened Octets
  import opened Cstring

  const LPAREN: Byte := 40
  const RPAREN: Byte := 41

  /** A part of a replacement: text, or the match group (0) .. (9). */
  datatype Part = Literal(text: Bytes) | Group(n: nat)

  /** [(][0123456789][)] matches at s[i]. */
  predicate GroupAt(s: Bytes, i: int) {
    0 <= i && i + 2 < |s| && s[i] == LPAREN && 48 <= s[i + 1] <= 57 && s[i + 2] == RPAREN
  }

  /** regexec(): the leftmost match at or after `from`. */
  function FindGroup(s: Bytes, from: nat): (r: Option<nat>)
    ensures r.Some? ==> from <= r.value && GroupAt(s, r.value)
    ensures r.Some? ==> forall i :: from <= i < r.value ==> !GroupAt(s, i)
    ensures r.None? ==> forall i :: from <= i ==> !GroupAt(s, i)
    decreases |s| - from
  {
    if from >= |s| then None else if GroupAt(s, from) then Some(from) else FindGroup(s, from + 1)
  }

  function LiteralOf(text: Bytes): seq<Part> { if text == [] then [] else [Literal(text)] }

  /** The parts that one turn of the parsing loop appends when it finds a group at s[k]. */
  function HeadParts(s: Bytes, k: nat): seq<Part>
    requires GroupAt(s, k)
  {
    LiteralOf(s[..k]) + [Group(s[k + 1] - 48)]
  }

  /** The parsing loop. */
  function Parse(s: Bytes): seq<Part>
    decreases |s|
  {
    if s == [] then []
    else match FindGroup(s, 0)
      case None => [Literal(s)]
      case Some(i) => HeadParts(s, i) + Parse(s[i + 3..])
  }

  function RenderPart(p: Part): Bytes {
    match p
    case Literal(text) => text
    case Group(n) => [LPAREN, if n <= 9 then 48 + n else 48, RPAREN]
  }

  function Render(ps: seq<Part>): Bytes {
    if ps == [] then [] else RenderPart(ps[0]) + Render(ps[1..])
  }

  lemma {:induction false} RenderConcat(a: seq<Part>, b: seq<Part>)
    ensures Render(a + b) == Render(a) + Render(b)
  {
    if a == [] {
      assert a + b == b;
    } else {
      hide RenderPart;
      RenderConcat(a[1..], b);
      assert (a + b)[1..] == a[1..] + b && (a + b)[0] == a[0];
      assert RenderPart(a[0]) + (Render(a[1..]) + Render(b)) == RenderPart(a[0]) + Render(a[1..]) + Render(b);
    }
  }

  lemma RenderHead(text: Bytes, n: nat)
    requires n <= 9
    ensures Render(LiteralOf(text) + [Group(n)]) == text + [LPAREN, 48 + n, RPAREN]
  {
    RenderConcat(LiteralOf(text), [Group(n)]);
    assert Render([Group(n)]) == RenderPart(Group(n)) + Render([]);
    assert LiteralOf(text) != [] ==> LiteralOf(text)[1..] == [] && text + [] == text;
  }

  /** One turn of the parsing loop. */
  lemma ParseStep(s: Bytes)
    requires s != []
    ensures var r := FindGroup(s, 0);
            Parse(s) == if r.None? then [Literal(s)] else HeadParts(s, r.value) + Parse(s[r.value + 3..])
  {
    hide FindGroup, HeadParts;
  }

  lemma RenderText(s: Bytes)
    ensures Render([Literal(s)]) == s
  {
    assert [Literal(s)][1..] == [] && s + [] == s;
  }

  lemma RenderAround(s: Bytes, i: nat, ps: seq<Part>)
    requires GroupAt(s, i) && Render(ps) == s[i + 3..]
    ensures Render(LiteralOf(s[..i]) + [Group(s[i + 1] - 48)] + ps) == s
  {
    hide Render, LiteralOf;
    RenderHead(s[..i], s[i + 1] - 48);
    RenderConcat(LiteralOf(s[..i]) + [Group(s[i + 1] - 48)], ps);
    assert s == s[..i] + [s[i], s[i + 1], s[i + 2]] + s[i + 3..];
  }

  /** Rendering what was parsed gives the template back. */
  lemma {:induction false} RenderParse(s: Bytes)
    ensures Render(Parse(s)) == s
    decreases |s|
  {
    hide FindGroup, LiteralOf, Parse, Render;
    if s == [] {
      ParseEmpty();
    } else {
      ParseStep(s);
      var r := FindGroup(s, 0);
      if r.None? {
        RenderText(s);
      } else {
        RenderParse(s[r.value + 3..]);
        RenderAround(s, r.value, Parse(s[r.value + 3..]));
      }
    }
  }

  /** No empty text, no group in a text, no text after a text, and only groups 0 to 9. */
  predicate Normal(ps: seq<Part>) {
    && (forall i :: 0 <= i < |ps| && ps[i].Literal? ==> ps[i].text != [] && FindGroup(ps[i].text, 0).None?)
    && (forall i :: 0 <= i < |ps| && ps[i].Group? ==> ps[i].n <= 9)
    && (forall i :: 0 <= i < |ps| - 1 ==> ps[i].Group? || ps[i + 1].Group?)
  }

  /** A group reference cannot begin in a text that has none and end in the group that follows it. */
  lemma FirstGroup(text: Bytes, n: nat, rest: Bytes)
    requires FindGroup(text, 0).None? && n <= 9
    ensures FindGroup(text + [LPAREN, 48 + n, RPAREN] + rest, 0) == Some(|text|)
  {
    var s := text + [LPAREN, 48 + n, RPAREN] + rest;
    assert GroupAt(s, |text|);
    forall i | 0 <= i < |text| ensures !GroupAt(s, i) {
      assert !GroupAt(text, i);
      assert s[i] == text[i] && (i + 1 < |text| ==> s[i + 1] == text[i + 1]);
      assert i + 2 < |text| ==> s[i + 2] == text[i + 2];
    }
  }

  lemma ParseHead(text: Bytes, n: nat, rest: Bytes)
    requires FindGroup(text, 0).None? && n <= 9
    ensures Parse(text + [LPAREN, 48 + n, RPAREN] + rest) == LiteralOf(text) + [Group(n)] + Parse(rest)
  {
    var s, k := text + [LPAREN, 48 + n, RPAREN] + rest, |text|;
    FirstGroup(text, n, rest);
    assert s[..k] == text && s[k + 1] == 48 + n && s[k + 3..] == rest;
  }

  lemma NormalTail(ps: seq<Part>, k: nat)
    requires Normal(ps) && k <= |ps|
    ensures Normal(ps[k..])
  {
    hide FindGroup;
    assert forall i :: 0 <= i < |ps| - k ==> ps[k..][i] == ps[k + i];
  }

  /** Parsing what was rendered from a normal part list gives the list back: the two are inverses. */
  lemma {:induction false} ParseRender(ps: seq<Part>)
    requires Normal(ps)
    ensures Parse(Render(ps)) == ps
    decreases |ps|
  {
    if ps != [] {
      // an optional text, then a group, then the rest; or a text alone
      var text := if ps[0].Literal? then ps[0].text else [];
      var k := |LiteralOf(text)|;
      if k == |ps| {
        RenderText(text);
        assert ps == [Literal(text)];
      } else {
        var n, rest := HeadGroup(ps), ps[k + 1..];
        NormalTail(ps, k + 1);
        ParseRender(rest);
        hide Parse, Render, FindGroup;
        assert ps == LiteralOf(text) + [Group(n)] + rest;
        RenderHead(text, n);
        RenderConcat(LiteralOf(text) + [Group(n)], rest);
        ParseHead(text, n, Render(rest));
      }
    }
  }

  /** The first group of a normal list that is more than one text. */
  function HeadGroup(ps: seq<Part>): (n: nat)
    requires Normal(ps) && ps != [] && !(|ps| == 1 && ps[0].Literal?)
    ensures n <= 9
    ensures if ps[0].Literal? then ps[1] == Group(n) && FindGroup(ps[0].text, 0).None? else ps[0] == Group(n)
  {
    if ps[0].Literal? then
      assert ps[0].Group? || ps[0 + 1].Group?;
      ps[1].n
    else ps[0].n
  }

  /** What is parsed is normal. */
  lemma {:induction false} ParseNormal(s: Bytes)
    ensures Normal(Parse(s))
    decreases |s|
  {
    if s != [] {
      var r := FindGroup(s, 0);
      if r.Some? {
        ParseNormal(s[r.value + 3..]);
        NoGroupBefore(s, r.value);
        NormalCons(s[..r.value], s[r.value + 1] - 48, Parse(s[r.value + 3..]));
      }
    }
  }

  lemma NoGroupBefore(s: Bytes, k: nat)
    requires k <= |s| && forall i :: 0 <= i < k ==> !GroupAt(s, i)
    ensures FindGroup(s[..k], 0).None?
  {
    var r := FindGroup(s[..k], 0);
    assert r.Some? ==> GroupAt(s, r.value);
  }

  lemma NormalCons(text: Bytes, n: nat, ps: seq<Part>)
    requires Normal(ps) && n <= 9 && FindGroup(text, 0).None?
    ensures Normal(LiteralOf(text) + [Group(n)] + ps)
  {
    hide FindGroup;
  }

  // ---------- unescaping with -cstring ----------

  /** Unescape every text; None where the client gives up (bad escape, or a NUL). */
  function UnescParts(ps: seq<Part>): Option<seq<Part>>
    requires forall i :: 0 <= i < |ps| && ps[i].Literal? ==> NUL !in ps[i].text
  {
    if ps == [] then Some([])
    else
      var rest := UnescParts(ps[1..]);
      match ps[0]
      case Group(_) => if rest.None? then None else Some([ps[0]] + rest.value)
      case Literal(text) =>
        var u := Unesc(text);
        if u.None? || NUL in u.value || rest.None? then None else Some([Literal(u.value)] + rest.value)
  }

  predicate UnescOk(p: Part)
    requires p.Literal? ==> NUL !in p.text
  {
    p.Literal? ==> Unesc(p.text).Some? && NUL !in Unesc(p.text).value
  }

  /** Unescaping happens after parsing: groups stay what and where they were, and each text is unescaped. */
  lemma {:induction false} UnescKeepsGroups(ps: seq<Part>)
    requires forall i :: 0 <= i < |ps| && ps[i].Literal? ==> NUL !in ps[i].text
    ensures var r := UnescParts(ps);
            && (r.Some? <==> forall i :: 0 <= i < |ps| ==> UnescOk(ps[i]))
            && (r.Some? ==> |r.value| == |ps| && forall i :: 0 <= i < |ps| ==>
                  r.value[i] == if ps[i].Group? then ps[i] else Literal(Unesc(ps[i].text).value))
  {
    hide Unesc;
    if ps != [] {
      var tail := ps[1..];
      assert forall i :: 1 <= i < |ps| ==> ps[i] == tail[i - 1];
      UnescKeepsGroups(tail);
    }
  }

  /** A template without a group reference is one text, whatever it reads like after unescaping. */
  lemma UnescapedText(s: Bytes)
    requires s != [] && NUL !in s && FindGroup(s, 0).None? && UnescOk(Literal(s))
    ensures Parse(s) == [Literal(s)] && UnescParts(Parse(s)) == Some([Literal(Unesc(s).value)])
  {
    hide Unesc, FindGroup;
    ParseStep(s);
    var ps := [Literal(s)];
    assert Parse(s) == ps && ps[1..] == [] && UnescParts([]) == Some([]);
    assert [Literal(Unesc(s).value)] + [] == [Literal(Unesc(s).value)];
  }

  /** "\x281)" is the text "(1)", although "(1)" itself is group 1. */
  lemma EscapedParen()
    ensures var s, t := [92, 120, 50, 56, 49, 41], [40, 49, 41];
            Unesc(s) == Some(t) && Parse(t) == [Group(1)] && UnescParts(Parse(s)) == Some([Literal(t)])
  {
    var s, t: Bytes := [92, 120, 50, 56, 49, 41], [40, 49, 41];
    assert s == [92, 120, 50, 56] + [49, 41];
    EscapeHex(50, 56, [49, 41]);
    UnescStep(s);
    assert s[4..] == [49, 41];
    UnescPlain([49, 41]);
    assert [40] + [49, 41] == t;
    assert FindGroup(s, 0).None?;
    UnescapedText(s);
    assert FindGroup(t, 0) == Some(0) by { assert GroupAt(t, 0); }
    assert t[..0] == [] && t[3..] == [] && Parse([]) == [];
    ParseStep(t);
  }

  /** "\xHH" for every byte. */
  function HexAll(t: Bytes): (s: Bytes)
    ensures NUL !in s && LPAREN !in s && |s| == 4 * |t|
  {
    if t == [] then [] else
      var hi, lo := HexDigit(t[0] / 16), HexDigit(t[0] % 16);
      [BACKSLASH, 120, hi, lo] + HexAll(t[1..])
  }

  lemma {:induction false} UnescHex(t: Bytes)
    ensures Unesc(HexAll(t)) == Some(t)
  {
    hide Unesc, Escape;
    if t == [] {
      EmptyStep();
    } else {
      var hi, lo, rest := HexDigit(t[0] / 16), HexDigit(t[0] % 16), HexAll(t[1..]);
      var s := [BACKSLASH, 120, hi, lo] + rest;
      EscapeHex(hi, lo, rest);
      UnescStep(s);
      assert s[4..] == rest;
      UnescHex(t[1..]);
      assert [t[0]] + t[1..] == t && t[0] / 16 * 16 + t[0] % 16 == t[0];
    }
  }

  /** With -cstring every text can be written as it is: some template is read as that text and no group. */
  lemma AnyText(t: Bytes)
    requires t != [] && NUL !in t
    ensures UnescParts(Parse(HexAll(t))) == Some([Literal(t)])
  {
    hide Unesc;
    var s := HexAll(t);
    UnescHex(t);
    assert forall i :: 0 <= i < |s| ==> s[i] != LPAREN;
    UnescapedText(s);
  }

  // ---------- the loop ----------

  lemma ParseTurn(parts: seq<Part>, rest: Bytes, k: nat)
    requires rest != [] && FindGroup(rest, 0) == Some(k)
    ensures parts + Parse(rest) == (parts + HeadParts(rest, k)) + Parse(rest[k + 3..])
  {
    hide FindGroup, Parse, LiteralOf;
    ParseStep(rest);
    assert parts + (HeadParts(rest, k) + Parse(rest[k + 3..])) ==
           (parts + HeadParts(rest, k)) + Parse(rest[k + 3..]);
  }

  /** cli_subst_parse_repl(), up to the unescaping. */
  method ParseRepl(s: Bytes) returns (parts: seq<Part>)
    ensures parts == Parse(s)
  {
    hide FindGroup, Parse;
    parts := [];
    var i := 0;
    assert s[0..] == s;
    while i < |s|
      invariant 0 <= i <= |s| && parts + Parse(s[i..]) == Parse(s)
    {
      var rest := s[i..];
      var m := FindGroup(rest, 0);
      if m.None? {
        ParseStep(rest);
        parts := parts + [Literal(rest)];
        return;
      }
      ParseTurn(parts, rest, m.value);
      ghost var before := parts;
      if m.value != 0 { parts := parts + [Literal(rest[..m.value])]; }
      parts := parts + [Group(rest[m.value + 1] - 48)];
      assert parts == before + HeadParts(rest, m.value);
      assert rest[m.value + 3..] == s[i + m.value + 3..];
      i := i + m.value + 3;
    }
    assert s[i..] == [];
    ParseEmpty();
  }

  lemma ParseEmpty()
    ensures Parse([]) == [] && Render([]) == []
  {}
}
