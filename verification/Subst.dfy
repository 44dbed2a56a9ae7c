/** interact -subst: cli_subst() and cli_subst_raw() (client.c).  Regular expressions are matchers with bounds. */
module Subst {
  import opened Octets
  import opened ServerSpec
  import opened Template
  import opened Verdict

  type Spans = seq<Option<Span>>

  ghost predicate Bounded(r: Bytes -> Option<Spans>) {
    forall t :: r(t).Some? ==> ValidSpans(r(t).value, t)
  }

  /** A compiled pattern: the match groups on a text, if it matches. */
  type Regex = r: Bytes -> Option<Spans> | Bounded(r) witness t => None

  /** One -subst option; its groups are 0 to 9. */
  datatype Rule = Rule(pat: Regex, repl: seq<Part>)

  datatype Found = Found(spans: Spans, repl: seq<Part>)

  /** The first pattern that matches decides. */
  function FirstHit(rules: seq<Rule>, s: Bytes): (h: Option<Found>)
    ensures h.Some? ==> ValidSpans(h.value.spans, s)
  {
    if rules == [] then None
    else
      var r := rules[0].pat(s);
      if r.Some? then
        assert ValidSpans(r.value, s);
        Some(Found(r.value, rules[0].repl))
      else FirstHit(rules[1..], s)
  }

  function Fill(p: Part, s: Bytes, spans: Spans): Bytes
    requires ValidSpans(spans, s)
  {
    match p
    case Literal(text) => text
    case Group(n) =>
      if n < NUM_OUT && spans[n].Some? then s[spans[n].value.so..spans[n].value.eo] else []
  }

  function FillAll(ps: seq<Part>, s: Bytes, spans: Spans): Bytes
    requires ValidSpans(spans, s)
  {
    if ps == [] then [] else Fill(ps[0], s, spans) + FillAll(ps[1..], s, spans)
  }

  function Start(h: Found): nat
    requires |h.spans| == NUM_OUT && h.spans[0].Some?
  {
    h.spans[0].value.so
  }

  function End(h: Found): nat
    requires |h.spans| == NUM_OUT && h.spans[0].Some?
  {
    h.spans[0].value.eo
  }

  // ---------- termination, exactly ----------

  /** The text left after k turns of the loop. */
  function Left(rules: seq<Rule>, s: Bytes, k: nat): Bytes {
    if k == 0 then s
    else
      var t := Left(rules, s, k - 1);
      var h := FirstHit(rules, t);
      if t == [] || h.None? then [] else t[End(h.value)..]
  }

  /** The loop ends after some number of turns. */
  ghost predicate Halts(rules: seq<Rule>, s: Bytes) { exists k: nat :: Left(rules, s, k) == [] }

  /** The match on `t`, if any, ends after its first byte. */
  predicate Moves(rules: seq<Rule>, t: Bytes) {
    var h := FirstHit(rules, t);
    t == [] || h.None? || End(h.value) > 0
  }

  /** No text that the loop comes to is matched up to its very start. */
  ghost predicate AlwaysMoves(rules: seq<Rule>, s: Bytes) { forall k: nat :: Moves(rules, Left(rules, s, k)) }

  lemma {:induction false} StuckForever(rules: seq<Rule>, s: Bytes, j: nat, k: nat)
    requires !Moves(rules, Left(rules, s, j)) && j <= k
    ensures Left(rules, s, k) == Left(rules, s, j)
  {
    if j < k {
      StuckForever(rules, s, j, k - 1);
      var t := Left(rules, s, j);
      assert t[0..] == t;
    }
  }

  lemma {:induction false} Shrinks(rules: seq<Rule>, s: Bytes, k: nat)
    requires AlwaysMoves(rules, s)
    ensures Left(rules, s, k) == [] || |Left(rules, s, k)| + k <= |s|
  {
    if k > 0 {
      Shrinks(rules, s, k - 1);
      assert Moves(rules, Left(rules, s, k - 1));
    }
  }

  /** cli_subst() ends iff every match it meets, on every text it comes to, ends past the start of that text. */
  lemma HaltsExactly(rules: seq<Rule>, s: Bytes)
    ensures Halts(rules, s) <==> AlwaysMoves(rules, s)
  {
    if AlwaysMoves(rules, s) {
      Shrinks(rules, s, |s| + 1);
    } else {
      var j: nat :| !Moves(rules, Left(rules, s, j));
      forall k: nat ensures Left(rules, s, k) != [] {
        if k >= j { StuckForever(rules, s, j, k); } else if Left(rules, s, k) == [] { EmptyStays(rules, s, k, j); }
      }
      assert !Halts(rules, s);
    }
  }

  /** A pattern that matches the empty string at the start of the text never lets go of it. */
  lemma EmptyMatchLoops(rules: seq<Rule>, s: Bytes)
    requires s != [] && FirstHit(rules, s).Some? && End(FirstHit(rules, s).value) == 0
    ensures !Halts(rules, s)
  {
    HaltsExactly(rules, s);
    assert !Moves(rules, Left(rules, s, 0));
  }

  lemma {:induction false} EmptyStays(rules: seq<Rule>, s: Bytes, j: nat, k: nat)
    requires Left(rules, s, j) == [] && j <= k
    ensures Left(rules, s, k) == []
  {
    if j < k { EmptyStays(rules, s, j, k - 1); }
  }

  /** No match on any text ends where it starts to look. */
  ghost predicate Advances(rules: seq<Rule>) { forall s :: Moves(rules, s) }

  /** The loop ends for all texts iff no pattern that decides ever matches just the empty start of one. */
  lemma HaltsForAll(rules: seq<Rule>)
    ensures (forall s :: Halts(rules, s)) <==> Advances(rules)
  {
    hide Moves, Halts, FirstHit;
    if Advances(rules) {
      forall s ensures Halts(rules, s) { HaltsExactly(rules, s); }
    } else {
      var s :| !Moves(rules, s);
      StuckAtOnce(rules, s);
    }
  }

  lemma StuckAtOnce(rules: seq<Rule>, s: Bytes)
    requires !Moves(rules, s)
    ensures !Halts(rules, s)
  {
    hide FirstHit;
    EmptyMatchLoops(rules, s);
  }

  lemma {:induction false} LeftAfter(rules: seq<Rule>, s: Bytes, k: nat)
    requires s != [] && FirstHit(rules, s).Some?
    ensures Left(rules, s, k + 1) == Left(rules, s[End(FirstHit(rules, s).value)..], k)
  {
    if k > 0 { LeftAfter(rules, s, k - 1); }
  }

  /** If the loop ends, each turn gets ahead, and it ends from there too. */
  lemma HaltsNext(rules: seq<Rule>, s: Bytes)
    requires Halts(rules, s) && s != [] && FirstHit(rules, s).Some?
    ensures var e := End(FirstHit(rules, s).value); e > 0 && Halts(rules, s[e..])
  {
    hide FirstHit;
    if End(FirstHit(rules, s).value) == 0 { EmptyMatchLoops(rules, s); }
    var k: nat :| Left(rules, s, k) == [];
    if k > 0 { LeftAfter(rules, s, k - 1); }
  }

  // ---------- what is written ----------

  /** What cli_subst() writes for the C string s, if it ends. */
  ghost function Subst(rules: seq<Rule>, s: Bytes): Bytes
    requires Halts(rules, s)
    decreases |s|
  {
    if s == [] then []
    else
      var h := FirstHit(rules, s);
      if h.None? then s
      else
        HaltsNext(rules, s);
        s[..Start(h.value)] + FillAll(h.value.repl, s, h.value.spans) + Subst(rules, s[End(h.value)..])
  }

  lemma SubstStep(rules: seq<Rule>, s: Bytes)
    requires Halts(rules, s) && s != []
    ensures var h := FirstHit(rules, s);
            && (h.None? ==> Subst(rules, s) == s)
            && (h.Some? ==>
                  && End(h.value) > 0 && Halts(rules, s[End(h.value)..])
                  && Subst(rules, s) == s[..Start(h.value)] + FillAll(h.value.repl, s, h.value.spans)
                                        + Subst(rules, s[End(h.value)..]))
  {
    hide FirstHit, FillAll, Halts;
    if FirstHit(rules, s).Some? { HaltsNext(rules, s); }
  }

  lemma SubstEmpty(rules: seq<Rule>)
    ensures Halts(rules, []) && Subst(rules, []) == [] && HaltsRaw(rules, []) && SubstRaw(rules, []) == []
  {
    assert Left(rules, [], 0) == [];
  }

  // ---------- what passes through ----------

  /** A piece of the input: unmatched text, matched text, and what replaces the latter. */
  datatype Slice = Slice(before: Bytes, matched: Bytes, out: Bytes)

  function FirstSlice(h: Found, s: Bytes): Slice
    requires ValidSpans(h.spans, s)
  {
    Slice(s[..Start(h)], s[Start(h)..End(h)], FillAll(h.repl, s, h.spans))
  }

  ghost function Slices(rules: seq<Rule>, s: Bytes): (seq<Slice>, Bytes)
    requires Halts(rules, s)
    decreases |s|
  {
    var h := FirstHit(rules, s);
    if s == [] || h.None? then ([], s)
    else
      HaltsNext(rules, s);
      var (more, tail) := Slices(rules, s[End(h.value)..]);
      ([FirstSlice(h.value, s)] + more, tail)
  }

  function SlicesIn(cs: seq<Slice>): Bytes {
    if cs == [] then [] else cs[0].before + cs[0].matched + SlicesIn(cs[1..])
  }

  function SlicesOut(cs: seq<Slice>): Bytes {
    if cs == [] then [] else cs[0].before + cs[0].out + SlicesOut(cs[1..])
  }

  lemma SlicesStep(rules: seq<Rule>, s: Bytes)
    requires Halts(rules, s) && s != [] && FirstHit(rules, s).Some?
    ensures var h := FirstHit(rules, s).value;
            && Halts(rules, s[End(h)..])
            && var (more, tail) := Slices(rules, s[End(h)..]);
               Slices(rules, s) == ([FirstSlice(h, s)] + more, tail)
  {
    hide FirstHit, FirstSlice, Halts;
    HaltsNext(rules, s);
  }

  /** Text outside matches passes through once and in order; only matches are replaced. */
  lemma {:induction false} PassesThrough(rules: seq<Rule>, s: Bytes)
    requires Halts(rules, s)
    ensures var (cs, tail) := Slices(rules, s); s == SlicesIn(cs) + tail && Subst(rules, s) == SlicesOut(cs) + tail
    decreases |s|
  {
    hide FirstHit, FillAll, Halts, Subst, Slices, SlicesIn, SlicesOut, FirstSlice;
    if s != [] && FirstHit(rules, s).Some? {
      var h := FirstHit(rules, s).value;
      var rest := s[End(h)..];
      SubstStep(rules, s);
      SlicesStep(rules, s);
      PassesThrough(rules, rest);
      var (more, tail) := Slices(rules, rest);
      SliceParts(h, s);
      Chain(FirstSlice(h, s), more, tail);
    } else {
      NoSlices(rules, s);
    }
  }

  lemma SliceParts(h: Found, s: Bytes)
    requires ValidSpans(h.spans, s)
    ensures var c := FirstSlice(h, s);
            && s == c.before + c.matched + s[End(h)..]
            && c.before == s[..Start(h)] && c.out == FillAll(h.repl, s, h.spans)
  {
    hide FillAll;
  }

  lemma NoSlices(rules: seq<Rule>, s: Bytes)
    requires Halts(rules, s) && (s == [] || FirstHit(rules, s).None?)
    ensures Slices(rules, s) == ([], s) && Subst(rules, s) == s && SlicesIn([]) == [] == SlicesOut([])
  {
    hide Halts;
  }

  lemma Chain(c: Slice, more: seq<Slice>, tail: Bytes)
    ensures SlicesIn([c] + more) + tail == c.before + c.matched + (SlicesIn(more) + tail)
    ensures SlicesOut([c] + more) + tail == c.before + c.out + (SlicesOut(more) + tail)
  {
    assert ([c] + more)[1..] == more;
  }

  predicate AllWhole(rules: seq<Rule>) { forall i :: 0 <= i < |rules| ==> rules[i].repl == [Group(0)] }

  /** Replacing every match by itself, "(0)", changes nothing. */
  lemma {:induction false} Identity(rules: seq<Rule>, s: Bytes)
    requires Halts(rules, s) && AllWhole(rules)
    ensures Subst(rules, s) == s
    decreases |s|
  {
    hide FirstHit, FillAll, Halts, Subst, AllWhole;
    if s == [] {
      SubstEmpty(rules);
    } else {
      SubstStep(rules, s);
      var h := FirstHit(rules, s);
      if h.Some? {
        HitRepl(rules, s);
        Identity(rules, s[End(h.value)..]);
        FillWhole(s, h.value.spans);
        assert s == s[..Start(h.value)] + s[Start(h.value)..End(h.value)] + s[End(h.value)..];
      }
    }
  }

  lemma FillWhole(s: Bytes, spans: Spans)
    requires ValidSpans(spans, s)
    ensures FillAll([Group(0)], s, spans) == s[spans[0].value.so..spans[0].value.eo]
  {}

  lemma {:induction false} HitRepl(rules: seq<Rule>, s: Bytes)
    requires AllWhole(rules)
    ensures FirstHit(rules, s).Some? ==> FirstHit(rules, s).value.repl == [Group(0)]
  {
    if rules != [] { HitRepl(rules[1..], s); }
  }

  /** With -cstring every text can be the replacement, whatever matched: also one that reads like a group. */
  lemma AnyReplacement(t: Bytes, s: Bytes, spans: Spans)
    requires t != [] && NUL !in t && ValidSpans(spans, s)
    ensures var parts := UnescParts(Parse(HexAll(t))); parts.Some? && FillAll(parts.value, s, spans) == t
  {
    hide Parse, UnescParts;
    AnyText(t);
    FillText(t, s, spans);
  }

  lemma FillText(t: Bytes, s: Bytes, spans: Spans)
    requires ValidSpans(spans, s)
    ensures FillAll([Literal(t)], s, spans) == t
  {
    assert [Literal(t)][1..] == [];
  }

  // ---------- what replaces a match ----------

  /** The i-th rule decides: it matches with these groups, and no rule before it does. */
  predicate Decides(rules: seq<Rule>, s: Bytes, i: nat, spans: Spans) {
    i < |rules| && rules[i].pat(s) == Some(spans) && forall j :: 0 <= j < i ==> rules[j].pat(s).None?
  }

  lemma {:induction false} FirstDecides(rules: seq<Rule>, s: Bytes, i: nat, spans: Spans)
    requires Decides(rules, s, i, spans)
    ensures FirstHit(rules, s) == Some(Found(spans, rules[i].repl)) && ValidSpans(spans, s)
    decreases i
  {
    if i > 0 {
      assert forall j :: 0 <= j < i - 1 ==> rules[1..][j] == rules[j + 1];
      assert rules[0].pat(s).None?;
      FirstDecides(rules[1..], s, i - 1, spans);
    } else {
      assert ValidSpans(rules[0].pat(s).value, s);
    }
  }

  lemma {:induction false} NoneDecides(rules: seq<Rule>, s: Bytes)
    requires forall i :: 0 <= i < |rules| ==> rules[i].pat(s).None?
    ensures FirstHit(rules, s).None?
  {
    if rules != [] {
      assert rules[0].pat(s).None?;
      NoneDecides(rules[1..], s);
    }
  }

  /** Parts are written one after the other. */
  lemma {:induction false} FillConcat(a: seq<Part>, b: seq<Part>, s: Bytes, spans: Spans)
    requires ValidSpans(spans, s)
    ensures FillAll(a + b, s, spans) == FillAll(a, s, spans) + FillAll(b, s, spans)
  {
    hide Fill;
    if a == [] {
      assert a + b == b;
    } else {
      FillConcat(a[1..], b, s, spans);
      assert (a + b)[1..] == a[1..] + b && (a + b)[0] == a[0];
      assert Fill(a[0], s, spans) + (FillAll(a[1..], s, spans) + FillAll(b, s, spans)) ==
             Fill(a[0], s, spans) + FillAll(a[1..], s, spans) + FillAll(b, s, spans);
    }
  }

  /** (n) writes the text of group n of the match, nothing if the group took no part in it. */
  lemma GroupWrites(n: nat, s: Bytes, spans: Spans)
    requires n <= 9 && ValidSpans(spans, s)
    ensures FillAll([Group(n)], s, spans) == GroupText(s, spans, n)
  {
    assert [Group(n)][1..] == [];
  }

  /** One turn, by the rule that decides: the text before the match, the replacement, and what becomes of the rest. */
  lemma TurnWrites(rules: seq<Rule>, s: Bytes, i: nat, spans: Spans)
    requires Halts(rules, s) && s != [] && Decides(rules, s, i, spans)
    ensures ValidSpans(spans, s)
    ensures var so, eo := spans[0].value.so, spans[0].value.eo;
            eo > 0 && Halts(rules, s[eo..]) &&
            Subst(rules, s) == s[..so] + FillAll(rules[i].repl, s, spans) + Subst(rules, s[eo..])
  {
    hide Halts, Subst, FillAll;
    FirstDecides(rules, s, i, spans);
    SubstStep(rules, s);
  }

  /** A text on which no rule matches is written as it is. */
  lemma NothingReplaced(rules: seq<Rule>, s: Bytes)
    requires forall i :: 0 <= i < |rules| ==> rules[i].pat(s).None?
    ensures Halts(rules, s) && Subst(rules, s) == s
  {
    NoneDecides(rules, s);
    assert Left(rules, s, 0) == s;
    assert Left(rules, s, 1) == [];
    assert Halts(rules, s);
    hide Halts, Subst;
    if s == [] { SubstEmpty(rules); } else { SubstStep(rules, s); }
  }

  /** A rule whose replacement is (n) replaces its match by group n. */
  lemma GroupReplaces(rules: seq<Rule>, s: Bytes, i: nat, spans: Spans, n: nat)
    requires Halts(rules, s) && s != [] && Decides(rules, s, i, spans)
    requires n <= 9 && rules[i].repl == Parse([40, 48 + n, 41])
    ensures ValidSpans(spans, s)
    ensures var so, eo := spans[0].value.so, spans[0].value.eo;
            eo > 0 && Halts(rules, s[eo..]) &&
            Subst(rules, s) == s[..so] + GroupText(s, spans, n) + Subst(rules, s[eo..])
  {
    hide Halts, Subst, FillAll, Parse;
    TurnWrites(rules, s, i, spans);
    ReferenceIsGroup(n);
    GroupWrites(n, s, spans);
  }

  /** The template "(n)" is group n. */
  lemma ReferenceIsGroup(n: nat)
    requires n <= 9
    ensures Parse([40, 48 + n, 41]) == [Group(n)]
  {
    ParseHead([], n, []);
    assert [] + [LPAREN, 48 + n, RPAREN] + [] == [40, 48 + n, 41];
    assert LiteralOf([]) + [Group(n)] + Parse([]) == [Group(n)];
  }

  lemma TwoReferences(a: nat, b: nat)
    requires a <= 9 && b <= 9
    ensures Parse([40, 48 + a, 41, 40, 48 + b, 41]) == [Group(a), Group(b)]
  {
    ParseHead([], a, [40, 48 + b, 41]);
    ReferenceIsGroup(b);
    assert [] + [LPAREN, 48 + a, RPAREN] + [40, 48 + b, 41] == [40, 48 + a, 41, 40, 48 + b, 41];
    assert LiteralOf([]) + [Group(a)] + [Group(b)] == [Group(a), Group(b)];
  }

  /** The template "(2)(1)" swaps two groups that make up the match. */
  lemma SwapGroups(rules: seq<Rule>, s: Bytes, i: nat, spans: Spans, mid: nat)
    requires Halts(rules, s) && s != [] && Decides(rules, s, i, spans) && ValidSpans(spans, s)
    requires rules[i].repl == Parse([40, 50, 41, 40, 49, 41])
    requires var so, eo := spans[0].value.so, spans[0].value.eo;
             so <= mid <= eo && spans[1] == Some(Span(so, mid)) && spans[2] == Some(Span(mid, eo))
    ensures var so, eo := spans[0].value.so, spans[0].value.eo;
            Halts(rules, s[eo..]) && Subst(rules, s) == s[..so] + (s[mid..eo] + s[so..mid]) + Subst(rules, s[eo..])
  {
    hide Halts, Subst, FillAll, Parse;
    TurnWrites(rules, s, i, spans);
    TwoReferences(2, 1);
    FillConcat([Group(2)], [Group(1)], s, spans);
    assert [Group(2)] + [Group(1)] == [Group(2), Group(1)];
    GroupWrites(2, s, spans);
    GroupWrites(1, s, spans);
  }

  // ---------- raw output, with NULs ----------

  /** The loop ends on each of the NUL-terminated pieces. */
  ghost predicate HaltsRaw(rules: seq<Rule>, raw: Bytes)
    decreases |raw|
  {
    var s := CStr(raw);
    Halts(rules, s) && (|s| < |raw| ==> HaltsRaw(rules, raw[|s| + 1..]))
  }

  /** cli_subst_raw(): each piece on its own, the NULs in between as they are. */
  ghost function SubstRaw(rules: seq<Rule>, raw: Bytes): Bytes
    requires HaltsRaw(rules, raw)
    decreases |raw|
  {
    var s := CStr(raw);
    Subst(rules, s) + if |s| < |raw| then [NUL] + SubstRaw(rules, raw[|s| + 1..]) else []
  }

  lemma RawStep(rules: seq<Rule>, raw: Bytes)
    requires HaltsRaw(rules, raw) && |CStr(raw)| < |raw|
    ensures Halts(rules, CStr(raw)) && HaltsRaw(rules, raw[|CStr(raw)| + 1..])
    ensures SubstRaw(rules, raw) == Subst(rules, CStr(raw)) + ([NUL] + SubstRaw(rules, raw[|CStr(raw)| + 1..]))
  {
    hide Subst, Halts, CStr;
  }

  lemma RawLast(rules: seq<Rule>, raw: Bytes)
    requires HaltsRaw(rules, raw) && |CStr(raw)| == |raw|
    ensures Halts(rules, CStr(raw)) && SubstRaw(rules, raw) == Subst(rules, CStr(raw))
  {
    hide Subst, Halts, CStr;
  }

  /** A NUL passes through and separates what is substituted. */
  lemma NulPasses(rules: seq<Rule>, a: Bytes, b: Bytes)
    requires NUL !in a && Halts(rules, a) && HaltsRaw(rules, b)
    ensures HaltsRaw(rules, a + [NUL] + b)
    ensures SubstRaw(rules, a + [NUL] + b) == Subst(rules, a) + [NUL] + SubstRaw(rules, b)
  {
    hide Subst, Halts, CStr;
    var raw := a + [NUL] + b;
    CStrPrefix(a, b);
    assert raw[|a| + 1..] == b;
    RawStep(rules, raw);
    assert Subst(rules, a) + ([NUL] + SubstRaw(rules, b)) == Subst(rules, a) + [NUL] + SubstRaw(rules, b);
  }

  lemma {:induction false} CStrPrefix(a: Bytes, b: Bytes)
    requires NUL !in a
    ensures CStr(a + [NUL] + b) == a
  {
    var raw := a + [NUL] + b;
    if a != [] {
      CStrPrefix(a[1..], b);
      assert raw[1..] == a[1..] + [NUL] + b;
      assert [a[0]] + a[1..] == a;
    }
  }

  lemma {:induction false} RawIdentity(rules: seq<Rule>, raw: Bytes)
    requires HaltsRaw(rules, raw) && AllWhole(rules)
    ensures SubstRaw(rules, raw) == raw
    decreases |raw|
  {
    hide Subst, Halts, CStr, AllWhole, HaltsRaw, SubstRaw;
    var s := CStr(raw);
    if |s| < |raw| {
      RawStep(rules, raw);
      RawIdentity(rules, raw[|s| + 1..]);
      assert raw == s + ([NUL] + raw[|s| + 1..]);
    } else {
      RawLast(rules, raw);
    }
    Identity(rules, s);
  }

  // ---------- the loops ----------

  /** The parts of one replacement. */
  method WriteParts(parts: seq<Part>, s: Bytes, spans: Spans) returns (written: Bytes)
    requires ValidSpans(spans, s)
    ensures written == FillAll(parts, s, spans)
  {
    written := [];
    var k := 0;
    assert parts[0..] == parts;
    while k < |parts|
      invariant 0 <= k <= |parts| && written + FillAll(parts[k..], s, spans) == FillAll(parts, s, spans)
    {
      var p := Fill(parts[k], s, spans);
      assert parts[k..][0] == parts[k] && parts[k..][1..] == parts[k + 1..];
      assert written + (p + FillAll(parts[k + 1..], s, spans)) == written + p + FillAll(parts[k + 1..], s, spans);
      written := written + p;
      k := k + 1;
    }
    assert parts[k..] == [];
  }

  method CliSubst(rules: seq<Rule>, s: Bytes) returns (written: Bytes)
    requires Halts(rules, s)
    ensures written == Subst(rules, s)
  {
    hide FirstHit, FillAll, Subst, Halts;
    written := [];
    var i := 0;
    assert s[0..] == s;
    while i < |s|
      invariant 0 <= i <= |s| && Halts(rules, s[i..]) && written + Subst(rules, s[i..]) == Subst(rules, s)
    {
      var rest := s[i..];
      var r := FirstHit(rules, rest);
      SubstStep(rules, rest);
      if r.None? { written := written + rest; return; }
      var h := r.value;
      var filled := WriteParts(h.repl, rest, h.spans);
      assert rest[End(h)..] == s[i + End(h)..];
      assert written + (rest[..Start(h)] + filled + Subst(rules, rest[End(h)..])) ==
             written + rest[..Start(h)] + filled + Subst(rules, rest[End(h)..]);
      written := written + rest[..Start(h)] + filled;
      i := i + End(h);
    }
    assert s[i..] == [];
    SubstEmpty(rules);
  }

  method CliSubstRaw(rules: seq<Rule>, raw: array<Byte>, size: nat) returns (written: Bytes)
    requires size < raw.Length && HaltsRaw(rules, raw[..size])
    ensures written == if raw[size] == NUL then SubstRaw(rules, raw[..size]) else []
  {
    hide Subst, Halts, HaltsRaw, SubstRaw, CStr;
    written := [];
    if raw[size] != NUL { return; }
    var n := 0;
    SubstEmpty(rules);
    assert raw[0..size] == raw[..size] && raw[size..size] == [];
    while n < size
      invariant 0 <= n <= size && HaltsRaw(rules, raw[n..size])
      invariant written + SubstRaw(rules, raw[n..size]) == SubstRaw(rules, raw[..size])
    {
      ghost var w, before := raw[n..size], written;
      var s := CStr(raw[n..size]);
      if |s| < |w| { RawStep(rules, w); } else { RawLast(rules, w); }
      var t := CliSubst(rules, s);
      written := written + t;
      n := n + |s|;
      if n < size {
        written := written + [NUL];
        n := n + 1;
        assert w[|s| + 1..] == raw[n..size];
        assert before + (t + ([NUL] + SubstRaw(rules, raw[n..size]))) == written + SubstRaw(rules, raw[n..size]);
      }
    }
  }
}
