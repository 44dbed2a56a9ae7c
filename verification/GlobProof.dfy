/** The regular expression that glob2re() writes matches exactly what the glob matches. */
module GlobProof {
  import opened Octets
  import opened Glob

  // ---------- brackets survive being copied ----------

  lemma {:induction false} IndexUnique(s: Bytes, c: Byte, k: nat, p: nat)
    requires k <= p < |s| && s[p] == c && c !in s[k..p]
    ensures IndexFrom(s, c, k) == Some(p)
    decreases p - k
  {}

  /** A list is recognised by the bytes up to its closing bracket alone. */
  lemma ListLenLocal(s: Bytes, rest: Bytes)
    requires ListLen(s).Some?
    ensures ListLen(s[..ListLen(s).value + 1] + rest) == ListLen(s)
  {
    var p, k := ListLen(s).value, FirstMember(s);
    var t := s[..p + 1] + rest;
    assert t[..p + 1] == s[..p + 1] && t[k..p] == s[k..p];
    assert FirstMember(t) == k;
    IndexUnique(t, RBRACKET, k, p);
  }

  lemma BracketAtom(neg: bool, s: Bytes, rest: Bytes)
    requires ListLen(s).Some? && (!neg ==> s[0] != CARET)
    ensures var p := ListLen(s).value;
            var open := if neg then [LBRACKET, CARET] else [LBRACKET];
            AtomAt(open + s[..p + 1] + rest) ==
            if ListOk(s[..p]) then Parsed(Brk(neg, s[..p]), |open| + p + 1) else Bad
  {
    hide ListLen, ListOk;
    var p := ListLen(s).value;
    var open := if neg then [LBRACKET, CARET] else [LBRACKET];
    var t, u := s[..p + 1] + rest, open + s[..p + 1] + rest;
    ListLenLocal(s, rest);
    assert u == open + t && u[|open|..] == t && u[|open|..|open| + p] == t[..p] == s[..p];
    assert u[0] == LBRACKET && (if neg then u[1] == CARET else u[1] == s[0]);
  }

  // ---------- a token and its piece ----------

  /** The piece says what the token says. */
  ghost predicate Same(t: Tok, p: Piece) {
    match t
    case Many => p == Piece(Dot, true)
    case One => p == Piece(Dot, false)
    case Lit(c) =>
      && !p.star && (p.atom.Chr? || p.atom.Brk?)
      && forall x, icase :: Accepts(p.atom, icase, x) <==> SameByte(x, c, icase)
    case Set(neg, list) => p == Piece(Brk(neg, list), false)
    case Bol => p == Piece(StartAnchor, false)
    case Eol => p == Piece(EndAnchor, false)
  }

  predicate TokOk(t: Tok) { t.Set? ==> ListOk(t.list) }

  /** The piece that the output of one turn is read as. */
  function PieceFor(t: Tok, out: Bytes): Piece {
    match t
    case Many => Piece(Dot, true)
    case One => Piece(Dot, false)
    case Lit(c) => Piece(if |out| == 3 then Brk(false, [c]) else Chr(c), false)
    case Set(neg, list) => Piece(Brk(neg, list), false)
    case Bol => Piece(StartAnchor, false)
    case Eol => Piece(EndAnchor, false)
  }

  lemma LitSet(c: Byte)
    ensures ListOk([c]) && forall x, icase :: InList([c], x, icase) <==> SameByte(x, c, icase)
  {
    assert [c][1..] == [];
    assert forall x :: Contains([c], x) <==> x == c;
  }

  lemma PieceIsSame(s: Bytes, first: bool)
    requires s != [] && TokAt(s, first).Parsed? && Emit(s, first).Parsed?
    ensures Same(TokAt(s, first).v, PieceFor(TokAt(s, first).v, Emit(s, first).v))
  {
    hide ListLen, HasClass;
    if TokAt(s, first).v.Lit? { LitSet(TokAt(s, first).v.c); }
  }

  /** The glob and glob2re() agree on what is an error and where the next token starts. */
  lemma SameSteps(s: Bytes, first: bool)
    requires s != []
    ensures TokAt(s, first).Bad? <==> Emit(s, first).Bad?
    ensures TokAt(s, first).Parsed? ==> TokAt(s, first).used == Emit(s, first).used
  {
    hide ListLen;
  }

  /** A character in brackets is read as a bracket expression with that one member. */
  lemma QuotedAtom(c: Byte, rest: Bytes)
    requires c != CARET
    ensures AtomAt([LBRACKET, c, RBRACKET] + rest) == Parsed(Brk(false, [c]), 3)
  {
    var s := [c, RBRACKET];
    assert s[..1] == [c] && s[..2] == s;
    OneMember(c);
    LitSet(c);
    BracketAtom(false, s, rest);
    assert [LBRACKET] + s[..2] + rest == [LBRACKET, c, RBRACKET] + rest;
  }

  lemma OneMember(c: Byte)
    ensures ListLen([c, RBRACKET]) == Some(1)
  {}

  lemma EmitBracket(s: Bytes, first: bool, rest: Bytes)
    requires s != [] && s[0] == LBRACKET && TokAt(s, first).Parsed? && Emit(s, first).Parsed?
    ensures var t, e := TokAt(s, first).v, Emit(s, first).v;
            t.Set? && AtomAt(e + rest) == if TokOk(t) then Parsed(Brk(t.neg, t.list), |e|) else Bad
  {
    hide ListLen, HasClass, ListOk, AtomAt;
    var t := TokAt(s, first).v;
    var off := if t.neg then 2 else 1;
    var l, n := s[off..], |t.list|;
    assert l[..n + 1] == s[off..off + n + 1] && l[..n] == t.list;
    BracketAtom(t.neg, l, rest);
  }

  /** What one turn writes is read as one atom, whatever follows; only `.*' leaves its star to be read. */
  lemma EmitAtom(s: Bytes, first: bool, rest: Bytes)
    requires s != [] && TokAt(s, first).Parsed? && Emit(s, first).Parsed?
    ensures var t, e := TokAt(s, first).v, Emit(s, first).v;
            var p := PieceFor(t, e);
            AtomAt(e + rest) == if TokOk(t) then Parsed(p.atom, if p.star then |e| - 1 else |e|) else Bad
  {
    hide ListLen, HasClass, ListOk;
    var t, e := TokAt(s, first).v, Emit(s, first).v;
    if s[0] == LBRACKET {
      EmitBracket(s, first, rest);
    } else if t.Lit? && |e| == 3 {
      QuotedAtom(t.c, rest);
    } else {
      assert (e + rest)[0] == e[0] && (|e| > 1 ==> (e + rest)[1] == e[1]);
    }
  }

  /** So reading continues after it. */
  lemma EmitPiece(s: Bytes, first: bool, rest: Bytes)
    requires s != [] && TokAt(s, first).Parsed? && Emit(s, first).Parsed? && !Starred(rest)
    ensures var t, e := TokAt(s, first).v, Emit(s, first).v;
            Ere(e + rest) == if TokOk(t) then Prepend(PieceFor(t, e), Ere(rest)) else None
  {
    EmitAtom(s, first, rest);
    var t, e := TokAt(s, first).v, Emit(s, first).v;
    assert (e + rest)[|e|..] == rest;
    if t.Many? { assert (e + rest)[1..] == [STAR] + rest && ([STAR] + rest)[1..] == rest; }
    hide AtomAt, ListLen, HasClass, ListOk;
  }

  /** No turn writes a star where it could attach to what came before. */
  lemma EmitNoStar(s: Bytes, first: bool)
    requires s != [] && Emit(s, first).Parsed?
    ensures Emit(s, first).v[0] != STAR
  {
    hide ListLen;
  }

  lemma OutputNoStar(s: Bytes, first: bool)
    requires Glob2Re(s, first).Some?
    ensures !Starred(Glob2Re(s, first).value)
  {
    hide Emit;
    if s != [] { EmitNoStar(s, first); }
  }

  // ---------- the whole pattern ----------

  ghost predicate AllSame(ts: seq<Tok>, ps: seq<Piece>) {
    |ts| == |ps| && forall i :: 0 <= i < |ts| ==> Same(ts[i], ps[i])
  }

  predicate AllToksOk(ts: seq<Tok>) { forall i :: 0 <= i < |ts| ==> TokOk(ts[i]) }

  lemma ToksOkCons(t: Tok, ts: seq<Tok>)
    ensures AllToksOk([t] + ts) <==> TokOk(t) && AllToksOk(ts)
  {
    hide TokOk;
    var all := [t] + ts;
    assert all[0] == t && forall i :: 0 <= i < |ts| ==> all[i + 1] == ts[i];
  }

  lemma SameCons(t: Tok, ts: seq<Tok>, p: Piece, ps: seq<Piece>)
    requires Same(t, p) && AllSame(ts, ps)
    ensures AllSame([t] + ts, [p] + ps)
  {
    hide Same;
  }

  /** One turn of glob2re() and of both readers. */
  lemma TranslateStep(s: Bytes, first: bool, rest: Bytes)
    requires s != [] && TokAt(s, first).Parsed?
    requires Glob2Re(s[TokAt(s, first).used..], false) == Some(rest)
    ensures Emit(s, first).Parsed?
    ensures var t, e := TokAt(s, first).v, Emit(s, first).v;
            && Glob2Re(s, first) == Some(e + rest)
            && Toks(s, first) == Prepend(t, Toks(s[TokAt(s, first).used..], false))
            && Ere(e + rest) == (if TokOk(t) then Prepend(PieceFor(t, e), Ere(rest)) else None)
            && Same(t, PieceFor(t, e))
  {
    hide Emit, TokAt, Same, TokOk, PieceFor, Ere;
    SameSteps(s, first);
    OutputNoStar(s[TokAt(s, first).used..], false);
    EmitPiece(s, first, rest);
    PieceIsSame(s, first);
  }

  lemma TranslateError(s: Bytes, first: bool)
    requires s != []
    requires TokAt(s, first).Parsed? ==> Glob2Re(s[TokAt(s, first).used..], false).None?
    requires TokAt(s, first).Parsed? ==> Toks(s[TokAt(s, first).used..], false).None?
    ensures Glob2Re(s, first).None? && Toks(s, first).None?
  {
    hide Emit, TokAt;
    SameSteps(s, first);
  }

  /**
   * glob2re() accepts exactly the globs of the table.  Its output is a regular expression iff in the glob's brackets
   * ranges run upwards and no `-' follows one except as the last member; then token by token it says the same.
   */
  lemma {:induction false} Translates(s: Bytes, first: bool)
    ensures Glob2Re(s, first).Some? <==> Toks(s, first).Some?
    ensures Glob2Re(s, first).Some? ==>
              var ts, ps := Toks(s, first).value, Ere(Glob2Re(s, first).value);
              (ps.Some? <==> AllToksOk(ts)) && (ps.Some? ==> AllSame(ts, ps.value))
    decreases |s|
  {
    if s != [] {
      hide Emit, TokAt, Same, TokOk, PieceFor, AllToksOk, AllSame, Ere, Glob2Re, Toks;
      var t := TokAt(s, first);
      if t.Parsed? {
        var more := s[t.used..];
        Translates(more, false);
        if Glob2Re(more, false).Some? {
          var rest, ts := Glob2Re(more, false).value, Toks(more, false).value;
          TranslateStep(s, first, rest);
          ToksOkCons(t.v, ts);
          if Ere(rest).Some? { SameCons(t.v, ts, PieceFor(t.v, Emit(s, first).v), Ere(rest).value); }
        } else {
          TranslateError(s, first);
        }
      } else {
        TranslateError(s, first);
      }
    }
  }

  /** Patterns that say the same match the same spans. */
  lemma {:induction false} SameMatches(ts: seq<Tok>, ps: seq<Piece>, icase: bool, text: Bytes, i: nat, j: nat)
    requires AllSame(ts, ps) && i <= j <= |text|
    ensures GlobMatch(ts, icase, text, i, j) <==> ReMatch(ps, icase, text, i, j)
    decreases |ts|
  {
    if ts != [] {
      assert Same(ts[0], ps[0]);
      var tr, pr := ts[1..], ps[1..];
      assert AllSame(tr, pr);
      forall k | i <= k <= j ensures GlobMatch(tr, icase, text, k, j) <==> ReMatch(pr, icase, text, k, j) {
        SameMatches(tr, pr, icase, text, k, j);
      }
    }
  }

  /** The theorem for a whole glob: same spans of every text, and at most three times as long. */
  lemma GlobTheorem(s: Bytes)
    requires Glob2Re(s, true).Some?
    ensures Toks(s, true).Some? && |Glob2Re(s, true).value| <= 3 * |s|
    ensures Ere(Glob2Re(s, true).value).Some? <==> AllToksOk(Toks(s, true).value)
    ensures Ere(Glob2Re(s, true).value).Some? ==>
              forall icase: bool, text: Bytes, i: nat, j: nat | i <= j <= |text| ::
                GlobMatch(Toks(s, true).value, icase, text, i, j) <==>
                ReMatch(Ere(Glob2Re(s, true).value).value, icase, text, i, j)
  {
    Translates(s, true);
    if Ere(Glob2Re(s, true).value).Some? {
      var ts, ps := Toks(s, true).value, Ere(Glob2Re(s, true).value).value;
      forall icase: bool, text: Bytes, i: nat, j: nat | i <= j <= |text|
        ensures GlobMatch(ts, icase, text, i, j) <==> ReMatch(ps, icase, text, i, j)
      {
        SameMatches(ts, ps, icase, text, i, j);
      }
    }
  }

  lemma PlainList(list: Bytes)
    requires list != [] && RBRACKET !in list && LBRACKET !in list
    ensures ListLen(list + [RBRACKET]) == Some(|list|)
  {
    var t := list + [RBRACKET];
    assert t[0..|list|] == list && t[..|list| + 1] == t;
    IndexUnique(t, RBRACKET, 0, |list|);
    assert !HasClass(t);
  }

  lemma GlobEmpty()
    ensures Glob2Re([], false) == Some([])
  {}

  lemma BadEre(list: Bytes)
    requires list != [] && list[0] != CARET && RBRACKET !in list && LBRACKET !in list && !ListOk(list)
    ensures Ere([LBRACKET] + list + [RBRACKET]).None?
  {
    hide ListOk, ListLen, HasClass, AtomAt;
    var s, t, n := [LBRACKET] + list + [RBRACKET], list + [RBRACKET], |list|;
    PlainList(list);
    assert t[..n] == list && t[..n + 1] == t;
    BracketAtom(false, t, []);
    assert [LBRACKET] + t[..n + 1] + [] == s;
  }

  lemma PlainEmit(list: Bytes)
    requires list != [] && list[0] !in [BANG, CARET] && RBRACKET !in list && LBRACKET !in list
    ensures var s := [LBRACKET] + list + [RBRACKET]; Emit(s, true) == Parsed(s, |s|)
  {
    hide ListLen, HasClass;
    var s, t, n := [LBRACKET] + list + [RBRACKET], list + [RBRACKET], |list|;
    PlainList(list);
    assert s[1..] == t && s[1..n + 2] == t && [LBRACKET] + t == s;
  }

  /** A bracket that glob2re() copies although regcomp() refuses it. */
  lemma BadList(list: Bytes)
    requires list != [] && list[0] !in [BANG, CARET] && RBRACKET !in list && LBRACKET !in list && !ListOk(list)
    ensures var s := [LBRACKET] + list + [RBRACKET]; Glob2Re(s, true) == Some(s) && Ere(s).None?
  {
    hide ListOk, Emit, Ere;
    var s := [LBRACKET] + list + [RBRACKET];
    BadEre(list);
    PlainEmit(list);
    assert s[|s|..] == [] && s + [] == s;
    GlobEmpty();
  }

  /** "[z-a]" and "[a-m-o]" pass glob2re() and are no regular expressions. */
  lemma BadRanges()
    ensures Glob2Re([91, 122, 45, 97, 93], true) == Some([91, 122, 45, 97, 93])
    ensures Ere([91, 122, 45, 97, 93]).None?
    ensures Glob2Re([91, 97, 45, 109, 45, 111, 93], true) == Some([91, 97, 45, 109, 45, 111, 93])
    ensures Ere([91, 97, 45, 109, 45, 111, 93]).None?
  {
    hide Ere, Glob2Re;
    BadList([122, 45, 97]);
    assert [LBRACKET] + [122, 45, 97] + [RBRACKET] == [91, 122, 45, 97, 93];
    BadList([97, 45, 109, 45, 111]);
    assert [LBRACKET] + [97, 45, 109, 45, 111] + [RBRACKET] == [91, 97, 45, 109, 45, 111, 93];
  }
}
