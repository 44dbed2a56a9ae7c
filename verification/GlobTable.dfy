/**
 * The table in front of glob2re(), by positions in the glob: where its tokens start and end, which of them are errors,
 * and what the others mean.  Brackets are described here by their bytes alone.
 */
module GlobTable {
  import opened Octets
  import opened Glob
  import opened GlobProof

  /** Where the members start of the bracket that opens at s[i]: after `[', `[!' or `[^'. */
  function Members(s: Bytes, i: nat): nat { if i + 1 < |s| && s[i + 1] in [33, 94] then i + 2 else i + 1 }

  /** The bracket whose members start at m closes at p: at the first `]' that is not its first member. */
  predicate Closes(s: Bytes, m: nat, p: int) { m < p < |s| && s[p] == 93 && 93 !in s[m + 1..p] }

  /** `[:', `[.' or `[=' among the members m..p. */
  predicate HasPair(s: Bytes, m: nat, p: int) {
    exists k :: m <= k < p && k + 1 < |s| && s[k] == 91 && s[k + 1] in [58, 46, 61]
  }

  /** A token that is no error takes s[i..j]. */
  predicate TokenEnd(s: Bytes, i: nat, j: nat) {
    i < j <= |s| &&
    match s[i]
    case 91 => Closes(s, Members(s, i), j - 1) && !HasPair(s, Members(s, i), j - 1)
    case 92 => i + 1 < |s| && s[i + 1] in [92, 42, 63, 91, 93] && j == i + 2
    case _ => j == i + 1
  }

  /** An error at s[i]: a bracket that does not close or has such a pair, or a backslash before another character. */
  ghost predicate BadAt(s: Bytes, i: nat) {
    i < |s| &&
    match s[i]
    case 91 => forall p :: Closes(s, Members(s, i), p) ==> HasPair(s, Members(s, i), p)
    case 92 => i + 1 == |s| || s[i + 1] !in [92, 42, 63, 91, 93]
    case _ => false
  }

  /** Reading token by token gets to position i. */
  predicate TokenStart(s: Bytes, i: nat)
    decreases i
  {
    i == 0 || exists k: nat :: 0 <= k < i && TokenEnd(s, k, i) && TokenStart(s, k)
  }

  // ---------- brackets ----------

  /** The member list of the model is the bracket of the table. */
  lemma ListIsBracket(s: Bytes, m: nat, p: int)
    requires m <= |s|
    ensures Closes(s, m, p) && !HasPair(s, m, p) <==>
            ListLen(s[m..]).Some? && m + ListLen(s[m..]).value == p
  {
    var t := s[m..];
    if Closes(s, m, p) {
      ClosesIndex(s, m, p);
      PairIsClass(s, m, p);
    } else if ListLen(t).Some? && m + ListLen(t).value == p {
      IndexCloses(s, m);
    }
  }

  lemma ClosesIndex(s: Bytes, m: nat, p: int)
    requires Closes(s, m, p)
    ensures IndexFrom(s[m..], RBRACKET, FirstMember(s[m..])) == Some(p - m)
  {
    var t, k := s[m..], FirstMember(s[m..]);
    assert t[p - m] == s[p] && t[0] == s[m];
    assert t[1..p - m] == s[m + 1..p];
    if k == 0 { assert t[0..p - m] == [t[0]] + t[1..p - m]; }
    IndexUnique(t, RBRACKET, k, p - m);
  }

  lemma IndexCloses(s: Bytes, m: nat)
    requires m <= |s| && IndexFrom(s[m..], RBRACKET, FirstMember(s[m..])).Some?
    ensures Closes(s, m, m + IndexFrom(s[m..], RBRACKET, FirstMember(s[m..])).value)
  {
    var t, k := s[m..], FirstMember(s[m..]);
    var q := IndexFrom(t, RBRACKET, k).value;
    assert t[q] == s[m + q] && t[0] == s[m];
    assert q > 0;
    assert s[m + 1..m + q] == t[1..q];
    if k == 0 { assert t[0..q] == [t[0]] + t[1..q]; }
  }

  lemma PairIsClass(s: Bytes, m: nat, p: nat)
    requires m <= p < |s|
    ensures HasPair(s, m, p) <==> HasClass(s[m..][..p - m + 1])
  {
    var t := s[m..][..p - m + 1];
    assert forall i :: 0 <= i < |t| ==> t[i] == s[m + i];
    if HasPair(s, m, p) {
      var k :| m <= k < p && s[k] == 91 && s[k + 1] in [58, 46, 61];
      assert t[k - m] == s[k] && t[k - m + 1] == s[k + 1];
      assert ClassAt(t, k - m);
    }
    if HasClass(t) {
      var i :| 0 <= i < |t| && ClassAt(t, i);
      assert s[m + i] == t[i] && s[m + i + 1] == t[i + 1];
    }
  }

  // ---------- one token ----------

  lemma BracketEmit(s: Bytes, i: nat, first: bool)
    requires i < |s| && s[i] == 91
    ensures var m := Members(s, i);
            && i < m <= |s|
            && var r, e := ListLen(s[m..]), Emit(s[i..], first);
               if r.None? then e.Bad? else e.Parsed? && e.used == m - i + r.value + 1
  {
    hide ListLen;
    var t, m := s[i..], Members(s, i);
    assert t[m - i..] == s[m..];
  }

  lemma BracketToken(s: Bytes, i: nat, first: bool)
    requires i < |s| && s[i] == 91
    ensures var e := Emit(s[i..], first);
            (e.Bad? <==> BadAt(s, i)) && (e.Parsed? ==> TokenEnd(s, i, i + e.used))
    ensures forall j: nat | TokenEnd(s, i, j) ::
              Emit(s[i..], first).Parsed? && Emit(s[i..], first).used == j - i
  {
    hide ListLen, HasPair, Closes, Emit;
    var m := Members(s, i);
    BracketEmit(s, i, first);
    var r := ListLen(s[m..]);
    if r.Some? { ListIsBracket(s, m, m + r.value); }
    forall p: int | Closes(s, m, p) && !HasPair(s, m, p) ensures r.Some? && m + r.value == p { ListIsBracket(s, m, p); }
  }

  /** glob2re() fails at a token iff it is an error of the table, and otherwise goes on where it ends. */
  lemma TokenRead(s: Bytes, i: nat, first: bool)
    requires i < |s|
    ensures var e := Emit(s[i..], first);
            (e.Bad? <==> BadAt(s, i)) && (e.Parsed? ==> TokenEnd(s, i, i + e.used))
    ensures forall j: nat | TokenEnd(s, i, j) ::
              Emit(s[i..], first).Parsed? && Emit(s[i..], first).used == j - i
  {
    if s[i] == 91 {
      hide Emit;
      BracketToken(s, i, first);
    } else {
      hide ListLen;
    }
  }

  // ---------- which globs are refused ----------

  lemma Continues(s: Bytes, i: nat)
    requires i < |s| && Emit(s[i..], i == 0).Parsed?
    ensures var j := i + Emit(s[i..], i == 0).used;
            i < j <= |s| && (Glob2Re(s[i..], i == 0).Some? <==> Glob2Re(s[j..], j == 0).Some?)
  {
    hide Emit;
    assert s[i..][Emit(s[i..], i == 0).used..] == s[i + Emit(s[i..], i == 0).used..];
  }

  lemma FailsAt(s: Bytes, i: nat)
    requires i < |s| && Emit(s[i..], i == 0).Bad?
    ensures Glob2Re(s[i..], i == 0).None?
  {
    hide Emit;
  }

  /** An accepted glob is accepted from every token on. */
  lemma {:induction false} AcceptedFrom(s: Bytes, i: nat)
    requires Glob2Re(s, true).Some? && TokenStart(s, i) && i <= |s|
    ensures Glob2Re(s[i..], i == 0).Some?
    decreases i
  {
    hide Emit, TokenEnd, Glob2Re;
    if i == 0 {
      assert s[0..] == s;
    } else {
      var k: nat :| 0 <= k < i && TokenEnd(s, k, i) && TokenStart(s, k);
      EndsAfter(s, k, i);
      AcceptedFrom(s, k);
      TokenRead(s, k, k == 0);
      Continues(s, k);
    }
  }

  lemma EndsAfter(s: Bytes, k: nat, i: nat)
    requires TokenEnd(s, k, i)
    ensures k < |s|
  {}

  lemma NotAtEnd(s: Bytes, i: nat)
    requires i <= |s| && Glob2Re(s[i..], i == 0).None?
    ensures i < |s|
  {
    assert |s[i..]| == |s| - i;
  }

  /** A glob that is refused from some token on has an error there or later. */
  lemma {:induction false} FindError(s: Bytes, i: nat) returns (j: nat)
    requires i <= |s| && TokenStart(s, i) && Glob2Re(s[i..], i == 0).None?
    ensures TokenStart(s, j) && BadAt(s, j)
    decreases |s| - i
  {
    hide Emit, TokenEnd, BadAt;
    NotAtEnd(s, i);
    TokenRead(s, i, i == 0);
    var e := Emit(s[i..], i == 0);
    if e.Bad? { return i; }
    Continues(s, i);
    assert TokenStart(s, i + e.used);
    j := FindError(s, i + e.used);
  }

  /** glob2re() refuses a glob iff one of its tokens is an error of the table. */
  lemma RefusedTheorem(s: Bytes)
    ensures Glob2Re(s, true).None? <==> exists i: nat :: TokenStart(s, i) && BadAt(s, i)
  {
    hide Glob2Re, BadAt, Emit, TokenEnd, TokenStart;
    if Glob2Re(s, true).None? {
      assert s[0..] == s;
      StartsAtZero(s);
      var i := FindError(s, 0);
    }
    if i: nat :| TokenStart(s, i) && BadAt(s, i) {
      BadInside(s, i);
      if Glob2Re(s, true).Some? {
        AcceptedFrom(s, i);
        TokenRead(s, i, i == 0);
        FailsAt(s, i);
      }
    }
  }

  lemma StartsAtZero(s: Bytes)
    ensures TokenStart(s, 0)
  {}

  lemma BadInside(s: Bytes, i: nat)
    requires BadAt(s, i)
    ensures i < |s|
  {}

  /** So every bracket with `[:', `[.' or `[=' in it makes a glob an error, "[[:alpha:]]" among them. */
  lemma ClassesRefused(l: Bytes, c: Byte, more: Bytes, rest: Bytes)
    requires c in [58, 46, 61] && 93 !in l && 93 !in more
    ensures Glob2Re([91] + l + [91, c] + more + [93] + rest, true).None?
  {
    hide Glob2Re;
    var s := [91] + l + [91, c] + more + [93] + rest;
    var m, k, p := Members(s, 0), |l| + 1, |l| + |more| + 3;
    assert s[k] == 91 && s[k + 1] == c && s[p] == 93;
    assert s[1..p] == l + [91, c] + more;
    assert forall x :: 1 <= x < p ==> s[x] != 93 by {
      assert forall x :: 1 <= x < p ==> s[x] == s[1..p][x - 1];
    }
    assert m <= k;
    forall q | Closes(s, m, q) ensures HasPair(s, m, q) {
      assert s[q] == 93;
    }
    assert TokenStart(s, 0) && BadAt(s, 0);
    RefusedTheorem(s);
  }

  // ---------- what the tokens mean ----------

  /** `*' and `?'. */
  lemma Wildcards(rest: Bytes, first: bool)
    ensures Toks([42] + rest, first) == Prepend(Many, Toks(rest, false))
    ensures Toks([63] + rest, first) == Prepend(One, Toks(rest, false))
  {
    assert ([42] + rest)[1..] == rest && ([63] + rest)[1..] == rest;
  }

  /** Every character without a meaning of its own, a closing bracket included. */
  lemma Plain(c: Byte, rest: Bytes, first: bool)
    requires c !in [42, 63, 91, 94, 36, 92]
    ensures Toks([c] + rest, first) == Prepend(Lit(c), Toks(rest, false))
  {
    assert ([c] + rest)[1..] == rest;
  }

  /** `\*', `\?', `\[', `\]' and `\\' are these characters. */
  lemma Escaped(c: Byte, rest: Bytes, first: bool)
    requires c in [92, 42, 63, 91, 93]
    ensures Toks([92, c] + rest, first) == Prepend(Lit(c), Toks(rest, false))
  {
    assert ([92, c] + rest)[2..] == rest;
  }

  /** `^' is an anchor in front, `$' at the end; elsewhere they are characters. */
  lemma Anchors(rest: Bytes)
    ensures Toks([94] + rest, true) == Prepend(Bol, Toks(rest, false))
    ensures Toks([94] + rest, false) == Prepend(Lit(94), Toks(rest, false))
    ensures forall first :: Toks([36] + rest, first) == Prepend(if rest == [] then Eol else Lit(36), Toks(rest, false))
  {
    assert ([94] + rest)[1..] == rest && ([36] + rest)[1..] == rest;
  }

  /** A bracket matches one of its members, with `!' or `^' in front one of the others. */
  lemma Brackets(not: Bytes, l: Bytes, rest: Bytes, first: bool)
    requires not in [[], [33], [94]] && l != [] && 93 !in l[1..] && (not == [] ==> l[0] !in [33, 94])
    requires !HasPair(l + [93], 0, |l|)
    ensures Toks([91] + not + l + [93] + rest, first) == Prepend(Set(not != [], l), Toks(rest, false))
  {
    hide ListLen, Toks, HasPair, Members;
    var s := [91] + not + l + [93] + rest;
    var m, p := 1 + |not|, 1 + |not| + |l|;
    BracketBytes(not, l, rest);
    SamePairs(s, m, p, l + [93]);
    assert s[m + 1..p] == s[m..p][1..];
    ListIsBracket(s, m, p);
    BracketTok(s, first, m, |l|);
  }

  lemma BracketBytes(not: Bytes, l: Bytes, rest: Bytes)
    requires not in [[], [33], [94]] && l != [] && (not == [] ==> l[0] !in [33, 94])
    ensures var s, m := [91] + not + l + [93] + rest, 1 + |not|;
            var p := m + |l|;
            && s[m..p] == l && s[p] == 93 && s[p + 1..] == rest && s[m..p + 1] == l + [93] && Members(s, 0) == m
  {
    var s := [91] + not + l + [93] + rest;
    assert s[1] == if not == [] then l[0] else not[0];
  }

  lemma SamePairs(s: Bytes, m: nat, p: nat, t: Bytes)
    requires m <= p < |s| && t == s[m..p + 1]
    ensures HasPair(s, m, p) <==> HasPair(t, 0, p - m)
  {
    if k :| m <= k < p && k + 1 < |s| && s[k] == 91 && s[k + 1] in [58, 46, 61] {
      assert t[k - m] == s[k] && t[k - m + 1] == s[k + 1];
    }
    if k :| 0 <= k < p - m && k + 1 < |t| && t[k] == 91 && t[k + 1] in [58, 46, 61] {
      assert s[m + k] == t[k] && s[m + k + 1] == t[k + 1];
    }
  }

  lemma BracketTok(s: Bytes, first: bool, m: nat, n: nat)
    requires s != [] && s[0] == 91 && m == Members(s, 0) && m <= |s| && ListLen(s[m..]) == Some(n) && m + n < |s|
    ensures Toks(s, first) == Prepend(Set(m == 2, s[m..m + n]), Toks(s[m + n + 1..], false))
  {
    hide ListLen, HasClass, Toks;
    SliceAfter(s, m, n);
    TokAtBracket(s, first, m, n);
    TokFirst(s, first);
  }

  lemma TokFirst(s: Bytes, first: bool)
    requires s != [] && TokAt(s, first).Parsed?
    ensures Toks(s, first) == Prepend(TokAt(s, first).v, Toks(s[TokAt(s, first).used..], false))
  {
    hide TokAt;
  }

  lemma TokAtBracket(s: Bytes, first: bool, m: nat, n: nat)
    requires s != [] && s[0] == 91 && m == Members(s, 0) && m <= |s| && ListLen(s[m..]) == Some(n) && m + n < |s|
    ensures TokAt(s, first) == Parsed(Set(m == 2, s[m..m + n]), m + n + 1)
  {
    hide ListLen;
  }

  lemma SliceAfter(s: Bytes, m: nat, n: nat)
    requires m + n <= |s|
    ensures s[m..][..n] == s[m..m + n]
  {
    var a, b := s[m..][..n], s[m..m + n];
    forall k | 0 <= k < n ensures a[k] == b[k] {}
  }
}
