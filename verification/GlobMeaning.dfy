/** What a glob matches, as laws: of each token, of one glob after another, and of the members of a bracket. */
module GlobMeaning {
  import opened Octets
  import opened Glob

  /** `*' stands for every text, `?' for every single character, a character for itself. */
  predicate TokenSpan(t: Tok, icase: bool, text: Bytes, i: nat, j: nat)
    requires i <= j <= |text|
  {
    match t
    case Many => true
    case One => j == i + 1
    case Lit(c) => j == i + 1 && SameByte(text[i], c, icase)
    case Set(neg, list) => j == i + 1 && (InList(list, text[i], icase) <==> !neg)
    case Bol => i == j == 0
    case Eol => i == j == |text|
  }

  lemma TokenMatches(t: Tok, icase: bool, text: Bytes, i: nat, j: nat)
    requires i <= j <= |text|
    ensures GlobMatch([t], icase, text, i, j) <==> TokenSpan(t, icase, text, i, j)
  {
    hide SameByte, InList;
    assert [t][1..] == [];
    if t.Many? { assert GlobMatch([], icase, text, j, j); }
  }

  /** text[i..j] can be cut into a match of a and one of b. */
  ghost predicate Splits(a: seq<Tok>, b: seq<Tok>, icase: bool, text: Bytes, i: nat, j: nat)
    requires i <= j <= |text|
  {
    exists k :: i <= k <= j && GlobMatch(a, icase, text, i, k) && GlobMatch(b, icase, text, k, j)
  }

  /** The first token of a glob, and the others on what it leaves. */
  lemma FirstToken(t: Tok, more: seq<Tok>, icase: bool, text: Bytes, i: nat, j: nat)
    requires i <= j <= |text|
    ensures GlobMatch([t] + more, icase, text, i, j) <==> Splits([t], more, icase, text, i, j)
  {
    hide SameByte, InList;
    var ts := [t] + more;
    assert ts[0] == t && ts[1..] == more;
    forall x | i <= x <= j ensures GlobMatch([t], icase, text, i, x) <==> TokenSpan(t, icase, text, i, x) {
      TokenMatches(t, icase, text, i, x);
    }
    TokenMatches(t, icase, text, i, i);
    if i < j { TokenMatches(t, icase, text, i, i + 1); }
  }

  /** One glob after another matches what can be cut into a match of the first and one of the second. */
  lemma {:induction false} MatchConcat(a: seq<Tok>, b: seq<Tok>, icase: bool, text: Bytes, i: nat, j: nat)
    requires i <= j <= |text|
    ensures GlobMatch(a + b, icase, text, i, j) <==> Splits(a, b, icase, text, i, j)
    decreases |a|
  {
    if a == [] {
      assert a + b == b;
      assert GlobMatch(a, icase, text, i, i);
    } else {
      var t, more := a[0], a[1..];
      assert a == [t] + more && a + b == [t] + (more + b);
      FirstToken(t, more + b, icase, text, i, j);
      forall x | i <= x <= j ensures GlobMatch(more + b, icase, text, x, j) <==> Splits(more, b, icase, text, x, j) {
        MatchConcat(more, b, icase, text, x, j);
      }
      forall k | i <= k <= j ensures GlobMatch(a, icase, text, i, k) <==> Splits([t], more, icase, text, i, k) {
        FirstToken(t, more, icase, text, i, k);
      }
      hide GlobMatch;
      CutTwice([t], more, a, b, more + b, icase, text, i, j);
    }
  }

  /** It does not matter which cut is made first. */
  lemma CutTwice(a: seq<Tok>, b: seq<Tok>, ab: seq<Tok>, c: seq<Tok>, bc: seq<Tok>, icase: bool, text: Bytes,
                 i: nat, j: nat)
    requires i <= j <= |text|
    requires forall x :: i <= x <= j ==> (GlobMatch(bc, icase, text, x, j) <==> Splits(b, c, icase, text, x, j))
    requires forall k :: i <= k <= j ==> (GlobMatch(ab, icase, text, i, k) <==> Splits(a, b, icase, text, i, k))
    ensures Splits(a, bc, icase, text, i, j) <==> Splits(ab, c, icase, text, i, j)
  {
    hide GlobMatch;
    if Splits(a, bc, icase, text, i, j) {
      var x :| i <= x <= j && GlobMatch(a, icase, text, i, x) && GlobMatch(bc, icase, text, x, j);
      assert Splits(b, c, icase, text, x, j);
      var k :| x <= k <= j && GlobMatch(b, icase, text, x, k) && GlobMatch(c, icase, text, k, j);
      assert Splits(a, b, icase, text, i, k);
    }
    if Splits(ab, c, icase, text, i, j) {
      var k :| i <= k <= j && GlobMatch(ab, icase, text, i, k) && GlobMatch(c, icase, text, k, j);
      assert Splits(a, b, icase, text, i, k);
      var x :| i <= x <= k && GlobMatch(a, icase, text, i, x) && GlobMatch(b, icase, text, x, k);
      assert Splits(b, c, icase, text, x, j);
    }
  }

  // ---------- the members of a bracket ----------

  /** A range x-y has the characters from x to y, whatever follows; it must run upwards. */
  lemma RangeMembers(x: Byte, y: Byte, rest: Bytes, c: Byte)
    ensures Contains([x, 45, y] + rest, c) <==> x <= c <= y || Contains(rest, c)
    ensures ListOk([x, 45, y] + rest) <==> x <= y && (|rest| >= 2 ==> rest[0] != 45) && ListOk(rest)
  {
    var l := [x, 45, y] + rest;
    assert l[3..] == rest && (rest != [] ==> l[3] == rest[0]);
  }

  /** Any other character is a member, a `-' in the last place as well. */
  lemma SingleMember(x: Byte, rest: Bytes, c: Byte)
    requires |rest| >= 2 ==> rest[0] != 45
    ensures Contains([x] + rest, c) <==> c == x || Contains(rest, c)
    ensures ListOk([x] + rest) <==> ListOk(rest)
  {
    var l := [x] + rest;
    assert l[1..] == rest;
  }

  lemma NoMembers(c: Byte)
    ensures !Contains([], c) && ListOk([])
  {}

  /** Without a `-' the members are the characters of the list. */
  lemma {:induction false} PlainMembers(l: Bytes, c: Byte)
    requires 45 !in l
    ensures (Contains(l, c) <==> c in l) && ListOk(l)
  {
    if l == [] {
      NoMembers(c);
    } else {
      assert l == [l[0]] + l[1..];
      assert 45 !in l[1..];
      SingleMember(l[0], l[1..], c);
      PlainMembers(l[1..], c);
    }
  }

  /** Without regard to case a bracket has both cases of its letters. */
  lemma CaseOfMembers(l: Bytes, c: Byte)
    ensures InList(l, c, false) <==> Contains(l, c)
    ensures InList(l, c, true) <==> Contains(l, c) || (65 <= c <= 90 && Contains(l, c + 32))
                                                   || (97 <= c <= 122 && Contains(l, c - 32))
  {}
}
