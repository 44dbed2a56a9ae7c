/** glob2re() in its own form: an input position that advances and an output buffer that grows. */
module GlobImpl {
  import opened Octets
  import opened Glob

  method Append(out: array<Byte>, len: nat, b: Bytes) returns (len': nat)
    requires len + |b| <= out.Length
    modifies out
    ensures len' == len + |b| && out[..len'] == old(out[..len]) + b
  {
    forall i | 0 <= i < |b| { out[len + i] := b[i]; }
    return len + |b|;
  }

  /** strchr(in + k, ']') for the string at in[j]; -1 for NULL. */
  method FindClose(a: array<Byte>, j: nat, k: nat, n: nat) returns (p: int)
    requires IsCString(a, n) && j + k <= n
    ensures var r := IndexFrom(a[j..n], RBRACKET, k); if r.Some? then p == r.value else p == -1
  {
    p := k;
    while a[j + p] != NUL && a[j + p] != RBRACKET
      invariant k <= p && j + p <= n && IndexFrom(a[j..n], RBRACKET, k) == IndexFrom(a[j..n], RBRACKET, p)
      decreases n - j - p
    {
      p := p + 1;
    }
    if a[j + p] == NUL { p := -1; }
  }

  /** The length of the member list at in[j], checked for `[:', `[.' and `[='; -1 for an error. */
  method MemberList(a: array<Byte>, j: nat, n: nat) returns (p: int)
    requires IsCString(a, n) && j <= n
    ensures var r := ListLen(a[j..n]); if r.Some? then p == r.value else p == -1
  {
    ghost var s := a[j..n];
    var k := if a[j] == RBRACKET then 1 else 0;
    assert k == FirstMember(s);
    p := FindClose(a, j, k, n);
    if p < 0 { return; }
    ghost var t := s[..p + 1];
    for x := k to p
      invariant forall y :: 0 <= y < x ==> !ClassAt(t, y)
    {
      assert x + 1 <= p && t[x] == a[j + x] && t[x + 1] == a[j + x + 1];
      if a[j + x] == LBRACKET && (a[j + x + 1] == 58 || a[j + x + 1] == DOT || a[j + x + 1] == 61) {
        assert ClassAt(t, x);
        return -1;
      }
    }
    assert !HasClass(t);
  }

  /** The `[' branch. */
  method Bracket(a: array<Byte>, i: nat, n: nat) returns (ok: bool, chunk: Bytes, used: nat)
    requires IsCString(a, n) && i < n && a[i] == LBRACKET
    ensures var e := Emit(a[i..n], i == 0);
            if ok then e == Parsed(chunk, used) else e.Bad?
  {
    hide ListLen;
    ghost var s := a[i..n];
    chunk, used := [LBRACKET], 1;
    var c := a[i + 1];
    if c == NUL { assert s[1..] == []; NoList(); return false, chunk, used; }
    if c == BANG || c == CARET {
      chunk, used := chunk + [CARET], 2;
    }
    var p := MemberList(a, i + used, n);
    assert s[used..] == a[i + used..n];
    if p < 0 { return false, chunk, used; }
    Sub(a, i, n, used, used + p + 1);
    assert [LBRACKET] + [CARET] == [LBRACKET, CARET];
    return true, chunk + a[i + used..i + used + p + 1], used + p + 1;
  }

  lemma NoList()
    ensures ListLen([]).None?
  {}

  /** One turn of the loop: what to append and how far to advance. */
  method Turn(a: array<Byte>, i: nat, n: nat) returns (ok: bool, chunk: Bytes, used: nat)
    requires IsCString(a, n) && i < n
    ensures var e := Emit(a[i..n], i == 0);
            if ok then e == Parsed(chunk, used) else e.Bad?
  {
    hide ListLen, HasClass;
    var c, d := a[i], a[i + 1];
    ghost var s := a[i..n];
    assert s[0] == c && (d != NUL <==> |s| > 1) && (|s| > 1 ==> s[1] == d);
    ok, used := true, 1;
    if c == STAR {
      chunk := [DOT, STAR];
    } else if c == QUEST {
      chunk := [DOT];
    } else if c == RBRACKET {
      chunk := [RBRACKET];
    } else if c == LBRACKET {
      ok, chunk, used := Bracket(a, i, n);
    } else if c == CARET {
      chunk := if i != 0 then [BACKSLASH, CARET] else [CARET];
    } else if c == DOLLAR {
      chunk := if d != NUL then [LBRACKET, DOLLAR, RBRACKET] else [DOLLAR];
    } else if IsQuoted(c) {
      chunk := [LBRACKET, c, RBRACKET];
    } else if c == BACKSLASH {
      used := 2;
      if d == BACKSLASH {
        chunk := [BACKSLASH, BACKSLASH];
      } else if d == STAR || d == QUEST || d == LBRACKET || d == RBRACKET {
        chunk := [LBRACKET, d, RBRACKET];
      } else {
        ok, chunk := false, [];
      }
    } else {
      chunk := [c];
    }
  }

  /** glob2re() on a NUL-terminated glob of length n, into a buffer of 3 * strlen(in) + 1 bytes. */
  method GlobToRe(a: array<Byte>, n: nat) returns (ok: bool, out: array<Byte>, len: nat)
    requires IsCString(a, n)
    ensures fresh(out) && len < out.Length == 3 * n + 1
    ensures Glob2Re(a[..n], true) == if ok then Some(out[..len]) else None
    ensures ok ==> out[len] == NUL
  {
    hide Emit;
    out := new Byte[3 * n + 1];
    len := 0;
    var i := 0;
    ghost var all := Glob2Re(a[..n], true);
    assert a[0..n] == a[..n];
    GlueNone(all);
    while a[i] != NUL
      invariant 0 <= i <= n && len <= 3 * i && IsCString(a, n)
      invariant all == Glue(out[..len], Glob2Re(a[i..n], i == 0))
      decreases n - i
    {
      var good, chunk, used := Turn(a, i, n);
      if !good { return false, out, len; }
      GlueGlue(out[..len], chunk, Glob2Re(a[i + used..n], false));
      assert a[i..n][used..] == a[i + used..n];
      len := Append(out, len, chunk);
      i := i + used;
    }
    assert a[i..n] == [];
    assert out[..len] + [] == out[..len];
    out[len] := NUL;
    return true, out, len;
  }
}
