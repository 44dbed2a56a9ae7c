/** Bytes, C strings and the NUL-stripping of server.c's expect buffer. */
module Octets {

  type Byte = b: int | 0 <= b < 256
  type Bytes = seq<Byte>

  datatype Option<+T> = None | Some(value: T)

  const NUL: Byte := 0
  const NL: Byte := 10

  function Min(a: int, b: int): int { if a <= b then a else b }

  /** `a` in front of what the rest of a reader or writer produced, unless that failed. */
  function Glue<T>(a: seq<T>, r: Option<seq<T>>): Option<seq<T>> {
    if r.None? then None else Some(a + r.value)
  }

  function Prepend<T>(x: T, r: Option<seq<T>>): Option<seq<T>> { Glue([x], r) }

  lemma GlueNone<T>(r: Option<seq<T>>)
    ensures Glue([], r) == r
  {
    if r.Some? { assert [] + r.value == r.value; }
  }

  lemma GlueGlue<T>(a: seq<T>, b: seq<T>, r: Option<seq<T>>)
    ensures Glue(a, Glue(b, r)) == Glue(a + b, r)
  {
    if r.Some? { assert a + (b + r.value) == a + b + r.value; }
  }

  /** The bytes of `s` without its NULs, in order. */
  function Strip(s: Bytes): (r: Bytes)
    ensures |r| <= |s|
    ensures NUL !in r
  {
    if s == [] then []
    else
      var last := s[|s| - 1];
      Strip(s[..|s| - 1]) + if last == NUL then [] else [last]
  }

  lemma {:induction false} StripConcat(a: Bytes, b: Bytes)
    ensures Strip(a + b) == Strip(a) + Strip(b)
  {
    if b == [] {
      assert a + b == a;
    } else {
      var b', last := b[..|b| - 1], b[|b| - 1];
      var tail: Bytes := if last == NUL then [] else [last];
      StripConcat(a, b');
      assert (a + b)[..|a + b| - 1] == a + b' && (a + b)[|a + b| - 1] == last;
      assert Strip(a) + Strip(b') + tail == Strip(a) + (Strip(b') + tail);
    }
  }

  /** A NUL is left out, and nothing else is. */
  lemma StripOne(b: Byte)
    ensures Strip([b]) == if b == 0 then [] else [b]
  {
    assert [b][..0] == [] && Strip([]) == [];
  }

  lemma {:induction false} StripNoop(s: Bytes)
    requires NUL !in s
    ensures Strip(s) == s
  {
    if s != [] {
      StripNoop(s[..|s| - 1]);
      assert s == s[..|s| - 1] + [s[|s| - 1]];
    }
  }

  /** Stripping a longer prefix only appends. */
  lemma StripPrefix(s: Bytes, i: nat, j: nat)
    requires i <= j <= |s|
    ensures Strip(s[..i]) <= Strip(s[..j])
    ensures Strip(s[..j]) == Strip(s[..i]) + Strip(s[i..j])
  {
    StripConcat(s[..i], s[i..j]);
    assert s[..i] + s[i..j] == s[..j];
  }

  /** `t` is what remains of `s` after cutting off some front part. */
  predicate IsSuffix(t: Bytes, s: Bytes) {
    |t| <= |s| && s[|s| - |t|..] == t
  }

  lemma SuffixAppend(t: Bytes, s: Bytes, x: Bytes)
    requires IsSuffix(t, s)
    ensures IsSuffix(t + x, s + x)
  {
    assert (s + x)[|s| - |t|..] == s[|s| - |t|..] + x;
  }

  lemma SuffixCut(t: Bytes, s: Bytes, k: nat)
    requires IsSuffix(t, s) && k <= |t|
    ensures IsSuffix(t[k..], s)
  {
    assert s[|s| - |t|..][k..] == s[|s| - |t| + k..];
  }

  /** What a C string function sees of `s`: everything before the first NUL. */
  function CStr(s: Bytes): (r: Bytes)
    ensures r <= s && NUL !in r
    ensures |r| < |s| ==> s[|r|] == NUL
  {
    if s == [] || s[0] == NUL then [] else [s[0]] + CStr(s[1..])
  }

  /** tolower() of the C locale. */
  function ToLower(b: Byte): Byte { if 65 <= b <= 90 then b + 32 else b }

  /** toupper() of the C locale. */
  function ToUpper(b: Byte): Byte { if 97 <= b <= 122 then b - 32 else b }

  predicate SameByte(a: Byte, b: Byte, icase: bool) { a == b || (icase && ToLower(a) == ToLower(b)) }

  /** Without regard to case, two bytes are the same iff they are equal or one letter in its two cases. */
  lemma CaseFold(a: Byte, b: Byte)
    ensures SameByte(a, b, false) <==> a == b
    ensures SameByte(a, b, true) <==> a == b || (65 <= a <= 90 && b == a + 32) || (65 <= b <= 90 && a == b + 32)
  {}

  /** Equality of two texts, ignoring ASCII case when `icase`. */
  predicate SameText(a: Bytes, b: Bytes, icase: bool) {
    |a| == |b| && forall i :: 0 <= i < |a| ==> SameByte(a[i], b[i], icase)
  }

  predicate OccursAt(text: Bytes, pat: Bytes, icase: bool, i: int) {
    0 <= i && i + |pat| <= |text| && SameText(text[i..i + |pat|], pat, icase)
  }

  /** strstr() and strcasestr(): the first occurrence at or after `from`. */
  function FindFrom(text: Bytes, pat: Bytes, icase: bool, from: nat): (r: Option<nat>)
    ensures r.Some? ==> from <= r.value && OccursAt(text, pat, icase, r.value)
    ensures r.Some? ==> forall i :: from <= i < r.value ==> !OccursAt(text, pat, icase, i)
    ensures r.None? ==> forall i :: from <= i ==> !OccursAt(text, pat, icase, i)
    decreases |text| - from
  {
    if from + |pat| > |text| then None
    else if OccursAt(text, pat, icase, from) then Some(from)
    else FindFrom(text, pat, icase, from + 1)
  }

  // ---------- arrays ----------

  /** a[..n] is a C string: its only NUL is the terminator at a[n]. */
  ghost predicate IsCString(a: array<Byte>, n: nat)
    reads a
  {
    n < a.Length && a[n] == NUL && forall k :: 0 <= k < n ==> a[k] != NUL
  }

  /** A slice of a slice of an array is a slice of the array. */
  lemma Sub(a: array<Byte>, at: nat, hi: nat, i: nat, j: nat)
    requires at <= hi <= a.Length && i <= j <= hi - at
    ensures a[at..hi][i..j] == a[at + i..at + j]
    ensures a[at..hi][..j] == a[at..at + j] && a[at..hi][j..] == a[at + j..hi]
  {
    assert forall k :: 0 <= k < j - i ==> a[at..hi][i..j][k] == a[at + i + k];
  }
}
