/**
 * glob2re() (common.c): a glob becomes an extended regular expression that matches the same text.
 *
 * Both languages are given a meaning of their own: the glob by the table in front of glob2re(), the ERE by
 * sections 9.3.5 and 9.4 of POSIX.1-2017 XBD, for the part without groups, alternation and intervals.  Bytes are
 * characters and collate by value; patterns and texts hold no NUL.
 */
module Glob {
  import opened Octets

  const STAR: Byte := 42
  const QUEST: Byte := 63
  const LBRACKET: Byte := 91
  const RBRACKET: Byte := 93
  const CARET: Byte := 94
  const DOLLAR: Byte := 36
  const BACKSLASH: Byte := 92
  const DOT: Byte := 46
  const BANG: Byte := 33
  const DASH: Byte := 45

  // ---------- bracket expressions ----------

  /** The first position of `c` in s, from k on. */
  function IndexFrom(s: Bytes, c: Byte, k: nat): (r: Option<nat>)
    ensures r.Some? ==> k <= r.value < |s| && s[r.value] == c && c !in s[k..r.value]
    ensures r.None? ==> k >= |s| || c !in s[k..]
    decreases |s| - k
  {
    if k >= |s| then None
    else if s[k] == c then Some(k)
    else
      var r := IndexFrom(s, c, k + 1);
      assert r.Some? ==> s[k..r.value] == [s[k]] + s[k + 1..r.value];
      assert s[k..] == [s[k]] + s[k + 1..];
      r
  }

  /** `[:', `[.' or `[=' starts at s[i]. */
  predicate ClassAt(s: Bytes, i: int) {
    0 <= i && i + 1 < |s| && s[i] == LBRACKET && (s[i + 1] == 58 || s[i + 1] == DOT || s[i + 1] == 61)
  }

  predicate HasClass(s: Bytes) { exists i :: 0 <= i < |s| && ClassAt(s, i) }

  /** `]' closes the list unless it comes first. */
  function FirstMember(s: Bytes): nat { if s != [] && s[0] == RBRACKET then 1 else 0 }

  /**
   * The length of the member list that `s` starts with, up to its closing `]'; None if it is not closed or has
   * a class, a collating symbol or an equivalence class.
   */
  function ListLen(s: Bytes): (r: Option<nat>)
    ensures r.Some? ==> FirstMember(s) <= r.value < |s| && s[r.value] == RBRACKET
  {
    var p := IndexFrom(s, RBRACKET, FirstMember(s));
    if p.None? || HasClass(s[..p.value + 1]) then None else p
  }

  /** Ranges x-y run upwards, and no `-' directly follows one except as the last member. */
  predicate ListOk(list: Bytes)
    decreases |list|
  {
    if |list| >= 3 && list[1] == DASH then
      list[0] <= list[2] && (|list| >= 5 ==> list[3] != DASH) && ListOk(list[3..])
    else list == [] || ListOk(list[1..])
  }

  /** Does the list contain c, as a member or in a range? */
  predicate Contains(list: Bytes, c: Byte)
    decreases |list|
  {
    if |list| >= 3 && list[1] == DASH then list[0] <= c <= list[2] || Contains(list[3..], c)
    else list != [] && (list[0] == c || Contains(list[1..], c))
  }

  /** Is the character one of the list's, in either case if `icase`? */
  predicate InList(list: Bytes, c: Byte, icase: bool) {
    Contains(list, c) || (icase && (Contains(list, ToLower(c)) || Contains(list, ToUpper(c))))
  }

  // ---------- globs ----------

  datatype Tok = Many | One | Lit(c: Byte) | Set(neg: bool, list: Bytes) | Bol | Eol

  datatype Parsed<T> = Bad | Parsed(v: T, used: nat)

  /** The rows of the table: what the glob `s` starts with.  `first`: nothing came before it. */
  function TokAt(s: Bytes, first: bool): (r: Parsed<Tok>)
    requires s != []
    ensures r.Parsed? ==> 1 <= r.used <= |s|
  {
    match s[0]
    case 42 => Parsed(Many, 1)
    case 63 => Parsed(One, 1)
    case 91 =>
      var neg := |s| > 1 && (s[1] == BANG || s[1] == CARET);
      var off := if neg then 2 else 1;
      var p := ListLen(s[off..]);
      if p.None? then Bad else Parsed(Set(neg, s[off..off + p.value]), off + p.value + 1)
    case 94 => Parsed(if first then Bol else Lit(CARET), 1)
    case 36 => Parsed(if |s| == 1 then Eol else Lit(DOLLAR), 1)
    case 92 =>
      if |s| > 1 && (s[1] == BACKSLASH || s[1] == STAR || s[1] == QUEST || s[1] == LBRACKET || s[1] == RBRACKET)
      then Parsed(Lit(s[1]), 2) else Bad
    case c => Parsed(Lit(c), 1)
  }

  function Toks(s: Bytes, first: bool): Option<seq<Tok>>
    decreases |s|
  {
    if s == [] then Some([])
    else
      var t := TokAt(s, first);
      if t.Bad? then None else Prepend(t.v, Toks(s[t.used..], false))
  }

  /** The glob matches text[i..j], ignoring case if `icase`. */
  ghost predicate GlobMatch(ts: seq<Tok>, icase: bool, text: Bytes, i: nat, j: nat)
    requires i <= j <= |text|
    decreases |ts|
  {
    if ts == [] then i == j
    else match ts[0]
      case Many => exists k :: i <= k <= j && GlobMatch(ts[1..], icase, text, k, j)
      case One => i < j && GlobMatch(ts[1..], icase, text, i + 1, j)
      case Lit(c) => i < j && SameByte(text[i], c, icase) && GlobMatch(ts[1..], icase, text, i + 1, j)
      case Set(neg, list) => i < j && InList(list, text[i], icase) != neg && GlobMatch(ts[1..], icase, text, i + 1, j)
      case Bol => i == 0 && GlobMatch(ts[1..], icase, text, i, j)
      case Eol => i == |text| && GlobMatch(ts[1..], icase, text, i, j)
  }

  // ---------- extended regular expressions ----------

  datatype Atom = Dot | Chr(c: Byte) | Brk(neg: bool, list: Bytes) | StartAnchor | EndAnchor

  datatype Piece = Piece(atom: Atom, star: bool)

  /** Characters with a meaning outside brackets, which a backslash takes away. */
  predicate IsSpecial(c: Byte) { c in [94, 46, 91, 36, 40, 41, 124, 42, 43, 63, 123, 92] }

  /** The atom an ERE starts with; operators that need one in front of them, or a group, are Bad. */
  function AtomAt(s: Bytes): (r: Parsed<Atom>)
    requires s != []
    ensures r.Parsed? ==> 1 <= r.used <= |s|
  {
    match s[0]
    case 92 => if |s| > 1 && IsSpecial(s[1]) then Parsed(Chr(s[1]), 2) else Bad
    case 91 =>
      var neg := |s| > 1 && s[1] == CARET;
      var off := if neg then 2 else 1;
      var p := ListLen(s[off..]);
      if p.None? || !ListOk(s[off..off + p.value]) then Bad
      else Parsed(Brk(neg, s[off..off + p.value]), off + p.value + 1)
    case 46 => Parsed(Dot, 1)
    case 94 => Parsed(StartAnchor, 1)
    case 36 => Parsed(EndAnchor, 1)
    case c => if IsSpecial(c) then Bad else Parsed(Chr(c), 1)
  }

  predicate Starred(s: Bytes) { s != [] && s[0] == STAR }

  function Ere(s: Bytes): Option<seq<Piece>>
    decreases |s|
  {
    if s == [] then Some([])
    else
      var a := AtomAt(s);
      if a.Bad? then None
      else
        var rest := s[a.used..];
        if !Starred(rest) then Prepend(Piece(a.v, false), Ere(rest))
        else if a.v.StartAnchor? || a.v.EndAnchor? then None
        else Prepend(Piece(a.v, true), Ere(rest[1..]))
  }

  /** A character that the atom matches. */
  predicate Accepts(a: Atom, icase: bool, c: Byte) {
    match a
    case Dot => true
    case Chr(x) => SameByte(c, x, icase)
    case Brk(neg, list) => InList(list, c, icase) != neg
    case _ => false
  }

  predicate AtAnchor(a: Atom, text: Bytes, i: nat) {
    (a.StartAnchor? && i == 0) || (a.EndAnchor? && i == |text|)
  }

  /** The ERE matches text[i..j]; `icase` is REG_ICASE. */
  ghost predicate ReMatch(ps: seq<Piece>, icase: bool, text: Bytes, i: nat, j: nat)
    requires i <= j <= |text|
    decreases |ps|
  {
    if ps == [] then i == j
    else
      var a := ps[0].atom;
      if ps[0].star then
        exists k ::
          i <= k <= j && (forall x :: i <= x < k ==> Accepts(a, icase, text[x])) && ReMatch(ps[1..], icase, text, k, j)
      else
        || (i < j && Accepts(a, icase, text[i]) && ReMatch(ps[1..], icase, text, i + 1, j))
        || (AtAnchor(a, text, i) && ReMatch(ps[1..], icase, text, i, j))
  }

  // ---------- glob2re() ----------

  /** Characters that are put in brackets: . + | < > ( ) { } */
  predicate IsQuoted(c: Byte) { c in [46, 43, 124, 60, 62, 40, 41, 123, 125] }

  /** One turn of the loop of glob2re(): what it appends, and how far it advances. */
  function Emit(s: Bytes, first: bool): (r: Parsed<Bytes>)
    requires s != []
    ensures r.Parsed? ==> 1 <= r.used <= |s| && r.v != [] && |r.v| <= 3 * r.used
  {
    var c := s[0];
    if c == STAR then Parsed([DOT, STAR], 1)
    else if c == QUEST then Parsed([DOT], 1)
    else if c == RBRACKET then Parsed([RBRACKET], 1)
    else if c == LBRACKET then
      var neg := |s| > 1 && (s[1] == BANG || s[1] == CARET);
      var off := if neg then 2 else 1;
      var p := ListLen(s[off..]);
      if p.None? then Bad
      else Parsed((if neg then [LBRACKET, CARET] else [LBRACKET]) + s[off..off + p.value + 1], off + p.value + 1)
    else if c == CARET then Parsed(if first then [CARET] else [BACKSLASH, CARET], 1)
    else if c == DOLLAR then Parsed(if |s| > 1 then [LBRACKET, DOLLAR, RBRACKET] else [DOLLAR], 1)
    else if IsQuoted(c) then Parsed([LBRACKET, c, RBRACKET], 1)
    else if c == BACKSLASH then
      if |s| > 1 && s[1] == BACKSLASH then Parsed([BACKSLASH, BACKSLASH], 2)
      else if |s| > 1 && (s[1] == STAR || s[1] == QUEST || s[1] == LBRACKET || s[1] == RBRACKET) then
        Parsed([LBRACKET, s[1], RBRACKET], 2)
      else Bad
    else Parsed([c], 1)
  }

  function Glob2Re(s: Bytes, first: bool): (r: Option<Bytes>)
    ensures r.Some? ==> |r.value| <= 3 * |s|
    decreases |s|
  {
    if s == [] then Some([])
    else
      var e := Emit(s, first);
      if e.Bad? then None else Glue(e.v, Glob2Re(s[e.used..], false))
  }
}
