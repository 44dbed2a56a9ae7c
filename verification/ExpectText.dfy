/**
 * What `expect -exact` and `expect_out` mean, in terms of the whole output of the child rather than of the
 * expect buffer.
 */
module ExpectText {
  import opened Octets
  import opened ServerSpec
  import opened ServerRuns
  import opened Verdict

  /** An occurrence in the buffer is one in the text it is the end of. */
  lemma OccursInSuffix(exp: Bytes, T: Bytes, pat: Bytes, icase: bool, k: nat)
    requires IsSuffix(exp, T)
    ensures OccursAt(exp, pat, icase, k) <==> OccursAt(T, pat, icase, |T| - |exp| + k)
  {
    var c := |T| - |exp|;
    if k + |pat| <= |exp| { assert exp[k..k + |pat|] == T[c + k..c + k + |pat|]; }
  }

  /** `i` is the first occurrence of `pat` in T at or after `from`. */
  ghost predicate FirstOccurrence(T: Bytes, pat: Bytes, icase: bool, from: int, i: int) {
    from <= i && OccursAt(T, pat, icase, i) && forall j :: from <= j < i ==> !OccursAt(T, pat, icase, j)
  }

  lemma FindInSuffix(exp: Bytes, T: Bytes, pat: Bytes, icase: bool)
    requires IsSuffix(exp, T)
    ensures var r, c := FindFrom(exp, pat, icase, 0), |T| - |exp|;
            && (r.Some? ==> FirstOccurrence(T, pat, icase, c, c + r.value))
            && (r.None? ==> forall i :: c <= i ==> !OccursAt(T, pat, icase, i))
  {
    hide FindFrom, IsSuffix;
    var r, c := FindFrom(exp, pat, icase, 0), |T| - |exp|;
    SuffixBound(exp, T);
    if r.Some? { OccursInSuffix(exp, T, pat, icase, r.value); }
    forall i | c <= i && (r.Some? ==> i < c + r.value) ensures !OccursAt(T, pat, icase, i) {
      OccursInSuffix(exp, T, pat, icase, i - c);
      assert !OccursAt(exp, pat, icase, i - c);
    }
  }

  lemma SuffixBound(t: Bytes, s: Bytes)
    requires IsSuffix(t, s)
    ensures |t| <= |s|
  {}

  /** A pass replies MATCHED iff serv_expect() succeeds, and then forgets everything up to the end of the match. */
  lemma MatchedIff(m: Matcher, z: Sizes, s: State, pat: Bytes, env: Env)
    requires s.b.WF(z) && !Overruns(z, s.b) && env.finalOk
    ensures var r, b := PassPattern(m, z, s, pat, env), Raw2Exp(z, s.b);
            var h := TryMatch(m, s.conn.pass, pat, b.exp, s.ptmOpen);
            (Says(s, r, Matched) <==> h.Some?) && (h.Some? ==> r.b == b.(exp := b.exp[h.value.eo..]))
  {
    hide TryMatch, Raw2Exp, Overruns;
  }

  /** Where the rest of the buffer starts in the text it is the end of. */
  ghost predicate RestAfterFirst(T: Bytes, pat: Bytes, icase: bool, c: int, rest: Bytes) {
    exists i :: FirstOccurrence(T, pat, icase, c, i) && i + |pat| <= |T| && rest == T[i + |pat|..]
  }

  ghost predicate OccursAfter(T: Bytes, pat: Bytes, icase: bool, c: int) {
    exists i :: c <= i && OccursAt(T, pat, icase, i)
  }

  lemma FindMeans(exp: Bytes, T: Bytes, pat: Bytes, icase: bool)
    requires IsSuffix(exp, T)
    ensures var r, c := FindFrom(exp, pat, icase, 0), |T| - |exp|;
            && (r.Some? <==> OccursAfter(T, pat, icase, c))
            && (r.Some? ==> RestAfterFirst(T, pat, icase, c, exp[r.value + |pat|..]))
  {
    hide FindFrom, OccursAt;
    FindInSuffix(exp, T, pat, icase);
    var r := FindFrom(exp, pat, icase, 0);
    if r.Some? {
      var i := |T| - |exp| + r.value;
      OccursBound(exp, pat, icase, r.value);
      TailOfSuffix(exp, T, r.value + |pat|);
      assert FirstOccurrence(T, pat, icase, |T| - |exp|, i);
    }
  }

  lemma ExactTry(m: Matcher, pass: Pass, pat: Bytes, text: Bytes, ptmOpen: bool)
    requires pass.flags.exact && (text != [] || ptmOpen)
    ensures var h, r := TryMatch(m, pass, pat, text, ptmOpen), FindFrom(text, pat, pass.flags.icase, 0);
            (h.Some? <==> r.Some?) && (r.Some? ==> h.value.eo == r.value + |pat|)
  {}

  /**
   * `expect -exact` succeeds iff its pattern occurs in the output, NULs removed, after the cursor: after what was
   * consumed or has left the buffers.  It consumes up to the end of the first such occurrence.
   */
  lemma ExactTheorem(m: Matcher, z: Sizes, s: State, pat: Bytes, env: Env)
    requires z.Valid() && Inv(z, s) && !Overruns(z, s.b) && env.finalOk && s.conn.pass.flags.exact
    requires Raw2Exp(z, s.b).exp != [] || s.ptmOpen
    ensures var r, T := PassPattern(m, z, s, pat, env), Strip(Stream(s.log));
            var c, icase := |T| - |Raw2Exp(z, s.b).exp|, s.conn.pass.flags.icase;
            && (Says(s, r, Matched) <==> OccursAfter(T, pat, icase, c))
            && (Says(s, r, Matched) ==> RestAfterFirst(T, pat, icase, c, r.b.exp))
  {
    CopiedIsSuffix(z, s);
    ExactMeans(m, z, s, pat, env, Strip(Stream(s.log)));
  }

  lemma ExactMeans(m: Matcher, z: Sizes, s: State, pat: Bytes, env: Env, T: Bytes)
    requires s.b.WF(z) && !Overruns(z, s.b) && env.finalOk && s.conn.pass.flags.exact
    requires IsSuffix(Raw2Exp(z, s.b).exp, T) && (Raw2Exp(z, s.b).exp != [] || s.ptmOpen)
    ensures var r, c := PassPattern(m, z, s, pat, env), |T| - |Raw2Exp(z, s.b).exp|;
            && (Says(s, r, Matched) <==> OccursAfter(T, pat, s.conn.pass.flags.icase, c))
            && (Says(s, r, Matched) ==> RestAfterFirst(T, pat, s.conn.pass.flags.icase, c, r.b.exp))
  {
    hide PassPattern, Raw2Exp, Overruns, FindFrom, TryMatch, IsSuffix, OccursAfter, RestAfterFirst;
    var exp := Raw2Exp(z, s.b).exp;
    MatchedIff(m, z, s, pat, env);
    ExactTry(m, s.conn.pass, pat, exp, s.ptmOpen);
    FindMeans(exp, T, pat, s.conn.pass.flags.icase);
  }

  lemma OccursBound(s: Bytes, pat: Bytes, icase: bool, i: nat)
    requires OccursAt(s, pat, icase, i)
    ensures i + |pat| <= |s|
  {}

  lemma TailOfSuffix(t: Bytes, s: Bytes, k: nat)
    requires IsSuffix(t, s) && k <= |t|
    ensures t[k..] == s[|s| - |t| + k..]
  {}

  /** If the pattern matches this text, what is kept for `expect_out 0` is the text that matched. */
  predicate OutIsMatch(m: Matcher, pass: Pass, pat: Bytes, text: Bytes, ptmOpen: bool) {
    var h := TryMatch(m, pass, pat, text, ptmOpen);
    h.Some? && h.value.out.Some? ==>
      |h.value.out.value| == NUM_OUT && h.value.out.value[0] == Some(text[h.value.so..h.value.eo])
  }

  predicate HasLetter(pat: Bytes) { exists i :: 0 <= i < |pat| && ToLower(pat[i]) != ToUpper(pat[i]) }

  function SwapCase(c: Byte): Byte { if c == ToLower(c) then ToUpper(c) else ToLower(c) }

  lemma NoLetterSame(a: Bytes, pat: Bytes, icase: bool)
    requires SameText(a, pat, icase) && (icase ==> !HasLetter(pat))
    ensures a == pat
  {
    forall i | 0 <= i < |a| ensures a[i] == pat[i] { assert SameByte(a[i], pat[i], icase); }
  }

  lemma OutWithoutLetters(m: Matcher, pass: Pass, pat: Bytes, text: Bytes, ptmOpen: bool)
    requires !(pass.flags.exact && pass.flags.icase && HasLetter(pat))
    ensures OutIsMatch(m, pass, pat, text, ptmOpen)
  {
    hide HasLetter, SameText, FindFrom;
    var h := TryMatch(m, pass, pat, text, ptmOpen);
    if h.Some? && pass.flags.exact {
      NoLetterSame(text[h.value.so..h.value.eo], pat, pass.flags.icase);
    }
  }

  /** A pattern with a letter, that letter in the other case: matched by -exact -nocase, and answered wrongly. */
  lemma OutWithLetter(m: Matcher, pass: Pass, pat: Bytes) returns (text: Bytes)
    requires pass.flags.exact && pass.flags.icase && HasLetter(pat)
    ensures !OutIsMatch(m, pass, pat, text, true)
  {
    var i :| 0 <= i < |pat| && ToLower(pat[i]) != ToUpper(pat[i]);
    text := pat[i := SwapCase(pat[i])];
    assert text[0..|pat|] == text && text[i] != pat[i];
    assert OccursAt(text, pat, true, 0);
    assert FindFrom(text, pat, true, 0) == Some(0);
  }

  /**
   * expect_out 0 is always the text that matched, unless -exact and -nocase are given with a pattern that has a
   * letter: it is the pattern then, right for a text iff the first match there is also one with case.
   */
  lemma ExpectOutTheorem(m: Matcher, pass: Pass, pat: Bytes)
    ensures (forall text, open :: OutIsMatch(m, pass, pat, text, open)) <==>
            !(pass.flags.exact && pass.flags.icase && HasLetter(pat))
    ensures pass.flags.exact ==> forall text ::
              OutIsMatch(m, pass, pat, text, true) <==>
              FindFrom(text, pat, pass.flags.icase, 0) in {None, FindFrom(text, pat, false, 0)}
  {
    hide OutIsMatch, HasLetter, FindFrom;
    if pass.flags.exact && pass.flags.icase && HasLetter(pat) {
      var text := OutWithLetter(m, pass, pat);
    } else {
      forall text, open ensures OutIsMatch(m, pass, pat, text, open) {
        OutWithoutLetters(m, pass, pat, text, open);
      }
    }
    if pass.flags.exact {
      forall text
        ensures OutIsMatch(m, pass, pat, text, true) <==>
                FindFrom(text, pat, pass.flags.icase, 0) in {None, FindFrom(text, pat, false, 0)}
      {
        OutAtText(m, pass, pat, text);
      }
    }
  }

  lemma OutAtText(m: Matcher, pass: Pass, pat: Bytes, text: Bytes)
    requires pass.flags.exact
    ensures OutIsMatch(m, pass, pat, text, true) <==>
            FindFrom(text, pat, pass.flags.icase, 0) in {None, FindFrom(text, pat, false, 0)}
  {
    hide FindFrom, SameText;
    var r, e := FindFrom(text, pat, pass.flags.icase, 0), FindFrom(text, pat, false, 0);
    if r.Some? {
      SameIsEqual(text[r.value..r.value + |pat|], pat);
      if e.Some? {
        SameIsEqual(text[e.value..e.value + |pat|], pat);
        EqualIsSame(pat, pass.flags.icase);
        assert OccursAt(text, pat, pass.flags.icase, e.value);
      }
      if text[r.value..r.value + |pat|] == pat { assert OccursAt(text, pat, false, r.value); }
    }
  }

  lemma SameIsEqual(a: Bytes, b: Bytes)
    ensures SameText(a, b, false) <==> a == b
  {}

  lemma EqualIsSame(a: Bytes, icase: bool)
    ensures SameText(a, a, icase)
  {}

  /** `expect -nocase -exact A` on the output "a": expect_out says "A". */
  lemma NocaseExample(m: Matcher)
    ensures var pass := Pass(Expect, NO_FLAGS.(exact := true, icase := true), Some([65]), 0, 0);
            TryMatch(m, pass, [65], [97], true) == Some(Hit(0, 1, Some(NO_OUT[0 := Some([65])])))
  {}

  lemma GroupKept(text: Bytes, spans: seq<Option<Span>>, i: nat)
    requires ValidSpans(spans, text) && i < NUM_OUT && NUL !in text
    ensures NUL !in GroupText(text, spans, i) && CStr(GroupText(text, spans, i)) == GroupText(text, spans, i)
  {
    var g := GroupText(text, spans, i);
    assert NUL !in g;
  }

  lemma TriedHasNoNul(z: Sizes, s: State)
    requires Inv(z, s)
    ensures s.b.WF(z) && NUL !in Tried(z, s)
  {
    hide Strip, Raw2Exp, Overruns, CutsOk, Cuts, Stream, Accounted, LogInv, Cursor;
    if !Overruns(z, s.b) {
      CopyInv(z, s);
      ExpHasNoNul(z, s.(b := Raw2Exp(z, s.b)));
    }
  }

  lemma ExpoutAnswers(expout: seq<Option<Bytes>>, spans: seq<Option<Span>>, text: Bytes, i: int)
    requires ValidSpans(spans, text) && GroupsKept(expout, spans, text) && NUL !in text
    ensures ExpoutAnswer(expout, i) ==
            if 0 <= i < NUM_OUT then ExpoutText(GroupText(text, spans, i)) else Error(UsageError)
  {
    hide CStr, GroupText;
    if 0 <= i < NUM_OUT {
      GroupKept(text, spans, i);
      GroupIs(text, spans, i);
    }
  }

  lemma GroupIs(text: Bytes, spans: seq<Option<Span>>, i: nat)
    requires ValidSpans(spans, text) && i < NUM_OUT
    ensures GroupText(text, spans, i) ==
            if spans[i].Some? then text[spans[i].value.so..spans[i].value.eo] else []
  {}

  /**
   * When `expect -re` was answered with MATCHED, expect_out i answers with group i of the match on the text that was
   * copied, and only 0 to 9 are groups.
   */
  lemma GroupsTheorem(m: Matcher, z: Sizes, s: State, env: Env, i: int)
    requires Inv(z, s) && InPass(m, z, s, env) && Says(s, ServPass(m, z, s, env).s, Matched)
    requires !s.conn.pass.flags.exact && !s.conn.pass.flags.nosub
    ensures var r, p, e := ServPass(m, z, s, env).s, s.conn.pass, Tried(z, s);
            && p.pattern.Some? && m(p.pattern.value, p.flags, e).Some?
            && var spans := m(p.pattern.value, p.flags, e).value;
               && ValidSpans(spans, e) && r.b.WF(z)
               && ProcessMsg(z, r, Expout(i), true) ==
                  Next(Log(r, Replied(if 0 <= i < NUM_OUT then ExpoutText(GroupText(e, spans, i))
                                      else Error(UsageError))))
  {
    hide Inv, ServPass, Tried, ExpoutAnswer, GroupText, GroupsKept, OccursAt;
    TriedHasNoNul(z, s);
    PassDecided(m, z, s, env);
    var p, e := s.conn.pass, Tried(z, s);
    ExpoutAnswers(ServPass(m, z, s, env).s.expout, m(p.pattern.value, p.flags, e).value, e, i);
  }

  // ---------- when a pass ends ----------

  predicate TimesOut(s: State, r: State) { Says(s, r, Error(TimeoutError)) }

  /** The pass may go on: its time is not up, or it waits for a child that has not been reaped. */
  predicate MayWait(s: State, env: Env) {
    var p := s.conn.pass;
    if s.ptmOpen then p.timeout < 0 || (p.timeout > 0 && !env.expired)
    else p.flags.exit && !p.flags.eof && (s.waited || !s.dead)
  }

  lemma EndVerdict(s: State, env: Env)
    requires s.conn.passing && env.finalOk && s.b.NewCnt() == 0
    ensures var r := PassEnd(s, env);
            && (r.conn.passing <==> MayWait(s, env)) && (TimesOut(s, r) <==> s.ptmOpen && !MayWait(s, env))
            && (r.log == s.log || |r.log| > |s.log|)
  {}

  lemma MatchVerdict(m: Matcher, z: Sizes, s: State, env: Env)
    requires s.b.WF(z) && s.conn.passing && env.finalOk && s.b.NewCnt() == 0 && PassMatch(m, z, s, env).Next?
    ensures var r := PassMatch(m, z, s, env).s;
            && (r.conn.passing ==> MayWait(s, env)) && (TimesOut(s, r) ==> s.ptmOpen && !MayWait(s, env))
            && (r.conn.passing || Says(s, r, Matched) || !MayWait(s, env))
            && (r.log == s.log || |r.log| > |s.log|)
  {
    hide PassEnd, TryMatch, Overruns, Raw2Exp, MayWait;
    if s.conn.pass.pattern.Some? {
      var s1 := s.(b := Raw2Exp(z, s.b));
      SameNewCnt(z, s.b);
      EndVerdict(s1, env);
      WaitIgnores(s, s1, env);
    } else {
      var s1 := s.(b := s.b.(expoffset := s.b.ntotal - s.b.NewCnt(), exp := []));
      EndVerdict(s, env);
      EndVerdict(s1, env);
      WaitIgnores(s, s1, env);
    }
  }

  lemma SameNewCnt(z: Sizes, b: Buf)
    requires b.WF(z) && !Overruns(z, b)
    ensures Raw2Exp(z, b).NewCnt() == b.NewCnt()
  {}

  lemma WaitIgnores(s: State, t: State, env: Env)
    requires t == s.(b := t.b)
    ensures MayWait(t, env) == MayWait(s, env)
  {}

  /**
   * A pass whose messages go through ends in this iteration unless it may wait: with `-timeout 0` an expect always
   * has its verdict at once, with a negative time-out it never times out.  It times out only with the pty open.
   */
  lemma VerdictTheorem(m: Matcher, z: Sizes, s: State, env: Env)
    requires s.b.WF(z) && s.conn.open && s.conn.passing && env.outputOk && env.finalOk
    requires ServPass(m, z, s, env).Next?
    ensures var r := ServPass(m, z, s, env).s;
            && (r.conn.passing ==> MayWait(s, env))
            && (TimesOut(s, r) ==> s.ptmOpen && !MayWait(s, env))
            && (!r.conn.passing ==> Says(s, r, Matched) || !MayWait(s, env))
  {
    hide PassMatch, SendStart, LookbackFaults, MayWait;
    var s1 := DeliverFrom(ClearLookback(s), SendStart(s.b, s.conn.pass.lookback), true);
    MatchVerdict(m, z, s1, env);
    WaitSame(s, s1, env);
  }

  lemma WaitSame(s: State, t: State, env: Env)
    requires t.ptmOpen == s.ptmOpen && t.waited == s.waited && t.dead == s.dead
    requires t.conn.pass == s.conn.pass.(lookback := 0)
    ensures MayWait(t, env) == MayWait(s, env)
  {}
}
