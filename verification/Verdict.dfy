/**
 * How a pass ends: which of MATCHED, EOF, EXITED, the EOF error and the time-out a client gets, from what it asked
 * for, what the pattern does to the text copied, and what became of the pty, the child and the clock.
 */
module Verdict {
  import opened Octets
  import opened ServerSpec
  import opened ServerRuns

  /** A pass in progress of a client that is alive. */
  predicate InPass(m: Matcher, z: Sizes, s: State, env: Env) {
    && s.b.WF(z) && s.conn.open && s.conn.passing && env.outputOk && env.finalOk
    && ServPass(m, z, s, env).Next?
  }

  /** The text that a pattern is tried on: what was left and everything new, without NULs. */
  function Tried(z: Sizes, s: State): Bytes
    requires s.b.WF(z)
  {
    if Overruns(z, s.b) then [] else Raw2Exp(z, s.b).exp
  }

  ghost predicate Occurs(text: Bytes, pat: Bytes, icase: bool) { exists i :: OccursAt(text, pat, icase, i) }

  /** Does the pattern of the pass match?  Nothing does at end of file when no text is left. */
  ghost predicate PatternHits(m: Matcher, p: Pass, text: Bytes, ptmOpen: bool) {
    && p.pattern.Some? && (text != [] || ptmOpen)
    && if p.flags.exact then Occurs(text, p.pattern.value, p.flags.icase)
       else !p.flags.glob && p.flags.ere && m(p.pattern.value, p.flags, text).Some?
  }

  predicate TimeIsUp(p: Pass, expired: bool) { p.timeout == 0 || (p.timeout > 0 && expired) }

  // ---------- the tail of serv_pass() ----------

  /** The verdict when nothing matched; `r` comes after `s`. */
  predicate Unmatched(s: State, r: State, env: Env) {
    var f := s.conn.pass.flags;
    && !Says(s, r, Matched)
    && (Says(s, r, EofReply) <==> !s.ptmOpen && f.eof)
    && (Says(s, r, Error(EofError)) <==> !s.ptmOpen && !f.eof && !f.exit)
    && (Says(s, r, Exited) <==> !s.ptmOpen && f.exit && !f.eof && !s.waited && s.dead)
    && (Says(s, r, Error(TimeoutError)) <==> s.ptmOpen && TimeIsUp(s.conn.pass, env.expired))
    && (r.waited <==> s.waited || Says(s, r, Exited))
    && (r.conn.passing <==>
          if s.ptmOpen then !TimeIsUp(s.conn.pass, env.expired) else f.exit && !f.eof && (s.waited || !s.dead))
    && (Says(s, r, EofReply) ==> r.b.exp == [] && r.b.expoffset == r.b.ntotal)
    && r.conn.open && r.ptmOpen == s.ptmOpen && r.expout == s.expout
  }

  lemma EndTable(s: State, env: Env)
    requires s.conn.open && s.conn.passing && env.finalOk && s.b.NewCnt() == 0
    ensures var r := PassEnd(s, env);
            Unmatched(s, r, env) && (r.log == s.log || |r.log| > |s.log|)
            && (!Says(s, r, EofReply) ==> r.b == s.b)
  {}

  // ---------- with a pattern ----------

  lemma FindsOccurrence(text: Bytes, pat: Bytes, icase: bool)
    ensures FindFrom(text, pat, icase, 0).Some? <==> Occurs(text, pat, icase)
  {
    hide OccursAt;
    if i :| OccursAt(text, pat, icase, i) { assert i >= 0 by { OccursNotBefore(text, pat, icase, i); } }
  }

  lemma OccursNotBefore(text: Bytes, pat: Bytes, icase: bool, i: int)
    requires OccursAt(text, pat, icase, i)
    ensures i >= 0
  {}

  /** serv_expect() succeeds iff the pattern hits. */
  lemma TryIffHits(m: Matcher, p: Pass, pat: Bytes, text: Bytes, ptmOpen: bool)
    requires p.pattern == Some(pat)
    ensures TryMatch(m, p, pat, text, ptmOpen).Some? <==> PatternHits(m, p, text, ptmOpen)
  {
    hide FindFrom, Occurs, SpanTexts;
    FindsOccurrence(text, pat, p.flags.icase);
  }

  /** The text of group i of a match, empty if the group took no part in it. */
  function GroupText(text: Bytes, spans: seq<Option<Span>>, i: nat): Bytes
    requires ValidSpans(spans, text) && i < NUM_OUT
  {
    if spans[i].Some? then text[spans[i].value.so..spans[i].value.eo] else []
  }

  /** The groups of a match, as they are kept for `expect_out`. */
  predicate GroupsKept(expout: seq<Option<Bytes>>, spans: seq<Option<Span>>, text: Bytes)
    requires ValidSpans(spans, text)
  {
    |expout| == NUM_OUT && forall i :: 0 <= i < NUM_OUT ==>
      expout[i] == if spans[i].None? then None else Some(text[spans[i].value.so..spans[i].value.eo])
  }

  /** What a match leaves: the text after it, and what `expect_out` answers with. */
  ghost predicate MatchLeaves(m: Matcher, p: Pass, text: Bytes, s: State, r: State)
    requires p.pattern.Some?
  {
    if p.flags.exact then
      && r.expout == [p.pattern] + NO_OUT[1..]
      && exists at :: CutAtFirst(text, p.pattern.value, p.flags.icase, at, r.b.exp)
    else
      var spans := m(p.pattern.value, p.flags, text);
      && spans.Some? && ValidSpans(spans.value, text) && r.b.exp == text[spans.value[0].value.eo..]
      && if p.flags.nosub then r.expout == s.expout else GroupsKept(r.expout, spans.value, text)
  }

  /** `at` is the first occurrence, and the text after it is left. */
  predicate CutAtFirst(text: Bytes, pat: Bytes, icase: bool, at: int, rest: Bytes) {
    && OccursAt(text, pat, icase, at) && at + |pat| <= |text| && rest == text[at + |pat|..]
    && forall j :: 0 <= j < at ==> !OccursAt(text, pat, icase, j)
  }

  lemma FoundCuts(text: Bytes, pat: Bytes, icase: bool)
    requires FindFrom(text, pat, icase, 0).Some?
    ensures var at := FindFrom(text, pat, icase, 0).value;
            at + |pat| <= |text| && CutAtFirst(text, pat, icase, at, text[at + |pat|..])
  {
    hide FindFrom, SameText;
  }

  lemma ExactLeaves(p: Pass, text: Bytes, s: State)
    requires p.flags.exact && p.pattern.Some? && s.b.exp == text
    requires FindFrom(text, p.pattern.value, p.flags.icase, 0).Some?
    ensures var h := ServerSpec.ExpectExact(p, p.pattern.value, text);
            h.Some? && forall m: Matcher :: MatchLeaves(m, p, text, s, ConsumeHit(s, h.value))
  {
    hide FindFrom, CutAtFirst;
    FoundCuts(text, p.pattern.value, p.flags.icase);
    assert NO_OUT[0 := p.pattern] == [p.pattern] + NO_OUT[1..];
  }

  lemma EreLeaves(m: Matcher, p: Pass, text: Bytes, s: State)
    requires !p.flags.exact && p.pattern.Some? && s.b.exp == text && m(p.pattern.value, p.flags, text).Some?
    ensures var h := ServerSpec.ExpectEre(m, p, p.pattern.value, text);
            h.Some? && MatchLeaves(m, p, text, s, ConsumeHit(s, h.value))
  {
    assert ValidSpans(m(p.pattern.value, p.flags, text).value, text);
  }

  lemma HitLeaves(m: Matcher, p: Pass, text: Bytes, s: State)
    requires p.pattern.Some? && s.b.exp == text && TryMatch(m, p, p.pattern.value, text, s.ptmOpen).Some?
    ensures MatchLeaves(m, p, text, s, ConsumeHit(s, TryMatch(m, p, p.pattern.value, text, s.ptmOpen).value))
  {
    hide FindFrom, MatchLeaves, ConsumeHit, ServerSpec.ExpectExact, ServerSpec.ExpectEre;
    if p.flags.exact {
      ExactFinds(p, text);
      ExactLeaves(p, text, s);
    } else {
      EreFinds(m, p, text);
      EreLeaves(m, p, text, s);
    }
  }

  lemma ExactFinds(p: Pass, text: Bytes)
    requires p.pattern.Some? && ServerSpec.ExpectExact(p, p.pattern.value, text).Some?
    ensures FindFrom(text, p.pattern.value, p.flags.icase, 0).Some?
  {}

  lemma EreFinds(m: Matcher, p: Pass, text: Bytes)
    requires p.pattern.Some? && ServerSpec.ExpectEre(m, p, p.pattern.value, text).Some?
    ensures m(p.pattern.value, p.flags, text).Some?
  {}

  /** The verdict of a pass whose text is `text`. */
  ghost predicate Decided(m: Matcher, text: Bytes, s: State, r: State, env: Env) {
    var p := s.conn.pass;
    if PatternHits(m, p, text, s.ptmOpen) then
      && Says(s, r, Matched) && !r.conn.passing && r.conn.open && r.waited == s.waited && r.ptmOpen == s.ptmOpen
      && MatchLeaves(m, p, text, s, r)
    else
      && Unmatched(s, r, env)
      && (!Says(s, r, EofReply) && p.pattern.Some? ==> r.b.exp == text && r.b.expoffset == r.b.ntotal)
      && (!Says(s, r, EofReply) && p.pattern.None? ==>
            if p.subcmd.Interact? || p.subcmd.Wait? then r.b.exp == [] && r.b.expoffset == r.b.ntotal
            else r.b.exp == s.b.exp && r.b.expoffset == s.b.expoffset)
  }

  lemma PatternTable(m: Matcher, z: Sizes, s: State, env: Env)
    requires s.b.WF(z) && s.conn.open && s.conn.passing && env.finalOk && s.b.NewCnt() == 0
    requires s.conn.pass.pattern.Some? && !Overruns(z, s.b)
    ensures var r := PassPattern(m, z, s, s.conn.pass.pattern.value, env);
            Decided(m, Raw2Exp(z, s.b).exp, s, r, env) && (r.log == s.log || |r.log| > |s.log|)
  {
    hide PassEnd, Raw2Exp, Overruns, TryMatch, ConsumeHit, MatchLeaves, PatternHits, Unmatched;
    var p, s1 := s.conn.pass, s.(b := Raw2Exp(z, s.b));
    var text := s1.b.exp;
    CopyFacts(z, s.b);
    TryIffHits(m, p, p.pattern.value, text, s.ptmOpen);
    var h := TryMatch(m, p, p.pattern.value, text, s.ptmOpen);
    if h.Some? {
      HitLeaves(m, p, text, s1);
      var c := ConsumeHit(s1, h.value);
      ConsumeFacts(s1, h.value);
      LeavesCarries(m, p, text, s1, c, s, StopPassing(SendReply(c, Matched, true)));
    } else {
      EndTable(s1, env);
      UnmatchedCarries(s1, s, PassEnd(s1, env), env);
    }
  }

  lemma CopyFacts(z: Sizes, b: Buf)
    requires b.WF(z) && !Overruns(z, b)
    ensures Raw2Exp(z, b).NewCnt() == b.NewCnt() && Raw2Exp(z, b).expoffset == Raw2Exp(z, b).ntotal
  {}

  lemma ConsumeFacts(s: State, h: Hit)
    requires h.so <= h.eo <= |s.b.exp|
    ensures var c := ConsumeHit(s, h);
            && |c.log| == |s.log| + 1 && c.log[|s.log|].Consume?
            && c.conn == s.conn && c.waited == s.waited && c.ptmOpen == s.ptmOpen
  {}

  lemma LeavesCarries(m: Matcher, p: Pass, text: Bytes, s1: State, c: State, s: State, r: State)
    requires p.pattern.Some? && MatchLeaves(m, p, text, s1, c)
    requires s1.expout == s.expout && r.b == c.b && r.expout == c.expout
    ensures MatchLeaves(m, p, text, s, r)
  {
    hide OccursAt;
  }

  lemma UnmatchedCarries(s1: State, s: State, r: State, env: Env)
    requires s1 == s.(b := s1.b) && Unmatched(s1, r, env)
    ensures Unmatched(s, r, env) && forall reply :: Says(s1, r, reply) <==> Says(s, r, reply)
  {}

  // ---------- the whole pass ----------

  lemma NoPatternTable(m: Matcher, s: State, env: Env, z: Sizes)
    requires s.b.WF(z) && s.conn.open && s.conn.passing && env.finalOk && s.b.NewCnt() == 0
    requires s.conn.pass.pattern.None?
    ensures var r := PassMatch(m, z, s, env);
            r.Next? && Decided(m, [], s, r.s, env) && (r.s.log == s.log || |r.s.log| > |s.log|)
  {
    hide PassEnd, Unmatched;
    if s.conn.pass.subcmd.Interact? || s.conn.pass.subcmd.Wait? {
      NothingNew(s);
      var s1 := s.(b := s.b.(expoffset := s.b.ntotal, exp := []));
      EndTable(s1, env);
      UnmatchedCarries(s1, s, PassEnd(s1, env), env);
    } else {
      EndTable(s, env);
    }
  }

  /** The delivery is not part of the verdict. */
  lemma DeliveryFacts(z: Sizes, s: State, start: nat)
    requires s.b.WF(z) && s.conn.open && start <= s.b.seen
    ensures var t := DeliverFrom(ClearLookback(s), start, true);
            && t == s.(b := t.b, conn := s.conn.(pass := s.conn.pass.(lookback := 0)), log := t.log)
            && t.b == s.b.(seen := t.b.seen) && t.b.NewCnt() == 0 && t.b.WF(z)
            && (t.log == s.log || exists a, b :: t.log == s.log + [Deliver(a, b)])
  {
    var t := DeliverFrom(ClearLookback(s), start, true);
    if t.log != s.log { assert t.log == s.log + [Deliver(s.b.raw[start..s.b.seen], s.b.raw[s.b.seen..])]; }
  }

  /** So what is said after it is what is said after the start of the pass. */
  lemma SaysAfterDelivery(s: State, t: State, r: State)
    requires t.log == s.log || exists a, b :: t.log == s.log + [Deliver(a, b)]
    requires r.log == t.log || |r.log| > |t.log|
    ensures forall reply :: Says(t, r, reply) <==> Says(s, r, reply)
  {}

  lemma DecidedCarries(m: Matcher, text: Bytes, t: State, s: State, r: State, env: Env)
    requires Decided(m, text, t, r, env) && forall reply :: Says(t, r, reply) <==> Says(s, r, reply)
    requires t == s.(b := t.b, conn := s.conn.(pass := s.conn.pass.(lookback := 0)), log := t.log)
    requires t.b == s.b.(seen := t.b.seen)
    ensures Decided(m, text, s, r, env)
  {
    hide OccursAt, Says;
    HitsWithoutLookback(m, s.conn.pass, text, s.ptmOpen);
  }

  lemma HitsWithoutLookback(m: Matcher, p: Pass, text: Bytes, ptmOpen: bool)
    ensures PatternHits(m, p.(lookback := 0), text, ptmOpen) == PatternHits(m, p, text, ptmOpen)
  {
    hide Occurs;
  }

  lemma SameTried(z: Sizes, s: State, t: State)
    requires s.b.WF(z) && t.b.WF(z) && t.b == s.b.(seen := t.b.seen)
    ensures Overruns(z, t.b) == Overruns(z, s.b) && Tried(z, t) == Tried(z, s)
  {
    SeenIrrelevant(z, s.b, t.b.seen);
  }

  /** The text that a pass looks at: none without a pattern. */
  function TextOf(z: Sizes, s: State): Bytes
    requires s.b.WF(z)
  {
    if s.conn.pass.pattern.Some? then Tried(z, s) else []
  }

  lemma MatchDecided(m: Matcher, z: Sizes, s: State, env: Env)
    requires s.b.WF(z) && s.conn.open && s.conn.passing && env.finalOk && s.b.NewCnt() == 0
    requires PassMatch(m, z, s, env).Next?
    ensures var r := PassMatch(m, z, s, env).s;
            Decided(m, TextOf(z, s), s, r, env) && (r.log == s.log || |r.log| > |s.log|)
  {
    hide PassPattern, Decided, PassEnd, Overruns, Raw2Exp;
    if s.conn.pass.pattern.Some? { PatternTable(m, z, s, env); } else { NoPatternTable(m, s, env, z); }
  }

  /**
   * The verdict of serv_pass().  MATCHED iff the pattern hits; otherwise at end of file EOF with -eof, EXITED with
   * -exit once the child is dead, else the EOF error; with the pty open the time-out when the time is up; and nothing
   * in all other cases, in which the pass goes on.
   */
  lemma PassDecided(m: Matcher, z: Sizes, s: State, env: Env)
    requires InPass(m, z, s, env)
    ensures Decided(m, TextOf(z, s), s, ServPass(m, z, s, env).s, env)
  {
    hide PassMatch, Decided, SendStart, LookbackFaults, DeliverFrom, Overruns, Raw2Exp, Tried;
    var t := DeliverFrom(ClearLookback(s), SendStart(s.b, s.conn.pass.lookback), true);
    DeliveryFacts(z, s, SendStart(s.b, s.conn.pass.lookback));
    MatchDecided(m, z, t, env);
    SaysAfterDelivery(s, t, PassMatch(m, z, t, env).s);
    SameTried(z, s, t);
    DecidedCarries(m, TextOf(z, s), t, s, PassMatch(m, z, t, env).s, env);
  }

  // ---------- the cases by name ----------

  /** A pass that meets the end of file with everything delivered. */
  lemma EofVerdict(m: Matcher, z: Sizes, s: State, env: Env)
    requires InPass(m, z, s, env) && !s.ptmOpen
    ensures var r, f := ServPass(m, z, s, env).s, s.conn.pass.flags;
            var matched := Says(s, r, Matched);
            && (matched <==> PatternHits(m, s.conn.pass, TextOf(z, s), false))
            && (Says(s, r, EofReply) <==> !matched && f.eof)
            && (Says(s, r, EofReply) ==> r.b.exp == [] && r.b.expoffset == r.b.ntotal)
            && (Says(s, r, Error(EofError)) <==> !matched && !f.eof && !f.exit)
            && (Says(s, r, Exited) <==> !matched && f.exit && !f.eof && !s.waited && s.dead)
            && (r.conn.passing <==> !matched && f.exit && !f.eof && (s.waited || !s.dead))
  {
    hide ServPass, PatternHits, MatchLeaves;
    PassDecided(m, z, s, env);
  }

  /** A pass while the pty is open. */
  lemma OpenVerdict(m: Matcher, z: Sizes, s: State, env: Env)
    requires InPass(m, z, s, env) && s.ptmOpen
    ensures var r := ServPass(m, z, s, env).s;
            var matched := Says(s, r, Matched);
            && (matched <==> PatternHits(m, s.conn.pass, TextOf(z, s), true))
            && (Says(s, r, Error(TimeoutError)) <==> !matched && TimeIsUp(s.conn.pass, env.expired))
            && (r.conn.passing <==> !matched && !TimeIsUp(s.conn.pass, env.expired))
  {
    hide ServPass, PatternHits, MatchLeaves;
    PassDecided(m, z, s, env);
  }

  /** `expect -re`: MATCHED iff the regular expression matches the text copied, which is cut after the match. */
  lemma ReVerdict(m: Matcher, z: Sizes, s: State, env: Env)
    requires InPass(m, z, s, env) && s.conn.pass.pattern.Some? && !Overruns(z, s.b)
    requires s.conn.pass.flags.ere && !s.conn.pass.flags.exact && !s.conn.pass.flags.glob
    requires Raw2Exp(z, s.b).exp != [] || s.ptmOpen
    ensures var r, p, e := ServPass(m, z, s, env).s, s.conn.pass, Raw2Exp(z, s.b).exp;
            var hit := m(p.pattern.value, p.flags, e);
            && (Says(s, r, Matched) <==> hit.Some?)
            && (hit.Some? ==>
                  && ValidSpans(hit.value, e) && r.b.exp == e[hit.value[0].value.eo..]
                  && if p.flags.nosub then r.expout == s.expout else GroupsKept(r.expout, hit.value, e))
            && (hit.None? && !Says(s, r, EofReply) ==> r.b.exp == e)
  {
    hide ServPass, Overruns, Raw2Exp;
    PassDecided(m, z, s, env);
  }

  // ---------- replies that are lost ----------

  /** There is something to say. */
  ghost predicate Due(m: Matcher, z: Sizes, s: State, env: Env)
    requires s.b.WF(z)
  {
    var p := s.conn.pass;
    || PatternHits(m, p, TextOf(z, s), s.ptmOpen)
    || (if s.ptmOpen then TimeIsUp(p, env.expired) else p.flags.eof || !p.flags.exit || (!s.waited && s.dead))
  }

  /** When the final reply cannot be sent, the connection is closed iff one was due, and none is recorded. */
  lemma LostVerdict(m: Matcher, z: Sizes, s: State, env: Env)
    requires s.b.WF(z) && s.conn.open && s.conn.passing && env.outputOk && !env.finalOk
    requires ServPass(m, z, s, env).Next?
    ensures var r := ServPass(m, z, s, env).s;
            (r.conn.open <==> !Due(m, z, s, env)) && (r.conn.passing <==> r.conn.open)
            && forall reply :: !Says(s, r, reply)
  {
    hide PassMatch, SendStart, LookbackFaults, DeliverFrom, Due, Overruns, Raw2Exp, Tried;
    var t := DeliverFrom(ClearLookback(s), SendStart(s.b, s.conn.pass.lookback), true);
    DeliveryFacts(z, s, SendStart(s.b, s.conn.pass.lookback));
    LostMatch(m, z, t, env);
    SaysAfterDelivery(s, t, PassMatch(m, z, t, env).s);
    SameTried(z, s, t);
    DueWithoutLookback(m, z, s, t, env);
  }

  lemma DueWithoutLookback(m: Matcher, z: Sizes, s: State, t: State, env: Env)
    requires s.b.WF(z) && t.b.WF(z) && Tried(z, t) == Tried(z, s)
    requires t == s.(b := t.b, conn := s.conn.(pass := s.conn.pass.(lookback := 0)), log := t.log)
    ensures Due(m, z, t, env) == Due(m, z, s, env)
  {
    hide PatternHits, Tried;
    HitsWithoutLookback(m, s.conn.pass, TextOf(z, s), s.ptmOpen);
  }

  lemma LostEnd(s: State, env: Env)
    requires s.conn.open && s.conn.passing && !env.finalOk && s.b.NewCnt() == 0
    ensures var r, p := PassEnd(s, env), s.conn.pass;
            && (r.conn.open <==> !(if s.ptmOpen then TimeIsUp(p, env.expired)
                                   else p.flags.eof || !p.flags.exit || (!s.waited && s.dead)))
            && (r.conn.passing <==> r.conn.open) && r.log == s.log
  {}

  lemma LostMatch(m: Matcher, z: Sizes, s: State, env: Env)
    requires s.b.WF(z) && s.conn.open && s.conn.passing && !env.finalOk && s.b.NewCnt() == 0
    requires PassMatch(m, z, s, env).Next?
    ensures var r := PassMatch(m, z, s, env).s;
            && (r.conn.open <==> !Due(m, z, s, env)) && (r.conn.passing <==> r.conn.open)
            && (r.log == s.log || |r.log| > |s.log|) && forall reply :: !Says(s, r, reply)
  {
    if s.conn.pass.pattern.Some? {
      LostPattern(m, z, s, env);
    } else {
      hide PassEnd, PatternHits;
      NothingNew(s);
      LostEnd(s, env);
      LostEnd(s.(b := s.b.(expoffset := s.b.ntotal, exp := [])), env);
      NoHitWithout(m, s.conn.pass, [], s.ptmOpen);
    }
  }

  lemma NoHitWithout(m: Matcher, p: Pass, text: Bytes, ptmOpen: bool)
    requires p.pattern.None?
    ensures !PatternHits(m, p, text, ptmOpen)
  {}

  lemma LostPattern(m: Matcher, z: Sizes, s: State, env: Env)
    requires s.b.WF(z) && s.conn.open && s.conn.passing && !env.finalOk && s.b.NewCnt() == 0
    requires s.conn.pass.pattern.Some? && !Overruns(z, s.b)
    ensures var r := PassPattern(m, z, s, s.conn.pass.pattern.value, env);
            && (r.conn.open <==> !Due(m, z, s, env)) && (r.conn.passing <==> r.conn.open)
            && (r.log == s.log || |r.log| > |s.log|) && forall reply :: !Says(s, r, reply)
  {
    hide PassEnd, Raw2Exp, Overruns, TryMatch, ConsumeHit, PatternHits;
    var p, s1 := s.conn.pass, s.(b := Raw2Exp(z, s.b));
    CopyFacts(z, s.b);
    TryIffHits(m, p, p.pattern.value, s1.b.exp, s.ptmOpen);
    var h := TryMatch(m, p, p.pattern.value, s1.b.exp, s.ptmOpen);
    if h.Some? {
      ConsumeFacts(s1, h.value);
    } else {
      LostEnd(s1, env);
    }
  }
}
