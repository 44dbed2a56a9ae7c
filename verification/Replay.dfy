/** What a pass sends before its verdict: every byte not sent yet, and with -lookback N the lines before them. */
module Replay {
  import opened Octets
  import opened ServerSpec
  import opened ServerRuns
  import opened ServerTalk
  import opened Lookback

  /** The text sent is `d`: nothing at all if there is none. */
  function AsOutput(d: Bytes): seq<Out> { if d == [] then [] else [Output(d)] }

  /** `d` starts right after a newline of w, of which it is a suffix. */
  predicate AfterNewline(w: Bytes, d: Bytes) { |d| < |w| && IsSuffix(d, w) && w[|w| - |d| - 1] == NL }

  /**
   * The text that -lookback n sends when the window w ends with the bytes `unseen`.  `whole`: nothing has been
   * dropped from the window.
   */
  predicate Shows(w: Bytes, unseen: Bytes, whole: bool, n: nat, d: Bytes)
    requires IsSuffix(unseen, w)
  {
    var seen := w[..|w| - |unseen|];
    if n == 0 then d == unseen
    else if NL !in w then d == w
    else if Lines(w) <= n then
      // too few lines: all of them, but for the rest of a line whose start was dropped
      if whole then d == w
      else if NL in seen then AfterNewline(w, d) && NL !in w[..|w| - |d| - 1]
      else d == unseen
    else if Lines(unseen) <= n then AfterNewline(w, d) && Lines(d) == n
    else if NL in seen then |unseen| <= |d| && AfterNewline(w, d) && NL !in seen[|w| - |d|..]
    else d == if whole then w else unseen
  }

  lemma LinesAndNewlines(b: Buf, n: nat)
    requires b.seen <= |b.raw| && b.ntotal >= |b.raw| && n > 0
    ensures Newlines(b.raw) < WantedNewlines(b, n) <==> Lines(b.raw) <= n
    ensures Newlines(b.raw[b.seen..]) < WantedNewlines(b, n) <==> Lines(b.raw[b.seen..]) <= n
  {
    NoNewlines(b.raw[b.seen..]);
    if b.seen < |b.raw| { assert b.raw[b.seen..][|b.raw| - b.seen - 1] == b.raw[|b.raw| - 1]; }
    hide Newlines;
  }

  /** The k-th newline from the end is among the first `seen` bytes iff fewer than k come after these. */
  lemma NthIsSeen(w: Bytes, k: nat, seen: nat)
    requires k >= 1 && seen <= |w| && NthNewline(w, k).Some?
    ensures NthNewline(w, k).value < seen <==> Newlines(w[seen..]) < k
  {
    hide NthNewline, Newlines;
    NthNewlineCounts(w, k);
    var p := NthNewline(w, k).value;
    if p < seen {
      assert w[p + 1..] == w[p + 1..seen] + w[seen..];
      NewlinesConcat(w[p + 1..seen], w[seen..]);
    } else {
      assert w[seen..] == w[seen..p] + ([NL] + w[p + 1..]);
      NewlinesConcat(w[seen..p], [NL] + w[p + 1..]);
      NewlinesConcat([NL], w[p + 1..]);
      OneNewline();
    }
  }

  lemma OneNewline()
    ensures Newlines([NL]) == 1
  {
    assert [NL][..0] == [] && Newlines([]) == 0;
  }

  /** The suffix from `psend` on is what -lookback promises. */
  lemma SendStartShows(b: Buf, n: nat)
    requires b.seen <= |b.raw| && b.ntotal >= |b.raw| && !LookbackFaults(b, n)
    ensures IsSuffix(b.raw[b.seen..], b.raw)
    ensures Shows(b.raw, b.raw[b.seen..], b.rawoffset == 0, n, b.raw[SendStart(b, n)..])
  {
    hide NthNewline, LookbackFaults, SendStart, CStr, FirstNewline, Newlines, Lines;
    var w, start := b.raw, SendStart(b, n);
    NoLookback(b);
    if n > 0 {
      SendStartCases(b, n);
      LinesAndNewlines(b, n);
      var k := WantedNewlines(b, n);
      NthNewlineCounts(w, k);
      assert w[..b.seen] == w[..|w| - |w[b.seen..]|];
      if NL in w && NthNewline(w, k).None? {
        TooFew(b, n);
      } else if NL in w {
        NthIsSeen(w, k, b.seen);
        if NthNewline(w, k).value < b.seen { LastLines(b, n); } else { NewLines(b, n); }
      } else {
        assert w[0..] == w;
      }
    }
  }

  lemma TooFew(b: Buf, n: nat)
    requires b.seen <= |b.raw| && n > 0 && !LookbackFaults(b, n)
    requires NL in b.raw && NthNewline(b.raw, WantedNewlines(b, n)).None?
    ensures var w, d := b.raw, b.raw[SendStart(b, n)..];
            if b.rawoffset == 0 then d == w
            else if NL in w[..b.seen] then AfterNewline(w, d) && NL !in w[..|w| - |d| - 1]
            else d == w[b.seen..]
  {
    hide NthNewline, LookbackFaults, SendStart, CStr, FirstNewline;
    SendStartCases(b, n);
    var w, f := b.raw, FirstNewline(b.raw).value;
    assert w[f] == NL && NL !in w[..f];
    if f < b.seen {
      assert w[..b.seen][f] == NL;
    } else {
      assert NL !in w[..b.seen] by { assert forall i :: 0 <= i < b.seen ==> w[..b.seen][i] == w[..f][i]; }
    }
    assert w[0..] == w;
  }

  lemma NewLines(b: Buf, n: nat)
    requires b.seen <= |b.raw| && n > 0 && NL in b.raw
    requires var pc := NthNewline(b.raw, WantedNewlines(b, n)); pc.Some? && pc.value >= b.seen
    ensures !LookbackFaults(b, n)
    ensures var w, d := b.raw, b.raw[SendStart(b, n)..];
            if NL in w[..b.seen] then AfterNewline(w, d) && NL !in w[|w| - |d|..b.seen] && |d| >= |w| - b.seen
            else d == if b.rawoffset == 0 then w else w[b.seen..]
  {
    hide NthNewline, LookbackFaults, SendStart, CStr, FirstNewline, Newlines;
    SendStartCases(b, n);
    RepeatsOneLine(b, n);
    var w := b.raw[..b.seen];
    NthNewlineCounts(w, 1);
    NoNewlines(w);
    assert b.raw[0..] == b.raw;
  }

  // ---------- what is said ----------

  /** The delivery of a pass, as the client sees it. */
  lemma DeliverySays(z: Sizes, s: State, start: nat)
    requires s.b.WF(z) && s.conn.open && start <= s.b.seen
    ensures var t := DeliverFrom(ClearLookback(s), start, true);
            && Outs(t.log) == Outs(s.log) + AsOutput(s.b.raw[start..])
            && t.conn == s.conn.(pass := s.conn.pass.(lookback := 0))
            && t.b == s.b.(seen := |s.b.raw|)
  {
    hide Outs;
    var raw := s.b.raw;
    if start < |raw| {
      OutsSnoc(s.log, Deliver(raw[start..s.b.seen], raw[s.b.seen..]));
      assert raw[start..s.b.seen] + raw[s.b.seen..] == raw[start..];
    }
  }

  lemma PatternKeepsPass(m: Matcher, z: Sizes, s: State, pat: Bytes, env: Env)
    requires s.b.WF(z) && !Overruns(z, s.b)
    ensures var r := PassPattern(m, z, s, pat, env);
            r.conn.pass == s.conn.pass && r.b.raw == s.b.raw && r.b.seen == s.b.seen
  {
    hide PassEnd, TryMatch, Overruns, Strip;
    PassEndKeeps(s.(b := Raw2Exp(z, s.b)), env);
  }

  lemma MatchKeepsPass(m: Matcher, z: Sizes, s: State, env: Env)
    requires s.b.WF(z) && PassMatch(m, z, s, env).Next?
    ensures var r := PassMatch(m, z, s, env).s;
            r.conn.pass == s.conn.pass && r.b.raw == s.b.raw && r.b.seen == s.b.seen
  {
    hide PassEnd, PassPattern, Overruns;
    if s.conn.pass.pattern.Some? {
      PatternKeepsPass(m, z, s, s.conn.pass.pattern.value, env);
    } else {
      PassEndKeeps(s, env);
      PassEndKeeps(s.(b := s.b.(expoffset := s.b.ntotal - s.b.NewCnt(), exp := [])), env);
    }
  }

  /**
   * What a client that is alive is sent by one iteration of its pass: one OUTPUT with exactly the text that its
   * lookback asks for, if there is any, and then at most the verdict.  All output has been sent then, and the
   * lookback is used up.
   */
  lemma ReplayTheorem(m: Matcher, z: Sizes, s: State, env: Env) returns (d: Bytes, end: seq<Out>)
    requires s.b.WF(z) && s.conn.open && s.conn.passing && env.outputOk && env.finalOk
    requires ServPass(m, z, s, env).Next?
    ensures var r, b, unseen := ServPass(m, z, s, env).s, s.b, s.b.raw[s.b.seen..];
            && Outs(r.log) == Outs(s.log) + (AsOutput(d) + end)
            && |end| <= 1 && (forall o :: o in end ==> IsEnd(o))
            && IsSuffix(unseen, d) && IsSuffix(d, b.raw)
            && Shows(b.raw, unseen, b.rawoffset == 0, s.conn.pass.lookback, d)
            && r.b.raw == b.raw && r.b.seen == |b.raw| && r.conn.pass.lookback == 0
  {
    hide Outs, PassMatch, SendStart, LookbackFaults, DeliverFrom, Shows;
    var start := SendStart(s.b, s.conn.pass.lookback);
    d := s.b.raw[start..];
    var t := DeliverFrom(ClearLookback(s), start, true);
    DeliverySays(z, s, start);
    end := MatchTalk(m, z, t, env);
    MatchKeepsPass(m, z, t, env);
    SendStartShows(s.b, s.conn.pass.lookback);
    SuffixOfSuffix(s.b.raw, start, s.b.seen);
    assert Outs(s.log) + AsOutput(d) + end == Outs(s.log) + (AsOutput(d) + end);
  }

  lemma SuffixOfSuffix(w: Bytes, i: nat, j: nat)
    requires i <= j <= |w|
    ensures IsSuffix(w[j..], w[i..]) && IsSuffix(w[i..], w)
  {
    assert w[i..][j - i..] == w[j..];
  }

  /** When the OUTPUT cannot be sent, nothing counts as sent, and the connection is closed. */
  lemma LostOutput(m: Matcher, z: Sizes, s: State, env: Env)
    requires s.b.WF(z) && s.conn.open && s.conn.passing && !env.outputOk && s.b.NewCnt() > 0
    requires ServPass(m, z, s, env).Next?
    ensures ServPass(m, z, s, env).s == s.(conn := s.conn.(open := false, pass := s.conn.pass.(lookback := 0)))
  {
    hide PassMatch, SendStart, LookbackFaults;
  }

  /** strchr() returns NULL iff bytes were dropped, there are too few lines, and a NUL precedes the first newline. */
  lemma FaultsInLines(b: Buf, n: nat)
    requires b.seen <= |b.raw| && b.ntotal >= |b.raw| && n > 0
    ensures LookbackFaults(b, n) <==>
            && b.rawoffset > 0 && Lines(b.raw) <= n
            && exists k :: 0 <= k < |b.raw| && b.raw[k] == NL && NL !in b.raw[..k] && NUL in b.raw[..k]
  {
    hide Newlines, Lines, LookbackFaults;
    FaultsExactly(b, n);
    LinesAndNewlines(b, n);
    FirstIs(b.raw);
  }

  lemma FirstIs(w: Bytes)
    ensures NL in w <==> exists k :: 0 <= k < |w| && w[k] == NL && NL !in w[..k]
    ensures forall k :: 0 <= k < |w| && w[k] == NL && NL !in w[..k] ==> FirstNewline(w) == Some(k)
  {
    if NL in w {
      var f := FirstNewline(w).value;
      assert w[f] == NL && NL !in w[..f];
      forall k | 0 <= k < |w| && w[k] == NL && NL !in w[..k] ensures k == f {}
    }
  }
}
