/** `expect/interact/wait -lookback N`: which suffix of the window serv_pass() sends. */
module Lookback {
  import opened Octets
  import opened ServerSpec
  import opened ServerRuns
  import opened Overrun

  function Newlines(s: Bytes): nat {
    if s == [] then 0 else Newlines(s[..|s| - 1]) + if s[|s| - 1] == NL then 1 else 0
  }

  /** Lines as tail(1) counts them: a last line need not end with a newline. */
  function Lines(s: Bytes): nat {
    Newlines(s) + if s == [] || s[|s| - 1] == NL then 0 else 1
  }

  lemma {:induction false} NewlinesConcat(a: Bytes, b: Bytes)
    ensures Newlines(a + b) == Newlines(a) + Newlines(b)
  {
    if b == [] {
      assert a + b == a;
    } else {
      NewlinesConcat(a, b[..|b| - 1]);
      assert (a + b)[..|a + b| - 1] == a + b[..|b| - 1];
    }
  }

  /** The k-th newline from the end exists iff there are k, and k - 1 come after it. */
  lemma {:induction false} NthNewlineCounts(s: Bytes, k: nat)
    requires k >= 1
    ensures NthNewline(s, k).Some? <==> Newlines(s) >= k
    ensures var r := NthNewline(s, k); r.Some? ==> Newlines(s[r.value + 1..]) == k - 1
  {
    if s != [] {
      var t, last := s[..|s| - 1], s[|s| - 1];
      if last == NL {
        if k > 1 {
          NthNewlineCounts(t, k - 1);
          var r := NthNewline(t, k - 1);
          if r.Some? {
            assert s[r.value + 1..] == t[r.value + 1..] + [NL];
            NewlinesConcat(t[r.value + 1..], [NL]);
          }
        }
      } else {
        NthNewlineCounts(t, k);
        var r := NthNewline(t, k);
        if r.Some? {
          assert s[r.value + 1..] == t[r.value + 1..] + [last];
          NewlinesConcat(t[r.value + 1..], [last]);
        }
      }
    }
  }

  lemma {:induction false} NoNewlines(s: Bytes)
    ensures NL in s <==> Newlines(s) > 0
  {
    if s != [] {
      NoNewlines(s[..|s| - 1]);
      assert s == s[..|s| - 1] + [s[|s| - 1]];
    }
  }

  /**
   * Whatever N is: one suffix of the window with every undelivered byte, starting at the window's start, just
   * after a newline, or at the first undelivered byte.
   */
  lemma StartsAtLine(b: Buf, n: nat)
    requires b.seen <= |b.raw| && !LookbackFaults(b, n)
    ensures var start := SendStart(b, n);
            start <= b.seen && (start == 0 || start == b.seen || b.raw[start - 1] == NL)
    ensures n == 0 ==> SendStart(b, n) == b.seen
  {}

  /** Exactly the last N lines, when the N-th last line starts after a newline in the part already seen. */
  lemma LastLines(b: Buf, n: nat)
    requires b.seen <= |b.raw| && b.ntotal >= |b.raw| && n > 0
    requires var pc := NthNewline(b.raw, WantedNewlines(b, n)); pc.Some? && pc.value < b.seen
    ensures !LookbackFaults(b, n) && Lines(b.raw[SendStart(b, n)..]) == n
  {
    var k := WantedNewlines(b, n);
    NthNewlineCounts(b.raw, k);
    NoNewlines(b.raw);
    var start := SendStart(b, n);
    assert start == NthNewline(b.raw, k).value + 1;
    assert Newlines(b.raw[start..]) == k - 1;
    if start == |b.raw| {
      // the newline found is the last byte, so k would have counted one more
      NthIsNotLast(b.raw, k);
    }
  }

  lemma NthIsNotLast(s: Bytes, k: nat)
    requires s != [] && s[|s| - 1] == NL && k >= 2
    ensures NthNewline(s, k) != Some(|s| - 1)
  {}

  /** If the window still starts where the stream does and has too few lines, all of it is sent. */
  lemma WholeStream(b: Buf, n: nat)
    requires b.seen <= |b.raw| && b.ntotal >= |b.raw| && n > 0 && b.rawoffset == 0
    requires NthNewline(b.raw, WantedNewlines(b, n)).None?
    ensures !LookbackFaults(b, n) && SendStart(b, n) == 0 && Lines(b.raw) <= n
  {
    NthNewlineCounts(b.raw, WantedNewlines(b, n));
  }

  /** If the N last lines are all new, at most the rest of one seen line is repeated. */
  lemma RepeatsOneLine(b: Buf, n: nat)
    requires b.seen <= |b.raw| && n > 0
    requires var pc := NthNewline(b.raw, WantedNewlines(b, n)); pc.Some? && pc.value >= b.seen
    ensures !LookbackFaults(b, n) && NL !in b.raw[SendStart(b, n)..b.seen]
  {
    var w := b.raw[..b.seen];
    var before, start := NthNewline(w, 1), SendStart(b, n);
    NthNewlineCounts(w, 1);
    NoNewlines(w);
    if before.Some? {
      assert w[before.value + 1..] == b.raw[start..b.seen];
      NoNewlines(w[before.value + 1..]);
    } else if b.rawoffset == 0 {
      assert b.raw[0..b.seen] == w;
    }
  }

  /**
   * serv_pass() goes on with a NULL from strchr() exactly when bytes were dropped from the window, it has some
   * newline but fewer than asked for, and a NUL comes before the first of them.
   */
  lemma FaultsExactly(b: Buf, n: nat)
    requires n > 0
    ensures LookbackFaults(b, n) <==>
            && b.rawoffset > 0 && NL in b.raw && Newlines(b.raw) < WantedNewlines(b, n)
            && NUL in b.raw[..FirstNewline(b.raw).value]
  {
    NthNewlineCounts(b.raw, WantedNewlines(b, n));
    NoNewlines(b.raw);
    if NL in b.raw { NulBeforeNewline(b.raw); }
  }

  lemma NulBeforeNewline(s: Bytes)
    requires NL in s
    ensures NL !in CStr(s) <==> NUL in s[..FirstNewline(s).value]
  {}

  lemma NoLookback(b: Buf)
    requires b.seen <= |b.raw|
    ensures !LookbackFaults(b, 0) && SendStart(b, 0) == b.seen
  {}

  /** The branches that compute `psend`, as one table. */
  lemma SendStartCases(b: Buf, n: nat)
    requires b.seen <= |b.raw| && n > 0
    ensures var pc := NthNewline(b.raw, WantedNewlines(b, n));
            var before := NthNewline(b.raw[..b.seen], 1);
            && (LookbackFaults(b, n) <==>
                  NL in b.raw && pc.None? && b.rawoffset > 0 && NL !in CStr(b.raw))
            && (!LookbackFaults(b, n) ==>
                  && (NL !in b.raw || (pc.None? && b.rawoffset == 0) ==> SendStart(b, n) == 0)
                  && (NL in b.raw && pc.None? && b.rawoffset > 0 ==>
                        SendStart(b, n) == var f := FirstNewline(b.raw).value; if f < b.seen then f + 1 else b.seen)
                  && (NL in b.raw && pc.Some? && pc.value < b.seen ==> SendStart(b, n) == pc.value + 1)
                  && (NL in b.raw && pc.Some? && pc.value >= b.seen ==>
                        SendStart(b, n) ==
                          if before.Some? then before.value + 1 else if b.rawoffset == 0 then 0 else b.seen))
  {
    hide NthNewline, CStr;
  }

  // ---------- a run that gets there ----------

  /** `expect -t 0 -eof` meets enough output for one byte to be dropped; `interact -lookback 3` a NUL and a newline. */
  function FaultRun(z: Sizes): seq<Env> {
    [ PLAIN.(accept := true),
      PLAIN.(read := Data(As(z.maxOld + 1)),
             recv := Got(PassCmd(Expect, NO_FLAGS.(eof := true), None, Some(0), None))),
      PLAIN.(recv := Got(Disconn)),
      PLAIN.(accept := true),
      PLAIN.(read := Data([NUL, NL]), recv := Got(PassCmd(Interact, NO_FLAGS, None, Some(-1), Some(3)))) ]
  }

  lemma DropStep(m: Matcher, z: Sizes, s: State)
    requires z.Valid() && Idle(s, Buf([], 0, [], 0, 0, 0)) && s.conn.pass.pattern.None?
    ensures var r := Step(m, z, s, FaultRun(z)[1]);
            r.Next? && Idle(r.s, Buf(As(z.maxOld), z.maxOld, [], z.maxOld + 1, 1, 0))
  {
    hide Overruns, PassPattern;
    var a, env := As(z.maxOld + 1), FaultRun(z)[1];
    var s2 := StartPass(Gather(z, s, env), env.recv.msg);
    assert s2.b == Buf(a, 0, [], z.maxOld + 1, 0, 0) by { assert [] + a == a == a[..z.maxOld + 1]; }
    var s3 := DeliverFrom(ClearLookback(s2), 0, true);
    assert s3.b.seen == z.maxOld + 1;
    assert ServPass(m, z, s2, env) == Next(PassEnd(s3, env));
    assert a[1..] == As(z.maxOld);
  }

  lemma LookbackStep(m: Matcher, z: Sizes, s: State)
    requires z.Valid() && s.b.WF(z) && s.conn.open && s.ptmOpen
    requires s.b.raw == As(z.maxOld) && s.b.seen == z.maxOld && s.b.rawoffset == 1
    ensures Step(m, z, s, FaultRun(z)[4]) == Fault(NullNewline)
  {
    hide PassMatch, SendStart, LookbackFaults;
    var env := FaultRun(z)[4];
    var s1 := Gather(z, s, env);
    assert s1.b.raw == As(z.maxOld) + [NUL, NL];
    var s2 := StartPass(s1, env.recv.msg);
    WindowFaults(s2.b, z.maxOld);
  }

  lemma {:induction false} NewlinesAs(n: nat)
    ensures Newlines(As(n) + [NUL]) == 0
    ensures Newlines(As(n)) == 0
  {
    if n > 0 {
      NewlinesAs(n - 1);
      assert As(n)[..n - 1] == As(n - 1);
    }
    assert (As(n) + [NUL])[..n] == As(n);
  }

  lemma WindowFaults(b: Buf, n: nat)
    requires b.raw == As(n) + [NUL, NL] && b.rawoffset == 1 && b.ntotal > 0
    ensures LookbackFaults(b, 3)
  {
    hide WantedNewlines;
    var first := FirstNewline(b.raw).value;
    assert b.raw[n] == NUL && b.raw[n + 1] == NL;
    assert first == n + 1 by { assert b.raw[first] == NL; }
    assert NUL in b.raw[..first] by { assert b.raw[..first][n] == NUL; }
    NewlinesAs(n);
    assert b.raw[..n + 1] == As(n) + [NUL];
    assert Newlines(b.raw) == 1;
    assert WantedNewlines(b, 3) > 1 by { WantsMore(b); }
    FaultsExactly(b, 3);
  }

  lemma WantsMore(b: Buf)
    ensures WantedNewlines(b, 3) >= 3
  {}

  /** Every matcher and all sizes: the NULL is used in a run of five iterations. */
  lemma LookbackFails(m: Matcher, z: Sizes, timeout: int)
    requires z.Valid()
    ensures Run(m, z, Init(false, timeout), FaultRun(z)) == Fault(NullNewline)
  {
    hide Step;
    var c, s, b := FaultRun(z), Init(false, timeout), Buf(As(z.maxOld), z.maxOld, [], z.maxOld + 1, 1, 0);
    assert c[..0] == [] && c[..1] == c[..0] + [c[0]] && c[..2] == c[..1] + [c[1]] && c[..3] == c[..2] + [c[2]];
    assert c[..4] == c[..3] + [c[3]] && c == c[..4] + [c[4]];
    RunSnoc(m, z, s, c[..0], c[0]);
    AcceptStep(m, z, s, s.b);
    RunSnoc(m, z, s, c[..1], c[1]);
    DropStep(m, z, Run(m, z, s, c[..1]).s);
    RunSnoc(m, z, s, c[..2], c[2]);
    HangupStep(m, z, Run(m, z, s, c[..2]).s, b);
    RunSnoc(m, z, s, c[..3], c[3]);
    AcceptStep(m, z, Run(m, z, s, c[..3]).s, b);
    RunSnoc(m, z, s, c[..4], c[4]);
    LookbackStep(m, z, Run(m, z, s, c[..4]).s);
  }
}
