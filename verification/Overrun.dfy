/**
 * The assert in buf_raw2expect().  It is not an invariant: this module says exactly in which states the next
 * iteration can make it fail, shows a run that does, and proves that it never fails in runs where nothing
 * ages without being copied (nonblock off, every pass with a pattern, or interact, or wait).
 */
module Overrun {
  import opened Octets
  import opened ServerSpec
  import opened ServerRuns

  /** The copied text is longer than the part of the window it came from: the rest was dropped uncopied. */
  predicate Vulnerable(b: Buf) { b.rawoffset <= b.expoffset < b.rawoffset + |b.exp| }

  lemma SafeCopies(z: Sizes, b: Buf)
    requires b.WF(z) && !Vulnerable(b)
    ensures !Overruns(z, b) && !Vulnerable(Raw2Exp(z, b))
  {}

  lemma PassMatchFaults(m: Matcher, z: Sizes, s: State, env: Env)
    requires s.b.WF(z) && !Overruns(z, s.b)
    ensures PassMatch(m, z, s, env).Next?
  {
    hide PassEnd, PassPattern, Overruns;
  }

  lemma SafePass(m: Matcher, z: Sizes, s: State, env: Env)
    requires s.b.WF(z) && !Vulnerable(s.b)
    ensures ServPass(m, z, s, env) != Fault(BufferAssert)
  {
    hide PassMatch, SendStart, LookbackFaults, Overruns, Vulnerable;
    if s.conn.open && s.conn.passing && !LookbackFaults(s.b, s.conn.pass.lookback) {
      var s1 := DeliverFrom(ClearLookback(s), SendStart(s.b, s.conn.pass.lookback), env.outputOk);
      SafeCopies(z, s.b);
      SeenIrrelevant(z, s.b, s1.b.seen);
      PassMatchFaults(m, z, s1, env);
    }
  }

  lemma SafeReceive(z: Sizes, s: State, recv: Recv, ok: bool)
    requires s.b.WF(z) && !Vulnerable(s.b)
    ensures var r := Receive(z, s, recv, ok); r.Next? && !Vulnerable(r.s.b)
  {
    hide Overruns, Raw2Exp, Vulnerable, ProcessMsg;
    SafeCopies(z, s.b);
    if recv.Got? { ProcessKeeps(z, s, recv.msg, ok); }
  }

  lemma SafeGather(z: Sizes, s: State, env: Env)
    requires z.Valid() && s.b.WF(z) && !Vulnerable(s.b)
    ensures !Vulnerable(Gather(z, s, env).b)
  {}

  lemma SafeIteration(m: Matcher, z: Sizes, s: State, env: Env)
    requires z.Valid() && s.b.WF(z) && !Vulnerable(s.b)
    ensures Iterate(m, z, s, env) != Fault(BufferAssert)
  {
    hide Gather, Receive, ServPass, Vulnerable, DropOld;
    var s0 := Prelude(s, env);
    SafeGather(z, s0, env);
    var s1 := Gather(z, s0, env);
    SafeReceive(z, s1, Recvd(s0, env), env.replyOk);
    var s2 := Receive(z, s1, Recvd(s0, env), env.replyOk).s;
    SafePass(m, z, Signal(s2, env.sigLate), env);
  }

  /** The child fills the window and the client asks for `get`. */
  function FillAndGet(z: Sizes): Env {
    Env(false, false, false, false, Data(seq(z.raw, i => 97)), Got(Info), true, false, true, true, false)
  }

  lemma VulnerableCrashes(m: Matcher, z: Sizes, s: State)
    requires z.Valid() && s.b.WF(z) && Vulnerable(s.b) && s.conn.open && s.ptmOpen
    ensures Iterate(m, z, s, FillAndGet(z)) == Fault(BufferAssert)
  {
    hide ServPass, DropOld, Strip;
    var env := FillAndGet(z);
    var s1 := Gather(z, s, env);
    assert Prelude(s, env) == s;
    assert |s1.b.raw| == z.raw && s1.b.exp == s.b.exp && s1.b.expoffset == s.b.expoffset && s1.conn.open;
    assert Overruns(z, s1.b);
  }

  /** With a client connected and the pty open, the next iteration can fail the assert iff this holds. */
  lemma AssertCanFail(m: Matcher, z: Sizes, s: State)
    requires z.Valid() && s.b.WF(z) && s.conn.open && s.ptmOpen
    ensures (exists env :: Iterate(m, z, s, env) == Fault(BufferAssert)) <==> Vulnerable(s.b)
  {
    if Vulnerable(s.b) {
      VulnerableCrashes(m, z, s);
    } else {
      forall env ensures Iterate(m, z, s, env) != Fault(BufferAssert) { SafeIteration(m, z, s, env); }
    }
  }

  // ---------- the same once the pty is closed ----------

  lemma CopiedDoesNotOverrun(z: Sizes, b: Buf)
    requires b.WF(z) && !Overruns(z, b)
    ensures !Overruns(z, Raw2Exp(z, b))
  {}

  lemma QuietReceive(z: Sizes, s: State, recv: Recv, ok: bool)
    requires s.b.WF(z) && !Overruns(z, s.b)
    ensures var r := Receive(z, s, recv, ok); r.Next? && !Overruns(z, r.s.b)
  {
    hide Overruns, Raw2Exp, ProcessMsg;
    CopiedDoesNotOverrun(z, s.b);
    if recv.Got? { ProcessKeeps(z, s, recv.msg, ok); }
  }

  lemma QuietPass(m: Matcher, z: Sizes, s: State, env: Env)
    requires s.b.WF(z) && !Overruns(z, s.b)
    ensures ServPass(m, z, s, env) != Fault(BufferAssert)
  {
    hide PassMatch, SendStart, LookbackFaults, Overruns;
    if s.conn.open && s.conn.passing && !LookbackFaults(s.b, s.conn.pass.lookback) {
      var s1 := DeliverFrom(ClearLookback(s), SendStart(s.b, s.conn.pass.lookback), env.outputOk);
      SeenIrrelevant(z, s.b, s1.b.seen);
      PassMatchFaults(m, z, s1, env);
    }
  }

  lemma ClosedGather(z: Sizes, s: State, env: Env)
    requires z.Valid() && s.b.WF(z) && s.conn.open && !s.ptmOpen
    ensures Prelude(s, env).b == s.b && Gather(z, Prelude(s, env), env) == Prelude(s, env)
    ensures Prelude(s, env).conn == s.conn
  {}

  /** With the pty closed nothing more is read: the next iteration can fail the assert iff it is violated now. */
  lemma AssertCanFailClosed(m: Matcher, z: Sizes, s: State)
    requires z.Valid() && s.b.WF(z) && s.conn.open && !s.ptmOpen
    ensures (exists env :: Iterate(m, z, s, env) == Fault(BufferAssert)) <==> Overruns(z, s.b)
  {
    hide Gather, Receive, ServPass, Overruns, Prelude, DropOld;
    if Overruns(z, s.b) {
      ClosedGather(z, s, FillAndGet(z));
      GetFails(z, Prelude(s, FillAndGet(z)));
      assert Iterate(m, z, s, FillAndGet(z)) == Fault(BufferAssert);
    } else {
      forall env ensures Iterate(m, z, s, env) != Fault(BufferAssert) {
        ClosedGather(z, s, env);
        var s0 := Prelude(s, env);
        QuietReceive(z, s0, Recvd(s0, env), env.replyOk);
        var s1 := Receive(z, s0, Recvd(s0, env), env.replyOk).s;
        QuietPass(m, z, Signal(s1, env.sigLate), env);
      }
    }
  }

  lemma GetFails(z: Sizes, s: State)
    requires s.b.WF(z) && s.conn.open && Overruns(z, s.b)
    ensures Receive(z, s, Got(Info), true) == Fault(BufferAssert)
  {
    hide Overruns;
  }

  // ---------- runs that never fail the assert ----------

  /** No `set -nonblock 1`, and every pass copies what it delivers: a pattern, interact or wait. */
  predicate Tame(env: Env) {
    match env.recv
    case Got(PassCmd(subcmd, _, pattern, _, _)) => pattern.Some? || subcmd.Interact? || subcmd.Wait?
    case Got(Set(nonblock, _)) => nonblock != Some(true)
    case _ => true
  }

  predicate Copies(conn: Conn) {
    conn.passing ==> conn.pass.pattern.Some? || conn.pass.subcmd.Interact? || conn.pass.subcmd.Wait?
  }

  /** Whatever is old has been copied. */
  predicate Synced(s: State) { !s.nonblock && s.b.rawoffset + s.b.seen <= s.b.expoffset && Copies(s.conn) }

  lemma SyncedIsSafe(z: Sizes, s: State)
    requires Head(z, s) && Synced(s)
    ensures !Vulnerable(s.b)
  {}

  lemma SyncedGather(z: Sizes, s: State, env: Env)
    requires z.Valid() && s.b.WF(z) && Synced(s)
    ensures Synced(Gather(z, s, env))
  {}

  lemma SyncedReply(s: State, r: Reply, ok: bool)
    requires Synced(s)
    ensures Synced(SendReply(s, r, ok)) && Synced(Hangup(SendReply(s, r, ok)))
    ensures Synced(StopPassing(SendReply(s, r, ok)))
  {}

  lemma SyncedMsg(z: Sizes, s: State, msg: Msg, env: Env)
    requires s.b.WF(z) && Synced(s) && env.recv == Got(msg) && Tame(env)
    ensures var r := ProcessMsg(z, s, msg, env.replyOk); r.Next? ==> Synced(r.s)
  {
    ProcessKeeps(z, s, msg, env.replyOk);
    if msg.Info? {
      hide ProcessMsg, Overruns, Raw2Exp;
      if !Overruns(z, s.b) { SyncedCopy(z, s); }
    } else if msg.PassCmd? {
      hide CStr;
    } else {
      hide ProcessMsg;
    }
  }

  lemma SyncedCopy(z: Sizes, s: State)
    requires s.b.WF(z) && !s.nonblock && Copies(s.conn) && !Overruns(z, s.b)
    ensures Synced(s.(b := Raw2Exp(z, s.b)))
  {}

  lemma SyncedReceive(z: Sizes, s: State, recv: Recv, env: Env)
    requires s.b.WF(z) && Synced(s) && Tame(env) && (recv == env.recv || recv == Nothing)
    ensures var r := Receive(z, s, recv, env.replyOk); r.Next? ==> Synced(r.s)
  {
    hide ProcessMsg, Tame;
    if s.conn.open && recv.Got? { SyncedMsg(z, s, recv.msg, env); }
  }

  lemma SyncedPassEnd(s: State, env: Env)
    requires Synced(s) && s.b.rawoffset + s.b.seen <= s.b.ntotal
    ensures Synced(PassEnd(s, env))
  {
    hide SendReply, StopPassing;
    SyncedReply(s.(b := s.b.(expoffset := s.b.ntotal, exp := [])), EofReply, env.finalOk);
    SyncedReply(s.(waited := true), Exited, env.finalOk);
    SyncedReply(s, Error(EofError), env.finalOk);
    SyncedReply(s, Error(TimeoutError), env.finalOk);
  }

  lemma SyncedPattern(m: Matcher, z: Sizes, s: State, pat: Bytes, env: Env)
    requires s.b.WF(z) && !s.nonblock && Copies(s.conn) && !Overruns(z, s.b)
    ensures Synced(PassPattern(m, z, s, pat, env))
  {
    hide SendReply, StopPassing, PassEnd, TryMatch, Overruns, Strip;
    SyncedCopy(z, s);
    var s1 := s.(b := Raw2Exp(z, s.b));
    var h := TryMatch(m, s.conn.pass, pat, s1.b.exp, s.ptmOpen);
    if h.Some? { SyncedReply(ConsumeHit(s1, h.value), Matched, env.finalOk); } else { SyncedPassEnd(s1, env); }
  }

  lemma SyncedPass(m: Matcher, z: Sizes, s: State, env: Env)
    requires s.b.WF(z) && Synced(s)
    ensures var r := ServPass(m, z, s, env); r.Next? ==> Synced(r.s)
  {
    hide PassMatch, SendStart, LookbackFaults;
    if s.conn.open && s.conn.passing && !LookbackFaults(s.b, s.conn.pass.lookback) {
      var s1 := DeliverFrom(ClearLookback(s), SendStart(s.b, s.conn.pass.lookback), env.outputOk);
      if s1.conn.open { SyncedMatch(m, z, s1, env); }
    }
  }

  lemma SyncedMatch(m: Matcher, z: Sizes, s: State, env: Env)
    requires s.b.WF(z) && !s.nonblock && Copies(s.conn) && s.conn.passing
    ensures var r := PassMatch(m, z, s, env); r.Next? ==> Synced(r.s)
  {
    hide PassPattern, PassEnd, Overruns;
    if s.conn.pass.pattern.Some? {
      if !Overruns(z, s.b) { SyncedPattern(m, z, s, s.conn.pass.pattern.value, env); }
    } else {
      SyncedPassEnd(s.(b := s.b.(expoffset := s.b.ntotal - s.b.NewCnt(), exp := [])), env);
    }
  }

  lemma SyncedStep(m: Matcher, z: Sizes, s: State, env: Env)
    requires z.Valid() && s.b.WF(z) && Synced(s) && Tame(env)
    ensures var r := Step(m, z, s, env); r.Next? ==> Synced(r.s)
  {
    hide Gather, Receive, ServPass, Tame;
    var s0 := Prelude(s, env);
    SyncedGather(z, s0, env);
    var s1 := Gather(z, s0, env);
    SyncedReceive(z, s1, Recvd(s0, env), env);
    var r := Receive(z, s1, Recvd(s0, env), env.replyOk);
    if r.Next? { SyncedPass(m, z, Signal(r.s, env.sigLate), env); }
  }

  lemma {:induction false} SyncedRun(m: Matcher, z: Sizes, s: State, envs: seq<Env>)
    requires z.Valid() && Head(z, s) && Synced(s) && forall i :: 0 <= i < |envs| ==> Tame(envs[i])
    ensures var r := Run(m, z, s, envs); r != Fault(BufferAssert) && (r.Next? ==> Synced(r.s))
  {
    hide Tame, Synced, Iterate, Vulnerable;
    if envs != [] {
      var n := |envs| - 1;
      SyncedRun(m, z, s, envs[..n]);
      RunInv(m, z, s, envs[..n]);
      var r := Run(m, z, s, envs[..n]);
      if r.Next? {
        SyncedIsSafe(z, r.s);
        SafeIteration(m, z, r.s, envs[n]);
        SyncedStep(m, z, r.s, envs[n]);
      }
    }
  }

  /** The assert never fails in a run with nonblock off whose passes all copy what they deliver. */
  lemma AssertHolds(m: Matcher, z: Sizes, timeout: int, envs: seq<Env>)
    requires z.Valid() && forall i :: 0 <= i < |envs| ==> Tame(envs[i])
    ensures Run(m, z, Init(false, timeout), envs) != Fault(BufferAssert)
  {
    InitHead(z, false, timeout);
    SyncedRun(m, z, Init(false, timeout), envs);
  }

  // ---------- a run that fails it ----------

  const PLAIN := Env(false, false, false, false, NotReady, Nothing, true, false, true, true, false)

  /** `expect -t 0 b`, hang up, `expect -t 0 -eof`, each meeting output that consists of a's; then `get`. */
  function CrashRun(z: Sizes): seq<Env> {
    [ PLAIN.(accept := true),
      PLAIN.(read := Data(seq(z.maxOld, i => 97)),
             recv := Got(PassCmd(Expect, NO_FLAGS.(exact := true), Some([98]), Some(0), None))),
      PLAIN.(recv := Got(Disconn)),
      PLAIN.(accept := true),
      PLAIN.(read := Data([97]), recv := Got(PassCmd(Expect, NO_FLAGS.(eof := true), None, Some(0), None))),
      FillAndGet(z) ]
  }

  function As(n: nat): Bytes { seq(n, i => 97) }

  lemma RunSnoc(m: Matcher, z: Sizes, s: State, envs: seq<Env>, e: Env)
    requires z.Valid() && s.b.WF(z) && Run(m, z, s, envs).Next?
    ensures Run(m, z, s, envs + [e]) == Step(m, z, Run(m, z, s, envs).s, e)
  {
    assert (envs + [e])[..|envs + [e]| - 1] == envs;
  }

  /** A running server with a client that has no pass in progress, and buffers b. */
  predicate Idle(s: State, b: Buf) {
    s.b == b && s.conn.open && !s.conn.passing && s.conn.pass.lookback == 0 && s.ptmOpen && !s.waited && !s.dead
  }

  lemma AcceptStep(m: Matcher, z: Sizes, s: State, b: Buf)
    requires z.Valid() && b.WF(z) && b.seen <= z.maxOld && |b.exp| <= z.maxOld
    requires s.b == b && !s.conn.open && s.ptmOpen && !s.waited && !s.dead
    ensures var r := Step(m, z, s, PLAIN.(accept := true));
            r.Next? && Idle(r.s, b) && r.s.conn.pass.pattern.None?
  {
    hide PassMatch, SendStart;
  }

  lemma HangupStep(m: Matcher, z: Sizes, s: State, b: Buf)
    requires z.Valid() && b.WF(z) && b.seen <= z.maxOld && |b.exp| <= z.maxOld && Idle(s, b)
    ensures var r := Step(m, z, s, PLAIN.(recv := Got(Disconn)));
            r.Next? && r.s.b == b && !r.s.conn.open && r.s.ptmOpen && !r.s.waited && !r.s.dead
  {
    hide PassMatch, SendStart;
  }

  lemma NoB(z: Sizes, pass: Pass)
    requires pass.flags == NO_FLAGS.(exact := true)
    ensures ExpectExact(pass, [98], As(z.maxOld)).None?
  {
    forall i ensures !OccursAt(As(z.maxOld), [98], false, i) {
      if 0 <= i && i + 1 <= z.maxOld { assert As(z.maxOld)[i..i + 1][0] == 97; }
    }
  }

  /** What the failed match does after the delivery: everything is copied, and the pass times out. */
  lemma FailedMatch(m: Matcher, z: Sizes, s: State, env: Env)
    requires z.Valid() && s.b == Buf(As(z.maxOld), z.maxOld, [], z.maxOld, 0, 0) && s.ptmOpen && env.finalOk
    requires s.conn.pass == Pass(Expect, NO_FLAGS.(exact := true), Some([98]), 0, 0)
    ensures var a, M := As(z.maxOld), z.maxOld;
            PassMatch(m, z, s, env) ==
            Next(StopPassing(Log(s.(b := Buf(a, M, a, M, 0, M)), Replied(Error(TimeoutError)))))
  {
    var a := As(z.maxOld);
    assert Raw2Exp(z, s.b).exp == a by { StripNoop(a); assert a[0..] == a && [] + a == a; }
    NoB(z, s.conn.pass);
    hide ExpectExact, ExpectEre, Strip;
  }

  /** The failed match: everything is delivered and copied. */
  lemma FailedMatchStep(m: Matcher, z: Sizes, s: State)
    requires z.Valid() && Idle(s, Buf([], 0, [], 0, 0, 0))
    ensures var r := Step(m, z, s, CrashRun(z)[1]);
            r.Next? && Idle(r.s, Buf(As(z.maxOld), z.maxOld, As(z.maxOld), z.maxOld, 0, z.maxOld))
  {
    hide PassMatch, Strip;
    var a, env, M := As(z.maxOld), CrashRun(z)[1], z.maxOld;
    var s1, msg := Gather(z, s, env), env.recv.msg;
    assert s1.b == Buf(a, 0, [], M, 0, 0) by { assert [] + a == a == a[..M]; }
    var s2 := StartPass(s1, msg);
    assert CStr([98]) == [98];
    var s3 := DeliverFrom(ClearLookback(s2), 0, true);
    assert s3.b == Buf(a, M, [], M, 0, 0);
    FailedMatch(m, z, s3, env);
  }

  /** The patternless pass: one more byte is delivered and dropped again, uncopied. */
  lemma EofStep(m: Matcher, z: Sizes, s: State)
    requires z.Valid() && Idle(s, Buf(As(z.maxOld), z.maxOld, As(z.maxOld), z.maxOld, 0, z.maxOld))
    requires s.conn.pass.pattern.None?
    ensures var r := Step(m, z, s, CrashRun(z)[4]);
            r.Next? && r.s.conn.open && r.s.ptmOpen && !r.s.waited && Vulnerable(r.s.b)
  {
    var env := CrashRun(z)[4];
    var s2 := StartPass(Gather(z, s, env), env.recv.msg);
    assert s2.b.ntotal == z.maxOld + 1;
    var s3 := DeliverFrom(ClearLookback(s2), z.maxOld, true);
    assert s3.b.seen == z.maxOld + 1;
    assert ServPass(m, z, s2, env) == Next(PassEnd(s3, env));
  }

  /** Every matcher and all sizes: the assert fails in a run of six iterations. */
  lemma AssertFails(m: Matcher, z: Sizes, timeout: int)
    requires z.Valid()
    ensures Run(m, z, Init(false, timeout), CrashRun(z)) == Fault(BufferAssert)
  {
    var c, s, M := CrashRun(z), Init(false, timeout), z.maxOld;
    var b := Buf(As(M), M, As(M), M, 0, M);
    hide Step, Vulnerable;
    assert c[..0] == [] && c[..1] == c[..0] + [c[0]] && c[..2] == c[..1] + [c[1]] && c[..3] == c[..2] + [c[2]];
    assert c[..4] == c[..3] + [c[3]] && c[..5] == c[..4] + [c[4]] && c == c[..5] + [c[5]];
    RunSnoc(m, z, s, c[..0], c[0]);
    AcceptStep(m, z, s, s.b);
    RunSnoc(m, z, s, c[..1], c[1]);
    FailedMatchStep(m, z, Run(m, z, s, c[..1]).s);
    RunSnoc(m, z, s, c[..2], c[2]);
    HangupStep(m, z, Run(m, z, s, c[..2]).s, b);
    RunSnoc(m, z, s, c[..3], c[3]);
    AcceptStep(m, z, Run(m, z, s, c[..3]).s, b);
    RunSnoc(m, z, s, c[..4], c[4]);
    EofStep(m, z, Run(m, z, s, c[..4]).s);
    RunSnoc(m, z, s, c[..5], c[5]);
    CrashStep(m, z, Run(m, z, s, c[..5]).s);
  }

  lemma CrashStep(m: Matcher, z: Sizes, s: State)
    requires z.Valid() && s.b.WF(z) && Vulnerable(s.b) && s.conn.open && s.ptmOpen
    ensures Step(m, z, s, FillAndGet(z)) == Fault(BufferAssert)
  {
    hide Vulnerable, Iterate;
    VulnerableCrashes(m, z, s);
  }
}
