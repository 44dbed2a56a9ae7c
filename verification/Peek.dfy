/**
 * `sexpect get -expbuf N` prints a command line tail, -cstring -exact '...'.  Feeding it back to `sexpect expect`
 * matches, and empties the expect buffer, however much later, as long as no output and no other pass come in between.
 */
module Peek {
  import opened Octets
  import opened Cstring
  import opened ServerSpec
  import opened ServerRuns
  import opened Overrun
  import opened ServerTalk
  import Lookback

  /** What cli_loop() dumps for -expbuf n when INFO carried `p`. */
  function Dumped(p: Bytes, n: nat): Bytes { Dump(p[|p| - Min(n, |p|)..]) }

  /** It prints the last n bytes, or all of them. */
  lemma DumpsTheEnd(p: Bytes, n: nat)
    ensures var d := Unesc(Dumped(p, n));
            d.Some? && IsSuffix(d.value, p) && |d.value| == if n < |p| then n else |p|
  {
    UnescDump(p[|p| - Min(n, |p|)..]);
  }

  /** `expect -cstring -exact text`, as main.c prepares it. */
  function ExpectCmd(text: Bytes, timeout: Option<int>): Option<Msg>
    requires NUL !in text
  {
    var pat := Unesc(text);
    if pat.None? || pat.value == [] || NUL in pat.value then None
    else Some(ExactCmd(pat.value, timeout))
  }

  /** An iteration that reads no output and starts no pass; anything else may happen in it. */
  predicate Calm(env: Env) { !env.read.Data? && !(env.recv.Got? && env.recv.msg.PassCmd?) }

  /**
   * `get -expbuf n`, then whatever happens in `quiet`, then what was printed as the `expect` of the client that is
   * connected: the server at the end, or None if `get` is not answered or its text is no valid argument.
   */
  function Feedback(m: Matcher, z: Sizes, s: State, get: Env, quiet: seq<Env>, last: Env, n: nat,
                    timeout: Option<int>): Option<Outcome>
    requires z.Valid() && s.b.WF(z)
  {
    var got := Step(m, z, s, get.(recv := Got(Info)));
    if got.Fault? || got.s.log == [] then None
    else
      var end := got.s.log[|got.s.log| - 1];
      if !end.Replied? || !end.reply.InfoReply? then None
      else
        var cmd := ExpectCmd(Dumped(end.reply.expbuf, n), timeout);
        if cmd.None? then None
        else Some(Run(m, z, got.s, quiet + [last.(recv := Got(cmd.value))]))
  }

  /** No pass is in progress, and none has left anything behind. */
  predicate NoPass(s: State) { !s.conn.passing && s.conn.pass.lookback == 0 }

  /** The expect buffer holds e, and everything has been copied to it. */
  predicate Settled(z: Sizes, s: State, e: Bytes) {
    s.b.WF(z) && NoPass(s) && s.b.exp == e && |e| <= z.maxOld && s.b.expoffset == s.b.ntotal
  }

  // ---------- the get ----------

  /** The buffers when `get` is answered. */
  function AtGet(z: Sizes, s: State, get: Env): (b: Buf)
    requires z.Valid() && s.b.WF(z)
    ensures b.WF(z)
  {
    Gather(z, Prelude(s, get), get).b
  }

  lemma GatherOpen(z: Sizes, s: State, env: Env)
    requires z.Valid() && s.b.WF(z) && s.conn.open
    ensures var r := Gather(z, Prelude(s, env), env); r.conn == s.conn && Recvd(Prelude(s, env), env) == env.recv
  {}

  lemma InfoKeeps(z: Sizes, s: State)
    requires s.b.WF(z) && !Overruns(z, s.b)
    ensures var b := Raw2Exp(z, s.b);
            && ProcessMsg(z, s, Info, true) ==
               Next(Log(s.(b := b), Replied(InfoReply(ServerSpec.Peek(b.exp)))))
            && b.expoffset == b.ntotal
  {
    hide Overruns, Strip;
  }

  lemma DropSettled(z: Sizes, s: State, e: Bytes)
    requires Settled(z, s, e)
    ensures Settled(z, s.(b := DropOld(z, s.b)), e)
  {}

  lemma GetStep(m: Matcher, z: Sizes, s: State, get: Env)
    requires z.Valid() && s.b.WF(z) && s.conn.open && NoPass(s)
    requires get.recv == Got(Info) && get.replyOk && !get.interrupted
    requires !Overruns(z, AtGet(z, s, get)) && |Raw2Exp(z, AtGet(z, s, get)).exp| <= z.maxOld
    ensures var r, e := Step(m, z, s, get), Raw2Exp(z, AtGet(z, s, get)).exp;
            r.Next? && Settled(z, r.s, e) && r.s.log != [] &&
            r.s.log[|r.s.log| - 1] == Replied(InfoReply(ServerSpec.Peek(e)))
  {
    hide Gather, ProcessMsg, Overruns, Raw2Exp, ServPass, DropOld, Recvd, Settled;
    GatherOpen(z, s, get);
    var s1 := Gather(z, Prelude(s, get), get);
    InfoKeeps(z, s1);
    var s2 := ProcessMsg(z, s1, Info, true).s;
    var s3 := Signal(s2, get.sigLate);
    IdlePass(m, z, s3, get);
    assert Settled(z, s3, s3.b.exp) by { SettledNow(z, s3); }
    DropSettled(z, s3, s3.b.exp);
  }

  lemma SettledNow(z: Sizes, s: State)
    requires s.b.WF(z) && NoPass(s) && |s.b.exp| <= z.maxOld && s.b.expoffset == s.b.ntotal
    ensures Settled(z, s, s.b.exp)
  {}

  // ---------- calm iterations ----------

  lemma CopyAgain(z: Sizes, b: Buf)
    requires b.WF(z) && b.expoffset == b.ntotal
    ensures !Overruns(z, b) && Raw2Exp(z, b) == b
  {}

  lemma CalmGather(z: Sizes, s: State, env: Env, e: Bytes)
    requires z.Valid() && Settled(z, s, e) && Calm(env)
    ensures Settled(z, Prelude(s, env), e) && Settled(z, Gather(z, Prelude(s, env), env), e)
  {}

  lemma CalmReceive(z: Sizes, s: State, recv: Recv, ok: bool, e: Bytes)
    requires Settled(z, s, e) && (recv.Got? ==> !recv.msg.PassCmd?)
    ensures var r := Receive(z, s, recv, ok); r.Next? && Settled(z, r.s, e)
  {
    hide Overruns, Raw2Exp, ProcessMsg;
    CopyAgain(z, s.b);
    if recv.Got? { ProcessKeeps(z, s, recv.msg, ok); }
  }

  lemma CalmStep(m: Matcher, z: Sizes, s: State, env: Env, e: Bytes)
    requires z.Valid() && Settled(z, s, e) && Calm(env)
    ensures var r := Step(m, z, s, env); r.Next? && Settled(z, r.s, e)
  {
    hide Gather, Receive, ServPass, DropOld, Settled, Prelude;
    if Live(s) {
      CalmGather(z, s, env, e);
      SettledParts(z, s, e);
      if !env.interrupted {
        var recv := Recvd(Prelude(s, env), env);
        var s1 := Gather(z, Prelude(s, env), env);
        SettledParts(z, s1, e);
        CalmReceive(z, s1, recv, env.replyOk, e);
        var s2 := Receive(z, s1, recv, env.replyOk).s;
        var s3 := Signal(s2, env.sigLate);
        SettledSignal(z, s2, env.sigLate, e);
        IdlePass(m, z, s3, env);
        DropSettled(z, s3, e);
      }
    }
  }

  lemma SettledParts(z: Sizes, s: State, e: Bytes)
    requires Settled(z, s, e)
    ensures s.b.WF(z)
  {}

  lemma SettledSignal(z: Sizes, s: State, sig: bool, e: Bytes)
    requires Settled(z, s, e)
    ensures Settled(z, Signal(s, sig), e) && s.b.WF(z) && NoPass(Signal(s, sig))
  {}

  lemma {:induction false} CalmRun(m: Matcher, z: Sizes, s: State, quiet: seq<Env>, e: Bytes)
    requires z.Valid() && Settled(z, s, e) && forall i :: 0 <= i < |quiet| ==> Calm(quiet[i])
    ensures var r := Run(m, z, s, quiet); r.Next? && Settled(z, r.s, e)
  {
    hide Step, Settled, Calm;
    SettledParts(z, s, e);
    if quiet != [] {
      var n := |quiet| - 1;
      CalmRun(m, z, s, quiet[..n], e);
      CalmStep(m, z, Run(m, z, s, quiet[..n]).s, quiet[n], e);
    }
  }

  // ---------- the expect ----------

  /** The last thing that happened is a match, and it used up the expect buffer. */
  predicate MatchedAll(r: Outcome) {
    r.Next? && r.s.b.exp == [] && r.s.log != [] && r.s.log[|r.s.log| - 1] == Replied(Matched)
  }

  /** A text is found in itself, at its start. */
  lemma MatchesItself(m: Matcher, pass: Pass, text: Bytes, ptmOpen: bool)
    requires pass.flags == NO_FLAGS.(exact := true) && text != []
    ensures TryMatch(m, pass, text, text, ptmOpen) == Some(Hit(0, |text|, Some(NO_OUT[0 := Some(text)])))
  {}

  /** serv_pass() after the delivery, when the pattern is the whole expect buffer. */
  lemma WholeBufferMatches(m: Matcher, z: Sizes, s: State, env: Env)
    requires s.b.WF(z) && s.b.expoffset == s.b.ntotal && s.b.exp != [] && env.finalOk
    requires s.conn.pass.flags == NO_FLAGS.(exact := true) && s.conn.pass.pattern == Some(s.b.exp)
    ensures var r := PassMatch(m, z, s, env);
            MatchedAll(r)
  {
    hide TryMatch, Overruns, Raw2Exp, PassEnd;
    CopyAgain(z, s.b);
    MatchesItself(m, s.conn.pass, s.b.exp, s.ptmOpen);
  }

  function ExactCmd(pat: Bytes, timeout: Option<int>): Msg {
    PassCmd(Expect, NO_FLAGS.(exact := true), Some(pat), timeout, None)
  }

  lemma ExpectPass(m: Matcher, z: Sizes, s: State, env: Env, timeout: Option<int>)
    requires s.b.WF(z) && s.b.expoffset == s.b.ntotal && s.conn.open && NoPass(s)
    requires s.b.exp != [] && NUL !in s.b.exp && env.outputOk && env.finalOk
    ensures MatchedAll(ServPass(m, z, Signal(StartPass(s, ExactCmd(s.b.exp, timeout)), env.sigLate), env))
  {
    assert CStr(s.b.exp) == s.b.exp;
    hide PassMatch, Strip, CStr, LookbackFaults, SendStart, MatchedAll;
    Lookback.NoLookback(s.b);
    var s1 := Signal(StartPass(s, ExactCmd(s.b.exp, timeout)), env.sigLate);
    var s2 := DeliverFrom(ClearLookback(s1), s.b.seen, true);
    WholeBufferMatches(m, z, s2, env);
  }

  lemma DropKeepsMatch(z: Sizes, r: Outcome)
    requires MatchedAll(r) && r.s.b.WF(z)
    ensures MatchedAll(Next(r.s.(b := DropOld(z, r.s.b))))
  {}

  lemma ExpectStep(m: Matcher, z: Sizes, s: State, last: Env, e: Bytes, timeout: Option<int>)
    requires z.Valid() && Settled(z, s, e) && s.conn.open && e != [] && NUL !in e
    requires !last.read.Data? && !last.interrupted && last.outputOk && last.finalOk
    ensures MatchedAll(Step(m, z, s, last.(recv := Got(ExactCmd(e, timeout)))))
  {
    var cmd := ExactCmd(e, timeout);
    var env := last.(recv := Got(cmd));
    hide ServPass, Strip, StartPass, Gather, Recvd, DropOld, MatchedAll;
    CalmGather(z, s, last.(recv := Nothing), e);
    SameGather(z, s, env);
    GatherOpen(z, s, env);
    var s1 := Gather(z, Prelude(s, env), env);
    ExpectPass(m, z, s1, env, timeout);
    StartPassKeeps(s1, cmd);
    var r := ServPass(m, z, Signal(StartPass(s1, cmd), env.sigLate), env);
    assert Serve(m, z, s1, Got(cmd), env) == r;
    assert r.Next? by { MatchedNext(r); }
    DropKeepsMatch(z, r);
  }

  lemma StartPassKeeps(s: State, msg: Msg)
    requires msg.PassCmd?
    ensures StartPass(s, msg).b == s.b
  {}

  lemma MatchedNext(r: Outcome)
    requires MatchedAll(r)
    ensures r.Next?
  {}

  /** What is received does not matter to what is gathered. */
  lemma SameGather(z: Sizes, s: State, env: Env)
    requires z.Valid() && s.b.WF(z)
    ensures var quiet := env.(recv := Nothing);
            Gather(z, Prelude(s, env), env) == Gather(z, Prelude(s, quiet), quiet)
  {}

  lemma FeedbackMatches(m: Matcher, z: Sizes, s: State, get: Env, quiet: seq<Env>, last: Env, n: nat,
                        timeout: Option<int>)
    requires z.Valid() && s.b.WF(z) && s.conn.open && NoPass(s) && get.replyOk && !get.interrupted
    requires forall i :: 0 <= i < |quiet| ==> Calm(quiet[i])
    requires !last.read.Data? && !last.interrupted && last.outputOk && last.finalOk
    requires !Overruns(z, AtGet(z, s, get.(recv := Got(Info))))
    requires var e := Raw2Exp(z, AtGet(z, s, get.(recv := Got(Info)))).exp;
             1 <= |e| <= n <= MAX_PEEK && |e| <= z.maxOld && NUL !in e
    ensures var g := Step(m, z, s, get.(recv := Got(Info)));
            && g.Next? && Run(m, z, g.s, quiet).Next?
            && (Run(m, z, g.s, quiet).s.conn.open ==>
                  var r := Feedback(m, z, s, get, quiet, last, n, timeout); r.Some? && MatchedAll(r.value))
  {
    hide Step, Overruns, Raw2Exp, Dump, Unesc, Run, MatchedAll, Dumped, ExpectCmd, ExactCmd, AtGet, Calm, Settled;
    var info := get.(recv := Got(Info));
    var e := Raw2Exp(z, AtGet(z, s, info)).exp;
    GetStep(m, z, s, info);
    var g := Step(m, z, s, info).s;
    SettledParts(z, g, e);
    CalmRun(m, z, g, quiet, e);
    DumpIsArgument(e, n, timeout);
    if Run(m, z, g, quiet).s.conn.open {
      RunSnoc(m, z, g, quiet, last.(recv := Got(ExactCmd(e, timeout))));
      ExpectStep(m, z, Run(m, z, g, quiet).s, last, e, timeout);
    }
  }

  /**
   * The dump of an expect buffer that fits matches, and the buffer is empty afterwards: however many iterations come
   * in between, with whatever clients, failures and signals, if they bring no output and no other pass.
   */
  lemma DumpMatches(m: Matcher, z: Sizes, s: State, get: Env, quiet: seq<Env>, last: Env, n: nat, timeout: Option<int>)
    requires z.Valid() && Head(z, s) && s.conn.open && NoPass(s) && get.replyOk && !get.interrupted
    requires forall i :: 0 <= i < |quiet| ==> Calm(quiet[i])
    requires !last.read.Data? && !last.interrupted && last.outputOk && last.finalOk
    requires !Overruns(z, AtGet(z, s, get.(recv := Got(Info))))
    requires var e := Raw2Exp(z, AtGet(z, s, get.(recv := Got(Info)))).exp;
             1 <= |e| <= n <= MAX_PEEK && |e| <= z.maxOld
    ensures var g := Step(m, z, s, get.(recv := Got(Info)));
            && g.Next? && Run(m, z, g.s, quiet).Next?
            && (Run(m, z, g.s, quiet).s.conn.open ==>
                  var r := Feedback(m, z, s, get, quiet, last, n, timeout); r.Some? && MatchedAll(r.value))
  {
    hide Step, Overruns, Raw2Exp, Run, MatchedAll, AtGet, Calm, Feedback;
    NoNulCopied(z, s, get.(recv := Got(Info)));
    FeedbackMatches(m, z, s, get, quiet, last, n, timeout);
  }

  lemma NoNulCopied(z: Sizes, s: State, get: Env)
    requires z.Valid() && Head(z, s) && !Overruns(z, AtGet(z, s, get))
    ensures NUL !in Raw2Exp(z, AtGet(z, s, get)).exp
  {
    hide Strip, Raw2Exp, Overruns, CutsOk, Cuts, Stream, Accounted, LogInv, Cursor, Gather, BufInv;
    var s0 := Prelude(s, get);
    WFOf(z, s);
    EndedWeaker(z, s.log, Ended(s.ptmOpen, s.b), Ended(s0.ptmOpen, s0.b), s.waited);
    GatherInv(z, s0, get);
    var g := Gather(z, s0, get);
    CopyInv(z, g);
    ExpHasNoNul(z, g.(b := Raw2Exp(z, g.b)));
  }

  lemma DumpIsArgument(e: Bytes, n: nat, timeout: Option<int>)
    requires NUL !in e && 1 <= |e| <= n <= MAX_PEEK
    ensures ExpectCmd(Dumped(ServerSpec.Peek(e), n), timeout) == Some(ExactCmd(e, timeout))
  {
    assert ServerSpec.Peek(e) == e && e[|e| - Min(n, |e|)..] == e;
    UnescDump(e);
  }
}
