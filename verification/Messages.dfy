/** serv_process_msg() by message and answer: what a client is told, and what a message leaves for later. */
module Messages {
  import opened Octets
  import opened ServerSpec
  import opened ServerRuns
  import opened ServerTalk
  import opened Peek
  import Pty

  /** From s to r exactly this was said. */
  ghost predicate Told(s: State, r: State, said: seq<Out>) { Outs(r.log) == Outs(s.log) + said }

  /** Nothing but log and connection changed. */
  predicate OnlyTalked(s: State, r: State) { r == s.(log := r.log, conn := s.conn.(open := r.conn.open)) }

  lemma SendTold(s: State, reply: Reply)
    ensures Told(s, SendReply(s, reply, true), [Answer(reply)])
  {
    ReplyTalk(s, reply);
  }

  /** Without a message nothing happens; a connection that breaks is closed, and nobody else is heard. */
  lemma NoMessage(z: Sizes, s: State, ok: bool)
    requires s.b.WF(z)
    ensures Receive(z, s, Nothing, ok) == Next(s)
    ensures s.conn.open ==> Receive(z, s, Broken, ok) == Next(s.(conn := s.conn.(open := false)))
    ensures !s.conn.open ==> forall recv :: Receive(z, s, recv, ok) == Next(s)
  {
    hide ProcessMsg;
  }

  /** A client of this version is welcomed, one of another is told and left, one without is left without a word. */
  lemma HelloAnswer(z: Sizes, s: State, version: Option<Bytes>)
    requires s.b.WF(z) && s.conn.open
    ensures var r := ProcessMsg(z, s, Hello(version), true);
            && r.Next? && OnlyTalked(s, r.s)
            && (version.None? ==> Told(s, r.s, []) && !r.s.conn.open)
            && (version.Some? && CStr(version.value) == [50, 46, 51, 46, 49, 52] ==>
                  Told(s, r.s, [Answer(HelloReply)]) && r.s.conn.open)
            && (version.Some? && CStr(version.value) != [50, 46, 51, 46, 49, 52] ==>
                  Told(s, r.s, [Answer(Error(ProtoError))]) && !r.s.conn.open)
  {
    hide Outs, CStr;
    SendTold(s, HelloReply);
    SendTold(s, Error(ProtoError));
  }

  /** DISCONN is answered and closes, whatever is in progress. */
  lemma DisconnAnswer(z: Sizes, s: State)
    requires s.b.WF(z) && s.conn.open
    ensures var r := ProcessMsg(z, s, Disconn, true);
            r.Next? && OnlyTalked(s, r.s) && Told(s, r.s, [Answer(DisconnReply)]) && !r.s.conn.open
  {
    hide Outs;
    SendTold(s, DisconnReply);
  }

  /** What is sent to the child is acknowledged; what is typed, and resizing, is not. */
  lemma InputAnswer(z: Sizes, s: State, data: Bytes)
    requires s.b.WF(z) && s.conn.open
    ensures var r := ProcessMsg(z, s, Send(data), true);
            r.Next? && OnlyTalked(s, r.s) && Told(s, r.s, [Answer(Ack)]) && r.s.conn.open
    ensures ProcessMsg(z, s, Input(data), true) == Next(s) == ProcessMsg(z, s, Winch, true)
  {
    hide Outs;
    SendTold(s, Ack);
  }

  /** KILL is answered by what kill(2) said. */
  lemma KillAnswer(z: Sizes, s: State, ok: bool)
    requires s.b.WF(z) && s.conn.open
    ensures var r := ProcessMsg(z, s, Kill(ok), true);
            r.Next? && OnlyTalked(s, r.s) && r.s.conn.open &&
            Told(s, r.s, [Answer(if ok then Ack else Error(SysError))])
  {
    hide Outs;
    SendTold(s, Ack);
    SendTold(s, Error(SysError));
  }

  /** CLOSE closes the pty, whether or not the answer arrives. */
  lemma CloseAnswer(z: Sizes, s: State, ok: bool)
    requires s.b.WF(z) && s.conn.open
    ensures var r := ProcessMsg(z, s, Close, ok);
            && r.Next? && !r.s.ptmOpen && OnlyTalked(s.(ptmOpen := false), r.s)
            && (r.s.conn.open <==> ok) && Told(s, r.s, if ok then [Answer(Ack)] else [])
  {
    hide Outs;
    SendTold(s.(ptmOpen := false), Ack);
  }

  /** SET changes what it names, and nothing else. */
  lemma SetAnswer(z: Sizes, s: State, nonblock: Option<bool>, timeout: Option<int>)
    requires s.b.WF(z) && s.conn.open
    ensures var r := ProcessMsg(z, s, Set(nonblock, timeout), true);
            && r.Next? && OnlyTalked(s.(nonblock := r.s.nonblock, defTimeout := r.s.defTimeout), r.s)
            && Told(s, r.s, [Answer(Ack)]) && r.s.conn.open
            && (match nonblock case Some(on) => r.s.nonblock == on case None => r.s.nonblock == s.nonblock)
            && (match timeout case Some(t) => r.s.defTimeout == t case None => r.s.defTimeout == s.defTimeout)
  {
    hide Outs;
    SendTold(SetOptions(s, nonblock, timeout), Ack);
  }

  /** expect_out i: what is kept for 0 to 9, empty if nothing is; anything else is a usage error. */
  lemma ExpoutAnswered(z: Sizes, s: State, i: int)
    requires s.b.WF(z) && s.conn.open && |s.expout| == NUM_OUT
    ensures var r := ProcessMsg(z, s, Expout(i), true);
            && r.Next? && OnlyTalked(s, r.s) && r.s.conn.open
            && Told(s, r.s, [Answer(if i < 0 || i > 9 then Error(UsageError)
                                    else if s.expout[i].None? then ExpoutText([])
                                    else ExpoutText(CStr(s.expout[i].value)))])
  {
    hide Outs, CStr;
    SendTold(s, ExpoutAnswer(s.expout, i));
  }

  /**
   * INFO carries the end of the expect buffer, of at most 4096 bytes: the last ones.  It is the end of the whole
   * output, NULs removed.
   */
  lemma InfoAnswer(z: Sizes, s: State) returns (p: Bytes)
    requires Inv(z, s) && s.conn.open && !Overruns(z, s.b)
    ensures s.b.WF(z)
    ensures var r, e := ProcessMsg(z, s, Info, true), Raw2Exp(z, s.b).exp;
            && r.Next? && r.s.b.exp == e && Told(s, r.s, [Answer(InfoReply(p))]) && r.s.conn == s.conn
            && IsSuffix(p, e) && |p| == (if |e| < 4096 then |e| else 4096) && IsSuffix(p, Strip(Stream(s.log)))
  {
    hide Inv, Outs, Raw2Exp, Overruns, Strip, Stream, ProcessMsg, IsSuffix, SendReply;
    WFOf(z, s);
    CopiedIsSuffix(z, s);
    var s1 := s.(b := Raw2Exp(z, s.b));
    p := ServerSpec.Peek(s1.b.exp);
    InfoSends(z, s);
    SendTold(s1, InfoReply(p));
    PeekIsEnd(s1.b.exp);
    SuffixTwice(p, s1.b.exp, Strip(Stream(s.log)));
  }

  lemma InfoSends(z: Sizes, s: State)
    requires s.b.WF(z) && !Overruns(z, s.b)
    ensures var s1 := s.(b := Raw2Exp(z, s.b));
            var r := ProcessMsg(z, s, Info, true);
            r == Next(SendReply(s1, InfoReply(ServerSpec.Peek(s1.b.exp)), true)) && r.s.b == s1.b && r.s.conn == s.conn
  {
    hide Overruns, Raw2Exp;
  }

  lemma PeekIsEnd(e: Bytes)
    ensures var p := ServerSpec.Peek(e); IsSuffix(p, e) && |p| == if |e| < 4096 then |e| else 4096
  {}

  lemma SuffixTwice(a: Bytes, b: Bytes, c: Bytes)
    requires IsSuffix(a, b) && IsSuffix(b, c)
    ensures IsSuffix(a, c)
  {
    assert c[|c| - |b|..][|b| - |a|..] == c[|c| - |a|..];
  }

  // ---------- PASS, and what later messages find ----------

  /**
   * PASS starts a pass at once and is not answered.  A pass without a pattern or lookback of its own has those of the
   * pass before it on this connection; without a time-out it has the default; a pattern clears expect_out.
   */
  lemma PassStarts(z: Sizes, s: State, subcmd: Subcmd, flags: Flags, pattern: Option<Bytes>, timeout: Option<int>,
                   lookback: Option<int>, ok: bool)
    requires s.b.WF(z) && s.conn.open && (pattern.Some? ==> NUL !in pattern.value)
    ensures var r := ProcessMsg(z, s, PassCmd(subcmd, flags, pattern, timeout, lookback), ok);
            && r.Next? && r.s == s.(conn := r.s.conn, expout := r.s.expout)
            && r.s.conn.open && r.s.conn.passing
            && var p, p' := s.conn.pass, r.s.conn.pass;
               && p'.subcmd == subcmd && p'.flags == flags
               && (match pattern case Some(_) => p'.pattern == pattern case None => p'.pattern == p.pattern)
               && (match timeout case Some(t) => p'.timeout == t case None => p'.timeout == s.defTimeout)
               && (match lookback
                   case Some(n) => p'.lookback == if n > 0 then n else p.lookback
                   case None => p'.lookback == p.lookback)
               && (match pattern
                   case Some(_) => forall i :: 0 <= i < NUM_OUT ==> ExpoutAnswer(r.s.expout, i) == ExpoutText([])
                   case None => r.s.expout == s.expout)
  {
    if pattern.Some? { NoNulIsCStr(pattern.value); }
    hide CStr;
  }

  lemma NoNulIsCStr(s: Bytes)
    requires NUL !in s
    ensures CStr(s) == s
  {}

  /** A new client starts with nothing of the one before: no pass, no pattern, no lookback. */
  lemma NewClient(m: Matcher, z: Sizes, s: State, env: Env)
    requires z.Valid() && s.b.WF(z) && !s.conn.open && Live(s) && env.accept && !env.interrupted
    requires Step(m, z, s, env).Next?
    ensures var c := Step(m, z, s, env).s.conn;
            c.open && !c.passing && c.pass.pattern.None? && c.pass.lookback == 0 && c.pass.flags == NO_FLAGS
  {
    hide Outs, Gather, ServPass, DropOld;
    var s0 := Prelude(s, env);
    GatherTalk(z, s0, env);
    var s1 := Gather(z, s0, env);
    SecondHalf(m, z, s1, env);
    IdlePass(m, z, Signal(s1, env.sigLate), env);
  }

  /** A message that says nothing about the defaults. */
  predicate KeepsDefaults(env: Env) { env.recv.Got? ==> !env.recv.msg.Set? }

  /** Between two iterations everything else was kept. */
  predicate SameDefaults(s: State, r: State) { r.nonblock == s.nonblock && r.defTimeout == s.defTimeout }

  lemma ServeDefaults(m: Matcher, z: Sizes, s: State, recv: Recv, env: Env)
    requires s.b.WF(z) && (recv.Got? ==> !recv.msg.Set?)
    ensures var r := Serve(m, z, s, recv, env); r.Next? ==> SameDefaults(s, r.s)
  {
    hide ServPass, Receive;
    ReceiveDefaults(z, s, recv, env.replyOk);
    var r := Receive(z, s, recv, env.replyOk);
    if r.Next? { PassDefaults(m, z, Signal(r.s, env.sigLate), env); }
  }

  lemma ReceiveDefaults(z: Sizes, s: State, recv: Recv, ok: bool)
    requires s.b.WF(z) && (recv.Got? ==> !recv.msg.Set?)
    ensures var r := Receive(z, s, recv, ok); r.Next? ==> SameDefaults(s, r.s)
  {
    hide ProcessMsg;
    if recv.Got? { ProcessKeeps(z, s, recv.msg, ok); }
  }

  lemma PassDefaults(m: Matcher, z: Sizes, s: State, env: Env)
    requires s.b.WF(z)
    ensures var r := ServPass(m, z, s, env); r.Next? ==> SameDefaults(s, r.s)
  {
    hide PassMatch, SendStart, LookbackFaults;
    if s.conn.open && s.conn.passing && !LookbackFaults(s.b, s.conn.pass.lookback) {
      var t := DeliverFrom(ClearLookback(s), SendStart(s.b, s.conn.pass.lookback), env.outputOk);
      MatchDefaults(m, z, t, env);
    }
  }

  lemma MatchDefaults(m: Matcher, z: Sizes, s: State, env: Env)
    requires s.b.WF(z)
    ensures var r := PassMatch(m, z, s, env); r.Next? ==> SameDefaults(s, r.s)
  {
    hide PassEnd, TryMatch, Raw2Exp, Overruns;
    PassEndKeeps(s, env);
    PassEndKeeps(s.(b := s.b.(expoffset := s.b.ntotal - s.b.NewCnt(), exp := [])), env);
    if !Overruns(z, s.b) { PassEndKeeps(s.(b := Raw2Exp(z, s.b)), env); }
  }

  lemma StepDefaults(m: Matcher, z: Sizes, s: State, env: Env)
    requires z.Valid() && s.b.WF(z) && KeepsDefaults(env)
    ensures var r := Step(m, z, s, env); r.Next? ==> SameDefaults(s, r.s)
  {
    hide Serve, DropOld;
    if Live(s) && !env.interrupted {
      var s0 := Prelude(s, env);
      ServeDefaults(m, z, Gather(z, s0, env), Recvd(s0, env), env);
    }
  }

  /** The defaults last until the next SET, whoever connects and whatever else happens. */
  lemma {:induction false} DefaultsLast(m: Matcher, z: Sizes, s: State, envs: seq<Env>)
    requires z.Valid() && s.b.WF(z) && forall i :: 0 <= i < |envs| ==> KeepsDefaults(envs[i])
    ensures var r := Run(m, z, s, envs); r.Next? ==> SameDefaults(s, r.s)
  {
    hide Step, KeepsDefaults;
    if envs != [] {
      var n := |envs| - 1;
      DefaultsLast(m, z, s, envs[..n]);
      var r := Run(m, z, s, envs[..n]);
      if r.Next? { StepDefaults(m, z, r.s, envs[n]); }
    }
  }

  // ---------- expect_out outlives the client that matched ----------

  predicate StartsNoPass(env: Env) { env.recv.Got? ==> !env.recv.msg.PassCmd? }

  lemma ReceiveExpout(z: Sizes, s: State, recv: Recv, ok: bool)
    requires s.b.WF(z) && NoPass(s) && (recv.Got? ==> !recv.msg.PassCmd?)
    ensures var r := Receive(z, s, recv, ok); r.Next? ==> NoPass(r.s) && r.s.expout == s.expout
  {
    hide ProcessMsg;
    if recv.Got? { ProcessKeeps(z, s, recv.msg, ok); }
  }

  lemma GatherExpout(z: Sizes, s: State, env: Env)
    requires z.Valid() && s.b.WF(z) && NoPass(s)
    ensures var r := Gather(z, Prelude(s, env), env); NoPass(r) && r.expout == s.expout
  {
    hide ReadPtm, Age;
    var s0 := Prelude(s, env);
    var s1 := if env.accept && !s0.conn.open then Accept(s0) else s0;
    Pty.ReadAnswer(z, s1, env.read);
    AgeKeeps(z, ReadPtm(z, s1, env.read));
  }

  lemma AgeKeeps(z: Sizes, s: State)
    requires z.Valid() && s.b.WF(z)
    ensures var r := Age(z, s); r == s.(b := r.b, log := r.log)
  {}

  lemma StepExpout(m: Matcher, z: Sizes, s: State, env: Env)
    requires z.Valid() && s.b.WF(z) && NoPass(s) && StartsNoPass(env)
    ensures var r := Step(m, z, s, env); r.Next? ==> NoPass(r.s) && r.s.expout == s.expout
  {
    hide Receive, ServPass, DropOld, Gather;
    if Live(s) && !env.interrupted {
      GatherExpout(z, s, env);
      var s0 := Prelude(s, env);
      var s1 := Gather(z, s0, env);
      ReceiveExpout(z, s1, Recvd(s0, env), env.replyOk);
      var r := Receive(z, s1, Recvd(s0, env), env.replyOk);
      if r.Next? { IdlePass(m, z, Signal(r.s, env.sigLate), env); }
    }
  }

  /** What expect_out answers with lasts until the next pass, whoever asks and whatever is read meanwhile. */
  lemma {:induction false} ExpoutLasts(m: Matcher, z: Sizes, s: State, envs: seq<Env>)
    requires z.Valid() && s.b.WF(z) && NoPass(s) && forall i :: 0 <= i < |envs| ==> StartsNoPass(envs[i])
    ensures var r := Run(m, z, s, envs); r.Next? ==> NoPass(r.s) && r.s.expout == s.expout
  {
    hide Step, StartsNoPass, NoPass;
    if envs != [] {
      var n := |envs| - 1;
      ExpoutLasts(m, z, s, envs[..n]);
      var r := Run(m, z, s, envs[..n]);
      if r.Next? { StepExpout(m, z, r.s, envs[n]); }
    }
  }
}
