/** What the server reads from the pty and when it stops, what signals do, and what a pattern is tried on. */
module Pty {
  import opened Octets
  import opened ServerSpec
  import opened ServerRuns
  import opened Overrun

  /** What a read() can add to a window: nothing once the pty is closed or the window is full. */
  function Taken(z: Sizes, s: State, res: ReadResult): Bytes
    requires s.b.WF(z)
  {
    if !s.ptmOpen || !res.Data? then []
    else if |res.data| <= z.raw - |s.b.raw| then res.data else res.data[..z.raw - |s.b.raw|]
  }

  /** Reading appends what was read, and closes the pty at end of file; with no room it is not tried. */
  lemma ReadAnswer(z: Sizes, s: State, res: ReadResult)
    requires s.b.WF(z)
    ensures var r, d := ReadPtm(z, s, res), Taken(z, s, res);
            && r.b == s.b.(raw := s.b.raw + d, ntotal := s.b.ntotal + |d|)
            && Stream(r.log) == Stream(s.log) + d
            && (r.ptmOpen <==> s.ptmOpen && !(res.EndOfFile? && |s.b.raw| < z.raw))
            && r == s.(b := r.b, log := r.log, ptmOpen := r.ptmOpen)
  {
    hide Stream;
    var d := Taken(z, s, res);
    assert s.b.raw + [] == s.b.raw && Stream(s.log) + [] == Stream(s.log);
    if s.ptmOpen && |s.b.raw| < z.raw && res.Data? {
      assert d == res.data[..Min(|res.data|, z.raw - |s.b.raw|)];
      LogSnoc(s.log, Read(d));
    }
  }

  // ---------- only reading reads ----------

  /** From s to r nothing was read, and the pty and the child are as they were. */
  ghost predicate ReadsNothing(s: State, r: State) {
    Stream(r.log) == Stream(s.log) && r.ptmOpen == s.ptmOpen && r.dead == s.dead
  }

  lemma SendReadsNothing(s: State, reply: Reply, ok: bool)
    ensures ReadsNothing(s, SendReply(s, reply, ok))
  {
    hide Stream;
    LogSnoc(s.log, Replied(reply));
  }

  lemma EndReadsNothing(s: State, env: Env)
    ensures ReadsNothing(s, PassEnd(s, env))
  {
    hide Stream, PassEnd;
    var ended, reply := PassEndForm(s, env);
    LogSnoc(s.log, Replied(reply));
    PassEndKeeps(s, env);
  }

  lemma PatternReadsNothing(m: Matcher, z: Sizes, s: State, pat: Bytes, env: Env)
    requires s.b.WF(z) && !Overruns(z, s.b)
    ensures ReadsNothing(s, PassPattern(m, z, s, pat, env))
  {
    hide Stream, PassEnd, TryMatch, Overruns, Raw2Exp, SendReply;
    var s1 := s.(b := Raw2Exp(z, s.b));
    var h := TryMatch(m, s.conn.pass, pat, s1.b.exp, s.ptmOpen);
    if h.Some? {
      var c := ConsumeHit(s1, h.value);
      LogSnoc(s.log, c.log[|s.log|]);
      SendReadsNothing(c, Matched, env.finalOk);
    } else {
      EndReadsNothing(s1, env);
    }
  }

  lemma MatchReadsNothing(m: Matcher, z: Sizes, s: State, env: Env)
    requires s.b.WF(z)
    ensures var r := PassMatch(m, z, s, env); r.Next? ==> ReadsNothing(s, r.s)
  {
    hide Stream, PassEnd, PassPattern, Overruns;
    if s.conn.pass.pattern.Some? {
      if !Overruns(z, s.b) { PatternReadsNothing(m, z, s, s.conn.pass.pattern.value, env); }
    } else {
      EndReadsNothing(s, env);
      EndReadsNothing(s.(b := s.b.(expoffset := s.b.ntotal - s.b.NewCnt(), exp := [])), env);
    }
  }

  lemma DeliverReadsNothing(s: State, start: nat, ok: bool)
    requires start <= s.b.seen <= |s.b.raw|
    ensures ReadsNothing(s, DeliverFrom(s, start, ok))
  {
    hide Stream;
    LogSnoc(s.log, Deliver(s.b.raw[start..s.b.seen], s.b.raw[s.b.seen..]));
  }

  lemma PassReadsNothing(m: Matcher, z: Sizes, s: State, env: Env)
    requires s.b.WF(z)
    ensures var r := ServPass(m, z, s, env); r.Next? ==> ReadsNothing(s, r.s)
  {
    hide Stream, PassMatch, SendStart, LookbackFaults, DeliverFrom;
    if s.conn.open && s.conn.passing && !LookbackFaults(s.b, s.conn.pass.lookback) {
      var s0, start := ClearLookback(s), SendStart(s.b, s.conn.pass.lookback);
      DeliverReadsNothing(s0, start, env.outputOk);
      DeliverFits(z, s0, start, env.outputOk);
      MatchReadsNothing(m, z, DeliverFrom(s0, start, env.outputOk), env);
    }
  }

  lemma DeliverFits(z: Sizes, s: State, start: nat, ok: bool)
    requires s.b.WF(z) && start <= s.b.seen
    ensures DeliverFrom(s, start, ok).b.WF(z)
  {}

  lemma ReceiveReadsNothing(z: Sizes, s: State, recv: Recv, ok: bool)
    requires s.b.WF(z)
    ensures var r := Receive(z, s, recv, ok);
            r.Next? ==> ReadsNothing(if s.conn.open && recv == Got(Close) then s.(ptmOpen := false) else s, r.s)
  {
    hide Stream, ProcessMsg;
    if s.conn.open && recv.Got? { ProcessReadsNothing(z, s, recv.msg, ok); }
  }

  lemma ProcessReadsNothing(z: Sizes, s: State, msg: Msg, ok: bool)
    requires s.b.WF(z)
    ensures var r := ProcessMsg(z, s, msg, ok);
            r.Next? ==> ReadsNothing(if msg.Close? then s.(ptmOpen := false) else s, r.s)
  {
    hide Stream, CStr, Raw2Exp, Overruns, Peek, ExpoutAnswer, SendReply, StartPass;
    match msg
    case Hello(_) => SendReadsNothing(s, HelloReply, ok); SendReadsNothing(s, Error(ProtoError), ok);
    case Disconn => SendReadsNothing(s, DisconnReply, ok);
    case Send(_) => SendReadsNothing(s, Ack, ok);
    case Input(_) =>
    case PassCmd(_, _, _, _, _) => StartReadsNothing(s, msg);
    case Expout(i) => SendReadsNothing(s, ExpoutAnswer(s.expout, i), ok);
    case Winch =>
    case Close => SendReadsNothing(s.(ptmOpen := false), Ack, ok);
    case Kill(done) => SendReadsNothing(s, if done then Ack else Error(SysError), ok);
    case Set(nonblock, timeout) => SendReadsNothing(SetOptions(s, nonblock, timeout), Ack, ok);
    case Info =>
      if !Overruns(z, s.b) {
        var s1 := s.(b := Raw2Exp(z, s.b));
        SendReadsNothing(s1, InfoReply(Peek(s1.b.exp)), ok);
      }
  }

  lemma StartReadsNothing(s: State, msg: Msg)
    requires msg.PassCmd?
    ensures ReadsNothing(s, StartPass(s, msg))
  {
    hide CStr, Stream;
  }

  lemma AgeReadsNothing(z: Sizes, s: State)
    requires z.Valid() && s.b.WF(z)
    ensures ReadsNothing(s, Age(z, s))
  {
    hide Stream;
    var r := Age(z, s);
    if r.log != s.log { LogSnoc(s.log, r.log[|s.log|]); }
  }

  /** -cloexit closes the pty of a child that has died, before anything is read. */
  function OpenForRead(s: State, env: Env): bool { s.ptmOpen && !(env.cloexit && (s.dead || env.sigEarly)) }

  /** The client of this iteration asks to close the pty. */
  predicate Closes(s: State, env: Env) { s.conn.open && env.recv == Got(Close) }

  /**
   * One iteration adds to the stream exactly what its read() returned, as far as there was room.  It closes the pty
   * iff it reads its end, is told to, or -cloexit does; and it learns of the child's death by either signal.
   */
  lemma IterationReads(m: Matcher, z: Sizes, s: State, env: Env)
    requires z.Valid() && s.b.WF(z) && Live(s) && Step(m, z, s, env).Next?
    ensures var r := Step(m, z, s, env).s;
            var open := OpenForRead(s, env);
            && Stream(r.log) == Stream(s.log) +
                                (if env.interrupted then [] else Taken(z, s.(ptmOpen := open), env.read))
            && (r.ptmOpen <==> open && (env.interrupted ||
                                        !((env.read.EndOfFile? && |s.b.raw| < z.raw) || Closes(s, env))))
            && (r.dead <==> s.dead || env.sigEarly || (env.sigLate && !env.interrupted))
  {
    hide Stream, ServPass, Receive, DropOld, Gather, Taken;
    PreludeFacts(s, env);
    var s0 := Prelude(s, env);
    assert Stream(s.log) + [] == Stream(s.log);
    if !env.interrupted {
      GatherReads(z, s0, env);
      var s1 := Gather(z, s0, env);
      ReceiveReadsNothing(z, s1, Recvd(s0, env), env.replyOk);
      var s2 := Receive(z, s1, Recvd(s0, env), env.replyOk).s;
      PassReadsNothing(m, z, Signal(s2, env.sigLate), env);
      TakenSame(z, s0, s.(ptmOpen := s0.ptmOpen), env.read);
    }
  }

  lemma PreludeFacts(s: State, env: Env)
    ensures var r := Prelude(s, env);
            r == s.(ptmOpen := OpenForRead(s, env), dead := s.dead || env.sigEarly)
  {}

  lemma TakenSame(z: Sizes, s: State, t: State, res: ReadResult)
    requires s.b.WF(z) && s.b == t.b && s.ptmOpen == t.ptmOpen
    ensures Taken(z, s, res) == Taken(z, t, res)
  {}

  lemma GatherReads(z: Sizes, s: State, env: Env)
    requires z.Valid() && s.b.WF(z)
    ensures var g := Gather(z, s, env);
            && Stream(g.log) == Stream(s.log) + Taken(z, s, env.read)
            && (g.ptmOpen <==> s.ptmOpen && !(env.read.EndOfFile? && |s.b.raw| < z.raw))
            && g.dead == s.dead && (s.conn.open ==> g.conn == s.conn)
            && (!s.conn.open ==> g.conn.open == env.accept)
  {
    hide Stream, Age, ReadPtm, Taken;
    var s1 := if env.accept && !s.conn.open then Accept(s) else s;
    TakenSame(z, s, s1, env.read);
    ReadAnswer(z, s1, env.read);
    var s2 := ReadPtm(z, s1, env.read);
    AgeReadsNothing(z, s2);
    AgeKeepsConn(z, s2);
  }

  lemma AgeKeepsConn(z: Sizes, s: State)
    requires z.Valid() && s.b.WF(z)
    ensures Age(z, s).conn == s.conn
  {}

  /** Once the pty is closed, by its end, by CLOSE or by -cloexit, nothing is read any more, in any run. */
  lemma {:induction false} StaysClosed(m: Matcher, z: Sizes, s: State, envs: seq<Env>)
    requires z.Valid() && s.b.WF(z) && !s.ptmOpen
    ensures var r := Run(m, z, s, envs); r.Next? ==> !r.s.ptmOpen && Stream(r.s.log) == Stream(s.log)
  {
    hide Iterate, Stream;
    if envs != [] {
      var n := |envs| - 1;
      StaysClosed(m, z, s, envs[..n]);
      var r := Run(m, z, s, envs[..n]);
      if r.Next? && Live(r.s) && Step(m, z, r.s, envs[n]).Next? {
        IterationReads(m, z, r.s, envs[n]);
        assert Stream(s.log) + [] == Stream(s.log);
      }
    }
  }

  // ---------- what a pattern is tried on ----------

  /** Where the untried output starts: at the cursor, or later where the window starts if it was never copied. */
  ghost function Untried(s: State): int {
    var S := Stream(s.log);
    if s.b.expoffset < s.b.rawoffset <= |S| then |Strip(S[..s.b.rawoffset])| else At(s)
  }

  lemma CopyExp(z: Sizes, b: Buf, S: Bytes, A: Bytes)
    requires BufInv(z, b, S, A) && !Overruns(z, b)
    ensures var k, b' := Resync(b).expoffset, Raw2Exp(z, b);
            k <= |S| && b'.exp == Resync(b).exp + Strip(S[k..]) && b'.expoffset == |S|
  {
    hide Strip, IsSuffix;
    var k := Resync(b).expoffset;
    assert S[k..] == S[b.rawoffset..][k - b.rawoffset..];
  }

  lemma CopyCursor(z: Sizes, b: Buf, S: Bytes, A: Bytes)
    requires BufInv(z, b, S, A) && !Overruns(z, b)
    ensures b.rawoffset <= |S| && b.expoffset <= |S|
    ensures Cursor(Raw2Exp(z, b), S) ==
            if b.expoffset < b.rawoffset then |Strip(S[..b.rawoffset])| else Cursor(b, S)
  {
    CopyExp(z, b, S, A);
    assert b.rawoffset <= |S| && b.expoffset <= |S|;
    hide Strip, Raw2Exp, BufInv, Overruns;
    var k := Resync(b).expoffset;
    StripPrefix(S, k, |S|);
    assert S[..|S|] == S && S[k..|S|] == S[k..];
  }

  /**
   * Copying loses nothing and repeats nothing: a pattern is tried on all output after the cursor, NULs removed, or on
   * all that is still in the window if more has left it.
   */
  lemma TriedOn(z: Sizes, s: State)
    requires Inv(z, s) && !Overruns(z, s.b)
    ensures s.b.WF(z)
    ensures var T, c := Strip(Stream(s.log)), Untried(s);
            0 <= c <= |T| && Raw2Exp(z, s.b).exp == T[c..] && At(s) <= c
  {
    hide Strip, Inv, Stream, Accounted, Raw2Exp, Overruns, Untried, At;
    WFOf(z, s);
    CopiedIsSuffix(z, s);
    UntriedIsCursor(z, s);
  }

  lemma UntriedIsCursor(z: Sizes, s: State)
    requires s.b.WF(z) && Inv(z, s) && !Overruns(z, s.b)
    ensures Untried(s) == |Strip(Stream(s.log))| - |Raw2Exp(z, s.b).exp| && At(s) <= Untried(s)
  {
    var S, A := Stream(s.log), Accounted(s.log);
    hide Strip, BufInv, Stream, Accounted, Raw2Exp, Overruns, Cursor, CutsOk, Cuts, LogInv;
    CopyCursor(z, s.b, S, A);
    CopyBuf(z, s.b, S, A);
    CopiedCursor(z, s.b, S, A);
  }

  lemma CopiedCursor(z: Sizes, b: Buf, S: Bytes, A: Bytes)
    requires BufInv(z, b, S, A) && !Overruns(z, b)
    ensures Cursor(Raw2Exp(z, b), S) == |Strip(S)| - |Raw2Exp(z, b).exp|
  {
    CopyExp(z, b, S, A);
    hide Strip, Raw2Exp, BufInv, Overruns;
    assert S[..|S|] == S;
  }

  /** Dropping old data moves the cursor by what is dropped from the expect buffer, and by nothing else. */
  lemma DropCursor(z: Sizes, s: State)
    requires Inv(z, s)
    ensures s.b.WF(z)
    ensures At(s.(b := DropOld(z, s.b))) - At(s) == if |s.b.exp| > z.maxOld then |s.b.exp| - z.maxOld else 0
  {
    hide Strip, CutsOk, Cuts, Stream, Accounted, LogInv;
  }

  // ---------- the end of the server ----------

  /** The loop ends when the child was reaped and no client is connected: nothing happens any more. */
  lemma {:induction false} Ends(m: Matcher, z: Sizes, s: State, envs: seq<Env>)
    requires z.Valid() && s.b.WF(z) && s.waited && !s.conn.open
    ensures Run(m, z, s, envs) == Next(s)
  {
    hide Iterate;
    if envs != [] { Ends(m, z, s, envs[..|envs| - 1]); }
  }

  /** Until then it goes on: a client can connect as long as the child was not reaped. */
  lemma StillAccepts(m: Matcher, z: Sizes, s: State)
    requires z.Valid() && s.b.WF(z) && !s.waited && !s.conn.open
    ensures var r := Step(m, z, s, PLAIN.(accept := true)); r.Next? && r.s.conn.open
  {
    hide PassMatch, SendStart, LookbackFaults, DropOld, Age;
    AgeKeepsConn(z, Accept(s));
  }

  /** The child is reaped only when EXITED is due, and stays reaped. */
  lemma ReapedOnce(s: State, env: Env)
    ensures var r, f := PassEnd(s, env), s.conn.pass.flags;
            r.waited <==> s.waited || (!s.ptmOpen && s.b.NewCnt() == 0 && f.exit && !f.eof && s.dead)
  {}
}
