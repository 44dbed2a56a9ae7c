/** What the server says to its client in one loop iteration, when the client is alive and reads. */
module ServerTalk {
  import opened Octets
  import opened ServerSpec
  import opened ServerRuns

  // ---------- what the server says ----------

  datatype Out = Output(data: Bytes) | Answer(reply: Reply)

  function OutOf(e: Event): seq<Out> {
    match e
    case Deliver(replay, unseen) => [Output(replay + unseen)]
    case Replied(r) => [Answer(r)]
    case _ => []
  }

  function Outs(log: seq<Event>): seq<Out> {
    if log == [] then [] else Outs(log[..|log| - 1]) + OutOf(log[|log| - 1])
  }

  lemma OutsSnoc(log: seq<Event>, e: Event)
    ensures Outs(log + [e]) == Outs(log) + OutOf(e)
  {
    assert (log + [e])[..|log + [e]| - 1] == log;
  }

  /** Replies that end a command: everything but HELLO and DISCONN. */
  predicate IsEnd(o: Out) { o.Answer? && !o.reply.HelloReply? && !o.reply.DisconnReply? }

  predicate AllOutput(b: seq<Out>) { forall i :: 0 <= i < |b| ==> b[i].Output? }

  /** What one serv_pass() may say: output, then possibly the final reply, which ends the pass. */
  predicate PassTalk(b: seq<Out>, before: bool, after: bool) {
    if !before then b == [] && !after
    else if after then AllOutput(b)
    else b != [] && AllOutput(b[..|b| - 1]) && IsEnd(b[|b| - 1])
  }

  lemma ReplyTalk(s: State, r: Reply)
    ensures Outs(SendReply(s, r, true).log) == Outs(s.log) + [Answer(r)]
  {
    OutsSnoc(s.log, Replied(r));
  }

  lemma EndTalk(s: State, env: Env) returns (said: seq<Out>)
    requires env.finalOk && s.conn.passing
    ensures var r := PassEnd(s, env);
            && Outs(r.log) == Outs(s.log) + said && r.conn.open == s.conn.open
            && (if r.conn.passing then said == [] else |said| == 1 && IsEnd(said[0]))
  {
    hide Outs, PassEnd;
    var ended, reply := PassEndForm(s, env);
    said := if ended then [Answer(reply)] else [];
    if ended { OutsSnoc(s.log, Replied(reply)); }
  }

  lemma PatternTalk(m: Matcher, z: Sizes, s: State, pat: Bytes, env: Env) returns (said: seq<Out>)
    requires env.finalOk && s.conn.passing && s.b.WF(z) && !Overruns(z, s.b)
    ensures var r := PassPattern(m, z, s, pat, env);
            && Outs(r.log) == Outs(s.log) + said && r.conn.open == s.conn.open
            && (if r.conn.passing then said == [] else |said| == 1 && IsEnd(said[0]))
  {
    hide Outs, PassEnd, TryMatch, Raw2Exp, Overruns;
    var s1 := s.(b := Raw2Exp(z, s.b));
    var h := TryMatch(m, s.conn.pass, pat, s1.b.exp, s.ptmOpen);
    if h.Some? {
      var s2 := ConsumeHit(s1, h.value);
      OutsSnoc(s.log, s2.log[|s.log|]);
      ReplyTalk(s2, Matched);
      said := [Answer(Matched)];
    } else {
      said := EndTalk(s1, env);
    }
  }

  lemma MatchTalk(m: Matcher, z: Sizes, s: State, env: Env) returns (said: seq<Out>)
    requires env.finalOk && s.conn.passing && s.b.WF(z) && PassMatch(m, z, s, env).Next?
    ensures var r := PassMatch(m, z, s, env).s;
            && Outs(r.log) == Outs(s.log) + said && r.conn.open == s.conn.open
            && (if r.conn.passing then said == [] else |said| == 1 && IsEnd(said[0]))
  {
    hide Outs, PassEnd, PassPattern, Overruns;
    if s.conn.pass.pattern.Some? {
      said := PatternTalk(m, z, s, s.conn.pass.pattern.value, env);
    } else if s.conn.pass.subcmd.Interact? || s.conn.pass.subcmd.Wait? {
      said := EndTalk(s.(b := s.b.(expoffset := s.b.ntotal - s.b.NewCnt(), exp := [])), env);
    } else {
      said := EndTalk(s, env);
    }
  }

  lemma ServPassTalk(m: Matcher, z: Sizes, s: State, env: Env) returns (said: seq<Out>)
    requires env.outputOk && env.finalOk && s.b.WF(z) && s.conn.open && ServPass(m, z, s, env).Next?
    ensures var r := ServPass(m, z, s, env).s;
            Outs(r.log) == Outs(s.log) + said && r.conn.open && PassTalk(said, s.conn.passing, r.conn.passing)
  {
    hide Outs, PassMatch, SendStart, LookbackFaults;
    said := [];
    if s.conn.passing {
      var s1 := DeliverFrom(ClearLookback(s), SendStart(s.b, s.conn.pass.lookback), true);
      var out := [];
      if s1.log != s.log {
        var e := s1.log[|s.log|];
        OutsSnoc(s.log, e);
        out := [Output(e.replay + e.unseen)];
      }
      var end := MatchTalk(m, z, s1, env);
      said := out + end;
      assert Outs(s.log) + out + end == Outs(s.log) + said;
      if end != [] { assert said[..|said| - 1] == out; }
    }
  }

  const HELLO := Hello(Some(VERSION))

  /** Messages of an interact client that the server does not answer. */
  predicate IsNoise(msg: Msg) { msg.Input? || msg.Winch? }

  /** What the server says to one message, and what becomes of the connection. */
  predicate MsgTalk(msg: Msg, said: seq<Out>, c: Conn, c': Conn) {
    if msg == HELLO then said == [Answer(HelloReply)] && c' == c
    else if msg.Hello? then true
    else if msg.Disconn? then said == [Answer(DisconnReply)] && !c'.open
    else if IsNoise(msg) then said == [] && c' == c
    else if msg.PassCmd? then said == [] && c'.open && c'.passing
    else |said| == 1 && IsEnd(said[0]) && c' == c
  }

  lemma ProcessTalk(z: Sizes, s: State, msg: Msg) returns (said: seq<Out>)
    requires s.b.WF(z) && s.conn.open && ProcessMsg(z, s, msg, true).Next? && (msg.Hello? ==> msg == HELLO)
    ensures var r := ProcessMsg(z, s, msg, true).s;
            Outs(r.log) == Outs(s.log) + said && MsgTalk(msg, said, s.conn, r.conn)
  {
    hide Outs, Raw2Exp, Overruns, CStr, Peek, StartPass;
    assert CStr(VERSION) == VERSION by { VersionIsCStr(); }
    var r := ProcessMsg(z, s, msg, true).s;
    said := [];
    if msg.PassCmd? {
      PassCmdTalk(s, msg);
    } else if !IsNoise(msg) {
      var reply := r.log[|s.log|].reply;
      said := [Answer(reply)];
      ReplyTalk(s, reply);
    }
  }

  lemma VersionIsCStr()
    ensures CStr(VERSION) == VERSION
  {
    assert forall i :: 0 <= i < |VERSION| ==> VERSION[i] != NUL;
  }

  lemma PassCmdTalk(s: State, msg: Msg)
    requires msg.PassCmd?
    ensures var r := StartPass(s, msg); r.log == s.log && r.conn.open == s.conn.open && r.conn.passing
  {
    hide CStr;
  }

  /** The client is alive and reads: nothing the server sends is lost, nothing it receives is broken. */
  predicate Reliable(env: Env) {
    env.replyOk && env.outputOk && env.finalOk && !env.recv.Broken? &&
    (env.recv.Got? && env.recv.msg.Hello? ==> env.recv.msg == HELLO)
  }

  /** The connection after an iteration of a connected server, and what it said: reply, then pass. */
  predicate IterTalk(recv: Recv, reply: seq<Out>, pass: seq<Out>, c: Conn, mid: Conn, c': Conn) {
    && (if recv.Got? then MsgTalk(recv.msg, reply, c, mid) else reply == [] && mid == c)
    && (if mid.open then c'.open && PassTalk(pass, mid.passing, c'.passing) else pass == [] && !c'.open)
  }

  lemma ReceiveTalk(z: Sizes, s: State, recv: Recv, env: Env) returns (reply: seq<Out>)
    requires s.b.WF(z) && s.conn.open && Reliable(env) && (recv == env.recv || recv == Nothing)
    requires Receive(z, s, recv, true).Next?
    ensures var r := Receive(z, s, recv, true).s;
            && Outs(r.log) == Outs(s.log) + reply
            && (if recv.Got? then MsgTalk(recv.msg, reply, s.conn, r.conn) else reply == [] && r.conn == s.conn)
  {
    hide Outs, ProcessMsg, MsgTalk;
    reply := [];
    if recv.Got? { reply := ProcessTalk(z, s, recv.msg); }
  }

  lemma ServeTalk(m: Matcher, z: Sizes, s: State, recv: Recv, env: Env)
      returns (reply: seq<Out>, pass: seq<Out>, mid: Conn)
    requires s.b.WF(z) && s.conn.open && Reliable(env) && (recv == env.recv || recv == Nothing)
    requires Serve(m, z, s, recv, env).Next?
    ensures var r := Serve(m, z, s, recv, env).s;
            Outs(r.log) == Outs(s.log) + (reply + pass) && IterTalk(recv, reply, pass, s.conn, mid, r.conn)
  {
    hide Outs, Receive, ServPass, PassTalk, MsgTalk;
    reply := ReceiveTalk(z, s, recv, env);
    pass := [];
    var s1 := Receive(z, s, recv, true).s;
    mid := s1.conn;
    SecondHalf(m, z, s1, env);
    if mid.open { pass := ServPassTalk(m, z, Signal(s1, env.sigLate), env); }
    assert Outs(s.log) + reply + pass == Outs(s.log) + (reply + pass);
  }

  lemma SecondHalf(m: Matcher, z: Sizes, s: State, env: Env)
    requires s.b.WF(z)
    ensures var t := Signal(s, env.sigLate);
            t.b == s.b && t.log == s.log && t.conn == s.conn && (!s.conn.open ==> ServPass(m, z, t, env) == Next(t))
  {
    hide PassMatch, SendStart, LookbackFaults;
  }

  lemma ReadTalk(z: Sizes, s: State, r: ReadResult)
    requires s.b.WF(z)
    ensures var s' := ReadPtm(z, s, r); Outs(s'.log) == Outs(s.log) && s'.conn == s.conn
  {
    hide Outs;
    var s' := ReadPtm(z, s, r);
    if s'.log != s.log { OutsSnoc(s.log, s'.log[|s.log|]); }
  }

  lemma AgeTalk(z: Sizes, s: State)
    requires z.Valid() && s.b.WF(z)
    ensures var s' := Age(z, s); Outs(s'.log) == Outs(s.log) && s'.conn == s.conn
  {
    hide Outs;
    var s' := Age(z, s);
    if s'.log != s.log { OutsSnoc(s.log, s'.log[|s.log|]); }
  }

  /** Reading and ageing say nothing; only accept() touches the connection. */
  lemma GatherTalk(z: Sizes, s: State, env: Env)
    requires z.Valid() && s.b.WF(z)
    ensures var r := Gather(z, s, env);
            && Outs(r.log) == Outs(s.log)
            && r.conn == (if env.accept && !s.conn.open then NO_CONN.(open := true) else s.conn)
  {
    hide Outs, ReadPtm, Age;
    var s0 := if env.accept && !s.conn.open then Accept(s) else s;
    ReadTalk(z, s0, env.read);
    AgeTalk(z, ReadPtm(z, s0, env.read));
  }

  /** An iteration of a server that has no connection and accepts none says nothing. */
  lemma ClosedTalk(m: Matcher, z: Sizes, s: State, env: Env)
    requires z.Valid() && s.b.WF(z) && !s.conn.open && Step(m, z, s, env).Next?
    ensures var r := Step(m, z, s, env).s;
            && Outs(r.log) == Outs(s.log)
            && (r.conn == s.conn || (env.accept && r.conn == NO_CONN.(open := true)))
  {
    hide Outs, Gather, ServPass, DropOld;
    if Live(s) && !env.interrupted {
      var s0 := Prelude(s, env);
      GatherTalk(z, s0, env);
      var s1 := Gather(z, s0, env);
      SecondHalf(m, z, s1, env);
      IdlePass(m, z, Signal(s1, env.sigLate), env);
    }
  }

  lemma IdlePass(m: Matcher, z: Sizes, s: State, env: Env)
    requires s.b.WF(z) && (!s.conn.open || !s.conn.passing)
    ensures ServPass(m, z, s, env) == Next(s)
  {
    hide PassMatch, SendStart, LookbackFaults;
  }

  /** An iteration of a connected server: it hears at most one message and may continue its pass. */
  lemma OpenTalk(m: Matcher, z: Sizes, s: State, env: Env) returns (reply: seq<Out>, pass: seq<Out>, mid: Conn)
    requires z.Valid() && s.b.WF(z) && s.conn.open && Reliable(env) && !env.interrupted && Step(m, z, s, env).Next?
    ensures var r := Step(m, z, s, env).s;
            Outs(r.log) == Outs(s.log) + (reply + pass) && IterTalk(env.recv, reply, pass, s.conn, mid, r.conn)
  {
    hide Outs, Gather, Serve, DropOld, IterTalk;
    var s0 := Prelude(s, env);
    GatherTalk(z, s0, env);
    reply, pass, mid := ServeTalk(m, z, Gather(z, s0, env), env.recv, env);
  }
}
