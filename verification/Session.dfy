/**
 * One client of sexpect and the server, talking over two reliable FIFO channels.
 *
 * The server half is the server of ServerSpec, one whole loop iteration at a time; the client half is
 * cli_hello(), cli_loop() and cli_disconn().  A run steps either side, in any order.
 */
module Session {
  import opened Octets
  import opened ServerSpec
  import opened ServerRuns
  import opened ServerTalk

  /** Where the client is.  `detached`: it left an interact with CTRL-] before any final reply. */
  datatype Phase = Start | WaitHello | Loop | WaitDisc(detached: bool) | Done | Failed

  /** `got` is what the client has received, `s2c` what is still on its way. */
  datatype Sys = Sys(srv: State, accepted: bool, phase: Phase, c2s: seq<Msg>, s2c: seq<Out>, got: seq<Out>)

  datatype Action = ServerAct(env: Env) | Connect | Receive | Type(data: Bytes) | Resize | Detach

  const HELLO_OUT := Answer(HelloReply)
  const DISCONN_OUT := Answer(DisconnReply)

  /** What cli_main() sends after HELLO. */
  predicate IsCommand(cmd: Msg) { !cmd.Hello? && !cmd.Disconn? && !IsNoise(cmd) }

  predicate IsInteract(cmd: Msg) { cmd.PassCmd? && cmd.subcmd.Interact? }

  /** The client takes the next message; `cmd` is its command. */
  function ClientReceive(cmd: Msg, y: Sys): Sys
    requires y.s2c != []
  {
    var h := y.s2c[0];
    var y1 := y.(s2c := y.s2c[1..], got := y.got + [h]);
    match y.phase
    case WaitHello =>
      if h == HELLO_OUT then y1.(phase := Loop, c2s := y.c2s + [cmd])
      else if h.Answer? && h.reply.Error? then y1.(phase := Failed)
      else y1
    case Loop =>
      if h.Output? then y1
      else if IsEnd(h) then y1.(phase := WaitDisc(false), c2s := y.c2s + [Disconn])
      else y1.(phase := Failed)
    case WaitDisc(_) => if h == DISCONN_OUT then y1.(phase := Done) else y1
    case _ => y
  }

  /** What the server's environment may be: a living client, whose next message it may find. */
  predicate Allowed(y: Sys, env: Env) {
    && Reliable(env)
    && (env.accept ==> y.phase != Start && !y.accepted)
    && (env.recv.Got? ==> y.srv.conn.open && !env.interrupted && y.c2s != [] && y.c2s[0] == env.recv.msg)
  }

  /** One action of either side, if it is possible; a server that crashes does nothing. */
  function Act(m: Matcher, z: Sizes, cmd: Msg, y: Sys, a: Action): Option<Sys>
    requires z.Valid() && y.srv.b.WF(z)
  {
    match a
    case ServerAct(env) =>
      if Allowed(y, env) && Step(m, z, y.srv, env).Next? then
        var r := Step(m, z, y.srv, env).s;
        Some(y.(srv := r, accepted := y.accepted || r.conn.open,
                c2s := if env.recv.Got? then y.c2s[1..] else y.c2s,
                s2c := y.s2c + NewOuts(y.srv, r)))
      else None
    case Connect => if y.phase.Start? then Some(y.(phase := WaitHello, c2s := [HELLO])) else None
    case Receive =>
      if y.s2c != [] && (y.phase.WaitHello? || y.phase.Loop? || y.phase.WaitDisc?) then Some(ClientReceive(cmd, y))
      else None
    case Type(data) =>
      if y.phase.Loop? && IsInteract(cmd) then Some(y.(c2s := y.c2s + [Input(data)])) else None
    case Resize => if y.phase.Loop? && IsInteract(cmd) then Some(y.(c2s := y.c2s + [Winch])) else None
    case Detach =>
      if y.phase.Loop? && IsInteract(cmd) then Some(y.(phase := WaitDisc(true), c2s := y.c2s + [Disconn])) else None
  }

  lemma ActFits(m: Matcher, z: Sizes, cmd: Msg, y: Sys, a: Action)
    requires z.Valid() && y.srv.b.WF(z)
    ensures var r := Act(m, z, cmd, y, a); r.Some? ==> r.value.srv.b.WF(z)
  {
    hide Step, NewOuts;
  }

  function NewOuts(s: State, r: State): seq<Out> {
    if |Outs(s.log)| <= |Outs(r.log)| then Outs(r.log)[|Outs(s.log)|..] else []
  }

  // ---------- the invariant ----------

  /** Everything the server said to this client after HELLO. */
  function Body(y: Sys): seq<Out> {
    var heard := y.got + y.s2c;
    if heard == [] then [] else heard[1..]
  }

  /** Output, then exactly one final reply. */
  predicate Answered(b: seq<Out>) { b != [] && IsEnd(b[|b| - 1]) && AllOutput(b[..|b| - 1]) }

  /** Output, at most one final reply, DISCONN. */
  predicate Closed(b: seq<Out>) {
    b != [] && b[|b| - 1] == DISCONN_OUT && (AllOutput(b[..|b| - 1]) || Answered(b[..|b| - 1]))
  }

  predicate Noise(c: seq<Msg>) { forall i :: 0 <= i < |c| ==> IsNoise(c[i]) }

  /** The command is on its way, in progress, or answered; X are the messages before a DISCONN. */
  predicate Working(cmd: Msg, X: seq<Msg>, body: seq<Out>, passing: bool) {
    || (X != [] && X[0] == cmd && Noise(X[1..]) && body == [] && !passing)
    || (Noise(X) && cmd.PassCmd? && passing && AllOutput(body))
    || (Noise(X) && !passing && Answered(body))
  }

  ghost predicate SysInv(z: Sizes, cmd: Msg, y: Sys) {
    var c := y.srv.conn;
    && y.srv.b.WF(z)
    && (c.open ==> y.accepted)
    && match y.phase
       case Start => !y.accepted && y.c2s == [] && y.s2c == [] && y.got == []
       case WaitHello =>
         && y.got == []
         && (y.accepted ==> c.open && !c.passing)
         && ((y.c2s == [HELLO] && y.s2c == []) || (y.accepted && y.c2s == [] && y.s2c == [HELLO_OUT]))
       case Loop =>
         && c.open && y.got != [] && y.got[0] == HELLO_OUT && AllOutput(y.got[1..])
         && Working(cmd, y.c2s, Body(y), c.passing)
       case WaitDisc(detached) =>
         && y.accepted && y.got != [] && y.got[0] == HELLO_OUT && (detached ==> IsInteract(cmd))
         && (!detached ==> Answered(y.got[1..]) && y.s2c == if c.open then [] else [DISCONN_OUT])
         && (if c.open then
               y.c2s != [] && y.c2s[|y.c2s| - 1] == Disconn &&
               Working(cmd, y.c2s[..|y.c2s| - 1], Body(y), c.passing)
             else y.c2s == [] && y.s2c != [] && Closed(Body(y)))
       case Done =>
         && y.accepted && !c.open && y.c2s == [] && y.s2c == []
         && y.got != [] && y.got[0] == HELLO_OUT && Closed(y.got[1..])
       case Failed => false
  }

  // ---------- the server keeps it ----------

  lemma WorkingStep(cmd: Msg, X: seq<Msg>, body: seq<Out>, recv: Recv, reply: seq<Out>, pass: seq<Out>,
                    c: Conn, mid: Conn, c': Conn)
    requires IsCommand(cmd) && c.open && Working(cmd, X, body, c.passing)
    requires recv == Nothing || (X != [] && recv == Got(X[0]))
    requires IterTalk(recv, reply, pass, c, mid, c')
    ensures c'.open
    ensures Working(cmd, if recv.Got? then X[1..] else X, body + (reply + pass), c'.passing)
    ensures Answered(body) ==> reply + pass == []
  {
    var b', X' := body + (reply + pass), if recv.Got? then X[1..] else X;
    assert recv.Got? && !(body == [] && X[0] == cmd) ==> IsNoise(X[0]);
    if mid.passing && !c'.passing {
      assert b'[..|b'| - 1] == body + (reply + pass[..|pass| - 1]);
      assert Answered(b');
    } else if !mid.passing {
      assert pass == [];
      if reply == [] { assert b' == body; } else { assert b' == reply; }
    }
  }

  lemma NewOutsIs(s: State, r: State, said: seq<Out>)
    requires Outs(r.log) == Outs(s.log) + said
    ensures NewOuts(s, r) == said
  {}

  lemma BodyGrows(y: Sys, y': Sys, said: seq<Out>)
    requires y'.got == y.got && y'.s2c == y.s2c + said && y.got + y.s2c != []
    ensures Body(y') == Body(y) + said
  {
    assert y'.got + y'.s2c == (y.got + y.s2c) + said;
  }

  /** The answer to DISCONN closes the session. */
  lemma ClosingStep(cmd: Msg, body: seq<Out>, reply: seq<Out>, pass: seq<Out>, c: Conn, mid: Conn, c': Conn)
    requires IsCommand(cmd) && Working(cmd, [], body, c.passing)
    requires IterTalk(Got(Disconn), reply, pass, c, mid, c')
    ensures !c'.open && reply + pass == [DISCONN_OUT] && Closed(body + (reply + pass))
  {}

  /** A server without a connection keeps the invariant: it can only accept. */
  lemma ClosedServer(m: Matcher, z: Sizes, cmd: Msg, y: Sys, env: Env)
    requires z.Valid() && SysInv(z, cmd, y) && Allowed(y, env) && Step(m, z, y.srv, env).Next? && !y.srv.conn.open
    ensures SysInv(z, cmd, Act(m, z, cmd, y, ServerAct(env)).value)
  {
    hide Step, Outs, Working, Closed, Answered;
    ClosedTalk(m, z, y.srv, env);
    NewOutsIs(y.srv, Step(m, z, y.srv, env).s, []);
    assert y.s2c + [] == y.s2c;
  }

  lemma QuietStep(m: Matcher, z: Sizes, s: State, env: Env)
    requires z.Valid() && s.b.WF(z) && env.interrupted && Step(m, z, s, env).Next?
    ensures var r := Step(m, z, s, env).s; r.conn == s.conn && r.log == s.log
  {
    hide Gather, Serve, DropOld;
  }

  lemma OpenServer(m: Matcher, z: Sizes, cmd: Msg, y: Sys, env: Env)
    requires z.Valid() && IsCommand(cmd) && SysInv(z, cmd, y) && Allowed(y, env) && Step(m, z, y.srv, env).Next?
    requires y.srv.conn.open && !env.interrupted
    ensures SysInv(z, cmd, Act(m, z, cmd, y, ServerAct(env)).value)
  {
    SysBasics(z, cmd, y);
    hide Step, Outs, Working, Closed, Answered, IterTalk, SysInv;
    var r := Step(m, z, y.srv, env).s;
    var reply, pass, mid := OpenTalk(m, z, y.srv, env);
    NewOutsIs(y.srv, r, reply + pass);
    SaysKeeps(z, cmd, y, Act(m, z, cmd, y, ServerAct(env)).value, env.recv, reply, pass, mid);
  }

  lemma SysBasics(z: Sizes, cmd: Msg, y: Sys)
    requires SysInv(z, cmd, y)
    ensures y.srv.b.WF(z) && (y.srv.conn.open ==> y.accepted)
  {}

  /** The same, with what the server said given. */
  lemma SaysKeeps(z: Sizes, cmd: Msg, y: Sys, y': Sys, recv: Recv, reply: seq<Out>, pass: seq<Out>, mid: Conn)
    requires IsCommand(cmd) && SysInv(z, cmd, y) && y.srv.conn.open && y'.srv.b.WF(z)
    requires recv == Nothing || (y.c2s != [] && recv == Got(y.c2s[0]))
    requires IterTalk(recv, reply, pass, y.srv.conn, mid, y'.srv.conn)
    requires y' == y.(srv := y'.srv, c2s := if recv.Got? then y.c2s[1..] else y.c2s, s2c := y.s2c + (reply + pass))
    ensures SysInv(z, cmd, y')
  {
    hide Working, Closed, Answered, IterTalk;
    var said, c, c' := reply + pass, y.srv.conn, y'.srv.conn;
    if y.phase.WaitHello? {
      HelloStep(recv, reply, pass, c, mid, c', y.c2s);
    } else {
      BodyGrows(y, y', said);
      if y.phase.Loop? {
        WorkingStep(cmd, y.c2s, Body(y), recv, reply, pass, c, mid, c');
      } else {
        DiscStep(cmd, y, recv, reply, pass, mid, c');
        if !y.phase.detached { assert Body(y) == y.got[1..] && y.s2c + said == said; }
      }
    }
  }

  lemma HelloStep(recv: Recv, reply: seq<Out>, pass: seq<Out>, c: Conn, mid: Conn, c': Conn, c2s: seq<Msg>)
    requires c.open && !c.passing && IterTalk(recv, reply, pass, c, mid, c')
    requires recv == Nothing || (c2s == [HELLO] && recv == Got(HELLO))
    ensures c'.open && !c'.passing && reply + pass == if recv.Got? then [HELLO_OUT] else []
  {}

  lemma DiscStep(cmd: Msg, y: Sys, recv: Recv, reply: seq<Out>, pass: seq<Out>, mid: Conn, c': Conn)
    requires IsCommand(cmd) && y.srv.conn.open && y.c2s != [] && y.c2s[|y.c2s| - 1] == Disconn
    requires Working(cmd, y.c2s[..|y.c2s| - 1], Body(y), y.srv.conn.passing)
    requires recv == Nothing || recv == Got(y.c2s[0])
    requires IterTalk(recv, reply, pass, y.srv.conn, mid, c')
    ensures var c2s' := if recv.Got? then y.c2s[1..] else y.c2s;
            var body' := Body(y) + (reply + pass);
            if c'.open then
              && c2s' != [] && c2s'[|c2s'| - 1] == Disconn
              && Working(cmd, c2s'[..|c2s'| - 1], body', c'.passing)
            else c2s' == [] && reply + pass == [DISCONN_OUT] && Closed(body')
    ensures Answered(Body(y)) && c'.open ==> reply + pass == []
  {
    hide Working, Answered, Closed, IterTalk, Body;
    var n := |y.c2s| - 1;
    var X := y.c2s[..n];
    if recv.Got? && n == 0 {
      assert X == [];
      ClosingStep(cmd, Body(y), reply, pass, y.srv.conn, mid, c');
    } else {
      assert recv.Got? ==> X[0] == y.c2s[0] && y.c2s[1..][..n - 1] == X[1..];
      WorkingStep(cmd, X, Body(y), recv, reply, pass, y.srv.conn, mid, c');
      assert recv.Got? ==> y.c2s[1..][|y.c2s| - 2] == Disconn;
    }
  }

  lemma ServerKeeps(m: Matcher, z: Sizes, cmd: Msg, y: Sys, env: Env)
    requires z.Valid() && IsCommand(cmd) && SysInv(z, cmd, y) && Allowed(y, env) && Step(m, z, y.srv, env).Next?
    ensures SysInv(z, cmd, Act(m, z, cmd, y, ServerAct(env)).value)
  {
    if !y.srv.conn.open {
      ClosedServer(m, z, cmd, y, env);
    } else if env.interrupted {
      hide Step, Outs, Working, Closed, Answered;
      QuietStep(m, z, y.srv, env);
      NewOutsIs(y.srv, Step(m, z, y.srv, env).s, []);
      assert y.s2c + [] == y.s2c;
    } else {
      OpenServer(m, z, cmd, y, env);
    }
  }

  // ---------- the client keeps it ----------

  lemma ReceiveBody(cmd: Msg, y: Sys)
    requires y.s2c != []
    ensures var h := y.s2c[0]; (y.got + [h]) + y.s2c[1..] == y.got + y.s2c
    ensures y.got != [] ==> Body(y) == y.got[1..] + y.s2c && (y.got + [y.s2c[0]])[1..] == y.got[1..] + [y.s2c[0]]
  {}

  /** The first message of a working command's answers that is no output is their last. */
  lemma EndIsLast(cmd: Msg, X: seq<Msg>, b: seq<Out>, passing: bool, k: nat)
    requires Working(cmd, X, b, passing) && k < |b| && !b[k].Output?
    ensures k == |b| - 1 && IsEnd(b[k]) && Answered(b)
  {}

  lemma ClientLoop(z: Sizes, cmd: Msg, y: Sys)
    requires IsCommand(cmd) && SysInv(z, cmd, y) && y.phase.Loop? && y.s2c != []
    ensures SysInv(z, cmd, ClientReceive(cmd, y))
  {
    hide Working, Answered, Closed;
    ReceiveBody(cmd, y);
    var h, g, b := y.s2c[0], y.got[1..], Body(y);
    assert b[|g|] == h;
    if h.Output? {
      assert Body(ClientReceive(cmd, y)) == b;
    } else {
      EndIsLast(cmd, y.c2s, b, y.srv.conn.passing, |g|);
      assert y.s2c == [h] && g + [h] == b;
      ClientEnds(z, cmd, y);
    }
  }

  lemma ClientEnds(z: Sizes, cmd: Msg, y: Sys)
    requires SysInv(z, cmd, y) && y.phase.Loop? && |y.s2c| == 1 && IsEnd(y.s2c[0])
    requires y.got != [] && Answered(y.got[1..] + y.s2c)
    ensures SysInv(z, cmd, ClientReceive(cmd, y))
  {
    hide Working, Answered, Closed;
    ReceiveBody(cmd, y);
    assert y.got[1..] + [y.s2c[0]] == y.got[1..] + y.s2c == Body(y);
    assert (y.c2s + [Disconn])[..|y.c2s|] == y.c2s;
  }

  lemma ClientDisc(z: Sizes, cmd: Msg, y: Sys)
    requires IsCommand(cmd) && SysInv(z, cmd, y) && y.phase.WaitDisc? && y.s2c != []
    ensures SysInv(z, cmd, ClientReceive(cmd, y))
  {
    if y.srv.conn.open {
      ClientDiscEarly(z, cmd, y);
    } else {
      ClientDiscLate(z, cmd, y);
    }
  }

  /** The server has not met the client's DISCONN yet: what comes is not its answer. */
  lemma ClientDiscEarly(z: Sizes, cmd: Msg, y: Sys)
    requires SysInv(z, cmd, y) && y.phase.WaitDisc? && y.s2c != [] && y.srv.conn.open
    ensures SysInv(z, cmd, ClientReceive(cmd, y))
  {
    hide Working, Answered, Closed;
    ReceiveBody(cmd, y);
    var h, g, b := y.s2c[0], y.got[1..], Body(y);
    assert b[|g|] == h;
    WorkingHasNoDisconn(cmd, y.c2s[..|y.c2s| - 1], b, y.srv.conn.passing, |g|);
    assert Body(ClientReceive(cmd, y)) == b;
  }

  /** It has: the answer is the last that comes. */
  lemma ClientDiscLate(z: Sizes, cmd: Msg, y: Sys)
    requires SysInv(z, cmd, y) && y.phase.WaitDisc? && y.s2c != [] && !y.srv.conn.open
    ensures SysInv(z, cmd, ClientReceive(cmd, y))
  {
    hide Working, Answered, Closed;
    ReceiveBody(cmd, y);
    var h, g, b := y.s2c[0], y.got[1..], Body(y);
    assert b[|g|] == h;
    ClosedByDisconn(b, |g|);
    assert h == DISCONN_OUT ==> g + [h] == b;
    assert Body(ClientReceive(cmd, y)) == b;
  }

  lemma ClosedByDisconn(b: seq<Out>, i: nat)
    requires Closed(b) && i < |b|
    ensures b[i] == DISCONN_OUT <==> i == |b| - 1
  {
    assert i < |b| - 1 ==> b[..|b| - 1][i] == b[i];
    assert i < |b| - 2 ==> b[..|b| - 1][..|b| - 2][i] == b[i];
  }

  lemma WorkingHasNoDisconn(cmd: Msg, X: seq<Msg>, b: seq<Out>, passing: bool, i: nat)
    requires Working(cmd, X, b, passing) && i < |b|
    ensures b[i] != DISCONN_OUT
  {
    assert i < |b| - 1 ==> b[..|b| - 1][i] == b[i];
  }

  lemma ClientHello(z: Sizes, cmd: Msg, y: Sys)
    requires IsCommand(cmd) && SysInv(z, cmd, y) && y.phase.WaitHello? && y.s2c != []
    ensures SysInv(z, cmd, ClientReceive(cmd, y))
  {
    hide Closed, Answered;
    assert y.s2c == [HELLO_OUT] && [cmd][1..] == [];
  }

  /** Keys and resizing go on top of what is on its way. */
  lemma ClientTypes(z: Sizes, cmd: Msg, y: Sys, msg: Msg)
    requires SysInv(z, cmd, y) && y.phase.Loop? && IsNoise(msg) && IsCommand(cmd)
    ensures SysInv(z, cmd, y.(c2s := y.c2s + [msg]))
  {
    WorkingNoise(cmd, y.c2s, msg, Body(y), y.srv.conn.passing);
    hide Working, Closed, Answered;
  }

  lemma WorkingNoise(cmd: Msg, X: seq<Msg>, msg: Msg, body: seq<Out>, passing: bool)
    requires Working(cmd, X, body, passing) && IsNoise(msg)
    ensures Working(cmd, X + [msg], body, passing)
  {
    hide Answered;
    assert X != [] ==> (X + [msg])[1..] == X[1..] + [msg];
  }

  lemma ClientDetaches(z: Sizes, cmd: Msg, y: Sys)
    requires SysInv(z, cmd, y) && y.phase.Loop? && IsInteract(cmd)
    ensures SysInv(z, cmd, y.(phase := WaitDisc(true), c2s := y.c2s + [Disconn]))
  {
    hide Working, Closed, Answered;
    assert (y.c2s + [Disconn])[..|y.c2s|] == y.c2s;
  }

  lemma ClientConnects(z: Sizes, cmd: Msg, y: Sys)
    requires SysInv(z, cmd, y) && y.phase.Start?
    ensures SysInv(z, cmd, y.(phase := WaitHello, c2s := [HELLO]))
  {
    hide Working, Closed, Answered;
  }

  lemma ClientKeeps(m: Matcher, z: Sizes, cmd: Msg, y: Sys, a: Action)
    requires z.Valid() && IsCommand(cmd) && SysInv(z, cmd, y) && !a.ServerAct?
    ensures var r := Act(m, z, cmd, y, a); r.Some? ==> SysInv(z, cmd, r.value)
  {
    SysBasics(z, cmd, y);
    hide SysInv, ClientReceive;
    if Act(m, z, cmd, y, a).Some? {
      match a
      case Receive =>
        match y.phase {
          case WaitHello => ClientHello(z, cmd, y);
          case Loop => ClientLoop(z, cmd, y);
          case WaitDisc(_) => ClientDisc(z, cmd, y);
        }
      case Type(data) => ClientTypes(z, cmd, y, Input(data));
      case Resize => ClientTypes(z, cmd, y, Winch);
      case Detach => ClientDetaches(z, cmd, y);
      case Connect => ClientConnects(z, cmd, y);
    }
  }

  // ---------- runs ----------

  function RunSys(m: Matcher, z: Sizes, cmd: Msg, y: Sys, acts: seq<Action>): (r: Option<Sys>)
    requires z.Valid() && y.srv.b.WF(z)
    ensures r.Some? ==> r.value.srv.b.WF(z)
  {
    if acts == [] then Some(y)
    else match RunSys(m, z, cmd, y, acts[..|acts| - 1])
      case None => None
      case Some(y') =>
        ActFits(m, z, cmd, y', acts[|acts| - 1]);
        Act(m, z, cmd, y', acts[|acts| - 1])
  }

  /** A client that has not connected yet, and a server that is free. */
  function Begin(s: State): Sys { Sys(s, false, Start, [], [], []) }

  lemma {:induction false} RunKeeps(m: Matcher, z: Sizes, cmd: Msg, s: State, acts: seq<Action>)
    requires z.Valid() && IsCommand(cmd) && s.b.WF(z) && !s.conn.open
    ensures var r := RunSys(m, z, cmd, Begin(s), acts); r.Some? ==> SysInv(z, cmd, r.value)
  {
    if acts != [] {
      var a, r := acts[|acts| - 1], RunSys(m, z, cmd, Begin(s), acts[..|acts| - 1]);
      RunKeeps(m, z, cmd, s, acts[..|acts| - 1]);
      if r.Some? {
        hide SysInv;
        if a.ServerAct? {
          if Allowed(r.value, a.env) && Step(m, z, r.value.srv, a.env).Next? { ServerKeeps(m, z, cmd, r.value, a.env); }
        } else {
          ClientKeeps(m, z, cmd, r.value, a);
        }
      }
    }
  }

  /** HELLO first; then output; then at most one final reply; then DISCONN; and nothing after it. */
  predicate WellSpoken(b: seq<Out>) {
    b == [] || (b[0] == HELLO_OUT && (AllOutput(b[1..]) || Answered(b[1..]) || Closed(b[1..])))
  }

  /**
   * The server's messages to one client are well spoken; the client never meets a message it cannot handle; when
   * it is done, both sides have said DISCONN and nothing is left on the way; and after its DISCONN a final reply
   * can only still arrive if it detached from an interact.
   */
  ghost predicate Orderly(cmd: Msg, y: Sys) {
    && WellSpoken(y.got + y.s2c)
    && !y.phase.Failed?
    && (y.phase.Done? ==> y.got != [] && Closed(y.got[1..]) && y.s2c == [] && y.c2s == [] && !y.srv.conn.open)
    && (y.phase.WaitDisc? && (exists o :: o in y.s2c && IsEnd(o)) ==> y.phase.detached && IsInteract(cmd))
  }

  /** Every interleaving of a client and the server is orderly. */
  lemma SessionTheorem(m: Matcher, z: Sizes, cmd: Msg, s: State, acts: seq<Action>)
    requires z.Valid() && IsCommand(cmd) && s.b.WF(z) && !s.conn.open
    ensures var r := RunSys(m, z, cmd, Begin(s), acts); r.Some? ==> Orderly(cmd, r.value)
  {
    hide SysInv, RunSys, Orderly;
    RunKeeps(m, z, cmd, s, acts);
    var r := RunSys(m, z, cmd, Begin(s), acts);
    if r.Some? { InvIsOrderly(z, cmd, r.value); }
  }

  lemma InvIsOrderly(z: Sizes, cmd: Msg, y: Sys)
    requires SysInv(z, cmd, y)
    ensures Orderly(cmd, y)
  {
    hide Working, Closed, Answered;
    var heard := y.got + y.s2c;
    if heard != [] {
      assert Body(y) == heard[1..];
      if y.phase.Done? { assert heard == y.got; }
      if y.phase.Loop? || (y.phase.WaitDisc? && y.srv.conn.open) {
        WorkingSpeaks(cmd, if y.phase.Loop? then y.c2s else y.c2s[..|y.c2s| - 1], Body(y), y.srv.conn.passing);
      }
    }
  }

  lemma WorkingSpeaks(cmd: Msg, X: seq<Msg>, b: seq<Out>, passing: bool)
    requires Working(cmd, X, b, passing)
    ensures AllOutput(b) || Answered(b)
  {}
}
