/** No session deadlocks: from wherever a client and the server have got to, they can still say goodbye. */
module Progress {
  import opened Octets
  import opened ServerSpec
  import opened ServerRuns
  import opened ServerTalk
  import opened Session

  /** What else happens in an iteration is arbitrary, as long as the client is alive and the iteration completes. */
  ghost predicate Completes(world: Sys -> Env) {
    forall y :: world(y).replyOk && world(y).outputOk && world(y).finalOk && !world(y).interrupted
  }

  /** The iteration of `world` in which the server takes the next message, or the connection. */
  function Serving(world: Sys -> Env, y: Sys): Action {
    ServerAct(world(y).(accept := !y.accepted,
                        recv := if y.srv.conn.open && y.c2s != [] then Got(y.c2s[0]) else Nothing))
  }

  /** A pass of expect or wait ends when its time comes; everything else can be brought to its end. */
  predicate CanFinish(cmd: Msg, y: Sys) {
    y.phase.WaitDisc? || y.phase.Done? || !cmd.PassCmd? || IsInteract(cmd)
  }

  /** Who moves next on the way out. */
  function NextAct(world: Sys -> Env, cmd: Msg, y: Sys): Action {
    match y.phase
    case Start => Connect
    case WaitHello => if y.s2c != [] then Receive else Serving(world, y)
    case Loop => if y.s2c != [] then Receive else if IsInteract(cmd) then Detach else Serving(world, y)
    case WaitDisc(_) => if y.srv.conn.open then Serving(world, y) else Receive
    case _ => Receive
  }

  function PhaseRank(p: Phase): nat {
    match p
    case Start => 4
    case WaitHello => 3
    case Loop => 2
    case WaitDisc(_) => 1
    case _ => 0
  }

  function Unaccepted(y: Sys): nat { if y.accepted then 0 else 1 }

  /** Closer to the end of the session. */
  predicate Closer(y': Sys, y: Sys) {
    if PhaseRank(y'.phase) != PhaseRank(y.phase) then PhaseRank(y'.phase) < PhaseRank(y.phase)
    else if Unaccepted(y') != Unaccepted(y) then Unaccepted(y') < Unaccepted(y)
    else if |y'.c2s| != |y.c2s| then |y'.c2s| < |y.c2s|
    else |y'.s2c| < |y.s2c|
  }

  /** The server stopped at a fault, or had ended before the client came. */
  predicate Gone(m: Matcher, z: Sizes, y: Sys, a: Action)
    requires z.Valid() && y.srv.b.WF(z)
  {
    (a.ServerAct? && Step(m, z, y.srv, a.env).Fault?) || (!Live(y.srv) && !y.accepted)
  }

  /** An accepted connection is open, and nothing was said yet. */
  lemma AcceptTalk(m: Matcher, z: Sizes, s: State, env: Env)
    requires z.Valid() && s.b.WF(z) && !s.conn.open && Live(s) && env.accept && !env.interrupted
    requires Step(m, z, s, env).Next?
    ensures Step(m, z, s, env).s.conn.open
  {
    hide Outs, Gather, ServPass, DropOld;
    var s0 := Prelude(s, env);
    GatherTalk(z, s0, env);
    var s1 := Gather(z, s0, env);
    SecondHalf(m, z, s1, env);
    IdlePass(m, z, Signal(s1, env.sigLate), env);
  }

  /** The messages on the way to the server are HELLO, the command, noise and DISCONN: all can be taken. */
  lemma NextIsFine(z: Sizes, cmd: Msg, y: Sys)
    requires SysInv(z, cmd, y) && IsCommand(cmd) && y.srv.conn.open && y.c2s != []
    ensures y.c2s[0].Hello? ==> y.c2s[0] == HELLO
  {
    hide Answered, Closed;
    if y.phase.WaitDisc? && |y.c2s| > 1 { assert y.c2s[..|y.c2s| - 1][0] == y.c2s[0]; }
  }

  /** In the loop of a command that is no pass, something is always on its way. */
  lemma LoopHasNext(z: Sizes, cmd: Msg, y: Sys)
    requires SysInv(z, cmd, y) && y.phase.Loop? && !cmd.PassCmd? && y.s2c == []
    ensures y.c2s != []
  {
    assert y.got + y.s2c == y.got;
  }

  lemma ServingTakes(m: Matcher, z: Sizes, world: Sys -> Env, cmd: Msg, y: Sys)
    requires z.Valid() && IsCommand(cmd) && SysInv(z, cmd, y) && Completes(world)
    requires y.srv.conn.open && y.c2s != [] && Step(m, z, y.srv, Serving(world, y).env).Next?
    ensures var r := Act(m, z, cmd, y, Serving(world, y));
            r.Some? && SysInv(z, cmd, r.value) && Closer(r.value, y)
  {
    NextIsFine(z, cmd, y);
    SysBasics(z, cmd, y);
    hide SysInv, Step;
    ServerKeeps(m, z, cmd, y, Serving(world, y).env);
  }

  lemma ServingAccepts(m: Matcher, z: Sizes, world: Sys -> Env, cmd: Msg, y: Sys)
    requires z.Valid() && IsCommand(cmd) && SysInv(z, cmd, y) && Completes(world)
    requires y.phase.WaitHello? && !y.accepted && Live(y.srv) && Step(m, z, y.srv, Serving(world, y).env).Next?
    ensures var r := Act(m, z, cmd, y, Serving(world, y));
            r.Some? && SysInv(z, cmd, r.value) && Closer(r.value, y)
  {
    SysBasics(z, cmd, y);
    hide SysInv, Step;
    AcceptTalk(m, z, y.srv, Serving(world, y).env);
    ServerKeeps(m, z, cmd, y, Serving(world, y).env);
  }

  lemma ClientMoves(m: Matcher, z: Sizes, cmd: Msg, y: Sys, a: Action)
    requires z.Valid() && IsCommand(cmd) && SysInv(z, cmd, y)
    requires (a == Connect && y.phase.Start?) || (a == Detach && y.phase.Loop? && IsInteract(cmd))
          || (a == Receive && y.s2c != [] && (y.phase.WaitHello? || y.phase.Loop? || y.phase.WaitDisc?))
    ensures var r := Act(m, z, cmd, y, a); r.Some? && SysInv(z, cmd, r.value) && Closer(r.value, y)
  {
    SysBasics(z, cmd, y);
    if a.Receive? && y.phase.WaitHello? { HelloNext(z, cmd, y); }
    hide SysInv;
    ClientKeeps(m, z, cmd, y, a);
    if a.Receive? {
      ReceiveCloser(cmd, y);
      hide ClientReceive, Closer;
    }
  }

  lemma ReceiveCloser(cmd: Msg, y: Sys)
    requires y.s2c != [] && (y.phase.WaitHello? || y.phase.Loop? || y.phase.WaitDisc?)
    requires y.phase.WaitHello? ==> y.s2c == [HELLO_OUT]
    ensures Closer(ClientReceive(cmd, y), y)
  {}

  lemma HelloNext(z: Sizes, cmd: Msg, y: Sys)
    requires SysInv(z, cmd, y) && y.phase.WaitHello? && y.s2c != []
    ensures y.s2c == [HELLO_OUT]
  {}

  /** Where the session stands tells what can happen next. */
  lemma Stands(z: Sizes, cmd: Msg, y: Sys)
    requires SysInv(z, cmd, y) && !y.phase.Done?
    ensures !y.phase.Failed?
    ensures y.phase.WaitHello? && y.s2c == [] && y.accepted ==> y.srv.conn.open && y.c2s != []
    ensures y.phase.Loop? ==> y.srv.conn.open
    ensures y.phase.WaitDisc? ==> y.accepted && (if y.srv.conn.open then y.c2s != [] else y.s2c != [])
  {
    hide Working, Answered, Closed;
  }

  /** One action on the way out, unless the server is gone. */
  lemma Onward(m: Matcher, z: Sizes, world: Sys -> Env, cmd: Msg, y: Sys)
    requires z.Valid() && IsCommand(cmd) && SysInv(z, cmd, y) && Completes(world)
    requires CanFinish(cmd, y) && !y.phase.Done?
    ensures var a := NextAct(world, cmd, y);
            y.srv.b.WF(z) &&
            (Gone(m, z, y, a) ||
             var r := Act(m, z, cmd, y, a);
             r.Some? && SysInv(z, cmd, r.value) && Closer(r.value, y) && CanFinish(cmd, r.value))
  {
    SysBasics(z, cmd, y);
    Stands(z, cmd, y);
    if y.phase.Loop? && !cmd.PassCmd? && y.s2c == [] { LoopHasNext(z, cmd, y); }
    hide SysInv, Act, Completes;
    var a := NextAct(world, cmd, y);
    if !Gone(m, z, y, a) {
      if !a.ServerAct? {
        ClientMoves(m, z, cmd, y, a);
      } else if y.srv.conn.open {
        ServingTakes(m, z, world, cmd, y);
      } else {
        ServingAccepts(m, z, world, cmd, y);
      }
      StillCanFinish(m, z, cmd, y, a);
    }
  }

  /** The phase only moves forward. */
  lemma StillCanFinish(m: Matcher, z: Sizes, cmd: Msg, y: Sys, a: Action)
    requires z.Valid() && y.srv.b.WF(z) && CanFinish(cmd, y) && Act(m, z, cmd, y, a).Some?
    requires Closer(Act(m, z, cmd, y, a).value, y)
    ensures CanFinish(cmd, Act(m, z, cmd, y, a).value)
  {
    hide Step;
  }

  /**
   * From every state of a session of an interact or of a command that is no pass, and from every state in which the
   * client waits for DISCONN, there is a way to the end, whatever else happens meanwhile: unless the server faults or
   * had ended before, the client gets its DISCONN.
   */
  lemma Finishes(m: Matcher, z: Sizes, world: Sys -> Env, cmd: Msg, y: Sys) returns (acts: seq<Action>, end: Sys)
    requires z.Valid() && IsCommand(cmd) && SysInv(z, cmd, y) && Completes(world) && CanFinish(cmd, y)
    ensures y.srv.b.WF(z) && RunSys(m, z, cmd, y, acts) == Some(end) && end.srv.b.WF(z)
    ensures end.phase.Done? || Gone(m, z, end, NextAct(world, cmd, end))
  {
    SysBasics(z, cmd, y);
    hide SysInv, Act, Completes, CanFinish, Gone, NextAct;
    acts, end := [], y;
    while !end.phase.Done?
      invariant y.srv.b.WF(z) && RunSys(m, z, cmd, y, acts) == Some(end)
      invariant SysInv(z, cmd, end) && CanFinish(cmd, end)
      decreases PhaseRank(end.phase), Unaccepted(end), |end.c2s|, |end.s2c|
    {
      Onward(m, z, world, cmd, end);
      var a := NextAct(world, cmd, end);
      if Gone(m, z, end, a) { return; }
      assert (acts + [a])[..|acts|] == acts;
      acts, end := acts + [a], Act(m, z, cmd, end, a).value;
    }
    SysBasics(z, cmd, end);
  }

  /** So no reachable state of these sessions is a deadlock. */
  lemma NoDeadlock(m: Matcher, z: Sizes, world: Sys -> Env, cmd: Msg, s: State, acts: seq<Action>)
    returns (more: seq<Action>, end: Sys)
    requires z.Valid() && IsCommand(cmd) && s.b.WF(z) && !s.conn.open && Completes(world)
    requires RunSys(m, z, cmd, Begin(s), acts).Some? && CanFinish(cmd, RunSys(m, z, cmd, Begin(s), acts).value)
    ensures RunSys(m, z, cmd, RunSys(m, z, cmd, Begin(s), acts).value, more) == Some(end) && end.srv.b.WF(z)
    ensures end.phase.Done? || Gone(m, z, end, NextAct(world, cmd, end))
  {
    hide SysInv, Act, Completes, CanFinish, Gone, NextAct;
    RunKeeps(m, z, cmd, s, acts);
    more, end := Finishes(m, z, world, cmd, RunSys(m, z, cmd, Begin(s), acts).value);
  }
}
