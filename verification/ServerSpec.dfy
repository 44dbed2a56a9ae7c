/**
 * The sexpect server (server.c) as a transition function.
 *
 * One call of `Iterate` is one pass through the body of serv_loop().  Whatever the operating system or the
 * client decides during that pass is an argument (`Env`); regcomp()/regexec() are a `Matcher`.  The state
 * keeps a `log` of what was read, delivered, skipped, matched and answered: theorems about whole runs are
 * statements about that log.
 */
module ServerSpec {
  import opened Octets

  /** SIZE_RAW_BUF, MAX_OLD_DATA and NONBLOCK_DROP_SIZE. */
  datatype Sizes = Sizes(raw: nat, maxOld: nat, drop: nat) {
    /** The two #error checks of server.c, for sizes that are not zero. */
    predicate Valid() {
      && 0 < maxOld && 0 < drop
      && maxOld + 2 * drop <= raw
      && raw + 1024 <= MAX_MSG
    }
  }

  const MAX_MSG: nat := 64 * 1024
  const MAX_PEEK: nat := 4096
  const NUM_OUT: nat := 10
  const SHIPPED: Sizes := Sizes(16 * 1024, 8 * 1024, 1024)

  // ---------- connection ----------

  datatype Subcmd = NoCmd | Expect | Interact | Wait

  /** The bits of `expflags`. */
  datatype Flags = Flags(exact: bool, glob: bool, ere: bool, eof: bool, exit: bool,
                         icase: bool, nosub: bool, newline: bool)

  const NO_FLAGS := Flags(false, false, false, false, false, false, false, false)

  datatype Pass = Pass(subcmd: Subcmd, flags: Flags, pattern: Option<Bytes>, timeout: int, lookback: nat)

  datatype Conn = Conn(open: bool, passing: bool, pass: Pass)

  const NO_CONN := Conn(false, false, Pass(NoCmd, NO_FLAGS, None, 0, 0))

  // ---------- messages ----------

  datatype Msg =
    | Hello(version: Option<Bytes>)
    | Disconn
    | Send(data: Bytes)
    | Input(data: Bytes)
    | PassCmd(subcmd: Subcmd, flags: Flags, pattern: Option<Bytes>, timeout: Option<int>, lookback: Option<int>)
    | Expout(index: int)
    | Winch
    | Close
    | Kill(ok: bool)  // `ok`: what kill(2) answered
    | Set(nonblock: Option<bool>, timeout: Option<int>)
    | Info

  datatype ErrorCode = UsageError | SysError | ProtoError | EofError | TimeoutError

  datatype Reply =
    | HelloReply
    | DisconnReply
    | Ack
    | Matched
    | EofReply
    | Exited
    | Error(code: ErrorCode)
    | ExpoutText(text: Bytes)
    | InfoReply(expbuf: Bytes)

  // ---------- state ----------

  /** What happened, in order.  `Deliver` is an OUTPUT message that was sent: `replay` was sent before. */
  datatype Event =
    | Read(data: Bytes)
    | Deliver(replay: Bytes, unseen: Bytes)
    | Skip(data: Bytes, connected: bool)
    | Consume(before: Bytes, matched: Bytes, rest: Bytes)
    | Replied(reply: Reply)

  /** rawbuf (old bytes, then undelivered ones), expbuf, and the three absolute offsets. */
  datatype Buf = Buf(raw: Bytes, seen: nat, exp: Bytes, ntotal: nat, rawoffset: nat, expoffset: nat) {
    /** What the pointer arithmetic of server.c relies on. */
    predicate WF(z: Sizes) {
      && seen <= |raw| <= z.raw
      && |exp| <= z.raw
      && ntotal == rawoffset + |raw|
      && expoffset <= ntotal
    }

    function NewCnt(): int { |raw| - seen }
  }

  datatype State = State(b: Buf, conn: Conn, ptmOpen: bool, dead: bool, waited: bool, nonblock: bool,
                         defTimeout: int, expout: seq<Option<Bytes>>, log: seq<Event>)

  const NO_OUT: seq<Option<Bytes>> := [None, None, None, None, None, None, None, None, None, None]

  /** serv_init(), with the options given to spawn. */
  function Init(nonblock: bool, defTimeout: int): State {
    State(Buf([], 0, [], 0, 0, 0), NO_CONN, true, false, false, nonblock, defTimeout, NO_OUT, [])
  }

  datatype Fault =
    | BufferAssert  // the assert in buf_raw2expect()
    | NullNewline   // strchr() found no newline before a NUL, and its result is used

  datatype Outcome = Next(s: State) | Fault(fault: Fault)

  // ---------- the environment of one loop iteration ----------

  datatype ReadResult = NotReady | Data(data: Bytes) | EndOfFile

  datatype Recv = Nothing | Broken | Got(msg: Msg)

  /**
   * `sigEarly`, `sigLate`: SIGCHLD arrives before select() / before serv_pass().  `interrupted`: select() or
   * accept() is interrupted.  `cloexit`: -cloexit closes the pty of a dead child.  The three `...Ok` say
   * whether the reply to a message, the OUTPUT message and the final reply of a pass can be sent.
   */
  datatype Env = Env(sigEarly: bool, cloexit: bool, interrupted: bool, accept: bool, read: ReadResult,
                     recv: Recv, replyOk: bool, sigLate: bool, outputOk: bool, finalOk: bool, expired: bool)

  datatype Span = Span(so: nat, eo: nat)

  ghost predicate InBounds(m: (Bytes, Flags, Bytes) -> Option<seq<Option<Span>>>) {
    forall p, f, t :: m(p, f, t).Some? ==> ValidSpans(m(p, f, t).value, t)
  }

  predicate ValidSpans(spans: seq<Option<Span>>, text: Bytes) {
    && |spans| == NUM_OUT && spans[0].Some?
    && forall i :: 0 <= i < NUM_OUT && spans[i].Some? ==> spans[i].value.so <= spans[i].value.eo <= |text|
  }

  /** regcomp() and regexec(): None when the pattern is invalid or does not match. */
  type Matcher = m: (Bytes, Flags, Bytes) -> Option<seq<Option<Span>>> | InBounds(m)
    witness (p, f, t) => None

  // ---------- sending ----------

  function Log(s: State, e: Event): State { s.(log := s.log + [e]) }

  function Hangup(s: State): State { s.(conn := s.conn.(open := false)) }

  /** serv_msg_send(): a failed send closes the socket. */
  function SendReply(s: State, r: Reply, ok: bool): State {
    if ok then Log(s, Replied(r)) else Hangup(s)
  }

  function StopPassing(s: State): State { s.(conn := s.conn.(passing := false)) }

  // ---------- buffers ----------

  /** serv_read_ptm(), guarded as in serv_loop(): read() returns at most the free space. */
  function ReadPtm(z: Sizes, s: State, res: ReadResult): (r: State)
    requires s.b.WF(z)
    ensures r.b.WF(z)
  {
    if !s.ptmOpen || |s.b.raw| == z.raw then s
    else match res
      case NotReady => s
      case EndOfFile => s.(ptmOpen := false)
      case Data(data) =>
        var d := data[..Min(|data|, z.raw - |s.b.raw|)];
        Log(s.(b := s.b.(raw := s.b.raw + d, ntotal := s.b.ntotal + |d|)), Read(d))
  }

  /** The -nonblock branch of serv_loop(): mark one block as old. */
  function Age(z: Sizes, s: State): (r: State)
    requires z.Valid() && s.b.WF(z)
    ensures r.b.WF(z)
  {
    if s.nonblock && !s.conn.open && |s.b.raw| == z.raw && s.b.seen <= z.maxOld then
      Log(s.(b := s.b.(seen := s.b.seen + z.drop)),
          Skip(s.b.raw[s.b.seen..s.b.seen + z.drop], s.conn.open))
    else s
  }

  /** drop_old_data(). */
  function DropOld(z: Sizes, b: Buf): (r: Buf)
    requires b.WF(z)
    ensures r.WF(z)
  {
    var b1 := if b.seen <= z.maxOld then b else
      var n := b.seen - z.maxOld;
      b.(raw := b.raw[n..], seen := z.maxOld, rawoffset := b.rawoffset + n);
    if |b1.exp| <= z.maxOld then b1 else b1.(exp := b1.exp[|b1.exp| - z.maxOld..])
  }

  /** Where buf_raw2expect() starts to copy, and what the expect buffer holds then. */
  function Resync(b: Buf): Buf {
    if b.expoffset < b.rawoffset then b.(expoffset := b.rawoffset, exp := []) else b
  }

  predicate Overruns(z: Sizes, b: Buf) {
    |Resync(b).exp| + (b.ntotal - Resync(b).expoffset) > z.raw
  }

  /** buf_raw2expect() when its assert holds. */
  function Raw2Exp(z: Sizes, b: Buf): (r: Buf)
    requires b.WF(z) && !Overruns(z, b)
    ensures r.WF(z)
  {
    var b1 := Resync(b);
    b1.(exp := b1.exp + Strip(b.raw[b1.expoffset - b.rawoffset..]), expoffset := b.ntotal)
  }

  // ---------- matching ----------

  /** A successful match: text[so..eo] matched; `out` is the new $expect_out unless NOSUB. */
  datatype Hit = Hit(so: nat, eo: nat, out: Option<seq<Option<Bytes>>>)

  function SpanText(text: Bytes, span: Option<Span>): Option<Bytes>
    requires span.Some? ==> span.value.so <= span.value.eo <= |text|
  {
    if span.None? then None else Some(text[span.value.so..span.value.eo])
  }

  function SpanTexts(text: Bytes, spans: seq<Option<Span>>): (r: seq<Option<Bytes>>)
    requires ValidSpans(spans, text)
  {
    seq(NUM_OUT, i requires 0 <= i < NUM_OUT => SpanText(text, spans[i]))
  }

  function ExpectExact(pass: Pass, pat: Bytes, text: Bytes): (h: Option<Hit>)
    ensures h.Some? ==> h.value.so <= h.value.eo <= |text|
  {
    var at := FindFrom(text, pat, pass.flags.icase, 0);
    if at.None? then None
    else Some(Hit(at.value, at.value + |pat|, Some(NO_OUT[0 := Some(pat)])))
  }

  function ExpectEre(m: Matcher, pass: Pass, pat: Bytes, text: Bytes): (h: Option<Hit>)
    ensures h.Some? ==> h.value.so <= h.value.eo <= |text|
  {
    var found := m(pat, pass.flags, text);
    if found.None? then None
    else
      var spans := found.value;
      assert ValidSpans(spans, text);
      Some(Hit(spans[0].value.so, spans[0].value.eo,
               if pass.flags.nosub then None else Some(SpanTexts(text, spans))))
  }

  /** serv_expect(); the server never accepts a -glob pattern (clients compile it first). */
  function TryMatch(m: Matcher, pass: Pass, pat: Bytes, text: Bytes, ptmOpen: bool): (h: Option<Hit>)
    ensures h.Some? ==> h.value.so <= h.value.eo <= |text|
  {
    if text == [] && !ptmOpen then None
    else if pass.flags.exact then ExpectExact(pass, pat, text)
    else if pass.flags.glob then None
    else if pass.flags.ere then ExpectEre(m, pass, pat, text)
    else None
  }

  function ConsumeHit(s: State, h: Hit): State
    requires h.so <= h.eo <= |s.b.exp|
  {
    var exp := s.b.exp;
    Log(s.(b := s.b.(exp := exp[h.eo..]), expout := if h.out.Some? then h.out.value else s.expout),
        Consume(exp[..h.so], exp[h.so..h.eo], exp[h.eo..]))
  }

  // ---------- lookback ----------

  /** The position of the k-th newline counted from the end of `s`; k >= 1. */
  function NthNewline(s: Bytes, k: nat): (r: Option<nat>)
    ensures r.Some? ==> r.value < |s| && s[r.value] == NL
  {
    if s == [] then None
    else if s[|s| - 1] == NL then
      if k <= 1 then Some(|s| - 1) else NthNewline(s[..|s| - 1], k - 1)
    else NthNewline(s[..|s| - 1], k)
  }

  function FirstNewline(s: Bytes): (r: Option<nat>)
    ensures r.Some? ==> r.value < |s| && s[r.value] == NL && NL !in s[..r.value]
    ensures r.None? <==> NL !in s
  {
    if s == [] then None
    else if s[0] == NL then Some(0)
    else
      var r := FirstNewline(s[1..]);
      if r.None? then None else
        assert s[..r.value + 1] == [s[0]] + s[1..][..r.value];
        Some(r.value + 1)
  }

  /** Newlines to look for: a final newline does not start a line of its own. */
  function WantedNewlines(b: Buf, n: nat): nat {
    if b.ntotal > 0 && |b.raw| > 0 && b.raw[|b.raw| - 1] == NL then n + 1 else n
  }

  /** strchr(rawbuf, '\n') returns NULL and serv_pass() goes on with it. */
  predicate LookbackFaults(b: Buf, n: nat) {
    && n > 0 && b.rawoffset > 0
    && NL in b.raw && NthNewline(b.raw, WantedNewlines(b, n)).None?
    && NL !in CStr(b.raw)
  }

  /** `psend` of serv_pass() for a lookback of n lines. */
  function SendStart(b: Buf, n: nat): (start: nat)
    requires b.seen <= |b.raw| && !LookbackFaults(b, n)
    ensures start <= b.seen
  {
    if n == 0 then b.seen
    else
      var pc := NthNewline(b.raw, WantedNewlines(b, n));
      if NL !in b.raw then 0
      else if pc.None? then
        if b.rawoffset == 0 then 0
        else
          var first := FirstNewline(b.raw).value;
          if first < b.seen then first + 1 else b.seen
      else if pc.value < b.seen then pc.value + 1
      else
        var before := NthNewline(b.raw[..b.seen], 1);
        if before.Some? then before.value + 1
        else if b.rawoffset == 0 then 0 else b.seen
  }

  // ---------- serv_pass() ----------

  /** Send raw[start..] as one OUTPUT message and mark everything as delivered. */
  function DeliverFrom(s: State, start: nat, ok: bool): State
    requires start <= s.b.seen <= |s.b.raw|
  {
    if start == |s.b.raw| then s
    else if !ok then Hangup(s)
    else Log(s.(b := s.b.(seen := |s.b.raw|)), Deliver(s.b.raw[start..s.b.seen], s.b.raw[s.b.seen..]))
  }

  function TimedOut(pass: Pass, expired: bool): bool {
    if pass.timeout < 0 then false else if pass.timeout == 0 then true else expired
  }

  /** The tail of serv_pass(): end of file, exit of the child, time-out. */
  function PassEnd(s: State, env: Env): (r: State)
    ensures r.b == s.b || r.b == s.b.(expoffset := s.b.ntotal, exp := [])
  {
    if !s.ptmOpen && s.b.NewCnt() == 0 then
      if s.conn.pass.flags.eof then
        StopPassing(SendReply(s.(b := s.b.(expoffset := s.b.ntotal, exp := [])), EofReply, env.finalOk))
      else if s.conn.pass.flags.exit then
        if !s.waited && s.dead then StopPassing(SendReply(s.(waited := true), Exited, env.finalOk)) else s
      else StopPassing(SendReply(s, Error(EofError), env.finalOk))
    else if TimedOut(s.conn.pass, env.expired) then
      StopPassing(SendReply(s, Error(TimeoutError), env.finalOk))
    else s
  }

  /** The has_PATTERN part of serv_pass(): copy, match, and report a match. */
  function PassPattern(m: Matcher, z: Sizes, s: State, pat: Bytes, env: Env): (r: State)
    requires s.b.WF(z) && !Overruns(z, s.b)
    ensures r.b.WF(z)
  {
    var s1 := s.(b := Raw2Exp(z, s.b));
    var h := TryMatch(m, s.conn.pass, pat, s1.b.exp, s.ptmOpen);
    if h.Some? then StopPassing(SendReply(ConsumeHit(s1, h.value), Matched, env.finalOk))
    else PassEnd(s1, env)
  }

  /** serv_pass() after the delivery. */
  function PassMatch(m: Matcher, z: Sizes, s: State, env: Env): (r: Outcome)
    requires s.b.WF(z)
    ensures r.Next? ==> r.s.b.WF(z)
  {
    var pass := s.conn.pass;
    if pass.pattern.Some? then
      if Overruns(z, s.b) then Fault(BufferAssert) else Next(PassPattern(m, z, s, pass.pattern.value, env))
    else if pass.subcmd.Interact? || pass.subcmd.Wait? then
      Next(PassEnd(s.(b := s.b.(expoffset := s.b.ntotal - s.b.NewCnt(), exp := [])), env))
    else Next(PassEnd(s, env))
  }

  function ClearLookback(s: State): State {
    s.(conn := s.conn.(pass := s.conn.pass.(lookback := 0)))
  }

  function ServPass(m: Matcher, z: Sizes, s: State, env: Env): (r: Outcome)
    requires s.b.WF(z)
    ensures r.Next? ==> r.s.b.WF(z)
  {
    if !s.conn.open || !s.conn.passing then Next(s)
    else if LookbackFaults(s.b, s.conn.pass.lookback) then Fault(NullNewline)
    else
      var s1 := DeliverFrom(ClearLookback(s), SendStart(s.b, s.conn.pass.lookback), env.outputOk);
      if !s1.conn.open then Next(s1) else PassMatch(m, z, s1, env)
  }

  // ---------- serv_process_msg() ----------

  const VERSION: Bytes := [50, 46, 51, 46, 49, 52]

  function StartPass(s: State, msg: Msg): State
    requires msg.PassCmd?
  {
    var p := s.conn.pass;
    var p' := Pass(msg.subcmd, msg.flags,
                   if msg.pattern.Some? then Some(CStr(msg.pattern.value)) else p.pattern,
                   if msg.timeout.Some? then msg.timeout.value else s.defTimeout,
                   if msg.lookback.Some? && msg.lookback.value > 0 then msg.lookback.value else p.lookback);
    s.(conn := s.conn.(passing := true, pass := p'),
       expout := if msg.pattern.Some? then NO_OUT else s.expout)
  }

  /** TAG_INFO carries the last bytes of the expect buffer. */
  function Peek(exp: Bytes): Bytes { exp[|exp| - Min(|exp|, MAX_PEEK)..] }

  function ExpoutAnswer(expout: seq<Option<Bytes>>, i: int): Reply {
    if 0 <= i < NUM_OUT && i < |expout| then
      ExpoutText(if expout[i].Some? then CStr(expout[i].value) else [])
    else Error(UsageError)
  }

  function SetOptions(s: State, nonblock: Option<bool>, timeout: Option<int>): State {
    s.(nonblock := if nonblock.Some? then nonblock.value else s.nonblock,
       defTimeout := if timeout.Some? then timeout.value else s.defTimeout)
  }

  function ProcessMsg(z: Sizes, s: State, msg: Msg, ok: bool): (r: Outcome)
    requires s.b.WF(z)
    ensures r.Next? ==> r.s.b.WF(z)
  {
    match msg
    case Hello(version) =>
      if version.None? then Next(Hangup(s))
      else if CStr(version.value) != VERSION then Next(Hangup(SendReply(s, Error(ProtoError), ok)))
      else Next(SendReply(s, HelloReply, ok))
    case Disconn => Next(Hangup(SendReply(s, DisconnReply, ok)))
    case Send(_) => Next(SendReply(s, Ack, ok))
    case Input(_) => Next(s)
    case PassCmd(_, _, _, _, _) => Next(StartPass(s, msg))
    case Expout(i) =>
      Next(SendReply(s, ExpoutAnswer(s.expout, i), ok))
    case Winch => Next(s)
    case Close => Next(SendReply(s.(ptmOpen := false), Ack, ok))
    case Kill(done) => Next(SendReply(s, if done then Ack else Error(SysError), ok))
    case Set(nonblock, timeout) =>
      Next(SendReply(SetOptions(s, nonblock, timeout), Ack, ok))
    case Info =>
      if Overruns(z, s.b) then Fault(BufferAssert)
      else
        var s1 := s.(b := Raw2Exp(z, s.b));
        Next(SendReply(s1, InfoReply(Peek(s1.b.exp)), ok))
  }

  /** serv_process_msg() when the socket of the connection is readable. */
  function Receive(z: Sizes, s: State, recv: Recv, ok: bool): (r: Outcome)
    requires s.b.WF(z)
    ensures r.Next? ==> r.s.b.WF(z)
  {
    if !s.conn.open then Next(s)
    else match recv
      case Nothing => Next(s)
      case Broken => Next(Hangup(s))
      case Got(msg) => ProcessMsg(z, s, msg, ok)
  }

  // ---------- serv_loop() ----------

  /** The guard of the loop. */
  predicate Live(s: State) { !s.waited || s.conn.open }

  function Signal(s: State, sig: bool): State { s.(dead := s.dead || sig) }

  /** Before select(): SIGCHLD may arrive, -cloexit may close the pty. */
  function Prelude(s: State, env: Env): State {
    var s1 := Signal(s, env.sigEarly);
    if env.cloexit && s1.dead then s1.(ptmOpen := false) else s1
  }

  function Accept(s: State): State { s.(conn := NO_CONN.(open := true)) }

  /** After select(), up to the message from the client.  A new connection has no readable socket yet. */
  function Gather(z: Sizes, s: State, env: Env): (r: State)
    requires z.Valid() && s.b.WF(z)
    ensures r.b.WF(z)
  {
    Age(z, ReadPtm(z, if env.accept && !s.conn.open then Accept(s) else s, env.read))
  }

  function Recvd(s: State, env: Env): Recv { if s.conn.open then env.recv else Nothing }

  /** serv_process_msg() and serv_pass(). */
  function Serve(m: Matcher, z: Sizes, s: State, recv: Recv, env: Env): (r: Outcome)
    requires s.b.WF(z)
    ensures r.Next? ==> r.s.b.WF(z)
  {
    match Receive(z, s, recv, env.replyOk)
    case Fault(f) => Fault(f)
    case Next(s1) => ServPass(m, z, Signal(s1, env.sigLate), env)
  }

  /** One completed iteration of serv_loop(), or an interrupted one. */
  function Iterate(m: Matcher, z: Sizes, s: State, env: Env): (r: Outcome)
    requires z.Valid() && s.b.WF(z)
    ensures r.Next? ==> r.s.b.WF(z)
  {
    var s0 := Prelude(s, env);
    if env.interrupted then Next(s0)
    else match Serve(m, z, Gather(z, s0, env), Recvd(s0, env), env)
      case Fault(f) => Fault(f)
      case Next(s1) => Next(s1.(b := DropOld(z, s1.b)))
  }
}
