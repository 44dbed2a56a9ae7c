/**
 * What every run of the server keeps: the bounded buffers agree with the unbounded history of the pty, output
 * is delivered exactly once, matches never overlap, and end of file is only reported at the end.
 */
module ServerRuns {
  import opened Octets
  import opened ServerSpec

  // ---------- what a log says ----------

  function ReadOf(e: Event): Bytes { if e.Read? then e.data else [] }

  /** Everything read from the pty, in order. */
  function Stream(log: seq<Event>): Bytes {
    if log == [] then [] else Stream(log[..|log| - 1]) + ReadOf(log[|log| - 1])
  }

  function AccountOf(e: Event): Bytes {
    match e
    case Deliver(_, unseen) => unseen
    case Skip(data, _) => data
    case _ => []
  }

  /** The fresh parts of all OUTPUT messages and all blocks skipped by -nonblock, in order. */
  function Accounted(log: seq<Event>): Bytes {
    if log == [] then [] else Accounted(log[..|log| - 1]) + AccountOf(log[|log| - 1])
  }

  /**
   * A successful expect, in positions of the NUL-stripped stream: it consumed from..hi, and lo..hi is the
   * text that matched.
   */
  datatype Cut = Cut(from: int, lo: int, hi: int, text: Bytes)

  function CutOf(log: seq<Event>, e: Event): seq<Cut> {
    if e.Consume? then
      var hi := |Strip(Stream(log))| - |e.rest|;
      [Cut(hi - |e.matched| - |e.before|, hi - |e.matched|, hi, e.matched)]
    else []
  }

  function Cuts(log: seq<Event>): seq<Cut> {
    if log == [] then []
    else Cuts(log[..|log| - 1]) + CutOf(log[..|log| - 1], log[|log| - 1])
  }

  lemma LogSnoc(log: seq<Event>, e: Event)
    ensures Stream(log + [e]) == Stream(log) + ReadOf(e)
    ensures Accounted(log + [e]) == Accounted(log) + AccountOf(e)
    ensures Cuts(log + [e]) == Cuts(log) + CutOf(log, e)
    ensures !e.Read? ==> Stream(log + [e]) == Stream(log)
    ensures !e.Deliver? && !e.Skip? ==> Accounted(log + [e]) == Accounted(log)
    ensures !e.Consume? ==> Cuts(log + [e]) == Cuts(log)
  {
    assert (log + [e])[..|log + [e]| - 1] == log;
  }

  // ---------- the invariants ----------

  /** The bounded buffers are a view of the unbounded stream S, of which A was delivered or skipped. */
  ghost predicate BufInv(z: Sizes, b: Buf, S: Bytes, A: Bytes) {
    && b.WF(z)
    && b.ntotal == |S|
    && b.raw == S[b.rawoffset..]
    && IsSuffix(b.exp, Strip(S[..b.expoffset]))
    && A == S[..b.rawoffset + b.seen]
    && (b.rawoffset > 0 ==> b.seen >= z.maxOld)
  }

  /** How much of the NUL-stripped stream the expect buffer is past. */
  ghost function Cursor(b: Buf, S: Bytes): int {
    if b.expoffset <= |S| then |Strip(S[..b.expoffset])| - |b.exp| else 0
  }

  /** Matched texts are disjoint pieces of the stripped stream T, in stream order, all before the cursor. */
  ghost predicate CutsOk(cuts: seq<Cut>, T: Bytes, cursor: int) {
    && cursor <= |T|
    && (forall i :: 0 <= i < |cuts| ==>
          0 <= cuts[i].from <= cuts[i].lo <= cuts[i].hi <= cursor && T[cuts[i].lo..cuts[i].hi] == cuts[i].text)
    && (forall i, j :: 0 <= i < j < |cuts| ==> cuts[i].hi <= cuts[j].from)
  }

  /** Replies that claim there will be no more output. */
  predicate IsFinal(e: Event) {
    e.Replied? && (e.reply.EofReply? || e.reply.Exited? || e.reply == Error(EofError))
  }

  /** By the time end of file or exit is reported, everything there will ever be has been accounted for. */
  ghost predicate EndInv(log: seq<Event>, ended: bool) {
    forall i :: 0 <= i < |log| && IsFinal(log[i]) ==> ended && Accounted(log[..i]) == Stream(log)
  }

  ghost predicate ExitInv(log: seq<Event>, waited: bool) {
    && (forall i :: 0 <= i < |log| && log[i] == Replied(Exited) ==> waited)
    && (forall i, j :: 0 <= i < j < |log| ==> log[i] != Replied(Exited) || log[j] != Replied(Exited))
  }

  ghost predicate SkipsOk(z: Sizes, log: seq<Event>) {
    forall i :: 0 <= i < |log| && log[i].Skip? ==> |log[i].data| == z.drop && !log[i].connected
  }

  ghost predicate LogInv(z: Sizes, log: seq<Event>, ended: bool, waited: bool) {
    EndInv(log, ended) && ExitInv(log, waited) && SkipsOk(z, log)
  }

  predicate Ended(ptmOpen: bool, b: Buf) { !ptmOpen && b.seen == |b.raw| }

  ghost predicate Inv(z: Sizes, s: State) {
    && BufInv(z, s.b, Stream(s.log), Accounted(s.log))
    && CutsOk(Cuts(s.log), Strip(Stream(s.log)), Cursor(s.b, Stream(s.log)))
    && LogInv(z, s.log, Ended(s.ptmOpen, s.b), s.waited)
  }

  /** What additionally holds between two iterations. */
  ghost predicate Head(z: Sizes, s: State) {
    Inv(z, s) && s.b.seen <= z.maxOld && |s.b.exp| <= z.maxOld
  }

  ghost function At(s: State): int { Cursor(s.b, Stream(s.log)) }

  // ---------- the effect of each operation on the buffers ----------

  lemma ReadBuf(z: Sizes, b: Buf, S: Bytes, A: Bytes, d: Bytes)
    requires BufInv(z, b, S, A) && |b.raw| + |d| <= z.raw
    ensures var b' := b.(raw := b.raw + d, ntotal := b.ntotal + |d|);
            BufInv(z, b', S + d, A) && Cursor(b', S + d) == Cursor(b, S)
  {
    hide Strip;
    assert (S + d)[..b.expoffset] == S[..b.expoffset];
    assert (S + d)[..b.rawoffset + b.seen] == S[..b.rawoffset + b.seen];
  }

  /** Bytes that were new become old. */
  lemma SeenBuf(z: Sizes, b: Buf, S: Bytes, A: Bytes, n: nat)
    requires BufInv(z, b, S, A) && b.seen + n <= |b.raw|
    ensures BufInv(z, b.(seen := b.seen + n), S, A + b.raw[b.seen..b.seen + n])
  {}

  /** The two memmove()s of drop_old_data(). */
  function RawDropped(z: Sizes, b: Buf): Buf
    requires b.WF(z)
  {
    var n := b.seen - z.maxOld;
    if n <= 0 then b else b.(raw := b.raw[n..], seen := z.maxOld, rawoffset := b.rawoffset + n)
  }

  function ExpDropped(z: Sizes, b: Buf): Buf {
    if |b.exp| <= z.maxOld then b else b.(exp := b.exp[|b.exp| - z.maxOld..])
  }

  lemma DropInTwo(z: Sizes, b: Buf)
    requires b.WF(z)
    ensures RawDropped(z, b).WF(z) && DropOld(z, b) == ExpDropped(z, RawDropped(z, b))
  {}

  lemma DropRawBuf(z: Sizes, b: Buf, S: Bytes, A: Bytes)
    requires BufInv(z, b, S, A)
    ensures var b' := RawDropped(z, b);
            BufInv(z, b', S, A) && Cursor(b', S) == Cursor(b, S) && b'.seen == Min(b.seen, z.maxOld) && b'.exp == b.exp
  {
    hide Strip, IsSuffix;
    if b.seen > z.maxOld {
      var n := b.seen - z.maxOld;
      assert S[b.rawoffset..][n..] == S[b.rawoffset + n..];
    }
  }

  lemma DropExpBuf(z: Sizes, b: Buf, S: Bytes, A: Bytes)
    requires BufInv(z, b, S, A)
    ensures var b' := ExpDropped(z, b);
            && BufInv(z, b', S, A) && Cursor(b, S) <= Cursor(b', S)
            && |b'.exp| == Min(|b.exp|, z.maxOld) && b'.seen == b.seen
  {
    hide Strip, IsSuffix;
    if |b.exp| > z.maxOld { SuffixCut(b.exp, Strip(S[..b.expoffset]), |b.exp| - z.maxOld); }
  }

  lemma DropBuf(z: Sizes, b: Buf, S: Bytes, A: Bytes)
    requires BufInv(z, b, S, A)
    ensures var b' := DropOld(z, b);
            && BufInv(z, b', S, A) && Cursor(b, S) <= Cursor(b', S)
            && b'.seen == Min(b.seen, z.maxOld) && |b'.exp| == Min(|b.exp|, z.maxOld)
  {
    assert b.WF(z);
    hide BufInv, Cursor, RawDropped, ExpDropped, DropOld;
    DropInTwo(z, b);
    DropRawBuf(z, b, S, A);
    DropExpBuf(z, RawDropped(z, b), S, A);
  }

  lemma ResyncBuf(z: Sizes, b: Buf, S: Bytes, A: Bytes)
    requires BufInv(z, b, S, A)
    ensures BufInv(z, Resync(b), S, A) && Cursor(b, S) <= Cursor(Resync(b), S)
  {
    StripPrefix(S, b.expoffset, Resync(b).expoffset);
  }

  lemma CopyBuf(z: Sizes, b: Buf, S: Bytes, A: Bytes)
    requires BufInv(z, b, S, A) && !Overruns(z, b)
    ensures var b' := Raw2Exp(z, b); BufInv(z, b', S, A) && Cursor(b, S) <= Cursor(b', S) == |Strip(S)| - |b'.exp|
  {
    hide Strip;
    ResyncBuf(z, b, S, A);
    var b1 := Resync(b);
    var k := b1.expoffset;
    StripPrefix(S, k, |S|);
    assert S[..|S|] == S && S[k..|S|] == S[b.rawoffset..][k - b.rawoffset..];
    SuffixAppend(b1.exp, Strip(S[..k]), Strip(S[k..]));
  }

  /** Dropping the expect buffer because its text was passed over (interact, wait, end of file). */
  lemma ResetBuf(z: Sizes, b: Buf, S: Bytes, A: Bytes)
    requires BufInv(z, b, S, A)
    ensures var b' := b.(expoffset := b.ntotal, exp := []);
            BufInv(z, b', S, A) && Cursor(b, S) <= Cursor(b', S) == |Strip(S)|
  {
    hide Strip;
    StripPrefix(S, b.expoffset, |S|);
    assert S[..|S|] == S;
  }

  // ---------- and on what the log says ----------

  lemma CutsMove(cuts: seq<Cut>, T: Bytes, T': Bytes, c: int, c': int)
    requires CutsOk(cuts, T, c) && c <= c' <= |T'| && T <= T'
    ensures CutsOk(cuts, T', c')
  {}

  /** A new match starts no earlier than the cursor and moves it to its end. */
  lemma CutsAdd(cuts: seq<Cut>, T: Bytes, exp: Bytes, so: nat, eo: nat)
    requires IsSuffix(exp, T) && CutsOk(cuts, T, |T| - |exp|) && so <= eo <= |exp|
    ensures var c := |T| - |exp|; CutsOk(cuts + [Cut(c, c + so, c + eo, exp[so..eo])], T, c + eo)
  {}

  lemma EndInvSnoc(log: seq<Event>, e: Event, ended: bool, ended': bool)
    requires EndInv(log, ended) && (ended ==> ended' && ReadOf(e) == [])
    requires IsFinal(e) ==> ended' && Accounted(log) == Stream(log)
    ensures EndInv(log + [e], ended')
  {
    hide Accounted, Stream, Cuts;
    var log' := log + [e];
    LogSnoc(log, e);
    forall i | 0 <= i < |log'| && IsFinal(log'[i]) ensures ended' && Accounted(log'[..i]) == Stream(log') {
      assert log'[..i] == log[..i];
      if i < |log| { assert IsFinal(log[i]); } else { assert log[..i] == log; }
    }
  }

  lemma ExitInvSnoc(log: seq<Event>, e: Event, waited: bool, waited': bool)
    requires ExitInv(log, waited) && (waited ==> waited') && (e == Replied(Exited) ==> waited' && !waited)
    ensures ExitInv(log + [e], waited')
  {}

  lemma SkipsSnoc(z: Sizes, log: seq<Event>, e: Event)
    requires SkipsOk(z, log) && (e.Skip? ==> |e.data| == z.drop && !e.connected)
    ensures SkipsOk(z, log + [e])
  {}

  lemma LogInvSnoc(z: Sizes, log: seq<Event>, e: Event, ended: bool, ended': bool, waited: bool, waited': bool)
    requires LogInv(z, log, ended, waited)
    requires (ended ==> ended' && ReadOf(e) == []) && (waited ==> waited')
    requires IsFinal(e) ==> ended' && Accounted(log) == Stream(log)
    requires e == Replied(Exited) ==> waited' && !waited
    requires e.Skip? ==> |e.data| == z.drop && !e.connected
    ensures LogInv(z, log + [e], ended', waited')
  {
    hide Accounted, Stream, Cuts, EndInv, ExitInv, SkipsOk;
    EndInvSnoc(log, e, ended, ended');
    ExitInvSnoc(log, e, waited, waited');
    SkipsSnoc(z, log, e);
  }

  // ---------- every operation keeps the invariant and never moves the cursor back ----------

  lemma ReadInv(z: Sizes, s: State, r: ReadResult)
    requires Inv(z, s)
    ensures Inv(z, ReadPtm(z, s, r)) && At(s) <= At(ReadPtm(z, s, r))
  {
    hide BufInv, CutsOk, LogInv, Cursor, Strip, Stream, Accounted, Cuts;
    if s.ptmOpen && |s.b.raw| < z.raw && r.Data? {
      var d, S := r.data[..Min(|r.data|, z.raw - |s.b.raw|)], Stream(s.log);
      LogSnoc(s.log, Read(d));
      ReadBuf(z, s.b, S, Accounted(s.log), d);
      StripConcat(S, d);
      LogInvSnoc(z, s.log, Read(d), false, false, s.waited, s.waited);
      CursorInStream(z, s);
      CutsMove(Cuts(s.log), Strip(S), Strip(S + d), At(s), At(s));
    } else if s.ptmOpen && |s.b.raw| < z.raw && r.EndOfFile? {
      EndedWeaker(z, s.log, false, Ended(false, s.b), s.waited);
    }
  }

  lemma CursorInStream(z: Sizes, s: State)
    requires Inv(z, s)
    ensures At(s) <= |Strip(Stream(s.log))|
  {}

  lemma EndedWeaker(z: Sizes, log: seq<Event>, ended: bool, ended': bool, waited: bool)
    requires LogInv(z, log, ended, waited) && (ended ==> ended')
    ensures LogInv(z, log, ended', waited)
  {}

  /** With everything read delivered or skipped, the account is the stream. */
  lemma AllAccounted(z: Sizes, b: Buf, S: Bytes, A: Bytes)
    requires BufInv(z, b, S, A) && b.seen == |b.raw|
    ensures A == S
  {}

  lemma Pending(z: Sizes, b: Buf, S: Bytes, A: Bytes)
    requires BufInv(z, b, S, A)
    ensures A + b.raw[b.seen..] == S
  {
    assert b.raw[b.seen..] == S[b.rawoffset + b.seen..];
  }

  lemma AgeInv(z: Sizes, s: State)
    requires z.Valid() && Inv(z, s)
    ensures Inv(z, Age(z, s)) && At(s) <= At(Age(z, s))
  {
    hide BufInv, CutsOk, LogInv, Strip, Stream, Accounted, Cuts;
    WFOf(z, s);
    var s' := Age(z, s);
    if s' != s {
      var e := s'.log[|s.log|];
      LogSnoc(s.log, e);
      SeenBuf(z, s.b, Stream(s.log), Accounted(s.log), z.drop);
      LogInvSnoc(z, s.log, e, Ended(s.ptmOpen, s.b), Ended(s.ptmOpen, s'.b), s.waited, s.waited);
    }
  }

  lemma DropInv(z: Sizes, s: State)
    requires Inv(z, s)
    ensures Head(z, s.(b := DropOld(z, s.b))) && At(s) <= At(s.(b := DropOld(z, s.b)))
  {
    hide CutsOk, Strip, Stream, Accounted, Cuts, LogInv, Cursor;
    DropBuf(z, s.b, Stream(s.log), Accounted(s.log));
    MoveInv(z, s, DropOld(z, s.b));
  }

  /** A change of the buffers that keeps the view and does not move the cursor back. */
  lemma MoveInv(z: Sizes, s: State, b': Buf)
    requires Inv(z, s) && BufInv(z, b', Stream(s.log), Accounted(s.log))
    requires Cursor(s.b, Stream(s.log)) <= Cursor(b', Stream(s.log))
    requires Ended(s.ptmOpen, s.b) ==> Ended(s.ptmOpen, b')
    ensures Inv(z, s.(b := b')) && At(s) <= At(s.(b := b'))
  {
    hide Strip, Stream, Accounted, Cuts, LogInv;
    var S := Stream(s.log);
    CutsMove(Cuts(s.log), Strip(S), Strip(S), At(s), Cursor(b', S)) by {
      StripPrefix(S, b'.expoffset, |S|);
      assert S[..|S|] == S;
    }
    EndedWeaker(z, s.log, Ended(s.ptmOpen, s.b), Ended(s.ptmOpen, b'), s.waited);
  }

  lemma CopyInv(z: Sizes, s: State)
    requires Inv(z, s) && !Overruns(z, s.b)
    ensures Inv(z, s.(b := Raw2Exp(z, s.b))) && At(s) <= At(s.(b := Raw2Exp(z, s.b)))
  {
    hide CutsOk, Strip, Stream, Accounted, Cuts, LogInv, Cursor, Overruns;
    CopyBuf(z, s.b, Stream(s.log), Accounted(s.log));
    MoveInv(z, s, Raw2Exp(z, s.b));
  }

  lemma ResetInv(z: Sizes, s: State)
    requires Inv(z, s)
    ensures var s' := s.(b := s.b.(expoffset := s.b.ntotal, exp := [])); Inv(z, s') && At(s) <= At(s')
  {
    hide CutsOk, Strip, Stream, Accounted, Cuts, LogInv, Cursor;
    ResetBuf(z, s.b, Stream(s.log), Accounted(s.log));
    MoveInv(z, s, s.b.(expoffset := s.b.ntotal, exp := []));
  }

  lemma ReplyInv(z: Sizes, s: State, r: Reply, ok: bool)
    requires Inv(z, s) && !r.Exited?
    requires IsFinal(Replied(r)) ==> Ended(s.ptmOpen, s.b)
    ensures Inv(z, SendReply(s, r, ok)) && At(SendReply(s, r, ok)) == At(s)
  {
    hide CutsOk, Strip, Stream, Accounted, Cuts, LogInv, Cursor, BufInv;
    if ok {
      LogSnoc(s.log, Replied(r));
      if IsFinal(Replied(r)) { AllAccounted(z, s.b, Stream(s.log), Accounted(s.log)); }
      LogInvSnoc(z, s.log, Replied(r), Ended(s.ptmOpen, s.b), Ended(s.ptmOpen, s.b), s.waited, s.waited);
    }
  }

  lemma ExitedInv(z: Sizes, s: State, ok: bool)
    requires Inv(z, s) && !s.waited && Ended(s.ptmOpen, s.b)
    ensures var s' := SendReply(s.(waited := true), Exited, ok); Inv(z, s') && At(s') == At(s)
  {
    hide CutsOk, Strip, Stream, Accounted, Cuts, Cursor, BufInv, EndInv, SkipsOk;
    LogSnoc(s.log, Replied(Exited));
    AllAccounted(z, s.b, Stream(s.log), Accounted(s.log));
    LogInvSnoc(z, s.log, Replied(Exited), true, true, false, true);
  }

  lemma DeliverInv(z: Sizes, s: State, start: nat, ok: bool)
    requires Inv(z, s) && start <= s.b.seen
    ensures Inv(z, DeliverFrom(s, start, ok)) && At(DeliverFrom(s, start, ok)) == At(s)
  {
    hide CutsOk, Strip, Stream, Accounted, Cuts, LogInv, BufInv;
    WFOf(z, s);
    var s', b := DeliverFrom(s, start, ok), s.b;
    if start < |b.raw| && ok {
      var e := Deliver(b.raw[start..b.seen], b.raw[b.seen..]);
      LogSnoc(s.log, e);
      SeenBuf(z, b, Stream(s.log), Accounted(s.log), |b.raw| - b.seen);
      assert b.raw[b.seen..|b.raw|] == b.raw[b.seen..];
      LogInvSnoc(z, s.log, e, Ended(s.ptmOpen, b), Ended(s.ptmOpen, s'.b), s.waited, s.waited);
    }
  }

  lemma WFOf(z: Sizes, s: State)
    requires Inv(z, s)
    ensures s.b.WF(z)
  {}

  lemma ConsumeInv(z: Sizes, s: State, h: Hit)
    requires Inv(z, s) && s.b.expoffset == s.b.ntotal && h.so <= h.eo <= |s.b.exp|
    ensures Inv(z, ConsumeHit(s, h)) && At(s) + h.eo == At(ConsumeHit(s, h))
  {
    hide CutsOk, Strip, Stream, Accounted, Cuts, LogInv;
    var s', S, exp := ConsumeHit(s, h), Stream(s.log), s.b.exp;
    var e := Consume(exp[..h.so], exp[h.so..h.eo], exp[h.eo..]);
    LogSnoc(s.log, e);
    assert S[..|S|] == S;
    SuffixCut(exp, Strip(S), h.eo);
    CutsAdd(Cuts(s.log), Strip(S), exp, h.so, h.eo);
    LogInvSnoc(z, s.log, e, Ended(s.ptmOpen, s.b), Ended(s.ptmOpen, s.b), s.waited, s.waited);
  }

  lemma PassEndInv(z: Sizes, s: State, env: Env)
    requires Inv(z, s)
    ensures Inv(z, PassEnd(s, env)) && At(s) <= At(PassEnd(s, env))
  {
    hide CutsOk, Strip, Stream, Accounted, Cuts, LogInv, BufInv, Cursor;
    if !s.ptmOpen && s.b.NewCnt() == 0 {
      if s.conn.pass.flags.eof {
        ResetInv(z, s);
        ReplyInv(z, s.(b := s.b.(expoffset := s.b.ntotal, exp := [])), EofReply, env.finalOk);
      } else if s.conn.pass.flags.exit {
        if !s.waited && s.dead { ExitedInv(z, s, env.finalOk); }
      } else {
        ReplyInv(z, s, Error(EofError), env.finalOk);
      }
    } else {
      ReplyInv(z, s, Error(TimeoutError), env.finalOk);
    }
  }

  lemma PassPatternInv(m: Matcher, z: Sizes, s: State, pat: Bytes, env: Env)
    requires Inv(z, s) && !Overruns(z, s.b)
    ensures Inv(z, PassPattern(m, z, s, pat, env)) && At(s) <= At(PassPattern(m, z, s, pat, env))
  {
    hide CutsOk, Strip, Stream, Accounted, Cuts, LogInv, BufInv, Cursor, TryMatch, PassEnd, Overruns;
    WFOf(z, s);
    CopyInv(z, s);
    var s1 := s.(b := Raw2Exp(z, s.b));
    var h := TryMatch(m, s.conn.pass, pat, s1.b.exp, s.ptmOpen);
    if h.Some? {
      ConsumeInv(z, s1, h.value);
      ReplyInv(z, ConsumeHit(s1, h.value), Matched, env.finalOk);
    } else {
      PassEndInv(z, s1, env);
    }
  }

  /** The invariants do not speak of the connection. */
  lemma ConnIrrelevant(z: Sizes, s: State, conn: Conn)
    requires Inv(z, s)
    ensures Inv(z, s.(conn := conn)) && At(s.(conn := conn)) == At(s)
  {
    hide CutsOk, Strip, Stream, Accounted, Cuts, LogInv, BufInv, Cursor;
  }

  /** With nothing undelivered, interact and wait move the expect buffer to the end of the output. */
  lemma NothingNew(s: State)
    requires s.b.NewCnt() == 0
    ensures s.(b := s.b.(expoffset := s.b.ntotal - s.b.NewCnt(), exp := [])) ==
            s.(b := s.b.(expoffset := s.b.ntotal, exp := []))
  {}

  lemma PassMatchInv(m: Matcher, z: Sizes, s: State, env: Env)
    requires s.b.WF(z) && Inv(z, s) && s.b.NewCnt() == 0
    ensures var r := PassMatch(m, z, s, env); r.Next? ==> Inv(z, r.s) && At(s) <= At(r.s)
  {
    if s.conn.pass.pattern.Some? {
      hide Inv, At, PassEnd, PassPattern, Overruns;
      if !Overruns(z, s.b) { PassPatternInv(m, z, s, s.conn.pass.pattern.value, env); }
    } else if s.conn.pass.subcmd.Interact? || s.conn.pass.subcmd.Wait? {
      hide Inv, At, PassEnd, PassPattern, Overruns;
      NothingNew(s);
      ResetInv(z, s);
      PassEndInv(z, s.(b := s.b.(expoffset := s.b.ntotal, exp := [])), env);
    } else {
      hide Inv, At, PassEnd, PassPattern, Overruns;
      PassEndInv(z, s, env);
    }
  }

  lemma Delivered(z: Sizes, s: State, start: nat, ok: bool)
    requires s.b.WF(z) && start <= s.b.seen && s.conn.open
    ensures var r := DeliverFrom(s, start, ok); r.b.WF(z) && (r.conn.open ==> r.b.NewCnt() == 0)
  {}

  /** Past the send nothing is left undelivered: this is what makes the reset of interact and wait sound. */
  lemma ServPassInv(m: Matcher, z: Sizes, s: State, env: Env)
    requires Inv(z, s)
    ensures var r := ServPass(m, z, s, env); r.Next? ==> Inv(z, r.s) && At(s) <= At(r.s)
  {
    WFOf(z, s);
    hide Inv, At, PassMatch, SendStart, LookbackFaults, DeliverFrom;
    if s.conn.open && s.conn.passing && !LookbackFaults(s.b, s.conn.pass.lookback) {
      var s0, start := ClearLookback(s), SendStart(s.b, s.conn.pass.lookback);
      ConnIrrelevant(z, s, s0.conn);
      DeliverInv(z, s0, start, env.outputOk);
      Delivered(z, s0, start, env.outputOk);
      var s1 := DeliverFrom(s0, start, env.outputOk);
      if s1.conn.open { PassMatchInv(m, z, s1, env); }
    }
  }

  /** The messages that are answered without touching anything but the connection. */
  lemma AnswerForm(z: Sizes, s: State, msg: Msg, ok: bool) returns (reply: Reply, sent: bool)
    requires s.b.WF(z) && (msg.Hello? || msg.Disconn? || msg.Send? || msg.Expout? || msg.Kill?)
    ensures !IsFinal(Replied(reply))
    ensures var r, t := ProcessMsg(z, s, msg, ok), if sent then SendReply(s, reply, ok) else s;
            r.Next? && r.s == t.(conn := s.conn.(open := r.s.conn.open))
  {
    hide CStr;
    sent := !msg.Hello? || msg.version.Some?;
    match msg
    case Hello(v) => reply := if v.Some? && CStr(v.value) == VERSION then HelloReply else Error(ProtoError);
    case Disconn => reply := DisconnReply;
    case Kill(done) => reply := if done then Ack else Error(SysError);
    case Expout(i) => reply := ExpoutAnswer(s.expout, i);
    case _ => reply := Ack;
  }

  lemma AnswerInv(z: Sizes, s: State, msg: Msg, ok: bool)
    requires Inv(z, s)
    requires msg.Hello? || msg.Disconn? || msg.Send? || msg.Expout? || msg.Kill?
    ensures var r := ProcessMsg(z, s, msg, ok); r.Next? && Inv(z, r.s) && At(s) == At(r.s)
  {
    hide Inv, At, ProcessMsg, SendReply;
    WFOf(z, s);
    var reply, sent := AnswerForm(z, s, msg, ok);
    if sent { ReplyInv(z, s, reply, ok); }
    ConnIrrelevant(z, if sent then SendReply(s, reply, ok) else s, ProcessMsg(z, s, msg, ok).s.conn);
  }

  lemma ProcessSet(z: Sizes, s: State, nonblock: Option<bool>, timeout: Option<int>, ok: bool)
    requires s.b.WF(z)
    ensures ProcessMsg(z, s, Set(nonblock, timeout), ok) == Next(SendReply(SetOptions(s, nonblock, timeout), Ack, ok))
  {
    hide SendReply, SetOptions;
  }

  /** What a message can do to the buffers and, unless it starts a pass, to the pass. */
  lemma ProcessKeeps(z: Sizes, s: State, msg: Msg, ok: bool)
    requires s.b.WF(z)
    ensures var r := ProcessMsg(z, s, msg, ok);
            && (r.Fault? <==> msg.Info? && Overruns(z, s.b))
            && (r.Next? ==> r.s.b == if msg.Info? then Raw2Exp(z, s.b) else s.b)
            && (r.Next? && !msg.PassCmd? ==> r.s.conn == s.conn.(open := r.s.conn.open))
            && (r.Next? && !(msg.Set? && msg.nonblock.Some?) ==> r.s.nonblock == s.nonblock)
            && (r.Next? && msg.Set? && msg.nonblock.Some? ==> r.s.nonblock == msg.nonblock.value)
            && (r.Next? && !msg.Set? ==> r.s.defTimeout == s.defTimeout)
            && (r.Next? && !msg.PassCmd? ==> r.s.expout == s.expout)
  {
    hide Raw2Exp, Overruns, CStr, Peek, ExpoutAnswer;
    match msg
    case Set(nonblock, timeout) =>
      hide ProcessMsg, SendReply;
      ProcessSet(z, s, nonblock, timeout, ok);
      SendKeeps(SetOptions(s, nonblock, timeout), Ack, ok);
    case Close => hide SendReply; SendKeeps(s.(ptmOpen := false), Ack, ok);
    case Info =>
      hide SendReply;
      if !Overruns(z, s.b) {
        var s1 := s.(b := Raw2Exp(z, s.b));
        SendKeeps(s1, InfoReply(Peek(s1.b.exp)), ok);
      }
    case PassCmd(_, _, _, _, _) =>
    case Input(_) =>
    case Winch =>
    case _ =>
      hide ProcessMsg, SendReply;
      var reply, sent := AnswerForm(z, s, msg, ok);
      SendKeeps(s, reply, ok);
  }

  lemma SendKeeps(s: State, reply: Reply, ok: bool)
    ensures var r := SendReply(s, reply, ok);
            && r.b == s.b && r.nonblock == s.nonblock && r.conn == s.conn.(open := r.conn.open)
            && r.expout == s.expout && r.defTimeout == s.defTimeout
  {}

  lemma InfoInv(z: Sizes, s: State, ok: bool)
    requires Inv(z, s) && !Overruns(z, s.b)
    ensures var r := ProcessMsg(z, s, Info, ok); r.Next? && Inv(z, r.s) && At(s) <= At(r.s)
  {
    hide CutsOk, Strip, Stream, Accounted, Cuts, LogInv, BufInv, Cursor, Overruns;
    WFOf(z, s);
    CopyInv(z, s);
    var s1 := s.(b := Raw2Exp(z, s.b));
    ReplyInv(z, s1, InfoReply(Peek(s1.b.exp)), ok);
  }

  lemma SetInv(z: Sizes, s: State, nonblock: Option<bool>, timeout: Option<int>, ok: bool)
    requires Inv(z, s)
    ensures var r := ProcessMsg(z, s, Set(nonblock, timeout), ok); r.Next? && Inv(z, r.s) && At(s) <= At(r.s)
  {
    WFOf(z, s);
    var t := SetOptions(s, nonblock, timeout);
    hide CutsOk, Strip, Stream, Accounted, Cuts, LogInv, BufInv, Cursor, ProcessMsg, SendReply;
    assert Inv(z, t) && At(t) == At(s);
    ReplyInv(z, t, Ack, ok);
    ProcessSet(z, s, nonblock, timeout, ok);
  }

  lemma CloseInv(z: Sizes, s: State, ok: bool)
    requires Inv(z, s)
    ensures var r := ProcessMsg(z, s, Close, ok); r.Next? && Inv(z, r.s) && At(s) <= At(r.s)
  {
    WFOf(z, s);
    ClosedInv(z, s);
    hide Inv, At, SendReply;
    ReplyInv(z, s.(ptmOpen := false), Ack, ok);
  }

  lemma ClosedInv(z: Sizes, s: State)
    requires Inv(z, s)
    ensures Inv(z, s.(ptmOpen := false)) && At(s.(ptmOpen := false)) == At(s)
  {
    hide CutsOk, Strip, Stream, Accounted, Cuts, LogInv, BufInv, Cursor;
    EndedWeaker(z, s.log, Ended(s.ptmOpen, s.b), Ended(false, s.b), s.waited);
  }

  lemma StartPassInv(z: Sizes, s: State, msg: Msg)
    requires Inv(z, s) && msg.PassCmd?
    ensures Inv(z, StartPass(s, msg)) && At(StartPass(s, msg)) == At(s)
  {
    hide CutsOk, Strip, Stream, Accounted, Cuts, LogInv, BufInv, Cursor, CStr;
  }

  lemma ReceiveInv(z: Sizes, s: State, recv: Recv, ok: bool)
    requires Inv(z, s)
    ensures var r := Receive(z, s, recv, ok); r.Next? ==> Inv(z, r.s) && At(s) <= At(r.s)
  {
    WFOf(z, s);
    hide Inv, At, ProcessMsg;
    if s.conn.open && recv.Broken? { ConnIrrelevant(z, s, s.conn.(open := false)); }
    if s.conn.open && recv.Got? { ProcessInv(z, s, recv.msg, ok); }
  }

  lemma ProcessInv(z: Sizes, s: State, msg: Msg, ok: bool)
    requires s.b.WF(z) && Inv(z, s)
    ensures var r := ProcessMsg(z, s, msg, ok); r.Next? ==> Inv(z, r.s) && At(s) <= At(r.s)
  {
    match msg
    case Close => hide Inv, At, ProcessMsg; CloseInv(z, s, ok);
    case Set(nonblock, timeout) => hide Inv, At, ProcessMsg; SetInv(z, s, nonblock, timeout, ok);
    case Info => hide Inv, At, Raw2Exp, Overruns, SendReply; if !Overruns(z, s.b) { InfoInv(z, s, ok); }
    case PassCmd(_, _, _, _, _) => hide Inv, At, StartPass; StartPassInv(z, s, msg);
    case Input(_) => hide Inv, At;
    case Winch => hide Inv, At;
    case _ => hide Inv, At, ProcessMsg; AnswerInv(z, s, msg, ok);
  }

  lemma ExpHasNoNul(z: Sizes, s: State)
    requires Inv(z, s)
    ensures NUL !in s.b.exp
  {
    hide Strip, CutsOk, Cuts, Stream, Accounted, LogInv, Cursor;
    SuffixHasNoNul(s.b.exp, Strip(Stream(s.log)[..s.b.expoffset]));
  }

  lemma SuffixHasNoNul(t: Bytes, s: Bytes)
    requires IsSuffix(t, s) && NUL !in s
    ensures NUL !in t
  {
    assert forall i :: 0 <= i < |t| ==> t[i] == s[|s| - |t| + i];
  }

  lemma CopiedIsSuffix(z: Sizes, s: State)
    requires Inv(z, s) && !Overruns(z, s.b)
    ensures IsSuffix(Raw2Exp(z, s.b).exp, Strip(Stream(s.log)))
  {
    hide Strip, Raw2Exp, Overruns, CutsOk, Cuts, Stream, Accounted, LogInv, Cursor, IsSuffix;
    CopyInv(z, s);
    var S := Stream(s.log);
    AllCopied(z, s.b);
    assert S[..|S|] == S;
  }

  lemma AllCopied(z: Sizes, b: Buf)
    requires b.WF(z) && !Overruns(z, b)
    ensures Raw2Exp(z, b).expoffset == b.ntotal == Raw2Exp(z, b).ntotal
  {}

  // ---------- runs ----------

  /** One iteration if the loop is still running. */
  function Step(m: Matcher, z: Sizes, s: State, env: Env): (r: Outcome)
    requires z.Valid() && s.b.WF(z)
    ensures r.Next? ==> r.s.b.WF(z)
  {
    if Live(s) then Iterate(m, z, s, env) else Next(s)
  }

  /** The run of serv_loop() that the environments `envs` produce. */
  function Run(m: Matcher, z: Sizes, s: State, envs: seq<Env>): (r: Outcome)
    requires z.Valid() && s.b.WF(z)
    ensures r.Next? ==> r.s.b.WF(z)
  {
    if envs == [] then Next(s)
    else match Run(m, z, s, envs[..|envs| - 1])
      case Fault(f) => Fault(f)
      case Next(t) => Step(m, z, t, envs[|envs| - 1])
  }

  lemma GatherInv(z: Sizes, s: State, env: Env)
    requires z.Valid() && Inv(z, s)
    ensures Inv(z, Gather(z, s, env)) && At(s) <= At(Gather(z, s, env))
  {
    hide CutsOk, Strip, Stream, Accounted, Cuts, LogInv, BufInv, Cursor, ReadPtm, Age;
    WFOf(z, s);
    var s0 := if env.accept && !s.conn.open then Accept(s) else s;
    ReadInv(z, s0, env.read);
    AgeInv(z, ReadPtm(z, s0, env.read));
  }

  lemma StepInv(m: Matcher, z: Sizes, s: State, env: Env)
    requires z.Valid() && Head(z, s)
    ensures var r := Step(m, z, s, env); r.Next? ==> Head(z, r.s) && At(s) <= At(r.s)
  {
    hide CutsOk, Strip, Stream, Accounted, Cuts, LogInv, BufInv, Cursor, Gather, Receive, ServPass, DropOld;
    WFOf(z, s);
    if Live(s) {
      var s0 := Prelude(s, env);
      EndedWeaker(z, s.log, Ended(s.ptmOpen, s.b), Ended(s0.ptmOpen, s0.b), s.waited);
      if !env.interrupted {
        GatherInv(z, s0, env);
        var s1 := Gather(z, s0, env);
        ReceiveInv(z, s1, Recvd(s0, env), env.replyOk);
        var r := Receive(z, s1, Recvd(s0, env), env.replyOk);
        if r.Next? {
          ServPassInv(m, z, Signal(r.s, env.sigLate), env);
          var r2 := ServPass(m, z, Signal(r.s, env.sigLate), env);
          if r2.Next? { DropInv(z, r2.s); }
        }
      }
    }
  }

  lemma InitHead(z: Sizes, nonblock: bool, defTimeout: int)
    requires z.Valid()
    ensures Head(z, Init(nonblock, defTimeout))
  {}

  /** The invariants hold between any two iterations of every run that has not crashed. */
  lemma {:induction false} RunInv(m: Matcher, z: Sizes, s: State, envs: seq<Env>)
    requires z.Valid() && Head(z, s)
    ensures var r := Run(m, z, s, envs); r.Next? ==> Head(z, r.s) && At(s) <= At(r.s)
  {
    hide CutsOk, Strip, Stream, Accounted, Cuts, LogInv, Cursor, IsSuffix;
    if envs != [] {
      var r := Run(m, z, s, envs[..|envs| - 1]);
      RunInv(m, z, s, envs[..|envs| - 1]);
      if r.Next? { StepInv(m, z, r.s, envs[|envs| - 1]); }
    }
  }

  // ---------- the theorems, for runs from the start ----------

  /** rawbuf is exactly the tail of the stream, and expbuf a suffix of the NUL-stripped part copied so far. */
  lemma WindowTheorem(m: Matcher, z: Sizes, nonblock: bool, timeout: int, envs: seq<Env>)
    requires z.Valid()
    ensures var r := Run(m, z, Init(nonblock, timeout), envs);
            r.Next? ==>
              var b, S := r.s.b, Stream(r.s.log);
              && b.seen <= |b.raw| <= z.raw && b.ntotal == |S|
              && b.raw == S[b.rawoffset..] && b.rawoffset + b.seen + b.NewCnt() == |S|
              && IsSuffix(b.exp, Strip(S[..b.expoffset]))
              && b.seen <= z.maxOld && |b.exp| <= z.maxOld && (b.rawoffset > 0 ==> b.seen == z.maxOld)
  {
    InitHead(z, nonblock, timeout);
    RunInv(m, z, Init(nonblock, timeout), envs);
  }

  /** Once anything was read the window is never empty, so that its last byte exists for -lookback. */
  lemma WindowNotEmpty(z: Sizes, s: State)
    requires z.Valid() && Inv(z, s) && s.b.ntotal > 0
    ensures |s.b.raw| > 0
  {
    hide Strip, Stream, Accounted, Cuts, CutsOk, LogInv, IsSuffix;
    assert s.b.rawoffset > 0 ==> s.b.seen >= z.maxOld;
  }

  /** Matched texts are pieces of the stripped stream; later ones lie entirely after earlier ones. */
  lemma MatchTheorem(m: Matcher, z: Sizes, nonblock: bool, timeout: int, envs: seq<Env>)
    requires z.Valid()
    ensures var r := Run(m, z, Init(nonblock, timeout), envs);
            r.Next? ==>
              var cuts, T := Cuts(r.s.log), Strip(Stream(r.s.log));
              && (forall i :: 0 <= i < |cuts| ==> 0 <= cuts[i].lo <= cuts[i].hi <= |T| &&
                                                  cuts[i].text == T[cuts[i].lo..cuts[i].hi])
              && (forall i, j :: 0 <= i < j < |cuts| ==> cuts[i].hi <= cuts[j].lo)
  {
    InitHead(z, nonblock, timeout);
    RunInv(m, z, Init(nonblock, timeout), envs);
  }

  /** The match cursor never moves back, however a run continues. */
  lemma {:induction false} CursorTheorem(m: Matcher, z: Sizes, s: State, envs: seq<Env>, more: seq<Env>)
    requires z.Valid() && Head(z, s) && Run(m, z, s, envs + more).Next?
    ensures Run(m, z, s, envs).Next? && At(Run(m, z, s, envs).s) <= At(Run(m, z, s, envs + more).s)
  {
    WFOf(z, s);
    hide Step, Head, At;
    if more == [] {
      assert envs + more == envs;
    } else {
      var all, less := envs + more, more[..|more| - 1];
      assert all[..|all| - 1] == envs + less;
      CursorTheorem(m, z, s, envs, less);
      RunInv(m, z, s, envs + less);
      StepInv(m, z, Run(m, z, s, envs + less).s, all[|all| - 1]);
    }
  }

  /** Nothing is lost or sent twice: sent or skipped, then pending, is everything read. */
  lemma DeliveryTheorem(m: Matcher, z: Sizes, nonblock: bool, timeout: int, envs: seq<Env>)
    requires z.Valid()
    ensures var r := Run(m, z, Init(nonblock, timeout), envs);
            r.Next? ==> Accounted(r.s.log) + r.s.b.raw[r.s.b.seen..] == Stream(r.s.log) && SkipsOk(z, r.s.log)
  {
    InitHead(z, nonblock, timeout);
    RunInv(m, z, Init(nonblock, timeout), envs);
    hide Strip, Stream, Accounted, Cuts, CutsOk, Run, Cursor, BufInv, EndInv, ExitInv;
    var r := Run(m, z, Init(nonblock, timeout), envs);
    if r.Next? { Pending(z, r.s.b, Stream(r.s.log), Accounted(r.s.log)); }
  }

  /**
   * EXITED is sent at most once.  When EXITED or either form of end of file was sent, everything the pty
   * produced in the whole run, later included, had been delivered or skipped by then.
   */
  lemma EndTheorem(m: Matcher, z: Sizes, nonblock: bool, timeout: int, envs: seq<Env>)
    requires z.Valid()
    ensures var r := Run(m, z, Init(nonblock, timeout), envs);
            r.Next? ==>
              var log := r.s.log;
              && (forall i :: 0 <= i < |log| && IsFinal(log[i]) ==>
                    !r.s.ptmOpen && r.s.b.NewCnt() == 0 && Accounted(log[..i]) == Stream(log))
              && (forall i, j :: 0 <= i < j < |log| ==> log[i] != Replied(Exited) || log[j] != Replied(Exited))
  {
    InitHead(z, nonblock, timeout);
    RunInv(m, z, Init(nonblock, timeout), envs);
  }

  /** The last thing that happened on the way from s to r was this reply. */
  predicate Says(s: State, r: State, reply: Reply) {
    |r.log| > |s.log| && r.log[|r.log| - 1] == Replied(reply)
  }

  /** What the tail of serv_pass() does to log and connection: nothing, or one final reply that ends the pass. */
  lemma PassEndForm(s: State, env: Env) returns (ended: bool, reply: Reply)
    ensures var r := PassEnd(s, env);
            if !ended then r.log == s.log && r.conn == s.conn
            else
              && !r.conn.passing && r.conn.open == (s.conn.open && env.finalOk)
              && r.log == if env.finalOk then s.log + [Replied(reply)] else s.log
    ensures reply.Error? || reply.EofReply? || reply.Exited?
  {
    hide TimedOut;
    ended, reply := true, Error(EofError);
    if !s.ptmOpen && s.b.NewCnt() == 0 {
      if s.conn.pass.flags.eof {
        reply := EofReply;
      } else if s.conn.pass.flags.exit {
        ended, reply := !s.waited && s.dead, Exited;
      }
    } else {
      ended, reply := TimedOut(s.conn.pass, env.expired), Error(TimeoutError);
    }
  }

  /** Nothing but the expect buffer, log and connection, and whether the child was reaped, may differ. */
  predicate EndKeeps(s: State, r: State) {
    r == s.(b := s.b.(exp := r.b.exp, expoffset := r.b.expoffset), log := r.log, waited := r.waited,
            conn := s.conn.(open := r.conn.open, passing := r.conn.passing))
  }

  lemma FinalKeeps(s: State, t: State, reply: Reply, ok: bool)
    requires EndKeeps(s, t)
    ensures EndKeeps(s, StopPassing(SendReply(t, reply, ok)))
  {}

  lemma PassEndKeeps(s: State, env: Env)
    ensures EndKeeps(s, PassEnd(s, env))
  {
    hide TimedOut, StopPassing, SendReply;
    var f := s.conn.pass.flags;
    if !s.ptmOpen && s.b.NewCnt() == 0 {
      if f.eof {
        FinalKeeps(s, s.(b := s.b.(expoffset := s.b.ntotal, exp := [])), EofReply, env.finalOk);
      } else if f.exit {
        FinalKeeps(s, s.(waited := true), Exited, env.finalOk);
      } else {
        FinalKeeps(s, s, Error(EofError), env.finalOk);
      }
    } else {
      FinalKeeps(s, s, Error(TimeoutError), env.finalOk);
    }
  }

  lemma PassEndEof(s: State, env: Env)
    requires Says(s, PassEnd(s, env), Error(EofError))
    ensures Ended(s.ptmOpen, s.b) && PassEnd(s, env).b == s.b
  {
    hide TimedOut;
  }

  lemma PassPatternEof(m: Matcher, z: Sizes, s: State, pat: Bytes, env: Env)
    requires s.b.WF(z) && !Overruns(z, s.b) && Says(s, PassPattern(m, z, s, pat, env), Error(EofError))
    ensures var r := PassPattern(m, z, s, pat, env);
            && Ended(s.ptmOpen, r.b) && r.b == Raw2Exp(z, s.b)
            && TryMatch(m, s.conn.pass, pat, r.b.exp, s.ptmOpen).None?
  {
    hide TryMatch, Overruns, Raw2Exp, PassEnd;
    var s1 := s.(b := Raw2Exp(z, s.b));
    if TryMatch(m, s.conn.pass, pat, s1.b.exp, s.ptmOpen).None? { PassEndEof(s1, env); }
  }

  lemma LogGrows(m: Matcher, z: Sizes, s: State, pat: Bytes, env: Env)
    requires s.b.WF(z) && !Overruns(z, s.b)
    ensures var r := PassPattern(m, z, s, pat, env); r.log == s.log || |r.log| > |s.log|
  {
    hide TryMatch, Overruns, Raw2Exp, PassEnd;
    var ended, reply := PassEndForm(s.(b := Raw2Exp(z, s.b)), env);
  }

  lemma ServPassEof(m: Matcher, z: Sizes, s: State, env: Env)
    requires s.b.WF(z) && s.conn.open && s.conn.passing && s.conn.pass.pattern.Some?
    requires var r := ServPass(m, z, s, env); r.Next? && Says(s, r.s, Error(EofError))
    ensures var r := ServPass(m, z, s, env).s;
            && Ended(s.ptmOpen, r.b) && !Overruns(z, s.b)
            && r.b.exp == Raw2Exp(z, s.b).exp && r.b.expoffset == s.b.ntotal
            && TryMatch(m, s.conn.pass, s.conn.pass.pattern.value, r.b.exp, s.ptmOpen).None?
  {
    hide Strip, TryMatch, PassPattern, SendStart, LookbackFaults, Overruns, Raw2Exp, PassEnd;
    var r, pass := ServPass(m, z, s, env), s.conn.pass;
    var s1 := DeliverFrom(ClearLookback(s), SendStart(s.b, pass.lookback), env.outputOk);
    SeenIrrelevant(z, s.b, s1.b.seen);
    LogGrows(m, z, s1, pass.pattern.value, env);
    assert s1.conn.open && r.s.log != s1.log;
    PassPatternEof(m, z, s1, pass.pattern.value, env);
    LookbackIrrelevant(m, pass, pass.pattern.value, r.s.b.exp, s.ptmOpen);
  }

  /** An expect with a pattern reports end of file only when the pattern fails on all text that is retained. */
  lemma PatternEofTheorem(m: Matcher, z: Sizes, s: State, env: Env)
    requires z.Valid() && Inv(z, s) && s.conn.open && s.conn.passing && s.conn.pass.pattern.Some?
    requires var r := ServPass(m, z, s, env); r.Next? && Says(s, r.s, Error(EofError))
    ensures var r := ServPass(m, z, s, env).s;
            && !s.ptmOpen && Accounted(r.log) == Stream(r.log)
            && !Overruns(z, s.b) && r.b.exp == Raw2Exp(z, s.b).exp && r.b.expoffset == s.b.ntotal
            && TryMatch(m, s.conn.pass, s.conn.pass.pattern.value, r.b.exp, s.ptmOpen).None?
  {
    hide CutsOk, Strip, Stream, Accounted, Cuts, Cursor, LogInv, TryMatch, ServPass, Overruns, Raw2Exp, IsSuffix;
    ServPassEof(m, z, s, env);
    ServPassInv(m, z, s, env);
    var r := ServPass(m, z, s, env).s;
    AllAccounted(z, r.b, Stream(r.log), Accounted(r.log));
  }

  lemma SeenIrrelevant(z: Sizes, b: Buf, n: nat)
    requires b.WF(z) && n <= |b.raw|
    ensures var b' := b.(seen := n);
            && Overruns(z, b') == Overruns(z, b)
            && (!Overruns(z, b) ==>
                  Raw2Exp(z, b').exp == Raw2Exp(z, b).exp && Raw2Exp(z, b').expoffset == b.ntotal)
  {}

  lemma LookbackIrrelevant(m: Matcher, pass: Pass, pat: Bytes, text: Bytes, ptmOpen: bool)
    ensures TryMatch(m, pass.(lookback := 0), pat, text, ptmOpen) == TryMatch(m, pass, pat, text, ptmOpen)
  {}
}
