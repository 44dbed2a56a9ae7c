/**
 * server.c in its own form: one object with two fixed buffers whose methods update counters and move bytes in
 * place.  Every method is proved against the transition of ServerSpec that has its name.
 */
module ServerImpl {
  import opened Octets
  import Spec = ServerSpec
  import opened ServerSpec
  import ServerRuns
  import Lookback

  /** strlen(a + from). */
  method StrLen(a: array<Byte>, from: nat, ghost end: nat) returns (n: nat)
    requires from <= end < a.Length && a[end] == NUL
    requires forall i :: from <= i < end ==> a[i] != NUL
    ensures n == end - from
  {
    n := 0;
    while a[from + n] != NUL
      invariant from + n <= end
      decreases end - n
    {
      n := n + 1;
    }
  }

  /** Does `pat` occur at a[i]? */
  method SameAt(a: array<Byte>, i: nat, pat: Bytes, icase: bool) returns (same: bool)
    requires i + |pat| <= a.Length
    ensures same == SameText(a[i..i + |pat|], pat, icase)
  {
    hide SameByte;
    ghost var w := a[i..i + |pat|];
    for k := 0 to |pat|
      invariant forall j :: 0 <= j < k ==> SameByte(w[j], pat[j], icase)
    {
      assert w[k] == a[i + k];
      if !SameByte(a[i + k], pat[k], icase) { return false; }
    }
    return true;
  }

  /** strstr(), or strcasestr() when `icase`, on the C string a[..n]; -1 for NULL. */
  method StrStr(a: array<Byte>, n: nat, pat: Bytes, icase: bool) returns (found: int)
    requires n < a.Length
    ensures var r := FindFrom(a[..n], pat, icase, 0);
            if r.Some? then found == r.value else found == -1
  {
    hide SameText;
    ghost var text := a[..n];
    var i := 0;
    while i + |pat| <= n
      invariant FindFrom(text, pat, icase, 0) == FindFrom(text, pat, icase, i)
    {
      var same := SameAt(a, i, pat, icase);
      assert text[i..i + |pat|] == a[i..i + |pat|];
      if same { return i; }
      i := i + 1;
    }
    return -1;
  }

  lemma StripNothing()
    ensures Strip([]) == []
  {}

  lemma StripNext(s: Bytes, i: nat)
    requires i < |s|
    ensures Strip(s[..i + 1]) == if s[i] == NUL then Strip(s[..i]) else Strip(s[..i]) + [s[i]]
  {
    assert s[..i + 1][..i] == s[..i];
  }

  class Server {
    const z: Sizes
    const rawbuf: array<Byte>
    const expbuf: array<Byte>
    var rawnew: nat  // index in rawbuf of the first byte not sent yet
    var newcnt: nat
    var expcnt: nat
    var ntotal: nat
    var rawoffset: nat
    var expoffset: nat
    var conn: Conn
    var ptmOpen: bool
    var dead: bool
    var waited: bool
    var nonblock: bool
    var defTimeout: int
    var expout: seq<Option<Bytes>>
    ghost var log: seq<Event>

    ghost predicate Valid()
      reads this, rawbuf, expbuf
    {
      && z.Valid() && rawbuf != expbuf
      && rawbuf.Length == z.raw + 1 && expbuf.Length == z.raw + 1
      && rawnew + newcnt <= z.raw && expcnt <= z.raw
      && ntotal == rawoffset + rawnew + newcnt && expoffset <= ntotal
      && NUL !in expbuf[..expcnt]
    }

    ghost function Buffers(): (b: Buf)
      reads this, rawbuf, expbuf
      requires Valid()
      ensures b.WF(z)
    {
      Buf(rawbuf[..rawnew + newcnt], rawnew, expbuf[..expcnt], ntotal, rawoffset, expoffset)
    }

    ghost function View(): State
      reads this, rawbuf, expbuf
      requires Valid()
    {
      State(Buffers(), conn, ptmOpen, dead, waited, nonblock, defTimeout, expout, log)
    }

    /** serv_init(). */
    constructor (z: Sizes, nonblock: bool, defTimeout: int)
      requires z.Valid()
      ensures Valid() && fresh(rawbuf) && fresh(expbuf) && this.z == z
      ensures View() == Init(nonblock, defTimeout)
    {
      this.z := z;
      rawbuf := new Byte[z.raw + 1];
      expbuf := new Byte[z.raw + 1];
      rawnew, newcnt, expcnt, ntotal, rawoffset, expoffset := 0, 0, 0, 0, 0, 0;
      conn, ptmOpen, dead, waited := NO_CONN, true, false, false;
      this.nonblock, this.defTimeout, expout, log := nonblock, defTimeout, NO_OUT, [];
    }

    /** serv_read_ptm(); read() is interrupted `eintr` times before it returns `res`. */
    method ReadPtm(res: ReadResult, eintr: nat)
      requires Valid()
      modifies this, rawbuf
      ensures Valid() && View() == Spec.ReadPtm(z, old(View()), res)
    {
      if !ptmOpen { return; }
      var oldcnt := rawnew;
      var tries := eintr;
      while true
        invariant Valid() && View() == old(View()) && ptmOpen
        decreases tries
      {
        var ntoread := z.raw - (newcnt + oldcnt);
        if ntoread == 0 { return; }
        if tries == 0 { break; }
        tries := tries - 1;
      }
      match res
      case NotReady =>
      case EndOfFile => ptmOpen := false;
      case Data(data) =>
        Append(data[..Min(|data|, z.raw - (newcnt + oldcnt))]);
    }

    /** read() has stored the bytes `d` after the new ones. */
    method Append(d: Bytes)
      requires Valid() && rawnew + newcnt + |d| <= z.raw
      modifies this, rawbuf
      ensures Valid()
      ensures var s := old(View());
              View() == Log(s.(b := s.b.(raw := s.b.raw + d, ntotal := s.b.ntotal + |d|)), Read(d))
    {
      var at, nread := rawnew + newcnt, |d|;
      forall i | 0 <= i < nread { rawbuf[at + i] := d[i]; }
      assert rawbuf[..at + nread] == old(rawbuf[..at]) + d;
      newcnt, ntotal := newcnt + nread, ntotal + nread;
      log := log + [Read(d)];
    }

    /** Count the next block as old. */
    method SkipBlock()
      requires Valid() && rawnew + z.drop <= rawnew + newcnt && !conn.open
      modifies this`rawnew, this`newcnt, this`log
      ensures Valid()
      ensures var s := old(View());
              View() == Log(s.(b := s.b.(seen := s.b.seen + z.drop)),
                            Skip(s.b.raw[s.b.seen..s.b.seen + z.drop], s.conn.open))
    {
      ghost var raw := rawbuf[..rawnew + newcnt];
      log := log + [Skip(raw[rawnew..rawnew + z.drop], false)];
      rawnew, newcnt := rawnew + z.drop, newcnt - z.drop;
    }

    /** The -nonblock branch of serv_loop(). */
    method Age()
      requires Valid()
      modifies this
      ensures Valid() && View() == Spec.Age(z, old(View()))
    {
      hide Log;
      if nonblock && !conn.open {
        var oldcnt := rawnew;
        if oldcnt + newcnt == z.raw && oldcnt <= z.maxOld { SkipBlock(); }
      }
    }

    /** drop_old_data(): two memmove()s. */
    method DropOldData()
      requires Valid()
      modifies this, rawbuf, expbuf
      ensures Valid() && View() == old(View()).(b := DropOld(z, old(Buffers())))
    {
      hide ServerRuns.RawDropped, ServerRuns.ExpDropped, Valid;
      ServerRuns.DropInTwo(z, Buffers());
      DropRaw();
      DropExp();
    }

    method DropRaw()
      requires Valid()
      modifies this, rawbuf
      ensures Valid() && expcnt == old(expcnt)
      ensures View() == old(View()).(b := ServerRuns.RawDropped(z, old(Buffers())))
    {
      var oldcnt := rawnew;
      if oldcnt > z.maxOld {
        var dropsize := oldcnt - z.maxOld;
        oldcnt := z.maxOld;
        forall i | 0 <= i < oldcnt + newcnt { rawbuf[i] := rawbuf[dropsize + i]; }
        assert rawbuf[..oldcnt + newcnt] == old(rawbuf[..rawnew + newcnt])[dropsize..];
        rawnew := rawnew - dropsize;
        rawoffset := rawoffset + dropsize;
      }
    }

    method DropExp()
      requires Valid()
      modifies this, expbuf
      ensures Valid()
      ensures View() == old(View()).(b := ServerRuns.ExpDropped(z, old(Buffers())))
    {
      if expcnt > z.maxOld {
        var dropsize := expcnt - z.maxOld;
        forall i | 0 <= i < z.maxOld { expbuf[i] := expbuf[dropsize + i]; }
        assert expbuf[..z.maxOld] == old(expbuf[..expcnt])[dropsize..];
        expcnt := z.maxOld;
        expbuf[expcnt] := NUL;
      }
    }

    /** The copy loop of buf_raw2expect(). */
    method CopyStripped(start: nat, ncopy: nat)
      requires Valid() && start + ncopy <= rawnew + newcnt && expcnt + ncopy <= z.raw
      modifies this`expcnt, expbuf
      ensures Valid() && expbuf[..expcnt] == old(expbuf[..expcnt]) + Strip(rawbuf[start..start + ncopy])
    {
      hide Strip;
      ghost var text := rawbuf[start..start + ncopy];
      StripNothing();
      for i := 0 to ncopy
        invariant Valid() && expcnt + (ncopy - i) <= z.raw && rawbuf[start..start + ncopy] == text
        invariant expbuf[..expcnt] == old(expbuf[..expcnt]) + Strip(text[..i])
      {
        assert rawbuf[start + i] == text[i];
        StripNext(text, i);
        ghost var before := expbuf[..expcnt];
        if rawbuf[start + i] != NUL {
          expbuf[expcnt] := rawbuf[start + i];
          expcnt := expcnt + 1;
          assert expbuf[..expcnt] == before + [text[i]];
        }
      }
      assert text[..ncopy] == text;
    }

    /** buf_raw2expect(); `ok` is false when its assert fails and the process is gone. */
    method BufRaw2Expect() returns (ok: bool)
      requires Valid()
      modifies this, expbuf
      ensures Valid()
      ensures ok == !Overruns(z, old(Buffers()))
      ensures ok ==> View() == old(View()).(b := Raw2Exp(z, old(Buffers()))) && expbuf[expcnt] == NUL
    {
      hide Strip;
      if expoffset < rawoffset {
        expoffset := rawoffset;
        expcnt := 0;
      }
      assert Buffers() == Resync(old(Buffers()));
      var ncopy := ntotal - expoffset;
      if expcnt + ncopy > z.raw { return false; }
      expoffset := ntotal;
      var start := rawnew + newcnt - ncopy;
      assert rawbuf[start..start + ncopy] == rawbuf[..rawnew + newcnt][start..];
      CopyStripped(start, ncopy);
      expbuf[expcnt] := NUL;
      return true;
    }

    // ---------- matching ----------

    /** Forget the first `cut` bytes of the expect buffer: strlen() and memmove(). */
    method CutExp(cut: nat)
      requires Valid() && expbuf[expcnt] == NUL && cut <= expcnt
      modifies this`expcnt, expbuf
      ensures Valid() && View() == old(View()).(b := old(Buffers()).(exp := old(Buffers()).exp[cut..]))
    {
      assert forall i :: 0 <= i < expcnt ==> expbuf[..expcnt][i] == expbuf[i];
      var n := StrLen(expbuf, cut, expcnt);
      forall i | 0 <= i < n { expbuf[i] := expbuf[cut + i]; }
      assert expbuf[..n] == old(expbuf[..expcnt])[cut..];
      expcnt := n;
      expbuf[expcnt] := NUL;
    }

    /** What both kinds of match do with the text they found. */
    method TakeHit(h: Hit)
      requires Valid() && expbuf[expcnt] == NUL && h.so <= h.eo <= expcnt
      modifies this, expbuf
      ensures Valid() && View() == ConsumeHit(old(View()), h)
    {
      if h.out.Some? { expout := h.out.value; }
      ghost var exp := Buffers().exp;
      log := log + [Consume(exp[..h.so], exp[h.so..h.eo], exp[h.eo..])];
      CutExp(h.eo);
    }

    method ExpectExact(pat: Bytes) returns (hit: bool)
      requires Valid() && expbuf[expcnt] == NUL
      modifies this, expbuf
      ensures Valid()
      ensures var h := Spec.ExpectExact(old(conn).pass, pat, old(Buffers()).exp);
              hit == h.Some? && View() == if hit then ConsumeHit(old(View()), h.value) else old(View())
    {
      hide ConsumeHit, FindFrom;
      var found := StrStr(expbuf, expcnt, pat, conn.pass.flags.icase);
      if found < 0 { return false; }
      TakeHit(Hit(found, found + |pat|, Some(NO_OUT[0 := Some(pat)])));
      return true;
    }

    method ExpectEre(m: Matcher, pat: Bytes) returns (hit: bool)
      requires Valid() && expbuf[expcnt] == NUL
      modifies this, expbuf
      ensures Valid()
      ensures var h := Spec.ExpectEre(m, old(conn).pass, pat, old(Buffers()).exp);
              hit == h.Some? && View() == if hit then ConsumeHit(old(View()), h.value) else old(View())
    {
      hide ConsumeHit, SpanTexts;
      var text := expbuf[..expcnt];
      var r := m(pat, conn.pass.flags, text);
      if r.None? { return false; }
      assert ValidSpans(r.value, text);
      TakeHit(Hit(r.value[0].value.so, r.value[0].value.eo,
                  if conn.pass.flags.nosub then None else Some(SpanTexts(text, r.value))));
      return true;
    }

    method ServExpect(m: Matcher, pat: Bytes) returns (hit: bool)
      requires Valid() && expbuf[expcnt] == NUL
      modifies this, expbuf
      ensures Valid()
      ensures var h := TryMatch(m, old(conn).pass, pat, old(Buffers()).exp, old(ptmOpen));
              hit == h.Some? && View() == if hit then ConsumeHit(old(View()), h.value) else old(View())
    {
      hide Spec.ExpectExact, Spec.ExpectEre, ConsumeHit;
      if expcnt == 0 && !ptmOpen {
        hit := false;
      } else if conn.pass.flags.exact {
        hit := ExpectExact(pat);
      } else if conn.pass.flags.glob {
        hit := false;
      } else if conn.pass.flags.ere {
        hit := ExpectEre(m, pat);
      } else {
        hit := false;
      }
    }

    // ---------- lookback ----------

    /** Scan back from index `from` for the k-th newline; -1 if there are fewer. */
    method ScanBack(from: nat, k: nat) returns (pc: int, newlines: nat)
      requires Valid() && from <= rawnew + newcnt && k >= 1
      ensures var r := NthNewline(rawbuf[..from], k); if r.Some? then pc == r.value else pc == -1
      ensures newlines > 0 <==> NL in rawbuf[..from]
      ensures pc == -1 ==> newlines < k
    {
      newlines := 0;
      pc := from - 1;
      while pc >= 0
        invariant -1 <= pc < from && newlines < k
        invariant NthNewline(rawbuf[..from], k) == NthNewline(rawbuf[..pc + 1], k - newlines)
        invariant newlines > 0 <==> NL in rawbuf[pc + 1..from]
      {
        assert rawbuf[..pc + 1][..pc] == rawbuf[..pc];
        assert rawbuf[pc..from] == [rawbuf[pc]] + rawbuf[pc + 1..from];
        if rawbuf[pc] == NL {
          newlines := newlines + 1;
          if newlines >= k {
            assert rawbuf[..from][pc] == NL;
            return;
          }
        }
        pc := pc - 1;
      }
      assert rawbuf[0..from] == rawbuf[..from];
    }

    /** strchr(rawbuf, '\n') when the window holds a newline; -1 for NULL. */
    method FirstNL() returns (pc: int)
      requires Valid() && NL in rawbuf[..rawnew + newcnt]
      ensures var w := rawbuf[..rawnew + newcnt];
              if NL in CStr(w) then pc == FirstNewline(w).value else pc == -1
    {
      ghost var w := rawbuf[..rawnew + newcnt];
      ghost var c, f := CStr(w), FirstNewline(w).value;
      pc := 0;
      while rawbuf[pc] != NL && rawbuf[pc] != NUL
        invariant 0 <= pc <= f && pc <= |c|
        decreases f - pc
      {
        assert w[pc] == rawbuf[pc];
        pc := pc + 1;
      }
      assert w[pc] == rawbuf[pc];
      if rawbuf[pc] == NUL {
        assert pc == |c|;
        assert forall i :: 0 <= i < |c| ==> c[i] == w[..f][i];
        pc := -1;
      } else {
        assert pc == f;
        assert pc < |c| && c[pc] == NL;
      }
    }

    /** Just after the newline nearest before rawnew, if there is one. */
    method NearestLine() returns (psend: nat)
      requires Valid()
      ensures var before := NthNewline(Buffers().raw[..rawnew], 1);
              psend == if before.Some? then before.value + 1 else if rawoffset == 0 then 0 else rawnew
    {
      hide NthNewline;
      assert rawbuf[..rawnew + newcnt][..rawnew] == rawbuf[..rawnew];
      var pc, _ := ScanBack(rawnew, 1);
      psend := if pc >= 0 then pc + 1 else if rawoffset == 0 then 0 else rawnew;
    }

    /** Just after the first newline, or `rawnew`, when there are fewer newlines than asked for; not `ok` for NULL. */
    method FirstLine() returns (ok: bool, psend: nat)
      requires Valid() && NL in Buffers().raw
      ensures var b := Buffers();
              && (ok <==> b.rawoffset == 0 || NL in CStr(b.raw))
              && (ok ==> psend == if b.rawoffset == 0 then 0 else
                                    var f := FirstNewline(b.raw).value; if f < b.seen then f + 1 else b.seen)
    {
      hide CStr, FirstNewline;
      if rawoffset == 0 { return true, 0; }
      var pc := FirstNL();
      if pc < 0 { return false, 0; }
      return true, if pc < rawnew then pc + 1 else rawnew;
    }

    /** The part of serv_pass() that computes `psend`; not `ok` when it goes on with a NULL. */
    method Psend(n: nat) returns (ok: bool, psend: nat)
      requires Valid()
      ensures ok == !LookbackFaults(Buffers(), n)
      ensures ok ==> psend == SendStart(Buffers(), n)
    {
      hide NthNewline, CStr, FirstNewline, SendStart, LookbackFaults;
      Lookback.NoLookback(Buffers());
      if n == 0 { return true, rawnew; }
      Lookback.SendStartCases(Buffers(), n);
      var k := n;
      var cnt := rawnew + newcnt;
      if ntotal > 0 && cnt > 0 && rawbuf[cnt - 1] == NL { k := k + 1; }
      assert k == WantedNewlines(Buffers(), n);
      var pc, newlines := ScanBack(cnt, k);
      if newlines == 0 {
        return true, 0;
      } else if pc < 0 {
        ok, psend := FirstLine();
      } else if pc < rawnew {
        return true, pc + 1;
      } else {
        psend := NearestLine();
        return true, psend;
      }
    }

    // ---------- serv_pass() ----------

    method Send(r: Reply, ok: bool)
      requires Valid()
      modifies this`conn, this`log
      ensures Valid() && View() == SendReply(old(View()), r, ok)
    {
      if ok { log := log + [Replied(r)]; } else { conn := conn.(open := false); }
    }

    method Deliver(psend: nat, ok: bool)
      requires Valid() && psend <= rawnew
      modifies this
      ensures Valid() && View() == DeliverFrom(old(View()), psend, ok)
    {
      var nsend := rawnew + newcnt - psend;
      if nsend > 0 {
        if !ok { conn := conn.(open := false); return; }
        ghost var raw := rawbuf[..rawnew + newcnt];
        log := log + [Event.Deliver(raw[psend..rawnew], raw[rawnew..])];
        rawnew := rawnew + newcnt;
        newcnt := 0;
      }
    }

    /** Send the final reply of a pass. */
    method Finish(r: Reply, ok: bool)
      requires Valid()
      modifies this`conn, this`log
      ensures Valid() && View() == StopPassing(SendReply(old(View()), r, ok))
    {
      Send(r, ok);
      conn := conn.(passing := false);
    }

    /** Pass over everything up to absolute position `to`. */
    method ResetExp(to: nat)
      requires Valid() && to <= ntotal
      modifies this`expoffset, this`expcnt
      ensures Valid() && View() == old(View()).(b := old(Buffers()).(expoffset := to, exp := []))
    {
      expoffset, expcnt := to, 0;
    }

    /** The part of EndPass for end of file. */
    method EndAtEof(env: Env)
      requires Valid() && !ptmOpen && newcnt == 0
      modifies this
      ensures Valid() && View() == PassEnd(old(View()), env)
    {
      hide StopPassing, SendReply, TimedOut;
      if conn.pass.flags.eof {
        ResetExp(ntotal);
        Finish(EofReply, env.finalOk);
      } else if conn.pass.flags.exit {
        if !waited && dead {
          waited := true;
          Finish(Exited, env.finalOk);
        }
      } else {
        Finish(Error(EofError), env.finalOk);
      }
    }

    method EndPass(env: Env)
      requires Valid()
      modifies this
      ensures Valid() && View() == PassEnd(old(View()), env)
    {
      if !ptmOpen && newcnt == 0 {
        hide PassEnd;
        EndAtEof(env);
      } else if conn.pass.timeout == 0 || (conn.pass.timeout > 0 && env.expired) {
        hide StopPassing, SendReply;
        Finish(Error(TimeoutError), env.finalOk);
      }
    }

    /** The has_PATTERN part of serv_pass(). */
    method MatchPattern(m: Matcher, pat: Bytes, env: Env) returns (ok: bool)
      requires Valid()
      modifies this, expbuf
      ensures Valid() && ok == !Overruns(z, old(Buffers()))
      ensures ok ==> View() == PassPattern(m, z, old(View()), pat, env)
    {
      hide TryMatch, PassEnd, Overruns, Raw2Exp, ConsumeHit, StopPassing, SendReply;
      ok := BufRaw2Expect();
      if !ok { return; }
      var hit := ServExpect(m, pat);
      if hit { Finish(Matched, env.finalOk); } else { EndPass(env); }
    }

    /** serv_pass() from the pattern on. */
    method MatchAndEnd(m: Matcher, env: Env) returns (fault: Option<Spec.Fault>)
      requires Valid()
      modifies this, expbuf
      ensures Valid()
      ensures var r := PassMatch(m, z, old(View()), env);
              if r.Fault? then fault == Some(r.fault) else fault == None && View() == r.s
    {
      hide PassPattern, PassEnd, Overruns;
      if conn.pass.pattern.Some? {
        var ok := MatchPattern(m, conn.pass.pattern.value, env);
        return if ok then None else Some(BufferAssert);
      }
      if conn.pass.subcmd.Interact? || conn.pass.subcmd.Wait? { ResetExp(ntotal - newcnt); }
      EndPass(env);
      return None;
    }

    /** serv_pass() once `psend` is known. */
    method SendAndMatch(m: Matcher, psend: nat, env: Env) returns (fault: Option<Spec.Fault>)
      requires Valid() && psend <= rawnew
      modifies this, expbuf
      ensures Valid()
      ensures var s1 := DeliverFrom(ClearLookback(old(View())), psend, env.outputOk);
              var r := if !s1.conn.open then Next(s1) else PassMatch(m, z, s1, env);
              if r.Fault? then fault == Some(r.fault) else fault == None && View() == r.s
    {
      conn := conn.(pass := conn.pass.(lookback := 0));
      assert View() == ClearLookback(old(View()));
      hide PassMatch, ClearLookback, DeliverFrom, Valid;
      Deliver(psend, env.outputOk);
      if !conn.open { return None; }
      fault := MatchAndEnd(m, env);
    }

    method ServPass(m: Matcher, env: Env) returns (fault: Option<Spec.Fault>)
      requires Valid()
      modifies this, expbuf
      ensures Valid()
      ensures var r := Spec.ServPass(m, z, old(View()), env);
              if r.Fault? then fault == Some(r.fault) else fault == None && View() == r.s
    {
      hide PassMatch, SendStart, LookbackFaults, DeliverFrom, ClearLookback;
      if !conn.open || !conn.passing { return None; }
      var ok, psend := Psend(conn.pass.lookback);
      if !ok { return Some(NullNewline); }
      fault := SendAndMatch(m, psend, env);
    }

    // ---------- serv_process_msg() ----------

    method Hello(version: Option<Bytes>, ok: bool)
      requires Valid()
      modifies this`conn, this`log
      ensures Valid() && Next(View()) == Spec.ProcessMsg(z, old(View()), Msg.Hello(version), ok)
    {
      hide SendReply;
      if version.None? {
        conn := conn.(open := false);
      } else if CStr(version.value) != VERSION {
        Send(Error(ProtoError), ok);
        conn := conn.(open := false);
      } else {
        Send(HelloReply, ok);
      }
    }

    method StartPass(msg: Msg)
      requires Valid() && msg.PassCmd?
      modifies this`conn, this`expout
      ensures Valid() && View() == Spec.StartPass(old(View()), msg)
    {
      var p := conn.pass.(subcmd := msg.subcmd, flags := msg.flags);
      if msg.pattern.Some? {
        p := p.(pattern := Some(CStr(msg.pattern.value)));
        expout := NO_OUT;
      }
      p := p.(timeout := if msg.timeout.Some? then msg.timeout.value else defTimeout);
      if msg.lookback.Some? && msg.lookback.value > 0 { p := p.(lookback := msg.lookback.value); }
      conn := conn.(passing := true, pass := p);
    }

    method Info(ok: bool) returns (fault: Option<Spec.Fault>)
      requires Valid()
      modifies this, expbuf
      ensures Valid()
      ensures var r := Spec.ProcessMsg(z, old(View()), Msg.Info, ok);
              if r.Fault? then fault == Some(r.fault) else fault == None && View() == r.s
    {
      hide SendReply, Overruns, Raw2Exp;
      var copied := BufRaw2Expect();
      if !copied { return Some(BufferAssert); }
      var n := Min(expcnt, MAX_PEEK);
      assert expbuf[expcnt - n..expcnt] == Peek(Buffers().exp);
      Send(InfoReply(expbuf[expcnt - n..expcnt]), ok);
      return None;
    }

    method Expout(i: int, ok: bool)
      requires Valid()
      modifies this`conn, this`log
      ensures Valid() && Next(View()) == Spec.ProcessMsg(z, old(View()), Msg.Expout(i), ok)
    {
      hide SendReply;
      if 0 <= i < NUM_OUT && i < |expout| {
        Send(ExpoutText(if expout[i].Some? then CStr(expout[i].value) else []), ok);
      } else {
        Send(Error(UsageError), ok);
      }
    }

    /** The commands that are only acknowledged: send, close and kill. */
    method Command(msg: Msg, ok: bool)
      requires Valid() && (msg.Send? || msg.Close? || msg.Kill?)
      modifies this
      ensures Valid() && Next(View()) == Spec.ProcessMsg(z, old(View()), msg, ok)
    {
      hide SendReply, Strip;
      match msg
      case Send(_) => Send(Ack, ok);
      case Close =>
        ptmOpen := false;
        assert View() == old(View()).(ptmOpen := false);
        Send(Ack, ok);
      case Kill(done) => Send(if done then Ack else Error(SysError), ok);
    }

    method SetOptions(nb: Option<bool>, timeout: Option<int>, ok: bool)
      requires Valid()
      modifies this
      ensures Valid() && Next(View()) == Spec.ProcessMsg(z, old(View()), Set(nb, timeout), ok)
    {
      hide SendReply, Strip, Spec.ProcessMsg;
      ServerRuns.ProcessSet(z, View(), nb, timeout, ok);
      if nb.Some? { nonblock := nb.value; }
      if timeout.Some? { defTimeout := timeout.value; }
      Send(Ack, ok);
    }

    /** serv_process_msg() with a message. */
    method ProcessMsg(msg: Msg, ok: bool) returns (fault: Option<Spec.Fault>)
      requires Valid()
      modifies this, expbuf
      ensures Valid()
      ensures var r := Spec.ProcessMsg(z, old(View()), msg, ok);
              if r.Fault? then fault == Some(r.fault) else fault == None && View() == r.s
    {
      fault := None;
      match msg
      case Hello(version) => hide Spec.ProcessMsg; Hello(version, ok);
      case Disconn =>
        hide SendReply;
        Send(DisconnReply, ok);
        conn := conn.(open := false);
      case Input(_) =>
      case Winch =>
      case PassCmd(_, _, _, _, _) => hide Spec.StartPass; StartPass(msg);
      case Expout(i) => hide Spec.ProcessMsg; Expout(i, ok);
      case Set(nb, timeout) => hide Spec.ProcessMsg; SetOptions(nb, timeout, ok);
      case Info => hide Spec.ProcessMsg; fault := Info(ok);
      case _ => hide Spec.ProcessMsg; Command(msg, ok);
    }

    /** Receive a message if the socket that select() watched has one. */
    method Receive(recv: Recv, ok: bool) returns (fault: Option<Spec.Fault>)
      requires Valid()
      modifies this, expbuf
      ensures Valid()
      ensures var r := Spec.Receive(z, old(View()), recv, ok);
              if r.Fault? then fault == Some(r.fault) else fault == None && View() == r.s
    {
      hide Spec.ProcessMsg;
      fault := None;
      if conn.open {
        match recv
        case Nothing =>
        case Broken => conn := conn.(open := false);
        case Got(msg) => fault := ProcessMsg(msg, ok);
      }
    }

    method Gather(env: Env, eintr: nat)
      requires Valid()
      modifies this, rawbuf
      ensures Valid() && View() == Spec.Gather(z, old(View()), env)
    {
      hide Spec.ReadPtm, Spec.Age;
      if env.accept && !conn.open { conn := NO_CONN.(open := true); }
      ReadPtm(env.read, eintr);
      Age();
    }

    method Serve(m: Matcher, recv: Recv, env: Env) returns (fault: Option<Spec.Fault>)
      requires Valid()
      modifies this, expbuf
      ensures Valid()
      ensures var r := Spec.Serve(m, z, old(View()), recv, env);
              if r.Fault? then fault == Some(r.fault) else fault == None && View() == r.s
    {
      hide Spec.Receive, Spec.ServPass, Valid, Signal;
      fault := Receive(recv, env.replyOk);
      if fault.Some? { return; }
      Die(env.sigLate);
      fault := ServPass(m, env);
    }

    /** SIGCHLD may arrive. */
    method Die(sig: bool)
      requires Valid()
      modifies this`dead
      ensures Valid() && View() == Signal(old(View()), sig)
    {
      dead := dead || sig;
    }

    /** From the head of the loop to select(). */
    method Begin(env: Env)
      requires Valid()
      modifies this`dead, this`ptmOpen
      ensures Valid() && View() == Prelude(old(View()), env)
    {
      dead := dead || env.sigEarly;
      if env.cloexit && dead { ptmOpen := false; }
    }

    /** One iteration of serv_loop(); the first read() of the pty is interrupted `eintr` times. */
    method Iterate(m: Matcher, env: Env, eintr: nat) returns (fault: Option<Spec.Fault>)
      requires Valid()
      modifies this, rawbuf, expbuf
      ensures Valid()
      ensures var r := Spec.Iterate(m, z, old(View()), env);
              if r.Fault? then fault == Some(r.fault) else fault == None && View() == r.s
    {
      hide Spec.Gather, Spec.Serve, Spec.DropOld, Spec.Prelude;
      Begin(env);
      if env.interrupted { return None; }
      var recv := if conn.open then env.recv else Nothing;
      Gather(env, eintr);
      fault := Serve(m, recv, env);
      if fault.Some? { return; }
      DropOldData();
    }
  }
}
