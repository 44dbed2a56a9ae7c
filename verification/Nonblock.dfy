/** -nonblock: with no client connected, a full window regains free space after a known number of iterations. */
module Nonblock {
  import opened Octets
  import opened ServerSpec
  import opened ServerRuns

  /** No client connects and no system call is interrupted. */
  predicate Quiet(env: Env) { !env.interrupted && !env.accept }

  /** Full window, nobody connected, and `k` more blocks than before marked as old. */
  predicate Stuck(z: Sizes, s: State, seen: nat) {
    && s.b.WF(z) && s.nonblock && !s.conn.open && !s.waited
    && |s.b.raw| == z.raw && s.b.seen == seen
  }

  /** One iteration marks a block as old; only when that exceeds MAX_OLD_DATA are bytes dropped. */
  lemma StuckStep(m: Matcher, z: Sizes, s: State, env: Env, seen: nat)
    requires z.Valid() && Stuck(z, s, seen) && seen <= z.maxOld && Quiet(env)
    ensures var r := Step(m, z, s, env);
            && r.Next?
            && (seen + z.drop <= z.maxOld ==> Stuck(z, r.s, seen + z.drop))
            && (seen + z.drop > z.maxOld ==> |r.s.b.raw| == z.raw - (seen + z.drop - z.maxOld))
  {
    hide ServPass, Strip;
    var s0 := Prelude(s, env);
    assert Recvd(s0, env) == Nothing;
    var s1 := Gather(z, s0, env);
    assert s1.b.seen == seen + z.drop && !s1.conn.open && s1.nonblock && s1.b.raw == s.b.raw;
    ClosedPass(m, z, Signal(s1, env.sigLate), env);
  }

  lemma ClosedPass(m: Matcher, z: Sizes, s: State, env: Env)
    requires s.b.WF(z) && !s.conn.open
    ensures ServPass(m, z, s, env) == Next(s)
  {
    hide PassMatch, SendStart;
  }

  /** How much is old after k blocks were marked. */
  function Aged(z: Sizes, seen: nat, k: nat): nat { if k == 0 then seen else Aged(z, seen, k - 1) + z.drop }

  /** As long as the blocks fit under MAX_OLD_DATA the window stays full. */
  lemma {:induction false} StaysFull(m: Matcher, z: Sizes, s: State, envs: seq<Env>)
    requires z.Valid() && Stuck(z, s, s.b.seen) && forall i :: 0 <= i < |envs| ==> Quiet(envs[i])
    requires Aged(z, s.b.seen, |envs|) <= z.maxOld
    ensures var r := Run(m, z, s, envs); r.Next? && Stuck(z, r.s, Aged(z, s.b.seen, |envs|))
  {
    hide Step;
    if envs != [] {
      var n := |envs| - 1;
      assert |envs[..n]| == n;
      StaysFull(m, z, s, envs[..n]);
      StuckStep(m, z, Run(m, z, s, envs[..n]).s, envs[n], Aged(z, s.b.seen, n));
    }
  }

  /** Iterations until a window with `seen` old bytes has room again. */
  function Needed(z: Sizes, seen: nat): (n: nat)
    requires z.drop > 0 && seen <= z.maxOld
    ensures n > 0
    decreases z.maxOld - seen
  {
    if seen + z.drop > z.maxOld then 1 else 1 + Needed(z, seen + z.drop)
  }

  lemma {:induction false} AgedMonotone(z: Sizes, seen: nat, j: nat, k: nat)
    requires j <= k
    ensures Aged(z, seen, j) <= Aged(z, seen, k)
  {
    if j < k { AgedMonotone(z, seen, j, k - 1); }
  }

  /** MAX_OLD_DATA is passed with the last of the needed blocks and not before. */
  lemma {:induction false} NeededBlocks(z: Sizes, seen: nat)
    requires z.drop > 0 && seen <= z.maxOld
    ensures Aged(z, seen, Needed(z, seen) - 1) <= z.maxOld < Aged(z, seen, Needed(z, seen) - 1) + z.drop
    decreases z.maxOld - seen
  {
    if seen + z.drop <= z.maxOld {
      NeededBlocks(z, seen + z.drop);
      AgedShift(z, seen, Needed(z, seen + z.drop) - 1);
    }
  }

  lemma {:induction false} AgedShift(z: Sizes, seen: nat, k: nat)
    ensures Aged(z, seen + z.drop, k) == Aged(z, seen, k + 1)
  {
    if k > 0 { AgedShift(z, seen, k - 1); }
  }

  /** Needed is (MAX_OLD_DATA - seen) / DROP + 1: at most 9 with the sizes of server.c. */
  lemma {:induction false} NeededIsQuotient(z: Sizes, seen: nat)
    requires z.drop > 0 && seen <= z.maxOld
    ensures (Needed(z, seen) - 1) * z.drop <= z.maxOld - seen < Needed(z, seen) * z.drop
    ensures z == SHIPPED ==> Needed(z, seen) <= 9
    decreases z.maxOld - seen
  {
    if seen + z.drop <= z.maxOld {
      var n := Needed(z, seen + z.drop);
      NeededIsQuotient(z, seen + z.drop);
      assert (n + 1) * z.drop == n * z.drop + z.drop && (n - 1) * z.drop == n * z.drop - z.drop;
    }
  }

  /**
   * The window is full before, and has room after, exactly (MAX_OLD_DATA - seen) / DROP + 1 iterations; what is
   * dropped is at most one block.
   */
  lemma RegainsSpace(m: Matcher, z: Sizes, s: State, envs: seq<Env>)
    requires z.Valid() && Stuck(z, s, s.b.seen) && s.b.seen <= z.maxOld
    requires |envs| == Needed(z, s.b.seen) && forall i :: 0 <= i < |envs| ==> Quiet(envs[i])
    ensures forall k :: 0 <= k < |envs| ==>
              var r := Run(m, z, s, envs[..k]); r.Next? && |r.s.b.raw| == z.raw
    ensures var r := Run(m, z, s, envs); r.Next? && z.raw - z.drop <= |r.s.b.raw| < z.raw
  {
    hide Run, Step, Aged;
    NeededBlocks(z, s.b.seen);
    forall k | 0 <= k < |envs|
      ensures var r := Run(m, z, s, envs[..k]); r.Next? && |r.s.b.raw| == z.raw
    {
      FullPrefix(m, z, s, envs, k);
    }
    FullPrefix(m, z, s, envs, |envs| - 1);
    LastStep(m, z, s, envs, Aged(z, s.b.seen, |envs| - 1));
  }

  lemma FullPrefix(m: Matcher, z: Sizes, s: State, envs: seq<Env>, k: nat)
    requires z.Valid() && Stuck(z, s, s.b.seen) && forall i :: 0 <= i < |envs| ==> Quiet(envs[i])
    requires k < |envs| && Aged(z, s.b.seen, |envs| - 1) <= z.maxOld
    ensures var r := Run(m, z, s, envs[..k]); r.Next? && Stuck(z, r.s, Aged(z, s.b.seen, k))
  {
    hide Run, Step, Aged;
    AgedMonotone(z, s.b.seen, k, |envs| - 1);
    StaysFull(m, z, s, envs[..k]);
  }

  lemma LastStep(m: Matcher, z: Sizes, s: State, envs: seq<Env>, seen: nat)
    requires z.Valid() && s.b.WF(z) && envs != [] && Quiet(envs[|envs| - 1])
    requires var r := Run(m, z, s, envs[..|envs| - 1]); r.Next? && Stuck(z, r.s, seen)
    requires seen <= z.maxOld < seen + z.drop
    ensures var r := Run(m, z, s, envs); r.Next? && z.raw - z.drop <= |r.s.b.raw| < z.raw
  {
    hide Step;
    StuckStep(m, z, Run(m, z, s, envs[..|envs| - 1]).s, envs[|envs| - 1], seen);
  }
}
