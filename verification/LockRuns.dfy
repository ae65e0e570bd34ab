/**
 What the lock guarantees over whole runs: operations take effect one after the
 other, as if each were a single step, and a dead holder can be recovered from.
 */
module LockRuns {
  import opened Engine
  import opened Invariants
  import opened Lock

  /** A run together with the steps that were taken. */
  ghost predicate IsTrace(c: Config, run: seq<Sys>, acts: seq<Action>) {
    && |run| == |acts| + 1 && Init(c, run[0])
    && forall i :: 0 <= i < |acts| ==> Does(c, run[i], acts[i], run[i + 1])
  }

  lemma TraceInv(c: Config, run: seq<Sys>, acts: seq<Action>, i: nat)
    requires IsTrace(c, run, acts) && i < |run|
    ensures Inv(c, run[i])
  {
    hide Init, Inv, Does;
    forall j | 0 <= j < |run| - 1
      ensures Follows(c, run[j], run[j + 1])
    {
      assert Does(c, run[j], acts[j], run[j + 1]);
    }
    RunInv(c, run, i);
  }

  /** Every run has steps. */
  lemma {:induction false} RunTrace(c: Config, run: seq<Sys>) returns (acts: seq<Action>)
    requires IsRun(c, run)
    ensures IsTrace(c, run, acts)
    decreases |run|
  {
    hide Init, Does;
    if |run| == 1 {
      acts := [];
    } else {
      var n := |run| - 1;
      assert forall i :: 0 <= i < n - 1 ==> Follows(c, run[..n][i], run[..n][i + 1]) by {
        assert forall i :: 0 <= i < n - 1 ==> Follows(c, run[i], run[i + 1]);
      }
      acts := RunTrace(c, run[..n]);
      assert Follows(c, run[n - 1], run[n]);
      var a :| Does(c, run[n - 1], a, run[n]);
      var more := acts + [a];
      forall i | 0 <= i < |more|
        ensures Does(c, run[i], more[i], run[i + 1])
      {
        if i < |acts| {
          assert Does(c, run[..n][i], acts[i], run[..n][i + 1]);
        }
      }
      acts := more;
    }
  }

  // ----- one operation

  /** While a process works, only its own finish ends that. */
  lemma WorkingStep(c: Config, s: Sys, a: Action, s': Sys, p: nat)
    requires Does(c, s, a, s') && p in s.procs && s.procs[p].Working?
    requires a.p == p ==> !a.Finish?
    ensures p in s'.procs && s'.procs[p] == s.procs[p]
  {
    hide Geometry, Step, Clear, Ranged;
  }

  lemma {:induction false} WorkingFrom(c: Config, run: seq<Sys>, acts: seq<Action>, i: nat, j: nat, p: nat)
    requires IsTrace(c, run, acts) && i < j <= |acts| && acts[i] == Begin(p)
    requires forall k :: i < k < j ==> !(acts[k].Finish? && acts[k].p == p)
    ensures p in run[j].procs && run[j].procs[p] == Working(run[i].cache)
    decreases j
  {
    hide Init, Step, Clear, Geometry;
    if j == i + 1 {
      assert Does(c, run[i], acts[i], run[j]);
    } else {
      WorkingFrom(c, run, acts, i, j - 1, p);
      assert Does(c, run[j - 1], acts[j - 1], run[j]);
      WorkingStep(c, run[j - 1], acts[j - 1], run[j], p);
    }
  }

  /** What an operation leaves when it finishes is its step on the cache it began with. */
  lemma BeginToFinish(c: Config, run: seq<Sys>, acts: seq<Action>, i: nat, j: nat, p: nat, op: Op, now: int)
    requires IsTrace(c, run, acts) && i < j < |acts| && acts[i] == Begin(p) && acts[j] == Finish(p, op, now)
    requires forall k :: i < k < j ==> !(acts[k].Finish? && acts[k].p == p)
    ensures Ranged(run[i].cache) && run[j + 1].cache == Step(c, run[i].cache, op, now).0
  {
    hide Init, Step, Ranged, IsTrace;
    WorkingFrom(c, run, acts, i, j, p);
    TraceStep(c, run, acts, j);
  }

  lemma TraceStep(c: Config, run: seq<Sys>, acts: seq<Action>, i: nat)
    requires IsTrace(c, run, acts) && i < |acts|
    ensures Does(c, run[i], acts[i], run[i + 1])
  {
  }

  lemma TraceLength(c: Config, run: seq<Sys>, acts: seq<Action>)
    requires IsTrace(c, run, acts)
    ensures |run| == |acts| + 1
  {
  }

  // ----- all operations

  /** The finished operations of a part of a trace, applied one after the other. */
  function Replay(c: Config, e: State, acts: seq<Action>): (r: State)
    requires Ranged(e)
    ensures Ranged(r)
  {
    if acts == [] then e
    else
      var n := |acts| - 1;
      var before := Replay(c, e, acts[..n]);
      if acts[n].Finish? then Step(c, before, acts[n].op, acts[n].now).0 else before
  }

  /** How many steps there are up to the last completed clear of a recovery; 0 if there was none. */
  function LastRebuild(acts: seq<Action>): (k: nat)
    ensures k <= |acts|
    ensures k > 0 ==> acts[k - 1].ClearDone?
    ensures forall i :: k <= i < |acts| ==> !acts[i].ClearDone?
  {
    if acts == [] then 0
    else if acts[|acts| - 1].ClearDone? then |acts|
    else LastRebuild(acts[..|acts| - 1])
  }

  /** The cache that the operations since the last rebuilding should have left. */
  ghost predicate Serial(c: Config, s: Sys, e: State) {
    && (!Dirty(s) ==> s.cache == e)
    && (s.owner in s.procs && s.procs[s.owner].Working? ==> s.procs[s.owner].start == e)
  }

  lemma SerialStep(c: Config, s: Sys, a: Action, s': Sys, e: State)
    requires Inv(c, s) && Does(c, s, a, s') && Serial(c, s, e) && Ranged(e)
    ensures Serial(c, s', if a.ClearDone? then s'.cache else if a.Finish? then Step(c, e, a.op, a.now).0 else e)
  {
    hide WF, Geometry, Step, Clear, HistoryInv, CacheInv;
    assert ProcInv(c, s, a.p);
  }

  lemma RebuildWF(c: Config, s: Sys, a: Action, s': Sys)
    requires Inv(c, s) && Does(c, s, a, s') && a.ClearDone?
    ensures WF(c, s'.cache) && s'.cache.fifo == [] && s'.cache == Clear(s.cache)
  {
    hide WF, Geometry, HistoryInv, LockInv;
    ClearWF(c, s.cache);
  }

  lemma {:induction false} SerialRun(c: Config, run: seq<Sys>, acts: seq<Action>, i: nat)
    requires IsTrace(c, run, acts) && i < |run|
    ensures var k := LastRebuild(acts[..i]);
      && WF(c, run[k].cache) && Ranged(run[k].cache) && (k > 0 ==> run[k].cache.fifo == [])
      && Serial(c, run[i], Replay(c, run[k].cache, acts[k..i]))
    decreases i
  {
    hide WF, Ranged, Inv, Does, Step, Serial, Init, IsTrace;
    if i == 0 {
      SerialStart(c, run, acts);
    } else {
      SerialRun(c, run, acts, i - 1);
      TraceInv(c, run, acts, i - 1);
      TraceLength(c, run, acts);
      TraceStep(c, run, acts, i - 1);
      var a, k := acts[i - 1], LastRebuild(acts[..i - 1]);
      assert acts[..i][..i - 1] == acts[..i - 1];
      SerialStep(c, run[i - 1], a, run[i], Replay(c, run[k].cache, acts[k..i - 1]));
      if a.ClearDone? {
        RebuildWF(c, run[i - 1], a, run[i]);
        WFRanged(c, run[i].cache);
        assert acts[i..i] == [];
      } else {
        assert acts[k..i][..i - 1 - k] == acts[k..i - 1];
      }
    }
  }

  lemma SerialStart(c: Config, run: seq<Sys>, acts: seq<Action>)
    requires IsTrace(c, run, acts)
    ensures WF(c, run[0].cache) && Ranged(run[0].cache)
    ensures Serial(c, run[0], Replay(c, run[0].cache, acts[0..0])) && LastRebuild(acts[..0]) == 0
  {
    hide WF, Ranged, Does;
    WFRanged(c, run[0].cache);
  }

  /**
   Serialisability: whenever a live process has acquired the lock, or nobody has it,
   the cache is the one that the operations finished since the last recovery leave
   when they are applied one after the other; a recovery starts from an empty cache,
   the first operation of all from the initial one.
   */
  lemma Serialisable(c: Config, run: seq<Sys>, acts: seq<Action>, i: nat)
    requires IsTrace(c, run, acts) && i < |run|
    requires var s := run[i];
      !s.mutex || exists p :: p in s.procs && p !in s.dead && (s.procs[p].Acquired? || s.procs[p].Holding?)
    ensures var k := LastRebuild(acts[..i]);
      && WF(c, run[k].cache) && Ranged(run[k].cache) && (k > 0 ==> run[k].cache.fifo == [])
      && run[i].cache == Replay(c, run[k].cache, acts[k..i])
  {
    hide WF, Ranged, Does, Step, Init, IsTrace, Replay, LastRebuild;
    SerialRun(c, run, acts, i);
    TraceInv(c, run, acts, i);
    CleanWhenHeld(c, run[i]);
  }

  lemma CleanWhenHeld(c: Config, s: Sys)
    requires Inv(c, s)
    requires !s.mutex || exists p :: p in s.procs && p !in s.dead && (s.procs[p].Acquired? || s.procs[p].Holding?)
    ensures !Dirty(s)
  {
    hide WF, Geometry, HistoryInv, CacheInv;
    if s.mutex {
      var p :| p in s.procs && p !in s.dead && (s.procs[p].Acquired? || s.procs[p].Holding?);
      assert ProcInv(c, s, p);
    }
  }

  // ----- what can be done

  /** The states that a process goes through by the given steps of its own. */
  ghost predicate Path(c: Config, p: nat, states: seq<Sys>, acts: seq<Action>) {
    && |states| == |acts| + 1
    && forall i :: 0 <= i < |acts| ==> acts[i].p == p && Does(c, states[i], acts[i], states[i + 1])
  }

  lemma PathNone(c: Config, p: nat, s: Sys)
    ensures Path(c, p, [s], [])
  {
  }

  lemma PathMore(c: Config, p: nat, states: seq<Sys>, acts: seq<Action>, a: Action, s': Sys)
    requires Path(c, p, states, acts) && a.p == p && Does(c, states[|acts|], a, s')
    ensures Path(c, p, states + [s'], acts + [a])
  {
    hide Does;
  }

  /** Where nobody has the lock, a live idle process can take it, do any operation and give it back. */
  lemma WorkPossible(c: Config, s: Sys, p: nat, op: Op, now: int) returns (states: seq<Sys>, acts: seq<Action>)
    requires Inv(c, s) && !s.mutex && p in s.procs && p !in s.dead && s.procs[p].Idle?
    ensures Path(c, p, states, acts) && states[0] == s && Ranged(s.cache)
    ensures var t := states[|acts|];
      && !t.mutex && t.pid == 0 && t.procs == s.procs && t.dead == s.dead && t.file == s.file
      && t.cache == Step(c, s.cache, op, now).0
  {
    hide Path, Step, WF, Geometry, Inv;
    FreeFacts(c, s);
    var s1 := At(s, p, Acquired).(mutex := true, owner := p);
    var s2 := At(s1, p, Holding).(pid := p);
    var s3 := At(s2, p, Working(s.cache));
    var s4 := At(s3, p, Holding).(cache := Step(c, s.cache, op, now).0);
    var s5 := At(s4, p, Releasing).(pid := 0);
    var s6 := At(s5, p, Idle).(mutex := false, owner := 0);
    PathNone(c, p, s);
    PathMore(c, p, [s], [], TryLock(p), s1);
    states, acts := [s] + [s1], [] + [TryLock(p)];
    PathMore(c, p, states, acts, Record(p), s2);
    states, acts := states + [s2], acts + [Record(p)];
    PathMore(c, p, states, acts, Begin(p), s3);
    states, acts := states + [s3], acts + [Begin(p)];
    PathMore(c, p, states, acts, Finish(p, op, now), s4);
    states, acts := states + [s4], acts + [Finish(p, op, now)];
    PathMore(c, p, states, acts, ResetPid(p), s5);
    states, acts := states + [s5], acts + [ResetPid(p)];
    PathMore(c, p, states, acts, Unlock(p), s6);
    states, acts := states + [s6], acts + [Unlock(p)];
    assert s6.procs == s.procs;
  }

  lemma FreeFacts(c: Config, s: Sys)
    requires Inv(c, s) && !s.mutex
    ensures s.pid == 0 && WF(c, s.cache) && Ranged(s.cache)
  {
    hide WF, Geometry, HistoryInv;
    CleanWhenHeld(c, s);
    WFRanged(c, s.cache);
  }

  lemma PathJoin(c: Config, p: nat, s1: seq<Sys>, a1: seq<Action>, s2: seq<Sys>, a2: seq<Action>)
    requires Path(c, p, s1, a1) && Path(c, p, s2, a2) && s1[|a1|] == s2[0]
    ensures Path(c, p, s1 + s2[1..], a1 + a2)
  {
    hide Does;
    var states, acts := s1 + s2[1..], a1 + a2;
    forall i | 0 <= i < |acts|
      ensures acts[i].p == p && Does(c, states[i], acts[i], states[i + 1])
    {
      if i < |a1| {
        assert Does(c, s1[i], a1[i], s1[i + 1]);
      } else {
        assert Does(c, s2[i - |a1|], a2[i - |a1|], s2[i - |a1| + 1]);
        assert states[i] == s2[i - |a1|];
      }
    }
  }

  /** Detection: the process finds the recorded holder dead and gets the file lock. */
  lemma DetectionPossible(c: Config, s: Sys, p: nat) returns (states: seq<Sys>, acts: seq<Action>)
    requires s.pid > 0 && s.pid in s.dead && s.file == 0 && p in s.procs && p !in s.dead && s.procs[p].Idle?
    ensures Path(c, p, states, acts) && states[0] == s
    ensures states[|acts|] == At(s, p, Matched(s.pid)).(file := p)
  {
    hide Path, Geometry, Clear;
    var q := s.pid;
    var s1 := At(s, p, Suspecting(q));
    var s2 := At(s1, p, Condemning(q));
    var s3 := At(s2, p, Guarded(q)).(file := p);
    var s4 := At(s3, p, Matched(q));
    PathNone(c, p, s);
    PathMore(c, p, [s], [], Suspect(p), s1);
    states, acts := [s] + [s1], [] + [Suspect(p)];
    PathMore(c, p, states, acts, CheckDead(p), s2);
    states, acts := states + [s2], acts + [CheckDead(p)];
    PathMore(c, p, states, acts, LockFile(p), s3);
    states, acts := states + [s3], acts + [LockFile(p)];
    PathMore(c, p, states, acts, Compare(p), s4);
    states, acts := states + [s4], acts + [Compare(p)];
    assert s4 == At(s, p, Matched(q)).(file := p);
  }

  /** Recovery: the pid is reset, the cache cleared, and both locks are released. */
  lemma RebuildingPossible(c: Config, s: Sys, p: nat) returns (states: seq<Sys>, acts: seq<Action>)
    requires p in s.procs && p !in s.dead && s.procs[p].Matched?
    ensures Path(c, p, states, acts) && states[0] == s
    ensures var t := states[|acts|];
      && !t.mutex && t.pid == 0 && t.file == 0 && t.procs == s.procs[p := Idle] && t.dead == s.dead && t.cache == Clear(s.cache)
  {
    hide Path, Geometry, Clear;
    var q := s.procs[p].holder;
    var s5 := At(s, p, Rebuilding(q)).(pid := 0, owner := p, taken := s.taken + {q});
    var s6 := At(s5, p, Rebuilt(q)).(cache := Clear(s.cache));
    var s7 := At(s6, p, Unguarding).(mutex := false, owner := 0, forced := s.forced + multiset{q});
    var s8 := At(s7, p, Idle).(file := 0);
    PathNone(c, p, s);
    PathMore(c, p, [s], [], TakeOver(p), s5);
    states, acts := [s] + [s5], [] + [TakeOver(p)];
    PathMore(c, p, states, acts, ClearDone(p), s6);
    states, acts := states + [s6], acts + [ClearDone(p)];
    PathMore(c, p, states, acts, ForceUnlock(p), s7);
    states, acts := states + [s7], acts + [ForceUnlock(p)];
    PathMore(c, p, states, acts, UnlockFile(p), s8);
    states, acts := states + [s8], acts + [UnlockFile(p)];
  }

  /**
   A recorded holder that is dead can be recovered from: if the file lock is free, a
   live idle process can bring about a free mutex and an empty, well-formed cache.
   */
  lemma RecoveryPossible(c: Config, s: Sys, p: nat) returns (states: seq<Sys>, acts: seq<Action>)
    requires Inv(c, s) && s.pid in s.dead && s.file == 0 && p in s.procs && p !in s.dead && s.procs[p].Idle?
    ensures Path(c, p, states, acts) && states[0] == s
    ensures var t := states[|acts|];
      && !t.mutex && t.pid == 0 && t.file == 0 && t.procs == s.procs && t.dead == s.dead
      && WF(c, t.cache) && t.cache.fifo == [] && t.cache.segs == s.cache.segs
  {
    hide Does, WF, Geometry, Inv, Clear;
    DeadFacts(c, s);
    var s1, a1 := DetectionPossible(c, s, p);
    var s2, a2 := RebuildingPossible(c, s1[|a1|], p);
    PathJoin(c, p, s1, a1, s2, a2);
    states, acts := s1 + s2[1..], a1 + a2;
    assert s.procs[p := Idle] == s.procs;
  }

  lemma DeadFacts(c: Config, s: Sys)
    requires Inv(c, s) && s.pid in s.dead
    ensures s.pid > 0 && WF(c, Clear(s.cache))
  {
    hide WF, Geometry, HistoryInv;
    ClearWF(c, s.cache);
  }
}
