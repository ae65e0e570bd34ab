/**
 The write lock with dead-holder detection, as a transition system over processes
 that may die at any point.

 Each constructor of `Phase` is a program point between two shared-memory accesses.
 A process that has the lock works on the cache step by step, so while it does the
 shared cache may be in any state whose segments are intact.  Dead processes stay
 in the phase they died in.
 */
module Lock {
  import opened Engine
  import opened Invariants

  datatype Phase =
    | Idle
      // shm_lock succeeded in trylock, then recorded the pid
    | Acquired
    | Holding
      // in the middle of an operation that started from `start`
    | Working(start: State)
      // shm_unlock reset the pid
    | Releasing
      // shm_lock read the pid of the holder, then found that process dead
    | Suspecting(holder: nat)
    | Condemning(holder: nat)
      // shm_detect_deadlock has the file lock, then found the pid unchanged
    | Guarded(holder: nat)
    | Matched(holder: nat)
      // it reset the pid and is clearing the cache, then finished
    | Rebuilding(holder: nat)
    | Rebuilt(holder: nat)
      // it is about to release the file lock
    | Unguarding

  /**
   `owner` is who the mutex belongs to: who locked it, or who took it over from a
   dead holder.  `taken` and `forced` record take-overs and forced unlocks.  These
   three are history; the code has `mutex`, `pid`, the file lock and the cache.
   */
  datatype Sys = Sys(
    mutex: bool, pid: nat, file: nat, cache: State,
    procs: map<nat, Phase>, dead: set<nat>,
    owner: nat, taken: set<nat>, forced: multiset<nat>)

  datatype Action =
    | TryLock(p: nat)
    | Record(p: nat)
    | Begin(p: nat)
    | Scribble(p: nat, cache: State)
    | Finish(p: nat, op: Op, now: int)
    | ResetPid(p: nat)
    | Unlock(p: nat)
    | Suspect(p: nat)
    | CheckDead(p: nat)
    | LockFile(p: nat)
    | GiveUp(p: nat)
    | Compare(p: nat)
    | TakeOver(p: nat)
    | ClearPartly(p: nat, cache: State)
    | ClearDone(p: nat)
    | ForceUnlock(p: nat)
    | UnlockFile(p: nat)
    | Die(p: nat)

  function At(s: Sys, p: nat, ph: Phase): Sys { s.(procs := s.procs[p := ph]) }

  /** One step of a live process, or its death. */
  ghost predicate Does(c: Config, s: Sys, a: Action, s': Sys) {
    && a.p in s.procs && a.p !in s.dead
    && var p := a.p;
       var ph := s.procs[p];
       match a
       case TryLock(_) => ph.Idle? && !s.mutex && s' == At(s, p, Acquired).(mutex := true, owner := p)
       case Record(_) => ph.Acquired? && s' == At(s, p, Holding).(pid := p)
       case Begin(_) => ph.Holding? && s' == At(s, p, Working(s.cache))
       case Scribble(_, cache) => ph.Working? && Geometry(c, cache) && s' == s.(cache := cache)
       case Finish(_, op, now) =>
         ph.Working? && Ranged(ph.start) && s' == At(s, p, Holding).(cache := Step(c, ph.start, op, now).0)
       case ResetPid(_) => ph.Holding? && s' == At(s, p, Releasing).(pid := 0)
       case Unlock(_) => ph.Releasing? && s' == At(s, p, Idle).(mutex := false, owner := 0)
       case Suspect(_) => ph.Idle? && s.pid > 0 && s' == At(s, p, Suspecting(s.pid))
       case CheckDead(_) =>
         ph.Suspecting? && s' == At(s, p, if ph.holder in s.dead then Condemning(ph.holder) else Idle)
       case LockFile(_) => ph.Condemning? && s.file == 0 && s' == At(s, p, Guarded(ph.holder)).(file := p)
       case GiveUp(_) => ph.Condemning? && s' == At(s, p, Idle)
       case Compare(_) => ph.Guarded? && s' == At(s, p, if ph.holder == s.pid then Matched(ph.holder) else Unguarding)
       case TakeOver(_) =>
         ph.Matched? && s' == At(s, p, Rebuilding(ph.holder)).(pid := 0, owner := p, taken := s.taken + {ph.holder})
       case ClearPartly(_, cache) => ph.Rebuilding? && Geometry(c, cache) && s' == s.(cache := cache)
       case ClearDone(_) => ph.Rebuilding? && s' == At(s, p, Rebuilt(ph.holder)).(cache := Clear(s.cache))
       case ForceUnlock(_) =>
         ph.Rebuilt? &&
         s' == At(s, p, Unguarding).(mutex := false, owner := 0, forced := s.forced + multiset{ph.holder})
       case UnlockFile(_) => ph.Unguarding? && s' == At(s, p, Idle).(file := 0)
       case Die(_) => s' == s.(dead := s.dead + {p}, file := if s.file == p then 0 else s.file)
  }

  ghost predicate Init(c: Config, s: Sys) {
    && !s.mutex && s.pid == 0 && s.file == 0 && s.dead == {} && s.owner == 0 && s.taken == {} && s.forced == multiset{}
    && 0 !in s.procs && (forall p :: p in s.procs ==> s.procs[p].Idle?)
    && WF(c, s.cache)
  }

  // ----- the invariant

  predicate Records(ph: Phase) { ph.Holding? || ph.Working? }

  /** Phases in which a live process has the mutex, from locking or from a take-over. */
  predicate Owns(ph: Phase) {
    ph.Acquired? || Records(ph) || ph.Releasing? || ph.Rebuilding? || ph.Rebuilt?
  }

  predicate Recovers(ph: Phase) { ph.Rebuilding? || ph.Rebuilt? }

  predicate HasFile(ph: Phase) { ph.Guarded? || ph.Matched? || Recovers(ph) || ph.Unguarding? }

  predicate Blames(ph: Phase) { ph.Condemning? || ph.Guarded? || ph.Matched? || Recovers(ph) }

  /** What the phase of one process says about the shared state. */
  ghost predicate ProcInv(c: Config, s: Sys, p: nat)
    requires p in s.procs
  {
    var ph := s.procs[p];
    && (s.owner == p ==> Owns(ph))
    && (s.file == p ==> HasFile(ph) && p !in s.dead)
    && (ph.Working? ==> WF(c, ph.start))
    && (p !in s.dead ==>
          && (Owns(ph) ==> s.owner == p)
          && (HasFile(ph) ==> s.file == p)
          && (Blames(ph) ==> ph.holder in s.dead)
          && (ph.Matched? ==> s.pid == ph.holder)
          && (Recovers(ph) ==> ph.holder in s.taken && s.forced[ph.holder] == 0))
  }

  /** The mutex, its owner and the recorded pid. */
  ghost predicate LockInv(s: Sys) {
    && 0 !in s.procs && s.dead <= s.procs.Keys
    && (s.owner != 0 ==> s.owner in s.procs) && (s.file != 0 ==> s.file in s.procs)
    && (s.mutex <==> s.owner != 0)
    && (s.pid != 0 ==> s.pid == s.owner && Records(s.procs[s.pid]))
    && (s.owner != 0 && Records(s.procs[s.owner]) ==> s.pid == s.owner)
  }

  ghost predicate HistoryInv(s: Sys) {
    && (forall q :: q in s.taken ==> q in s.dead && q != s.owner && q != s.pid)
    && (forall q :: q in s.forced ==> q in s.taken && s.forced[q] == 1)
  }

  /** Someone is, or died, in the middle of changing the cache. */
  predicate Dirty(s: Sys) {
    s.owner in s.procs && (s.procs[s.owner].Working? || s.procs[s.owner].Rebuilding?)
  }

  ghost predicate CacheInv(c: Config, s: Sys) {
    Geometry(c, s.cache) && (WF(c, s.cache) || Dirty(s))
  }

  ghost predicate Inv(c: Config, s: Sys) {
    && LockInv(s) && HistoryInv(s) && CacheInv(c, s)
    && forall p :: p in s.procs ==> ProcInv(c, s, p)
  }

  lemma InitInv(c: Config, s: Sys)
    requires Init(c, s)
    ensures Inv(c, s)
  {
    hide Core, Table;
    WFGeometry(c, s.cache);
  }

  /** The steps of lock, work and unlock; the others belong to detection and recovery, or are deaths. */
  predicate IsHolder(a: Action) {
    a.TryLock? || a.Record? || a.Begin? || a.Scribble? || a.Finish? || a.ResetPid? || a.Unlock?
  }

  lemma StepLockHolder(c: Config, s: Sys, a: Action, s': Sys)
    requires Inv(c, s) && Does(c, s, a, s') && IsHolder(a)
    ensures LockInv(s')
  {
    hide WF, Geometry, Step, Clear, HistoryInv, CacheInv;
    assert ProcInv(c, s, a.p);
  }

  lemma StepLockOther(c: Config, s: Sys, a: Action, s': Sys)
    requires Inv(c, s) && Does(c, s, a, s') && !IsHolder(a)
    ensures LockInv(s')
  {
    hide WF, Geometry, Step, Clear, HistoryInv, CacheInv;
    assert ProcInv(c, s, a.p);
  }

  lemma StepHistory(c: Config, s: Sys, a: Action, s': Sys)
    requires Inv(c, s) && Does(c, s, a, s')
    ensures HistoryInv(s')
  {
    hide WF, Geometry, Step, Clear;
    assert ProcInv(c, s, a.p);
  }

  lemma StepCache(c: Config, s: Sys, a: Action, s': Sys)
    requires Inv(c, s) && Does(c, s, a, s')
    ensures CacheInv(c, s')
  {
    hide WF, Geometry, Step, Clear;
    assert ProcInv(c, s, a.p);
    match a
    case Finish(p, op, now) =>
      var start := s.procs[p].start;
      StepWF(c, start, op, now);
      WFGeometry(c, s'.cache);
    case ClearDone(p) =>
      ClearWF(c, s.cache);
    case _ =>
  }

  lemma StepSelfHolder(c: Config, s: Sys, a: Action, s': Sys)
    requires Inv(c, s) && Does(c, s, a, s') && IsHolder(a)
    ensures a.p in s'.procs && ProcInv(c, s', a.p)
  {
    hide WF, Geometry, Step, Clear, HistoryInv, CacheInv;
    assert ProcInv(c, s, a.p);
    if a.Begin? {
      NotDirty(c, s, a.p);
    }
  }

  lemma StepSelfRest(c: Config, s: Sys, a: Action, s': Sys)
    requires Inv(c, s) && Does(c, s, a, s') && !IsHolder(a)
    ensures a.p in s'.procs && ProcInv(c, s', a.p)
  {
    hide WF, Geometry, Step, Clear, CacheInv;
    assert ProcInv(c, s, a.p);
  }

  /** A process that holds the lock between operations finds the cache well-formed. */
  lemma NotDirty(c: Config, s: Sys, p: nat)
    requires Inv(c, s) && s.owner == p && p in s.procs && s.procs[p].Holding?
    ensures WF(c, s.cache)
  {
    hide WF, Geometry;
  }

  lemma StepOtherHolder(c: Config, s: Sys, a: Action, s': Sys, p: nat)
    requires Inv(c, s) && Does(c, s, a, s') && p in s'.procs && p != a.p && IsHolder(a)
    ensures ProcInv(c, s', p)
  {
    hide WF, Geometry, Step, Clear, CacheInv;
    assert ProcInv(c, s, a.p) && ProcInv(c, s, p);
  }

  lemma StepOtherRest(c: Config, s: Sys, a: Action, s': Sys, p: nat)
    requires Inv(c, s) && Does(c, s, a, s') && p in s'.procs && p != a.p && !IsHolder(a)
    ensures ProcInv(c, s', p)
  {
    hide WF, Geometry, Step, Clear, CacheInv;
    assert ProcInv(c, s, a.p) && ProcInv(c, s, p);
  }

  /** Every step keeps the invariant. */
  lemma StepInv(c: Config, s: Sys, a: Action, s': Sys)
    requires Inv(c, s) && Does(c, s, a, s')
    ensures Inv(c, s')
  {
    hide LockInv, HistoryInv, CacheInv, ProcInv, Does;
    if IsHolder(a) {
      StepLockHolder(c, s, a, s');
    } else {
      StepLockOther(c, s, a, s');
    }
    StepHistory(c, s, a, s');
    StepCache(c, s, a, s');
    forall p | p in s'.procs
      ensures ProcInv(c, s', p)
    {
      if p == a.p {
        if IsHolder(a) {
          StepSelfHolder(c, s, a, s');
        } else {
          StepSelfRest(c, s, a, s');
        }
      } else if IsHolder(a) {
        StepOtherHolder(c, s, a, s', p);
      } else {
        StepOtherRest(c, s, a, s', p);
      }
    }
  }

  // ----- runs

  /** A run: every state follows from the one before by a step of some process. */
  ghost predicate IsRun(c: Config, run: seq<Sys>) {
    && run != [] && Init(c, run[0])
    && forall i :: 0 <= i < |run| - 1 ==> Follows(c, run[i], run[i + 1])
  }

  ghost predicate Follows(c: Config, s: Sys, s': Sys) {
    exists a :: Does(c, s, a, s')
  }

  /** The invariant holds in every state of every run. */
  lemma {:induction false} RunInv(c: Config, run: seq<Sys>, i: nat)
    requires IsRun(c, run) && i < |run|
    ensures Inv(c, run[i])
  {
    hide Init, Inv, Does;
    if i == 0 {
      InitInv(c, run[0]);
    } else {
      RunInv(c, run, i - 1);
      assert Follows(c, run[i - 1], run[i]);
      var a :| Does(c, run[i - 1], a, run[i]);
      StepInv(c, run[i - 1], a, run[i]);
    }
  }

  /** Phases in which a process may be changing the cache, as holder or as recoverer. */
  predicate Mutates(ph: Phase) { ph.Holding? || ph.Working? || ph.Rebuilding? }

  /** At most one live process is ever changing the cache. */
  lemma MutualExclusion(c: Config, run: seq<Sys>, i: nat, p: nat, q: nat)
    requires IsRun(c, run) && i < |run|
    requires p in run[i].procs && p !in run[i].dead && Mutates(run[i].procs[p])
    requires q in run[i].procs && q !in run[i].dead && Mutates(run[i].procs[q])
    ensures p == q
  {
    hide Init, WF, Geometry, IsRun;
    RunInv(c, run, i);
    assert ProcInv(c, run[i], p) && ProcInv(c, run[i], q);
  }

  /** A recorded pid names the process that has the mutex. */
  lemma PidNamesOwner(c: Config, run: seq<Sys>, i: nat)
    requires IsRun(c, run) && i < |run| && run[i].pid != 0
    ensures var s := run[i]; s.mutex && s.pid == s.owner && s.pid in s.procs && Records(s.procs[s.pid])
  {
    hide Init, WF, Geometry, IsRun;
    RunInv(c, run, i);
  }

  /**
   Whenever a live process has completed an acquisition, the cache is well-formed,
   whatever earlier holders had done to it when they died.
   */
  lemma AcquiredConsistent(c: Config, run: seq<Sys>, i: nat, p: nat)
    requires IsRun(c, run) && i < |run|
    requires p in run[i].procs && p !in run[i].dead && (run[i].procs[p].Acquired? || run[i].procs[p].Holding?)
    ensures WF(c, run[i].cache)
  {
    hide Init, WF, Geometry, IsRun;
    RunInv(c, run, i);
    assert ProcInv(c, run[i], p);
  }

  /** Each dead holder is force-unlocked at most once, and only dead ones are. */
  lemma ForcedOnce(c: Config, run: seq<Sys>, i: nat, q: nat)
    requires IsRun(c, run) && i < |run|
    ensures run[i].forced[q] <= 1
    ensures run[i].forced[q] == 1 ==> q in run[i].dead
  {
    hide Init, WF, Geometry, IsRun;
    RunInv(c, run, i);
    assert q in run[i].forced ==> run[i].forced[q] == 1;
  }

  /** The mutex belongs to a dead process, and no pid is recorded. */
  predicate Orphaned(s: Sys) { s.mutex && s.owner in s.dead && s.pid == 0 }

  lemma OrphanedStep(c: Config, s: Sys, a: Action, s': Sys)
    requires Inv(c, s) && Orphaned(s) && Does(c, s, a, s')
    ensures Orphaned(s')
  {
    hide WF, Geometry, Step, Clear, CacheInv;
    assert ProcInv(c, s, a.p);
  }

  /**
   Recovery depends on the recorded pid: an owner that dies before it records its
   pid, or after it has reset it, leaves the mutex locked in every later state.
   */
  lemma {:induction false} OrphanedForever(c: Config, run: seq<Sys>, i: nat, j: nat)
    requires IsRun(c, run) && i <= j < |run| && Orphaned(run[i])
    ensures Orphaned(run[j])
    decreases j
  {
    hide Init, Inv, Does, Orphaned;
    if i < j {
      OrphanedForever(c, run, i, j - 1);
      RunInv(c, run, j - 1);
      assert Follows(c, run[j - 1], run[j]);
      var a :| Does(c, run[j - 1], a, run[j]);
      OrphanedStep(c, run[j - 1], a, run[j]);
    }
  }
}
