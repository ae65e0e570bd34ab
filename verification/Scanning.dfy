/**
 What an allocation scan leaves behind, read off the pool it starts from: where it
 stops, which stripes stay in `doing`, which are given up and which slip out of both
 queues because their removal misreports.
 */
module Scanning {
  import opened Seqs
  import opened Stripes

  /** The first position from `pos` on whose stripe has room, or the end of `doing`. */
  function Served(p: Pool, pos: nat, size: nat): (g: nat)
    requires InRange(p) && pos <= |p.doing|
    ensures pos <= g <= |p.doing|
    ensures g < |p.doing| ==> p.stripes[p.doing[g]].FreeSize() >= size
    ensures forall j :: pos <= j < g ==> p.stripes[p.doing[j]].FreeSize() < size
    decreases |p.doing| - pos
  {
    if pos == |p.doing| || p.stripes[p.doing[pos]].FreeSize() >= size then pos else Served(p, pos + 1, size)
  }

  /** A scan that passes the stripe takes it out of `doing`. */
  predicate Spent(p: Pool, s: nat, pol: Policy) {
    s < |p.stripes| && Discards(p.stripes[s].Miss(), pol)
  }

  /** Of the passed stripes, those that stay in `doing`. */
  function Staying(p: Pool, passed: seq<nat>, pol: Policy): seq<nat> {
    if passed == [] then []
    else (if Spent(p, passed[0], pol) then [] else [passed[0]]) + Staying(p, passed[1..], pol)
  }

  /** Those that enter `done`; `head` tells that the cursor is at the head of the queue. */
  function Shelved(p: Pool, passed: seq<nat>, head: bool, pol: Policy): seq<nat> {
    if passed == [] then []
    else if !Spent(p, passed[0], pol) then Shelved(p, passed[1..], false, pol)
    else (if pol.documented || head then [passed[0]] else []) + Shelved(p, passed[1..], head, pol)
  }

  /** Those that leave `doing` without entering `done`. */
  function Slipped(p: Pool, passed: seq<nat>, head: bool, pol: Policy): set<nat> {
    if passed == [] then {}
    else if !Spent(p, passed[0], pol) then Slipped(p, passed[1..], false, pol)
    else (if pol.documented || head then {} else {passed[0]}) + Slipped(p, passed[1..], head, pol)
  }

  /** A stripe behind the scan: passed, given up, or serving. */
  function Marked(st: Stripe, passed: bool, shelved: bool): Stripe {
    var m := if passed then st.Miss() else st;
    if shelved then m.(inDone := true) else m
  }

  /** The three outcomes depend on the passed stripes alone. */
  lemma {:induction false} SameOutcome(p: Pool, q: Pool, passed: seq<nat>, head: bool, pol: Policy)
    requires |p.stripes| == |q.stripes|
    requires forall s :: s in passed && s < |p.stripes| ==> p.stripes[s] == q.stripes[s]
    ensures Staying(p, passed, pol) == Staying(q, passed, pol)
    ensures Shelved(p, passed, head, pol) == Shelved(q, passed, head, pol)
    ensures Slipped(p, passed, head, pol) == Slipped(q, passed, head, pol)
  {
    if passed != [] {
      assert passed[0] in passed;
      SameOutcome(p, q, passed[1..], head, pol);
      SameOutcome(p, q, passed[1..], false, pol);
    }
  }

  lemma {:induction false} ShelvedPassed(p: Pool, passed: seq<nat>, head: bool, pol: Policy)
    ensures forall s :: s in Shelved(p, passed, head, pol) ==> s in passed
  {
    if passed != [] {
      ShelvedPassed(p, passed[1..], head, pol);
      ShelvedPassed(p, passed[1..], false, pol);
    }
  }

  /** One stripe without room is passed. */
  ghost predicate Passes(p: Pool, pos: nat, pol: Policy, q: Pool, k: nat)
    requires pos < |p.doing| && k <= |q.doing|
  {
    var s := p.doing[pos];
    var shelved := Spent(p, s, pol) && (pol.documented || pos == 0);
    && q.doing[..k] == p.doing[..pos] + (if Spent(p, s, pol) then [] else [s])
    && q.doing[k..] == p.doing[pos + 1..]
    && q.done == p.done + (if shelved then [s] else [])
    && q.lost == p.lost + (if Spent(p, s, pol) && !shelved then {s} else {})
    && |q.stripes| == |p.stripes|
    && forall t: nat :: t < |p.stripes| ==> q.stripes[t] == Marked(p.stripes[t], t == s, t == s && shelved)
  }

  lemma PassedPasses(p: Pool, pos: nat, pol: Policy)
    requires InRange(p) && NoDup(p.doing) && pos < |p.doing|
    ensures var (q, k) := Passed(p, pos, pol);
      && Passes(p, pos, pol, q, k) && NoDup(q.doing) && (k == 0 <==> pos == 0 && Spent(p, p.doing[pos], pol))
      && p.doing[pos] !in p.doing[pos + 1..]
  {
    RemoveAtMembers(p.doing, pos);
  }

  /** Queues that agree from some position on, over stripes of the same space, stop the scan at the same stripe. */
  lemma {:induction false} ServedShift(p: Pool, i: nat, q: Pool, k: nat, size: nat)
    requires InRange(p) && InRange(q) && |q.stripes| == |p.stripes| && i <= |p.doing| && k <= |q.doing|
    requires q.doing[k..] == p.doing[i..]
    requires forall t: nat :: t < |p.stripes| ==> q.stripes[t].FreeSize() == p.stripes[t].FreeSize()
    ensures Served(q, k, size) - k == Served(p, i, size) - i
    decreases |p.doing| - i
  {
    if i < |p.doing| {
      assert q.doing[k] == q.doing[k..][0] == p.doing[i..][0];
      assert q.doing[k + 1..] == q.doing[k..][1..] == p.doing[i..][1..];
      ServedShift(p, i + 1, q, k + 1, size);
    }
  }

  /** What the scan leaves behind, for the stripes it passes. */
  ghost predicate Leaves(p: Pool, pos: nat, g: nat, pol: Policy, q: Pool)
    requires pos <= g <= |p.doing|
  {
    var passed := p.doing[pos..g];
    var shelved := Shelved(p, passed, pos == 0, pol);
    && q.doing == p.doing[..pos] + Staying(p, passed, pol) + p.doing[g..]
    && q.done == p.done + shelved
    && q.lost == p.lost + Slipped(p, passed, pos == 0, pol)
    && |q.stripes| == |p.stripes|
    && forall s: nat :: s < |p.stripes| ==> q.stripes[s] == Marked(p.stripes[s], s in passed, s in shelved)
  }

  lemma OutcomeCons(p: Pool, s: nat, rest: seq<nat>, head: bool, pol: Policy)
    ensures var on := head && Spent(p, s, pol); var up := Spent(p, s, pol) && (pol.documented || head);
      && Staying(p, [s] + rest, pol) == (if Spent(p, s, pol) then [] else [s]) + Staying(p, rest, pol)
      && Shelved(p, [s] + rest, head, pol) == (if up then [s] else []) + Shelved(p, rest, on, pol)
      && Slipped(p, [s] + rest, head, pol) == (if Spent(p, s, pol) && !up then {s} else {}) + Slipped(p, rest, on, pol)
  {
    assert ([s] + rest)[1..] == rest;
  }

  lemma Slices(d: seq<nat>, pos: nat, g: nat, e: seq<nat>, k: nat)
    requires pos < g <= |d| && k <= |e| && e[k..] == d[pos + 1..] && d[pos] !in d[pos + 1..]
    ensures var n := g - pos - 1;
      && k + n <= |e| && e[k..k + n] == d[pos + 1..g] && e[k + n..] == d[g..]
      && d[pos..g] == [d[pos]] + d[pos + 1..g] && d[pos] !in d[pos + 1..g]
  {
    var n := g - pos - 1;
    assert e[k..k + n] == e[k..][..n] == d[pos + 1..][..n] == d[pos + 1..g];
    assert e[k + n..] == e[k..][n..] == d[pos + 1..][n..] == d[g..];
  }

  /** A passed stripe, and what is left behind from there on. */
  lemma LeavesStep(p: Pool, pos: nat, g: nat, pol: Policy, q: Pool, k: nat, r: Pool)
    requires pos < g <= |p.doing| && k <= |q.doing| && Passes(p, pos, pol, q, k) && p.doing[pos] !in p.doing[pos + 1..]
    requires k == 0 <==> pos == 0 && Spent(p, p.doing[pos], pol)
    requires k + (g - pos - 1) <= |q.doing| && Leaves(q, k, k + (g - pos - 1), pol, r)
    ensures Leaves(p, pos, g, pol, r)
  {
    hide Spent, Staying, Shelved, Slipped, Marked;
    var s, rest := p.doing[pos], p.doing[pos + 1..g];
    Slices(p.doing, pos, g, q.doing, k);
    OutcomeCons(p, s, rest, pos == 0, pol);
    var up := Spent(p, s, pol) && (pol.documented || pos == 0);
    RestOutcome(p, q, s, rest, up, k == 0, pol);
    Joined(p.doing[..pos], if Spent(p, s, pol) then [] else [s], Staying(p, rest, pol), p.doing[g..]);
    Joined(p.done, if up then [s] else [], Shelved(p, rest, k == 0, pol), []);
    MarksStep(p, q, r, s, rest, up, Shelved(p, rest, k == 0, pol));
  }

  lemma Joined(a: seq<nat>, b: seq<nat>, c: seq<nat>, d: seq<nat>)
    ensures (a + b) + c + d == a + (b + c) + d && (a + b) + c == a + (b + c)
  {
  }

  /** The stripes behind the first are the same in the next state of the scan. */
  lemma RestOutcome(p: Pool, q: Pool, s: nat, rest: seq<nat>, up: bool, head: bool, pol: Policy)
    requires |q.stripes| == |p.stripes| && s !in rest
    requires forall t: nat :: t < |p.stripes| ==> q.stripes[t] == Marked(p.stripes[t], t == s, t == s && up)
    ensures Staying(q, rest, pol) == Staying(p, rest, pol)
    ensures Shelved(q, rest, head, pol) == Shelved(p, rest, head, pol) && s !in Shelved(p, rest, head, pol)
    ensures Slipped(q, rest, head, pol) == Slipped(p, rest, head, pol)
  {
    SameOutcome(p, q, rest, head, pol);
    ShelvedPassed(p, rest, head, pol);
  }

  /** The marks of the first passed stripe and of the rest are the marks of all. */
  lemma MarksStep(p: Pool, q: Pool, r: Pool, s: nat, rest: seq<nat>, up: bool, shelved: seq<nat>)
    requires |q.stripes| == |p.stripes| == |r.stripes| && s !in rest && s !in shelved
    requires forall t: nat :: t < |p.stripes| ==> q.stripes[t] == Marked(p.stripes[t], t == s, t == s && up)
    requires forall t: nat :: t < |p.stripes| ==> r.stripes[t] == Marked(q.stripes[t], t in rest, t in shelved)
    ensures forall t: nat :: t < |p.stripes| ==>
      r.stripes[t] == Marked(p.stripes[t], t in [s] + rest, t in (if up then [s] else []) + shelved)
  {
  }

  /** The grant of a scan that stops at position `g` and leaves `q`. */
  function Stop(p: Pool, g: nat, size: nat, now: int, q: Pool): Grant
    requires InRange(p) && g <= |p.doing| && |q.stripes| == |p.stripes|
  {
    if g == |p.doing| then Refused(q)
    else
      var s := p.doing[g];
      Granted(q.(stripes := q.stripes[s := q.stripes[s].Bump(size, now)]), s, p.stripes[s].free)
  }

  /** Queues that agree from some position on, over stripes of the same space, give the same grant. */
  lemma StopSame(p: Pool, i: nat, q: Pool, k: nat, n: nat, size: nat, now: int, r: Pool)
    requires InRange(p) && InRange(q) && |q.stripes| == |p.stripes| == |r.stripes|
    requires i <= |p.doing| && k <= |q.doing| && q.doing[k..] == p.doing[i..] && i + n <= |p.doing|
    requires forall t: nat :: t < |p.stripes| ==> q.stripes[t].free == p.stripes[t].free
    ensures k + n <= |q.doing| && Stop(q, k + n, size, now, r) == Stop(p, i + n, size, now, r)
  {
    assert |q.doing| - k == |q.doing[k..]| == |p.doing[i..]| == |p.doing| - i;
    if i + n < |p.doing| {
      assert q.doing[k + n] == q.doing[k..][n] == p.doing[i..][n] == p.doing[i + n];
    }
  }

  lemma PassedKeeps(p: Pool, pos: nat, pol: Policy)
    requires InRange(p) && pos < |p.doing|
    ensures var (q, k) := Passed(p, pos, pol);
      && InRange(q) && |q.stripes| == |p.stripes| && q.doing[k..] == p.doing[pos + 1..]
      && (forall t: nat :: t < |p.stripes| ==> q.stripes[t].free == p.stripes[t].free)
      && (forall t: nat :: t < |p.stripes| ==> q.stripes[t].FreeSize() == p.stripes[t].FreeSize())
  {
    hide Passed, InRange;
    PassedSpace(p, pos, pol);
    var (q, k) := Passed(p, pos, pol);
    forall t: nat | t < |p.stripes|
      ensures q.stripes[t].free == p.stripes[t].free && q.stripes[t].FreeSize() == p.stripes[t].FreeSize()
    {
      assert SameSpace(p.stripes[t], q.stripes[t]);
    }
  }

  lemma ServedNext(p: Pool, pos: nat, size: nat)
    requires InRange(p) && pos < |p.doing| && p.stripes[p.doing[pos]].FreeSize() < size
    ensures Served(p, pos, size) == Served(p, pos + 1, size)
  {
  }

  /** Passing a stripe does not change where the scan stops. */
  lemma StopStep(p: Pool, pos: nat, size: nat, now: int, pol: Policy, r: Pool)
    requires InRange(p) && pos < |p.doing| && p.stripes[p.doing[pos]].FreeSize() < size && |r.stripes| == |p.stripes|
    ensures var (q, k) := Passed(p, pos, pol); var g := Served(p, pos, size);
      && pos < g && Served(q, k, size) == k + (g - pos - 1)
      && Stop(q, k + (g - pos - 1), size, now, r) == Stop(p, g, size, now, r)
  {
    hide Passed, Stop, Served, InRange;
    var (q, k) := Passed(p, pos, pol);
    PassedKeeps(p, pos, pol);
    ServedNext(p, pos, size);
    ServedShift(p, pos + 1, q, k, size);
    StopSame(p, pos + 1, q, k, Served(p, pos, size) - pos - 1, size, now, r);
  }

  /**
   The whole outcome of a scan, from the pool it starts in: it serves the first
   stripe with room, every stripe before it counts a failure, and the spent ones
   among these leave `doing`.
   */
  lemma {:induction false} ScanExact(p: Pool, pos: nat, size: nat, now: int, pol: Policy) returns (q: Pool)
    requires InRange(p) && NoDup(p.doing) && pos <= |p.doing|
    ensures var g := Served(p, pos, size);
      |q.stripes| == |p.stripes| && Leaves(p, pos, g, pol, q) && Scan(p, pos, size, now, pol) == Stop(p, g, size, now, q)
    decreases |p.doing| - pos
  {
    hide Passed, Leaves, Passes, NoDup, Stop, Spent, InRange;
    var g := Served(p, pos, size);
    if g == pos {
      LeavesNone(p, pos, pol);
      ScanStops(p, pos, size, now, pol);
      q := p;
    } else {
      var (p', k) := Passed(p, pos, pol);
      PassedPasses(p, pos, pol);
      q := ScanExact(p', k, size, now, pol);
      StopStep(p, pos, size, now, pol, q);
      LeavesStep(p, pos, g, pol, p', k, q);
      ScanPasses(p, pos, size, now, pol);
    }
  }

  lemma ScanStops(p: Pool, pos: nat, size: nat, now: int, pol: Policy)
    requires InRange(p) && pos <= |p.doing| && Served(p, pos, size) == pos
    ensures Scan(p, pos, size, now, pol) == Stop(p, pos, size, now, p)
  {
  }

  lemma ScanPasses(p: Pool, pos: nat, size: nat, now: int, pol: Policy)
    requires InRange(p) && pos < |p.doing| && p.stripes[p.doing[pos]].FreeSize() < size
    ensures var (q, k) := Passed(p, pos, pol); Scan(p, pos, size, now, pol) == Scan(q, k, size, now, pol)
  {
  }

  lemma LeavesNone(p: Pool, pos: nat, pol: Policy)
    requires pos <= |p.doing|
    ensures Leaves(p, pos, pos, pol, p)
  {
    assert p.doing[pos..pos] == [];
    assert p.doing == p.doing[..pos] + [] + p.doing[pos..];
  }

  /**
   What a scan records, exactly: the stripes between the cursor and the serving
   one count one more failure, and only the serving one gets a new allocation time.
   */
  lemma ScanMarks(p: Pool, pos: nat, size: nat, now: int, pol: Policy, s: nat)
    requires InRange(p) && NoDup(p.doing) && pos <= |p.doing| && s < |p.stripes|
    ensures var r := Scan(p, pos, size, now, pol); var g := Served(p, pos, size);
      && (r.Granted? <==> g < |p.doing|) && (r.Granted? ==> r.stripe == p.doing[g])
      && r.pool.stripes[s].failTimes == p.stripes[s].failTimes + (if s in p.doing[pos..g] then 1 else 0)
      && r.pool.stripes[s].lastAlloc == (if r.Granted? && r.stripe == s then now else p.stripes[s].lastAlloc)
  {
    hide Scan, NoDup, Staying, Shelved, Slipped;
    var q := ScanExact(p, pos, size, now, pol);
  }

  // ----- refused scans

  predicate NoRoom(p: Pool, size: nat)
    requires InRange(p)
  {
    forall j :: 0 <= j < |p.doing| ==> p.stripes[p.doing[j]].FreeSize() < size
  }

  /** A scan is refused iff no stripe in `doing` has room. */
  lemma RefusedIff(p: Pool, size: nat, now: int, pol: Policy)
    requires InRange(p) && NoDup(p.doing)
    ensures Scan(p, 0, size, now, pol).Refused? <==> NoRoom(p, size)
  {
    hide Scan, NoDup;
    var q := ScanExact(p, 0, size, now, pol);
  }

  /**
   A refused scan drops the stripe out of both queues: its removal misreports, the
   discard rule takes it, and a stripe that stays in `doing` is in front of it.
   */
  ghost predicate Slips(p: Pool, s: nat, pol: Policy) {
    && !pol.documented
    && exists i, k :: 0 <= i < k < |p.doing| && p.doing[k] == s && Spent(p, s, pol) && !Spent(p, p.doing[i], pol)
  }

  lemma {:induction false} SlippedOff(p: Pool, passed: seq<nat>, pol: Policy, s: nat)
    ensures s in Slipped(p, passed, false, pol) <==> !pol.documented && s in passed && Spent(p, s, pol)
  {
    if passed != [] {
      SlippedOff(p, passed[1..], pol, s);
      assert passed == [passed[0]] + passed[1..];
    }
  }

  lemma {:induction false} SlippedHead(p: Pool, passed: seq<nat>, pol: Policy, s: nat)
    ensures s in Slipped(p, passed, true, pol) <==>
      && !pol.documented
      && exists i, k :: 0 <= i < k < |passed| && passed[k] == s && Spent(p, s, pol) && !Spent(p, passed[i], pol)
  {
    if passed != [] {
      var rest := passed[1..];
      if Spent(p, passed[0], pol) {
        SlippedHead(p, rest, pol, s);
        if i, k :| 0 <= i < k < |rest| && rest[k] == s && Spent(p, s, pol) && !Spent(p, rest[i], pol) {
          assert passed[i + 1] == rest[i] && passed[k + 1] == s;
        }
        if i, k :| 0 <= i < k < |passed| && passed[k] == s && Spent(p, s, pol) && !Spent(p, passed[i], pol) {
          assert rest[i - 1] == passed[i] && rest[k - 1] == s;
        }
      } else {
        SlippedOff(p, rest, pol, s);
        if s in rest {
          var k :| 0 <= k < |rest| && rest[k] == s;
          assert passed[k + 1] == s;
        }
        if i, k :| 0 <= i < k < |passed| && passed[k] == s && Spent(p, s, pol) && !Spent(p, passed[i], pol) {
          assert rest[k - 1] == s;
        }
      }
    }
  }

  /** The pool after a refused scan: what is lost, what is given up, and that no stripe's space changes. */
  lemma RefusedExact(p: Pool, size: nat, now: int, pol: Policy)
    requires InRange(p) && NoDup(p.doing) && NoRoom(p, size)
    ensures var r := Scan(p, 0, size, now, pol); var q := r.pool;
      && r.Refused? && |q.stripes| == |p.stripes|
      && (forall s: nat :: s in q.lost <==> s in p.lost || Slips(p, s, pol))
      && q.done == p.done + Shelved(p, p.doing, true, pol)
      && (forall s: nat :: s < |p.stripes| ==> q.stripes[s].lastAlloc == p.stripes[s].lastAlloc)
  {
    hide Scan, NoDup, Staying, Shelved, Slipped, Spent;
    var q := ScanExact(p, 0, size, now, pol);
    assert p.doing[0..|p.doing|] == p.doing;
    forall s: nat
      ensures s in q.lost <==> s in p.lost || Slips(p, s, pol)
    {
      SlippedHead(p, p.doing, pol, s);
    }
  }

  /** New stripes give room to exactly the requests they are large enough for. */
  lemma GrowRoom(p: Pool, segment: nat, n: nat, total: nat, size: nat)
    requires InRange(p) && NoRoom(p, size) && 1 <= n
    ensures NoRoom(Grow(p, segment, n, total), size) <==> total < size
  {
    hide Times;
    var q, k := Grow(p, segment, n, total), |p.doing|;
    assert q.doing[k] == |p.stripes|;
    forall j | 0 <= j < |q.doing|
      ensures q.stripes[q.doing[j]].FreeSize() < size <==> j < k || total < size
    {
      if j < k {
        assert q.doing[j] == p.doing[j];
      }
    }
  }

  // ----- giving up

  lemma {:induction false} StayingMembers(p: Pool, passed: seq<nat>, pol: Policy, s: nat)
    ensures s in Staying(p, passed, pol) <==> s in passed && !Spent(p, s, pol)
  {
    if passed != [] {
      StayingMembers(p, passed[1..], pol, s);
      assert passed == [passed[0]] + passed[1..];
    }
  }

  /**
   A scan leaves a stripe in `doing` iff it did not get as far as the stripe, or the
   stripe has more than `discard` bytes left and this was at most its `maxFail`th miss.
   */
  lemma GivesUpIff(p: Pool, size: nat, now: int, pol: Policy, s: nat)
    requires InRange(p) && NoDup(p.doing) && s in p.doing
    ensures var q := Scan(p, 0, size, now, pol).pool; var st := p.stripes[s];
      s in q.doing <==>
        || s !in p.doing[..Served(p, 0, size)]
        || (st.base + st.total - st.free > pol.discard && st.failTimes + 1 <= pol.maxFail)
  {
    hide Scan, NoDup, Staying, Shelved, Slipped, Discards;
    var g := Served(p, 0, size);
    var q := ScanExact(p, 0, size, now, pol);
    assert p.doing[0..g] == p.doing[..g];
    assert p.doing[..0] == [];
    assert p.doing == p.doing[..g] + p.doing[g..];
    StayingMembers(p, p.doing[..g], pol, s);
    DistinctParts(p.doing, g, s);
    SpentIff(p, s, pol);
  }

  lemma DistinctParts(d: seq<nat>, g: nat, s: nat)
    requires NoDup(d) && g <= |d|
    ensures s in d[..g] ==> s !in d[g..]
  {
  }

  /** The discard rule with its numbers. */
  lemma SpentIff(p: Pool, s: nat, pol: Policy)
    requires s < |p.stripes|
    ensures var st := p.stripes[s];
      Spent(p, s, pol) <==> st.base + st.total - st.free <= pol.discard || st.failTimes + 1 > pol.maxFail
  {
  }

  /** A stripe that a documented scan gives up is in `done`, and has missed one time more. */
  lemma GivenUpDone(p: Pool, size: nat, now: int, pol: Policy, s: nat)
    requires InRange(p) && NoDup(p.doing) && s in p.doing && pol.documented
    ensures var q := Scan(p, 0, size, now, pol).pool; s in q.doing || s in q.done
  {
    hide Scan, NoDup, Staying, Shelved, Slipped, Spent;
    var g := Served(p, 0, size);
    var q := ScanExact(p, 0, size, now, pol);
    assert p.doing[0..g] == p.doing[..g];
    assert p.doing == p.doing[..g] + p.doing[g..];
    StayingMembers(p, p.doing[..g], pol, s);
    ShelvedMembers(p, p.doing[..g], true, pol, s);
  }

  lemma {:induction false} ShelvedMembers(p: Pool, passed: seq<nat>, head: bool, pol: Policy, s: nat)
    requires pol.documented
    ensures s in Shelved(p, passed, head, pol) <==> s in passed && Spent(p, s, pol)
  {
    if passed != [] {
      ShelvedMembers(p, passed[1..], head, pol, s);
      ShelvedMembers(p, passed[1..], false, pol, s);
      assert passed == [passed[0]] + passed[1..];
    }
  }
}
