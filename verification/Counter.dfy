/**
 Atomic increment: read the stored text as a number, add, print, store.
 */
module Counter {
  import opened Engine
  import opened Accounting
  import opened Invariants
  import opened Recycling
  import opened OrderedMap
  import opened Refinement
  import opened Deadlines
  import opened Decimal

  /** sizeof(buff) in shmcache_incr */
  const BUFFER_SIZE := 24
  /** SHMCACHE_SERIALIZER_INTEGER */
  const INTEGER_OPTIONS := 9

  /** HT_CALC_EXPIRES */
  function ExpiresAt(now: int, ttl: int): int { if ttl == 0 then 0 else now + ttl }

  /** What the stored text counts for, or nothing if it is not a number. */
  function Reading(value: Bytes): (r: seq<int>)
    ensures |r| <= 1
  {
    if |value| >= BUFFER_SIZE then []
    else
      var text := CString(value);
      var p := StrToLL(text);
      if p.end == |text| then [p.value] else []
  }

  datatype Counted = Counted(state: State, status: Status, value: int)

  /** shmcache_incr, under the lock */
  function Incr(c: Config, e: State, key: Bytes, increment: int, ttl: int, now: int): (r: Counted)
    requires Ranged(e)
    ensures Ranged(r.state)
  {
    var g := Get(e, key, now);
    if g.status == Ok && Reading(g.found[0].value) == [] then
      Counted(e, Invalid, 0)
    else
      var total := if g.status == Ok then Reading(g.found[0].value)[0] + increment else increment;
      var o := Set(c, e, Binding(key, Print(total), INTEGER_OPTIONS, ExpiresAt(now, ttl)), now);
      Counted(o.state, o.status, total)
  }

  /** A printed 64-bit number reads as itself. */
  lemma ReadingPrinted(n: int)
    requires INT64_MIN <= n <= INT64_MAX
    ensures Reading(Print(n)) == [n]
  {
    PrintFits(n);
    PrintCString(n);
    PrintParse(n);
  }

  /**
   The stored text cannot be counted: it has 24 bytes or more, or what precedes its
   first NUL is not a number as a whole.
   */
  ghost predicate Refused(value: Bytes) {
    || |value| >= 24
    || exists n: nat ::
         && n <= |value| && (n < |value| ==> value[n] == 0) && (forall i :: 0 <= i < n ==> value[i] != 0)
         && !Whole(value[..n])
  }

  lemma RefusedIff(value: Bytes)
    ensures Reading(value) == [] <==> Refused(value)
    ensures Reading(value) != [] ==> Reading(value) == [StrToLL(CString(value)).value]
  {
    hide StrToLL, CString, Whole;
    CStringStops(value);
    WholeIff(CString(value));
    var k := |CString(value)|;
    if |value| < 24 && Refused(value) {
      var n: nat :| n <= |value| && (n < |value| ==> value[n] == 0) && (forall i :: 0 <= i < n ==> value[i] != 0)
        && !Whole(value[..n]);
      assert n == k;
    }
  }

  /**
   An increment of a key in force: a text that cannot be counted is refused and
   nothing changes; otherwise the increment is the set of the sum.
   */
  lemma IncrExact(c: Config, e: State, i: nat, increment: int, ttl: int, now: int)
    requires WF(c, e) && Ranged(e) && i < |e.fifo|
    requires var b := e.fifo[i].binding; b.expires == 0 || now <= b.expires
    ensures var b := e.fifo[i].binding; var r := Incr(c, e, b.key, increment, ttl, now);
      if Refused(b.value) then r.status == Invalid && r.state == e
      else
        && r.value == StrToLL(CString(b.value)).value + increment
        && Outcome(r.state, r.status)
           == Set(c, e, Binding(b.key, Print(r.value), 9, if ttl == 0 then 0 else now + ttl), now)
  {
    hide WF, Ranged, Set, Print, Reading, Get, Refused;
    GetRule(c, e, i, now);
    RefusedIff(e.fifo[i].binding.value);
  }

  /** It is refused iff its text cannot be counted, or the sum is longer than values may be. */
  lemma IncrInvalidIff(c: Config, e: State, i: nat, increment: int, ttl: int, now: int)
    requires WF(c, e) && Ranged(e) && i < |e.fifo|
    requires var b := e.fifo[i].binding; b.expires == 0 || now <= b.expires
    ensures var b := e.fifo[i].binding; var r := Incr(c, e, b.key, increment, ttl, now);
      && (r.status == Invalid <==> Refused(b.value) || |Print(r.value)| > c.maxValue)
      && (r.status == Invalid ==> r.state == e)
  {
    hide Core, DistinctKeys, KeyBytes, ValueBytes, Ranged, Set, Print, Reading, Incr, Refused;
    var b := e.fifo[i].binding;
    var r := Incr(c, e, b.key, increment, ttl, now);
    IncrExact(c, e, i, increment, ttl, now);
    assert LegalItem(c, e.fifo[i]);
    SetInvalidIff(c, e, Binding(b.key, Print(r.value), 9, if ttl == 0 then 0 else now + ttl), now);
  }

  /** Set reports an invalid argument for a long value alone. */
  lemma SetInvalidIff(c: Config, e: State, b: Binding, now: int)
    requires WF(c, e) && Ranged(e) && |b.key| <= 64
    ensures Set(c, e, b, now).status == Invalid <==> |b.value| > c.maxValue
    ensures Set(c, e, b, now).status == Invalid ==> Set(c, e, b, now).state == e
  {
    hide WF, Ranged, Set, KeyLimit, Surviving, MapRecycle, DropKey;
    SetMeaning(c, e, b, now);
    if |b.value| > c.maxValue {
      SetTooLong(c, e, b, now);
    }
  }

  lemma SetTooLong(c: Config, e: State, b: Binding, now: int)
    requires Ranged(e) && |b.key| <= 64 && |b.value| > c.maxValue
    ensures Set(c, e, b, now) == Outcome(e, Invalid)
  {
  }

  /** A key that is absent or expired counts as zero. */
  lemma IncrStarts(c: Config, e: State, key: Bytes, increment: int, ttl: int, now: int)
    requires WF(c, e) && Ranged(e)
    requires forall i :: 0 <= i < |e.fifo| && e.fifo[i].binding.key == key ==>
      e.fifo[i].binding.expires != 0 && e.fifo[i].binding.expires < now
    ensures var r := Incr(c, e, key, increment, ttl, now);
      && r.value == increment
      && Outcome(r.state, r.status) == Set(c, e, Binding(key, Print(increment), 9, if ttl == 0 then 0 else now + ttl), now)
  {
    hide Core, LegalItems, KeyBytes, ValueBytes, Ranged, Set, Print, Reading, Position;
    var k := Position(e.fifo, key);
    if k < |e.fifo| {
      GetRule(c, e, k, now);
    }
  }

  /** What an increment stores is served until its deadline; with a ttl of 0 it is served at every later time. */
  lemma IncrServed(c: Config, e: State, key: Bytes, increment: int, ttl: int, now: int, later: int)
    requires WF(c, e) && Ranged(e)
    requires var r := Incr(c, e, key, increment, ttl, now); r.status == Ok && INT64_MIN <= r.value <= INT64_MAX
    ensures var g := Get(Incr(c, e, key, increment, ttl, now).state, key, later);
      g.status == Ok <==> ttl == 0 || now + ttl == 0 || later <= now + ttl
  {
    hide WF, Ranged, Incr, Find, Print, Reading, Get;
    var r := Incr(c, e, key, increment, ttl, now);
    IncrStores(c, e, key, increment, ttl, now);
    GetRule(c, r.state, Find(Bindings(r.state.fifo), key), later);
  }

  lemma FindLast(m: seq<Binding>, b: Binding)
    requires Lacks(m, b.key)
    ensures Find(m + [b], b.key) == |m|
  {
    var k := Find(m + [b], b.key);
    assert (m + [b])[|m|] == b;
    assert forall i :: 0 <= i < |m| ==> (m + [b])[i].key != b.key;
  }

  lemma {:induction false} DropKeyLacks(m: seq<Binding>, key: Bytes)
    requires UniqueKeys(m)
    ensures Lacks(DropKey(m, key), key)
  {
    if m != [] {
      assert m == [m[0]] + m[1..];
      DropKeyCons(m[0], m[1..], key);
      DropKeyLacks(m[1..], key);
    }
  }

  /** After a successful set, the key is bound to what was set. */
  lemma SetThenGet(c: Config, e: State, b: Binding, now: int)
    requires WF(c, e) && Ranged(e) && Set(c, e, b, now).status == Ok
    ensures var m := Bindings(Set(c, e, b, now).state.fifo); var k := Find(m, b.key); k < |m| && m[k] == b
  {
    hide Core, LegalItems, Ranged, Set, Find, Evicts, DropKey, Lacks, UniqueKeys, MapSet, Surviving;
    SetMeaning(c, e, b, now);
    var m, m' := Bindings(e.fifo), Bindings(Set(c, e, b, now).state.fifo);
    var z := SetKeeps(c, m, Bins(e.fifo), RoomOf(c, e, b, now), b, now, m');
    var kept := Surviving(c, m, z, now);
    DistinctUnique(e.fifo);
    EvictsUnique(c, m, kept, now);
    DropKeyLacks(kept, b.key);
    FindLast(DropKey(kept, b.key), b);
  }

  /** A successful increment stores the value it reports. */
  lemma IncrStores(c: Config, e: State, key: Bytes, increment: int, ttl: int, now: int)
    requires WF(c, e) && Ranged(e)
    requires var r := Incr(c, e, key, increment, ttl, now); r.status == Ok && INT64_MIN <= r.value <= INT64_MAX
    ensures var r := Incr(c, e, key, increment, ttl, now); var m := Bindings(r.state.fifo);
      && WF(c, r.state)
      && Find(m, key) < |m| && Reading(m[Find(m, key)].value) == [r.value]
      && m[Find(m, key)] == Binding(key, Print(r.value), INTEGER_OPTIONS, ExpiresAt(now, ttl))
  {
    hide WF, Ranged, Set, Find, Print, Reading;
    var r := Incr(c, e, key, increment, ttl, now);
    var b := Binding(key, Print(r.value), INTEGER_OPTIONS, ExpiresAt(now, ttl));
    SetThenGet(c, e, b, now);
    SetWF(c, e, b, now);
    ReadingPrinted(r.value);
  }

  // ----- runs

  datatype Call = Call(before: State, increment: int, ttl: int, now: int)

  function After(c: Config, key: Bytes, x: Call): Counted
    requires Ranged(x.before)
  {
    Incr(c, x.before, key, x.increment, x.ttl, x.now)
  }

  /** Between two calls the key keeps its binding, and it has not expired at the second. */
  ghost predicate Undisturbed(c: Config, key: Bytes, x: Call, y: Call) {
    && Ranged(x.before)
    && var m, m' := Bindings(After(c, key, x).state.fifo), Bindings(y.before.fifo);
    && Find(m, key) < |m| && Find(m', key) < |m'|
    && m'[Find(m', key)] == m[Find(m, key)]
    && Unexpired(m[Find(m, key)], y.now)
  }

  ghost function Sum(calls: seq<Call>): int {
    if calls == [] then 0 else Sum(calls[..|calls| - 1]) + calls[|calls| - 1].increment
  }

  /** What a call adds to: the number the key holds, or 0. */
  ghost function Base(key: Bytes, x: Call): int {
    var g := Get(x.before, key, x.now);
    if g.status == Ok && Reading(g.found[0].value) != [] then Reading(g.found[0].value)[0] else 0
  }

  ghost predicate Succeeds(c: Config, key: Bytes, x: Call) {
    Ranged(x.before) && WF(c, x.before) && After(c, key, x).status == Ok
  }

  /** Successful calls on well-formed states, each undisturbed since the one before. */
  ghost predicate Successive(c: Config, key: Bytes, calls: seq<Call>) {
    var n := |calls| - 1;
    && calls != []
    && Succeeds(c, key, calls[n])
    && (n > 0 ==> Successive(c, key, calls[..n]) && Undisturbed(c, key, calls[n - 1], calls[n]))
  }

  /** The sums that later calls read back are 64-bit numbers. */
  ghost predicate InBounds(calls: seq<Call>, start: int) {
    var n := |calls| - 1;
    n > 0 ==> InBounds(calls[..n], start) && INT64_MIN <= start + Sum(calls[..n]) <= INT64_MAX
  }

  /**
   A run of successful increments of one key, with anything in between that leaves
   its binding alone, reports the running sum: the first call starts from what the
   key counted for, and as long as the sums stay in range each call adds to the
   previous result.
   */
  lemma {:induction false} RunningSum(c: Config, key: Bytes, calls: seq<Call>)
    requires Successive(c, key, calls) && InBounds(calls, Base(key, calls[0]))
    ensures After(c, key, calls[|calls| - 1]).value == Base(key, calls[0]) + Sum(calls)
    decreases |calls|
  {
    hide WF, Ranged, Incr, Find, Base, Undisturbed;
    var n := |calls| - 1;
    if n == 0 {
      FirstValue(c, key, calls[0]);
      assert calls[..0] == [];
    } else {
      RunningSum(c, key, calls[..n]);
      var x, y := calls[n - 1], calls[n];
      assert calls[..n][n - 1] == x;
      IncrStores(c, x.before, key, x.increment, x.ttl, x.now);
      NextReads(c, key, x, y);
    }
  }

  lemma FirstValue(c: Config, key: Bytes, x: Call)
    requires Ranged(x.before) && After(c, key, x).status == Ok
    ensures After(c, key, x).value == Base(key, x) + x.increment
  {
    hide Ranged, Set, Print, Reading, Position;
  }

  /** An undisturbed call starts from the value that the call before it stored. */
  lemma NextReads(c: Config, key: Bytes, x: Call, y: Call)
    requires Ranged(x.before) && Ranged(y.before) && Undisturbed(c, key, x, y)
    requires var m := Bindings(After(c, key, x).state.fifo);
      Find(m, key) < |m| && Reading(m[Find(m, key)].value) == [After(c, key, x).value]
    ensures After(c, key, y).value == After(c, key, x).value + y.increment
  {
    hide Ranged, Set, Print, Reading, Find, Position;
    PositionIsFind(y.before.fifo, key);
  }
}
