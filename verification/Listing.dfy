/**
 Listing the cache: which entries a listing selects, and which page of them it
 returns.
 */
module Listing {
  import opened Engine

  const OP_EXACT := 0
  const OP_LEFT := 1
  const OP_RIGHT := 2
  const OP_ANYWHERE := 3

  datatype Pattern = All | Pattern(key: Bytes, op: int)

  ghost predicate Occurs(p: Bytes, key: Bytes, start: nat) {
    start + |p| <= |key| && key[start..start + |p|] == p
  }

  /** What a pattern means: equality, prefix, suffix or substring. */
  ghost predicate Matches(p: Pattern, key: Bytes) {
    match p
    case All => true
    case Pattern(k, op) =>
      if op == OP_EXACT then key == k
      else if op == OP_LEFT then k <= key
      else if op == OP_RIGHT then |k| <= |key| && key[|key| - |k|..] == k
      else if op == OP_ANYWHERE then exists start: nat :: Occurs(k, key, start)
      else false
  }

  /** HT_KEY_MATCHED and shm_ht_match_key */
  method MatchKey(p: Pattern, key: Bytes) returns (r: bool)
    ensures r <==> Matches(p, key)
  {
    if p.All? {
      return true;
    }
    var k, op := p.key, p.op;
    if |key| < |k| {
      return false;
    }
    if op == OP_EXACT {
      r := |k| == |key| && k == key;
    } else if op == OP_LEFT {
      r := key[..|k|] == k;
    } else if op == OP_RIGHT {
      r := key[|key| - |k|..] == k;
    } else if op == OP_ANYWHERE {
      var start := 0;
      while start < |key| - |k| + 1
        invariant 0 <= start <= |key| - |k| + 1
        invariant forall s: nat :: s < start ==> !Occurs(k, key, s)
      {
        if key[start..start + |k|] == k {
          assert Occurs(k, key, start);
          return true;
        }
        start := start + 1;
      }
      assert forall s: nat :: !Occurs(k, key, s);
      r := false;
    } else {
      r := false;
    }
  }

  /** Operation code 0 lists the key itself, and codes other than 0 to 3 list nothing. */
  lemma ExactMeans(p: Bytes, key: Bytes)
    ensures Matches(Pattern(p, 0), key) <==> key == p
    ensures forall op :: op < 0 || 3 < op ==> !Matches(Pattern(p, op), key)
  {
  }

  /** Code 1 lists what starts with the given text. */
  lemma LeftMeans(p: Bytes, key: Bytes)
    ensures Matches(Pattern(p, 1), key) <==> exists t: Bytes :: key == p + t
  {
    if p <= key {
      assert key == p + key[|p|..];
    }
  }

  /** Code 2 lists what ends with the given text. */
  lemma RightMeans(p: Bytes, key: Bytes)
    ensures Matches(Pattern(p, 2), key) <==> exists t: Bytes :: key == t + p
  {
    if |p| <= |key| && key[|key| - |p|..] == p {
      assert key == key[..|key| - |p|] + p;
    }
  }

  /** Code 3 lists what contains it. */
  lemma AnywhereMeans(p: Bytes, key: Bytes)
    ensures Matches(Pattern(p, 3), key) <==> exists t: Bytes, u: Bytes :: key == t + p + u
  {
    if start: nat :| Occurs(p, key, start) {
      assert key == key[..start] + p + key[start + |p|..];
    }
    if t: Bytes, u: Bytes :| key == t + p + u {
      assert key[|t|..|t| + |p|] == p;
      assert Occurs(p, key, |t|);
    }
  }

  ghost predicate Chosen(b: Binding, p: Pattern, now: int) {
    Unexpired(b, now) && Matches(p, b.key)
  }

  /** The unexpired, matching bindings in FIFO order. */
  ghost function Selected(bs: seq<Binding>, p: Pattern, now: int): (r: seq<Binding>)
    ensures |r| <= |bs|
  {
    if bs == [] then []
    else
      var n := |bs| - 1;
      if Chosen(bs[n], p, now) then Selected(bs[..n], p, now) + [bs[n]] else Selected(bs[..n], p, now)
  }

  /** Skip `offset` rows, then take `count` of them, or all if `count` is not positive. */
  ghost function Page(rows: seq<Binding>, offset: nat, count: int): seq<Binding> {
    var rest := if offset <= |rows| then rows[offset..] else [];
    if 0 < count < |rest| then rest[..count] else rest
  }

  lemma SelectedStep(bs: seq<Binding>, p: Pattern, now: int, pos: nat)
    requires pos < |bs|
    ensures Selected(bs[..pos + 1], p, now)
         == if Chosen(bs[pos], p, now) then Selected(bs[..pos], p, now) + [bs[pos]] else Selected(bs[..pos], p, now)
  {
    assert bs[..pos + 1][..pos] == bs[..pos];
  }

  /** What is selected from a part of the list is a prefix of what is selected from the whole, short by at most the rest. */
  lemma {:induction false} SelectedPrefix(bs: seq<Binding>, p: Pattern, now: int, pos: nat)
    requires pos <= |bs|
    ensures Selected(bs[..pos], p, now) <= Selected(bs, p, now)
    ensures |Selected(bs, p, now)| <= |Selected(bs[..pos], p, now)| + |bs| - pos
    decreases |bs|
  {
    if pos == |bs| {
      assert bs[..pos] == bs;
    } else {
      var n := |bs| - 1;
      SelectedPrefix(bs[..n], p, now, pos);
      assert bs[..n][..pos] == bs[..pos];
    }
  }

  /** A listing without pattern and limits is the list of unexpired bindings. */
  lemma {:induction false} SelectedAll(bs: seq<Binding>, now: int)
    ensures Selected(bs, All, now) == Alive(bs, now)
  {
    if bs != [] {
      var n := |bs| - 1;
      SelectedAll(bs[..n], now);
      AliveSnoc(bs[..n], bs[n], now);
      assert bs == bs[..n] + [bs[n]];
    }
  }

  lemma {:induction false} AliveSnoc(s: seq<Binding>, x: Binding, now: int)
    ensures Alive(s + [x], now) == Alive(s, now) + (if Unexpired(x, now) then [x] else [])
  {
    if s == [] {
      assert s + [x] == [x];
    } else {
      assert (s + [x])[1..] == s[1..] + [x];
      AliveSnoc(s[1..], x, now);
    }
  }

  /** A page with its numbers: from `offset` on, `count` rows at most if `count` is positive. */
  lemma PageRule(rows: seq<Binding>, offset: nat, count: int)
    ensures var p := Page(rows, offset, count); var left := if offset <= |rows| then |rows| - offset else 0;
      && |p| == (if 0 < count < left then count else left)
      && forall i :: 0 <= i < |p| ==> p[i] == rows[offset + i]
  {
  }

  /** A binding is listed iff it is stored, matches, and its deadline has not passed. */
  lemma {:induction false} SelectedMembers(bs: seq<Binding>, p: Pattern, now: int, b: Binding)
    ensures b in Selected(bs, p, now) <==> b in bs && Matches(p, b.key) && (b.expires == 0 || now <= b.expires)
  {
    if bs != [] {
      var n := |bs| - 1;
      SelectedMembers(bs[..n], p, now, b);
      assert bs == bs[..n] + [bs[n]];
    }
  }

  /** Consecutive pages add up to the page that covers both. */
  lemma PagesJoin(rows: seq<Binding>, offset: nat, n: nat, m: nat)
    requires 0 < n && 0 < m
    ensures Page(rows, offset, n) + Page(rows, offset + n, m) == Page(rows, offset, n + m)
  {
    if offset + n <= |rows| {
      assert rows[offset..][n..] == rows[offset + n..];
    }
  }

  /** All pages of `n` rows from `offset` on, one after the other. */
  ghost function Pages(rows: seq<Binding>, offset: nat, n: nat): seq<Binding>
    requires 0 < n
    decreases |rows| - offset
  {
    if offset >= |rows| then [] else Page(rows, offset, n) + Pages(rows, offset + n, n)
  }

  /** Paging through the listing yields every row once, in order. */
  lemma {:induction false} PagesCover(rows: seq<Binding>, offset: nat, n: nat)
    requires 0 < n && offset <= |rows|
    ensures Pages(rows, offset, n) == rows[offset..]
    decreases |rows| - offset
  {
    if offset + n <= |rows| {
      PagesCover(rows, offset + n, n);
      assert rows[offset..] == rows[offset..][..n] + rows[offset + n..];
    }
  }

  lemma SelectedNone(bs: seq<Binding>, p: Pattern, now: int)
    ensures Selected(bs[..0], p, now) == []
  {
  }

  /** A page that starts past the list is empty. */
  lemma PageBeyond(bs: seq<Binding>, p: Pattern, now: int, offset: nat, count: int)
    requires |bs| <= offset
    ensures Page(Selected(bs, p, now), offset, count) == []
  {
  }

  /** A page that starts past the selected rows is empty. */
  lemma PageShort(bs: seq<Binding>, p: Pattern, now: int, offset: nat, count: int)
    requires |Selected(bs[..|bs|], p, now)| < offset
    ensures Page(Selected(bs, p, now), offset, count) == []
  {
    assert bs[..|bs|] == bs;
  }

  /**
   The rows collected when the copying loop stops, at the end of the list or with
   `slots` rows, are the requested page.
   */
  lemma PageReached(bs: seq<Binding>, p: Pattern, now: int, pos: nat, offset: nat, count: int, slots: nat)
    requires pos <= |bs| && offset < |bs| && slots == (if 0 < count < |bs| - offset then count else |bs| - offset)
    requires offset <= |Selected(bs[..pos], p, now)| <= offset + slots
    requires pos == |bs| || |Selected(bs[..pos], p, now)| == offset + slots
    ensures Selected(bs[..pos], p, now)[offset..] == Page(Selected(bs, p, now), offset, count)
  {
    var part, whole := Selected(bs[..pos], p, now), Selected(bs, p, now);
    SelectedPrefix(bs, p, now, pos);
    if pos == |bs| {
      assert bs[..pos] == bs;
    } else {
      assert part[offset..] == whole[offset..][..slots];
    }
  }
}
