/**
 The sleep tree of nty_schedule.c: coroutines ordered by deadline in the intrusive red-black
 tree. Deadlines are `uint64_t`, so their arithmetic wraps around.
 */
module SleepTree {
  import opened Sequences
  import opened RedBlack
  import opened Search
  import opened Strings
  import opened NtyTree

  const U64 := 0x1_0000_0000_0000_0000

  /** `nty_coroutine_sleep_cmp`. */
  function SleepCmp(a: int, b: int): int {
    if a < b then -1 else if a == b then 0 else 1
  }

  lemma SleepCmpIsTotalOrder()
    ensures TotalOrder(SleepCmp)
  {
  }

  /** The deadline tried after `i` collisions. */
  function Tried(base: nat, i: nat): nat {
    (base + i) % U64
  }

  ghost function Deadlines(s: set<Elm<int>>): set<int>
    reads s`key
  {
    set n | n in s :: n.key
  }

  lemma {:induction false} FewDeadlines(s: set<Elm<int>>)
    ensures |Deadlines(s)| <= |s|
  {
    if s != {} {
      var n :| n in s;
      FewDeadlines(s - {n});
      assert Deadlines(s) == Deadlines(s - {n}) + {n.key};
    }
  }

  ghost function FirstTried(base: nat, i: nat): (r: set<int>)
    ensures forall d :: d in r ==> exists j :: 0 <= j < i && d == Tried(base, j)
  {
    if i == 0 then {} else FirstTried(base, i - 1) + {Tried(base, i - 1)}
  }

  /** Fewer than 2^64 consecutive deadlines are all different. */
  lemma {:induction false} TriedDiffer(base: nat, i: nat)
    requires i <= U64
    ensures |FirstTried(base, i)| == i
  {
    if i > 0 {
      TriedDiffer(base, i - 1);
      forall j | 0 <= j < i - 1 ensures Tried(base, j) != Tried(base, i - 1) {
        NotCongruent(base + j, i - 1 - j);
      }
      assert Tried(base, i - 1) !in FirstTried(base, i - 1);
    }
  }

  lemma NotCongruent(a: nat, d: nat)
    requires 0 < d < U64
    ensures a % U64 != (a + d) % U64
  {
    var q, r := a / U64, a % U64;
    if r + d < U64 {
      assert (a + d) % U64 == r + d;
    } else {
      assert (a + d) % U64 == r + d - U64;
    }
  }

  /** Pigeonhole: among as many sleepers, one more deadline than there are sleepers is free. */
  lemma Crowded(s: set<Elm<int>>, base: nat, i: nat)
    requires i <= U64 && forall j :: 0 <= j < i ==> Tried(base, j) in Deadlines(s)
    ensures i <= |s|
  {
    TriedDiffer(base, i);
    FewDeadlines(s);
    assert FirstTried(base, i) <= Deadlines(s);
    Fewer(FirstTried(base, i), Deadlines(s));
  }

  lemma {:induction false} Fewer(a: set<int>, b: set<int>)
    requires a <= b
    ensures |a| <= |b|
  {
    assert b == a + (b - a);
  }

  /** `d` is the first deadline from `base` on that is not taken, found after `tries` collisions. */
  ghost predicate FirstFree(taken: set<int>, base: nat, tries: nat, d: int) {
    d == Tried(base, tries) && d !in taken && forall j :: 0 <= j < tries ==> Tried(base, j) in taken
  }

  /** Who is left after the stale deadline has been looked up and taken out. */
  ghost function Others(s: set<Elm<int>>, stale: int): set<Elm<int>>
    reads s`key
  {
    set n | n in s && n.key != stale
  }

  /**
   `nty_schedule_sched_sleepdown`. The coroutine's previous deadline is looked up and whoever
   holds it is removed; then the coroutine gets the first free deadline from `diff + 1000 *
   msecs` on, after `tries` collisions with other sleepers.
   */
  method SleepDown(h: Head<int>, co: Elm<int>, diff: nat, msecs: nat) returns (ghost tries: nat)
    requires h.Valid() && h.cmp == SleepCmp && |h.nodes| < U64
    modifies h`root, h`shape, h`nodes, h.nodes`red, h.nodes`left, h.nodes`right, h.nodes`parent, co
    ensures h.Valid() && forall n :: n in old(h.nodes) && n != co ==> n.key == old(n.key)
    ensures msecs == 0 ==> h.nodes == old(Others(h.nodes, co.key))
    ensures msecs > 0 ==>
      && h.nodes == old(Others(h.nodes, co.key)) + {co}
      && FirstFree(old(Deadlines(Others(h.nodes, co.key))), diff + 1000 * msecs, tries, co.key)
      && tries <= |old(Others(h.nodes, co.key))|
  {
    hide Head<int>.Valid, Tried, Due, FirstFree;
    OthersFewer(h.nodes, co.key);
    Forget(h, co.key);
    co.key := Due(diff, msecs);
    Wraps(diff, msecs);
    tries := 0;
    if msecs != 0 {
      tries := Settle(h, co, diff + 1000 * msecs);
    }
  }

  /** The deadline computed with every product and sum wrapped. */
  function Due(diff: nat, msecs: nat): nat {
    var usecs := msecs * 1000 % U64;
    (diff + usecs) % U64
  }

  lemma OthersFewer(s: set<Elm<int>>, stale: int)
    ensures |Others(s, stale)| <= |s|
  {
    var rest := Others(s, stale);
    assert s == rest + (s - rest);
  }

  lemma Wraps(diff: nat, msecs: nat)
    ensures Due(diff, msecs) == Tried(diff + 1000 * msecs, 0)
  {
    var q := msecs * 1000 / U64;
    Congruent(diff + msecs * 1000 % U64, q);
  }

  lemma {:induction false} Congruent(a: nat, q: nat)
    ensures (a + q * U64) % U64 == a % U64
  {
    if q > 0 { Congruent(a, q - 1); }
  }

  /** The insertion loop: a deadline that is taken is increased by one. */
  method Settle(h: Head<int>, co: Elm<int>, ghost base: nat) returns (ghost tries: nat)
    requires h.Valid() && h.cmp == SleepCmp && |h.nodes| < U64 && co !in h.nodes && co.key == Tried(base, 0)
    modifies h`root, h`shape, h`nodes, h.nodes`red, h.nodes`left, h.nodes`right, h.nodes`parent, co
    ensures h.Valid() && h.nodes == old(h.nodes) + {co}
    ensures FirstFree(old(Deadlines(h.nodes)), base, tries, co.key) && tries <= |old(h.nodes)|
  {
    hide Head<int>.Valid, Tried;
    tries := 0;
    ghost var rest := h.nodes;
    ghost var taken := Deadlines(rest);
    while true
      invariant h.Valid() && h.nodes == rest && co.key == Tried(base, tries) && tries <= |rest|
      invariant forall n :: n in rest ==> n.key == old(n.key)
      invariant forall j :: 0 <= j < tries ==> Tried(base, j) in taken
      decreases |rest| - tries
    {
      var tmp;
      ghost var at;
      tmp, at := h.Insert(co);
      if tmp == null {
        break;
      }
      assert Deadlines(rest) == taken;
      Crowded(rest, base, tries + 1);
      Successor(base, tries);
      co.key := (co.key + 1) % U64;
      tries := tries + 1;
    }
  }

  lemma Successor(base: nat, i: nat)
    ensures (Tried(base, i) + 1) % U64 == Tried(base, i + 1)
  {
  }

  /** Takes out whoever sleeps until `stale`. */
  method Forget(h: Head<int>, stale: int)
    requires h.Valid() && h.cmp == SleepCmp
    modifies h`root, h`shape, h`nodes, h.nodes`red, h.nodes`left, h.nodes`right, h.nodes`parent
    ensures h.Valid() && h.nodes == old(Others(h.nodes, stale))
  {
    hide Head<int>.Linked;
    var tmp;
    ghost var c, t, steps;
    tmp, c, t, steps := h.Find(stale);
    if tmp != null {
      OneHolder(h, tmp);
      var victim;
      ghost var at;
      victim, at := h.Remove(tmp, c, t);
    }
  }

  /** Deadlines are distinct. */
  lemma OneHolder(h: Head<int>, e: Elm<int>)
    requires h.Valid() && h.cmp == SleepCmp && e in h.nodes
    ensures forall n :: n in h.nodes && n.key == e.key ==> n == e
  {
    h.NodesOfWalk();
    var s := Inorder(h.shape);
    forall n | n in h.nodes && n.key == e.key ensures n == e {
      var i :| 0 <= i < |s| && s[i] == n;
      var j :| 0 <= j < |s| && s[j] == e;
      assert KeyMap(h.nodes)[s[i]] == KeyMap(h.nodes)[s[j]];
    }
  }

  /** Without wrap-around: the least free deadline from `base` on, at most one past the sleepers. */
  lemma LeastFree(taken: set<int>, base: nat, tries: nat, d: int)
    requires FirstFree(taken, base, tries, d) && base + tries < U64
    ensures base <= d == base + tries && d !in taken && forall k :: base <= k < d ==> k in taken
  {
    forall k | base <= k < d ensures k in taken {
      assert Tried(base, k - base) == k;
    }
  }

  /** `nty_schedule_expired`: removes the earliest sleeper if it is due. */
  method Expired(h: Head<int>, diff: nat) returns (co: Elm?<int>)
    requires h.Valid() && h.cmp == SleepCmp
    modifies h`root, h`shape, h`nodes, h.nodes`red, h.nodes`left, h.nodes`right, h.nodes`parent
    ensures h.Valid()
    ensures co == null ==>
      && h.nodes == old(h.nodes) && Inorder(h.shape) == old(Inorder(h.shape))
      && (Inorder(h.shape) != [] ==> Inorder(h.shape)[0].key > diff)
    ensures co != null ==>
      && old(Inorder(h.shape)) == [co] + Inorder(h.shape) && co.key <= diff
      && h.nodes == old(h.nodes) - {co}
  {
    hide Head<int>.Valid, Inorder, NoDuplicates;
    ghost var c, t, at;
    co, c, t := h.MinMax(-1);
    if co == null {
      return;
    }
    if co.key <= diff {
      ghost var s := Inorder(h.shape);
      WalkDistinct(h);
      if |s| > 0 { DistinctFrom(s, 0); }
      co, at := h.Remove(co, c, t);
      assert at == 0;
      assert s[..at] + s[at + 1..] == s[1..];
      return;
    }
    co := null;
  }

  lemma WalkDistinct(h: Head<int>)
    requires h.Valid()
    ensures NoDuplicates(Inorder(h.shape)) && h.nodes == set n | n in Inorder(h.shape)
  {
    h.NodesOfWalk();
  }

  /** Along the tree the deadlines increase. */
  lemma WalkIncreases(h: Head<int>)
    requires h.Valid() && h.cmp == SleepCmp
    ensures var s := Inorder(h.shape); forall i, j :: 0 <= i < j < |s| ==> s[i].key < s[j].key
  {
    hide Head<int>.Linked;
    h.NodesOfWalk();
    var s, keys := Inorder(h.shape), KeyMap(h.nodes);
    forall i, j | 0 <= i < j < |s| ensures s[i].key < s[j].key {
      assert s[i] in h.nodes && s[j] in h.nodes;
      assert SleepCmp(keys[s[i]], keys[s[j]]) < 0;
    }
  }

  /** With the clock standing still, repeated calls take exactly the due sleepers, earliest first. */
  method Drain(h: Head<int>, diff: nat) returns (out: seq<Elm<int>>)
    requires h.Valid() && h.cmp == SleepCmp
    modifies h`root, h`shape, h`nodes, h.nodes`red, h.nodes`left, h.nodes`right, h.nodes`parent
    ensures h.Valid() && out + Inorder(h.shape) == old(Inorder(h.shape))
    ensures forall i, j :: 0 <= i < j < |out| ==> out[i].key < out[j].key
    ensures forall i :: 0 <= i < |out| ==> out[i].key <= diff
    ensures forall n :: n in h.nodes ==> n.key > diff
  {
    hide Head<int>.Valid, Inorder;
    ghost var s := Inorder(h.shape);
    WalkIncreases(h);
    WalkDistinct(h);
    ghost var all := h.nodes;
    assert forall i :: 0 <= i < |s| ==> s[i] in all;
    out := TakeDue(h, diff);
    AllLater(h, diff);
    forall i, j | 0 <= i < j < |out| ensures out[i].key < out[j].key {
      assert out[i] == s[i] && out[j] == s[j];
    }
  }

  method TakeDue(h: Head<int>, diff: nat) returns (out: seq<Elm<int>>)
    requires h.Valid() && h.cmp == SleepCmp
    modifies h`root, h`shape, h`nodes, h.nodes`red, h.nodes`left, h.nodes`right, h.nodes`parent
    ensures h.Valid() && out + Inorder(h.shape) == old(Inorder(h.shape))
    ensures forall i :: 0 <= i < |out| ==> out[i].key <= diff
    ensures Inorder(h.shape) == [] || Inorder(h.shape)[0].key > diff
  {
    hide Head<int>.Valid, Inorder;
    out := [];
    ghost var s := Inorder(h.shape);
    var co := Expired(h, diff);
    while co != null
      invariant h.Valid() && h.nodes <= old(h.nodes)
      invariant s == out + Pending(co) + Inorder(h.shape)
      invariant forall i :: 0 <= i < |out| ==> out[i].key <= diff
      invariant co != null ==> co.key <= diff
      invariant co == null ==> Inorder(h.shape) == [] || Inorder(h.shape)[0].key > diff
      decreases |Inorder(h.shape)|, co != null
    {
      ghost var walk := Inorder(h.shape);
      out := out + [co];
      co := Expired(h, diff);
      Shifted(out, co, walk, Inorder(h.shape));
    }
  }

  ghost function Pending(co: Elm?<int>): seq<Elm<int>> {
    if co == null then [] else [co]
  }

  lemma Shifted(out: seq<Elm<int>>, co: Elm?<int>, walk: seq<Elm<int>>, rest: seq<Elm<int>>)
    requires walk == Pending(co) + rest
    ensures out + walk == out + Pending(co) + rest
  {
  }

  lemma AllLater(h: Head<int>, diff: nat)
    requires h.Valid() && h.cmp == SleepCmp && (Inorder(h.shape) == [] || Inorder(h.shape)[0].key > diff)
    ensures forall n :: n in h.nodes ==> n.key > diff
  {
    hide Inorder, Head<int>.Valid;
    WalkIncreases(h);
    WalkDistinct(h);
    var s := Inorder(h.shape);
    forall n | n in h.nodes ensures n.key > diff {
      var i :| 0 <= i < |s| && s[i] == n;
    }
  }

  /** `nty_schedule_min_timeout`: waiting that long makes the first sleeper due, and no earlier. */
  method MinTimeout(h: Head<int>, diff: nat, defaultTimeout: nat) returns (t: int)
    requires h.Valid() && h.cmp == SleepCmp
    ensures h.nodes == {} ==> t == defaultTimeout
    ensures h.nodes != {} ==> t >= 0 && exists n :: n in h.nodes && n.key <= diff + t
    ensures h.nodes != {} && t > 0 ==> forall n :: n in h.nodes ==> n.key >= diff + t
  {
    hide Head<int>.Valid;
    var co;
    ghost var c, u;
    co, c, u := h.MinMax(-1);
    if co == null {
      return defaultTimeout;
    }
    if co.key > diff {
      t := co.key - diff;
      AllLater(h, diff + t - 1);
    } else {
      t := 0;
    }
  }
}
