/**
 Whole runs of the sleep tree. A coroutine keeps its deadline field after it has left the tree,
 and going to sleep first looks that stale deadline up and removes whoever holds it. A run says
 at which clock readings coroutines go to sleep and expire; the clock need not move forward.
 */
module SleepRuns {
  import opened RedBlack
  import opened NtyTree
  import opened SleepTree

  /** The deadline field of every coroutine, and who is in the tree. */
  datatype State<T> = State(key: map<T, int>, asleep: set<T>)

  datatype Event<T> =
    | Create(who: T)                                       // the field starts as 0
    | Sleep(who: T, now: nat, msecs: nat, tries: nat)      // `nty_schedule_sched_sleepdown`
    | Expire(who: T, now: nat)                             // `nty_schedule_expired` returns it

  /** Sleepers other than `c` that hold its stale deadline: going to sleep drops them. */
  ghost function Dropped<T>(s: State<T>, c: T): set<T>
    requires c in s.key && s.asleep <= s.key.Keys
  {
    set n | n in s.asleep && n != c && s.key[n] == s.key[c]
  }

  ghost function Left<T>(s: State<T>, c: T): set<T>
    requires c in s.key && s.asleep <= s.key.Keys
  {
    set n | n in s.asleep && s.key[n] != s.key[c]
  }

  ghost function Taken<T>(s: State<T>, c: T): set<int>
    requires c in s.key && s.asleep <= s.key.Keys
  {
    set n | n in Left(s, c) :: s.key[n]
  }

  ghost predicate Enabled<T>(s: State<T>, e: Event<T>) {
    s.asleep <= s.key.Keys &&
    match e
    case Create(c) => c !in s.key
    case Sleep(c, now, msecs, tries) =>
      c in s.key && msecs > 0 && FirstFree(Taken(s, c), now + 1000 * msecs, tries, Tried(now + 1000 * msecs, tries))
    case Expire(c, now) =>
      c in s.asleep && s.key[c] <= now && forall n :: n in s.asleep ==> s.key[c] <= s.key[n]
  }

  ghost function Next<T>(s: State<T>, e: Event<T>): State<T>
    requires Enabled(s, e)
  {
    match e
    case Create(c) => s.(key := s.key[c := 0])
    case Sleep(c, now, msecs, tries) =>
      State(s.key[c := Tried(now + 1000 * msecs, tries)], Left(s, c) + {c})
    case Expire(c, _) => s.(asleep := s.asleep - {c})
  }

  ghost predicate Possible<T>(s: State<T>, es: seq<Event<T>>)
    decreases |es|
  {
    es == [] || (Enabled(s, es[0]) && Possible(Next(s, es[0]), es[1..]))
  }

  ghost function After<T>(s: State<T>, es: seq<Event<T>>): State<T>
    requires Possible(s, es)
    decreases |es|
  {
    if es == [] then s else After(Next(s, es[0]), es[1..])
  }

  /** The largest reading at which someone has expired. */
  function Latest<T>(high: nat, e: Event<T>): nat {
    if e.Expire? && e.now > high then e.now else high
  }

  /** Every coroutine that goes to sleep gets a deadline after every expiry so far. */
  ghost predicate Timely<T>(high: nat, es: seq<Event<T>>)
    decreases |es|
  {
    es == [] ||
    ((es[0].Sleep? ==> high < Tried(es[0].now + 1000 * es[0].msecs, es[0].tries))
      && Timely(Latest(high, es[0]), es[1..]))
  }

  /** The clock does not step back and msecs are at least 1, deadlines staying below 2^64. */
  ghost predicate Forward<T>(last: nat, es: seq<Event<T>>)
    decreases |es|
  {
    es == [] ||
    match es[0]
    case Create(_) => Forward(last, es[1..])
    case Sleep(_, now, msecs, tries) =>
      last <= now && msecs > 0 && now + 1000 * msecs + tries < U64 && Forward(now, es[1..])
    case Expire(_, now) => last <= now && Forward(now, es[1..])
  }

  lemma {:induction false} ForwardIsTimely<T>(high: nat, last: nat, es: seq<Event<T>>)
    requires high <= last && Forward(last, es)
    ensures Timely(high, es)
    decreases |es|
  {
    if es != [] {
      ForwardIsTimely(Latest(high, es[0]), if es[0].Create? then last else es[0].now, es[1..]);
    }
  }

  /** Deadlines in the tree differ, and are later than the field of everyone outside. */
  ghost predicate Inv<T>(s: State<T>, high: nat) {
    && s.asleep <= s.key.Keys
    && (forall a, b :: a in s.asleep && b in s.asleep && a != b ==> s.key[a] != s.key[b])
    && (forall n :: n in s.asleep ==> s.key[n] > 0)
    && (forall c :: c in s.key && c !in s.asleep ==> 0 <= s.key[c] <= high)
    && (forall c, n :: c in s.key && c !in s.asleep && n in s.asleep ==> s.key[c] < s.key[n])
  }

  lemma NobodyDropped<T>(s: State<T>, high: nat, c: T)
    requires Inv(s, high) && c in s.key
    ensures Dropped(s, c) == {} && Left(s, c) == s.asleep - {c}
  {
  }

  lemma SleepInv<T>(s: State<T>, high: nat, c: T, now: nat, msecs: nat, tries: nat)
    requires Inv(s, high) && Enabled(s, Sleep(c, now, msecs, tries))
    requires high < Tried(now + 1000 * msecs, tries)
    ensures Inv(Next(s, Sleep(c, now, msecs, tries)), high)
  {
    hide FirstFree;
    NobodyDropped(s, high, c);
    var d := Tried(now + 1000 * msecs, tries);
    assert d !in Taken(s, c) by { NotTaken(Taken(s, c), now + 1000 * msecs, tries, d); }
    forall n | n in s.asleep && n != c ensures s.key[n] != d {
      assert n in Left(s, c) && s.key[n] in Taken(s, c);
    }
  }

  lemma NotTaken(taken: set<int>, base: nat, tries: nat, d: int)
    requires FirstFree(taken, base, tries, d)
    ensures d !in taken
  {
  }

  lemma ExpireInv<T>(s: State<T>, high: nat, c: T, now: nat)
    requires Inv(s, high) && Enabled(s, Expire(c, now))
    ensures Inv(Next(s, Expire(c, now)), if now > high then now else high)
  {
  }

  lemma StepInv<T>(s: State<T>, high: nat, e: Event<T>)
    requires Inv(s, high) && Enabled(s, e) && Timely(high, [e])
    ensures Inv(Next(s, e), Latest(high, e))
  {
    match e
    case Create(c) =>
    case Sleep(c, now, msecs, tries) => SleepInv(s, high, c, now, msecs, tries);
    case Expire(c, now) => ExpireInv(s, high, c, now);
  }

  /** Some coroutine that goes to sleep along the run drops another one from the tree. */
  ghost predicate SomeoneDropped<T>(s: State<T>, es: seq<Event<T>>)
    requires Possible(s, es)
    decreases |es|
  {
    es != [] && ((es[0].Sleep? && Dropped(s, es[0].who) != {}) || SomeoneDropped(Next(s, es[0]), es[1..]))
  }

  lemma {:induction false} RunKeeps<T>(s: State<T>, high: nat, es: seq<Event<T>>)
    requires Inv(s, high) && Possible(s, es) && Timely(high, es)
    ensures !SomeoneDropped(s, es)
    decreases |es|
  {
    if es != [] {
      var e := es[0];
      assert [e][1..] == [];
      if e.Sleep? { NobodyDropped(s, high, e.who); }
      StepInv(s, high, e);
      RunKeeps(Next(s, e), Latest(high, e), es[1..]);
    }
  }

  /** From the start, no run of timely sleeps drops a sleeper; so none with a forward clock does. */
  lemma NoSleeperLost<T>(es: seq<Event<T>>)
    requires Possible(State(map[], {}), es)
    ensures Timely(0, es) ==> !SomeoneDropped(State(map[], {}), es)
    ensures Forward(0, es) ==> !SomeoneDropped(State(map[], {}), es)
  {
    if Forward(0, es) { ForwardIsTimely(0, 0, es); }
    if Timely(0, es) { RunKeeps(State(map[], {}), 0, es); }
  }

  // ---------- exactly when a sleep is too early ----------

  /** The deadline that a sleep at reading `b` for `m` milliseconds asks for. */
  function Asked(b: nat, m: nat): nat {
    (b + 1000 * m) % U64
  }

  /**
   All sleeps of the run are timely, save those at reading `b` for `m` when the last expiry was
   at `a`, which need not be; their collisions do not go past 2^64.
   */
  ghost predicate TimelyBut<T>(high: nat, es: seq<Event<T>>, a: nat, b: nat, m: nat)
    decreases |es|
  {
    es == [] ||
    ((es[0].Sleep? ==>
        high < Tried(es[0].now + 1000 * es[0].msecs, es[0].tries) ||
        (high == a && es[0].now == b && es[0].msecs == m && Asked(b, m) + es[0].tries < U64))
      && TimelyBut(Latest(high, es[0]), es[1..], a, b, m))
  }

  lemma AskedTried(b: nat, m: nat, tries: nat)
    requires Asked(b, m) + tries < U64
    ensures Tried(b + 1000 * m, tries) == Asked(b, m) + tries
  {
    var q := (b + 1000 * m) / U64;
    Congruent(Asked(b, m) + tries, q);
  }

  lemma {:induction false} TimelyAfterAll<T>(high: nat, es: seq<Event<T>>, a: nat, b: nat, m: nat)
    requires TimelyBut(high, es, a, b, m) && a < Asked(b, m)
    ensures Timely(high, es)
    decreases |es|
  {
    if es != [] {
      hide Tried, Asked;
      if es[0].Sleep? && Asked(b, m) + es[0].tries < U64 { AskedTried(b, m, es[0].tries); }
      TimelyAfterAll(Latest(high, es[0]), es[1..], a, b, m);
    }
  }

  lemma Prepended<T>(s: State<T>, e: Event<T>, rest: seq<Event<T>>)
    requires Enabled(s, e) && Possible(Next(s, e), rest)
    ensures Possible(s, [e] + rest)
    ensures SomeoneDropped(s, [e] + rest) <==> (e.Sleep? && Dropped(s, e.who) != {}) || SomeoneDropped(Next(s, e), rest)
  {
    assert ([e] + rest)[1..] == rest;
  }

  lemma PrependedBut<T>(high: nat, e: Event<T>, rest: seq<Event<T>>, a: nat, b: nat, m: nat)
    requires e.Sleep? ==>
      high < Tried(e.now + 1000 * e.msecs, e.tries) ||
      (high == a && e.now == b && e.msecs == m && Asked(b, m) + e.tries < U64)
    requires TimelyBut(Latest(high, e), rest, a, b, m)
    ensures TimelyBut(high, [e] + rest, a, b, m)
  {
    assert ([e] + rest)[1..] == rest;
  }

  lemma NothingTaken<T>(s: State<T>, c: T, now: nat, msecs: nat)
    requires c in s.key && s.asleep <= s.key.Keys && msecs > 0 && Left(s, c) == {}
    ensures Enabled(s, Sleep(c, now, msecs, 0))
  {
  }

  /** `y` goes to sleep, and `x` after it. */
  ghost function Tail<T>(x: T, y: T, b: nat, m: nat): seq<Event<T>> {
    [Sleep(y, b, m, 0)] + ([Sleep(x, b, m, 0)] + [])
  }

  /** If `x` still has the deadline that `y` gets in its field, it drops `y` when it sleeps again. */
  lemma TailDrops<T>(s: State<T>, x: T, y: T, b: nat, m: nat)
    requires x != y && m > 0 && s.asleep == {} && x in s.key && y in s.key && s.key[x] == Asked(b, m)
    ensures Possible(s, Tail(x, y, b, m)) && SomeoneDropped(s, Tail(x, y, b, m))
  {
    hide FirstFree, Possible, SomeoneDropped;
    var k := Asked(b, m);
    AskedTried(b, m, 0);
    var t := State(s.key[y := k], {y});
    var u := State(t.key[x := k], {x});
    NothingTaken(s, y, b, m);
    assert Next(s, Sleep(y, b, m, 0)) == t by { assert Left(s, y) == {}; }
    assert Left(t, x) == {};
    NothingTaken(t, x, b, m);
    assert Next(t, Sleep(x, b, m, 0)) == u;
    assert y in Dropped(t, x);
    Ends(u);
    Prepended(t, Sleep(x, b, m, 0), []);
    Prepended(s, Sleep(y, b, m, 0), [Sleep(x, b, m, 0)] + []);
  }

  lemma TailTimely<T>(x: T, y: T, a: nat, b: nat, m: nat)
    ensures TimelyBut(a, Tail(x, y, b, m), a, b, m)
  {
    hide TimelyBut, Tried;
    assert Asked(b, m) < U64;
    NoSleeps<T>(a, a, b, m);
    PrependedBut(a, Sleep(x, b, m, 0), [], a, b, m);
    PrependedBut(a, Sleep(y, b, m, 0), [Sleep(x, b, m, 0)] + [], a, b, m);
  }

  lemma NoSleeps<T>(high: nat, a: nat, b: nat, m: nat)
    ensures TimelyBut<T>(high, [], a, b, m)
  {
  }

  lemma Ends<T>(s: State<T>)
    ensures Possible(s, []) && !SomeoneDropped(s, [])
  {
  }

  /** Somebody sleeps at `c` for `n` and expires at `a`. */
  ghost function Nap<T>(z: T, c: nat, n: nat, a: nat, rest: seq<Event<T>>): seq<Event<T>> {
    [Sleep(z, c, n, 0)] + ([Expire(z, a)] + rest)
  }

  lemma AfterNap<T>(s: State<T>, z: T, c: nat, n: nat, a: nat, rest: seq<Event<T>>)
    requires z in s.key && s.asleep == {} && n > 0 && Asked(c, n) <= a
    requires var t := State(s.key[z := Asked(c, n)], {}); Possible(t, rest) && SomeoneDropped(t, rest)
    ensures Possible(s, Nap(z, c, n, a, rest)) && SomeoneDropped(s, Nap(z, c, n, a, rest))
  {
    hide FirstFree, Possible, SomeoneDropped;
    var k := Asked(c, n);
    AskedTried(c, n, 0);
    var t := State(s.key[z := k], {z});
    NothingTaken(s, z, c, n);
    assert Next(s, Sleep(z, c, n, 0)) == t by { assert Left(s, z) == {}; }
    assert Enabled(t, Expire(z, a)) && Next(t, Expire(z, a)) == State(s.key[z := k], {});
    Prepended(t, Expire(z, a), rest);
    Prepended(s, Sleep(z, c, n, 0), [Expire(z, a)] + rest);
  }

  lemma NapTimely<T>(z: T, c: nat, n: nat, rest: seq<Event<T>>, a: nat, b: nat, m: nat)
    requires 0 < Asked(c, n) && a > 0 && TimelyBut(a, rest, a, b, m)
    ensures TimelyBut(0, Nap(z, c, n, a, rest), a, b, m)
  {
    hide TimelyBut;
    AskedTried(c, n, 0);
    PrependedBut(0, Expire(z, a), rest, a, b, m);
    PrependedBut(0, Sleep(z, c, n, 0), [Expire(z, a)] + rest, a, b, m);
  }

  ghost function Both<T>(x: T, y: T, rest: seq<Event<T>>): seq<Event<T>> {
    [Create(x)] + ([Create(y)] + rest)
  }

  lemma AfterBoth<T>(x: T, y: T, rest: seq<Event<T>>, a: nat, b: nat, m: nat)
    requires x != y && TimelyBut(0, rest, a, b, m)
    requires var s := State(map[x := 0, y := 0], {}); Possible(s, rest) && SomeoneDropped(s, rest)
    ensures Possible(State(map[], {}), Both(x, y, rest)) && SomeoneDropped(State(map[], {}), Both(x, y, rest))
    ensures TimelyBut(0, Both(x, y, rest), a, b, m)
  {
    hide Possible, SomeoneDropped, TimelyBut;
    var s0: State<T> := State(map[], {});
    var s1 := State(map[x := 0], {});
    assert Next(s0, Create(x)) == s1 && Next(s1, Create(y)) == State(map[x := 0, y := 0], {});
    Prepended(s1, Create(y), rest);
    Prepended(s0, Create(x), [Create(y)] + rest);
    PrependedBut(0, Create(y), rest, a, b, m);
    PrependedBut(0, Create(x), [Create(y)] + rest, a, b, m);
  }

  /**
   If the deadline asked for is positive, `x` first sleeps until that very deadline and expires;
   if it is 0, the field of `x` is 0 from its creation, and someone else expires at `a` unless
   `a` is 0.
   */
  ghost function DroppingRun<T>(x: T, y: T, a: nat, b: nat, m: nat): seq<Event<T>> {
    Both(x, y,
      if Asked(b, m) > 0 then Nap(x, b, m, a, Tail(x, y, b, m))
      else if a > 0 then Nap(y, U64 - 999, 1, a, Tail(x, y, b, m))
      else Tail(x, y, b, m))
  }

  lemma EarlySleepDrops<T>(x: T, y: T, a: nat, b: nat, m: nat)
    requires x != y && m > 0 && Asked(b, m) <= a
    ensures var es := DroppingRun(x, y, a, b, m);
      Possible(State(map[], {}), es) && TimelyBut(0, es, a, b, m) && SomeoneDropped(State(map[], {}), es)
  {
    hide Possible, SomeoneDropped, TimelyBut, Tail, Nap, Both;
    var s := State(map[x := 0, y := 0], {});
    var tail := Tail(x, y, b, m);
    TailTimely(x, y, a, b, m);
    if Asked(b, m) > 0 {
      TailDrops(State(s.key[x := Asked(b, m)], {}), x, y, b, m);
      AfterNap(s, x, b, m, a, tail);
      NapTimely(x, b, m, tail, a, b, m);
      AfterBoth(x, y, Nap(x, b, m, a, tail), a, b, m);
    } else if a > 0 {
      assert Asked(U64 - 999, 1) == 1;
      TailDrops(State(s.key[y := 1], {}), x, y, b, m);
      AfterNap(s, y, U64 - 999, 1, a, tail);
      NapTimely(y, U64 - 999, 1, tail, a, b, m);
      AfterBoth(x, y, Nap(y, U64 - 999, 1, a, tail), a, b, m);
    } else {
      TailDrops(s, x, y, b, m);
      AfterBoth(x, y, tail, a, b, m);
    }
  }

  /**
   Exactly when a sleep at reading `b` for `m` milliseconds can cost someone the place in the
   tree, after a last expiry at reading `a` and with all other sleeps timely: if the deadline
   asked for, wrapped to 64 bits, is not after `a`.
   */
  lemma EarlySleepIff<T(!new)>(x: T, y: T, a: nat, b: nat, m: nat)
    requires x != y && m > 0
    ensures (exists es: seq<Event<T>> :: Possible(State(map[], {}), es) && TimelyBut(0, es, a, b, m) && SomeoneDropped(State(map[], {}), es))
      <==> Asked(b, m) <= a
  {
    if Asked(b, m) <= a {
      EarlySleepDrops(x, y, a, b, m);
    } else {
      forall es: seq<Event<T>> | Possible(State(map[], {}), es) && TimelyBut(0, es, a, b, m)
        ensures !SomeoneDropped(State(map[], {}), es)
      {
        TimelyAfterAll(0, es, a, b, m);
        NoSleeperLost(es);
      }
    }
  }

  /** A clock that steps back by a millisecond is enough: from reading 2000 to reading 1000. */
  lemma ClockStepsBack<T>(x: T, y: T) returns (es: seq<Event<T>>)
    requires x != y
    ensures Possible(State(map[], {}), es) && TimelyBut(0, es, 2000, 1000, 1) && SomeoneDropped(State(map[], {}), es)
  {
    es := DroppingRun(x, y, 2000, 1000, 1);
    EarlySleepDrops(x, y, 2000, 1000, 1);
  }

  /** So is a deadline that wraps around: 2^61 - 1 msecs from reading 2000 ask for deadline 1000. */
  lemma DeadlineWraps<T>(x: T, y: T) returns (es: seq<Event<T>>)
    requires x != y
    ensures Asked(2000, 0x2000_0000_0000_0000 - 1) == 1000
    ensures Possible(State(map[], {}), es) && SomeoneDropped(State(map[], {}), es)
    ensures TimelyBut(0, es, 2000, 2000, 0x2000_0000_0000_0000 - 1)
  {
    es := DroppingRun(x, y, 2000, 2000, 0x2000_0000_0000_0000 - 1);
    EarlySleepDrops(x, y, 2000, 2000, 0x2000_0000_0000_0000 - 1);
  }

  // ---------- the tree on the heap ----------

  ghost function Snapshot(h: Head<int>, all: set<Elm<int>>): State<Elm<int>>
    reads h`nodes, all`key
  {
    State(map n | n in all :: n.key, h.nodes)
  }

  /** `SleepDown` is the step of the machine. */
  method SleepStep(h: Head<int>, co: Elm<int>, now: nat, msecs: nat, ghost all: set<Elm<int>>) returns (ghost tries: nat)
    requires h.Valid() && h.cmp == SleepCmp && |h.nodes| < U64 && h.nodes <= all && co in all && msecs > 0
    modifies h`root, h`shape, h`nodes, h.nodes`red, h.nodes`left, h.nodes`right, h.nodes`parent, co
    ensures h.Valid() && h.nodes <= all && Enabled(old(Snapshot(h, all)), Sleep(co, now, msecs, tries))
    ensures Snapshot(h, all) == Next(old(Snapshot(h, all)), Sleep(co, now, msecs, tries))
    ensures tries <= |old(h.nodes)|
  {
    hide Head<int>.Valid, FirstFree, Tried;
    OthersFewer(h.nodes, co.key);
    ghost var before := Snapshot(h, all);
    assert Left(before, co) == Others(h.nodes, co.key);
    assert Taken(before, co) == Deadlines(Others(h.nodes, co.key));
    tries := SleepDown(h, co, now, msecs);
    IsTried(Taken(before, co), now + 1000 * msecs, tries, co.key);
  }

  lemma IsTried(taken: set<int>, base: nat, tries: nat, d: int)
    requires FirstFree(taken, base, tries, d)
    ensures d == Tried(base, tries)
  {
  }

  /** `Expired` is the step of the machine, or nobody is due. */
  method ExpireStep(h: Head<int>, now: nat, ghost all: set<Elm<int>>) returns (co: Elm?<int>)
    requires h.Valid() && h.cmp == SleepCmp && h.nodes <= all
    modifies h`root, h`shape, h`nodes, h.nodes`red, h.nodes`left, h.nodes`right, h.nodes`parent
    ensures h.Valid() && h.nodes <= all
    ensures co == null ==> Snapshot(h, all) == old(Snapshot(h, all)) && forall n :: n in h.nodes ==> n.key > now
    ensures co != null ==>
      && Enabled(old(Snapshot(h, all)), Expire(co, now))
      && Snapshot(h, all) == Next(old(Snapshot(h, all)), Expire(co, now))
  {
    hide Head<int>.Valid, Inorder;
    WalkIncreases(h);
    WalkDistinct(h);
    ghost var s := Inorder(h.shape);
    ghost var before := Snapshot(h, all);
    co := Expired(h, now);
    if co == null {
      AllLater(h, now);
    } else {
      assert s[0] == co;
      forall n | n in before.asleep ensures before.key[co] <= before.key[n] {
        var i :| 0 <= i < |s| && s[i] == n;
      }
    }
  }

  /** What the scheduler does to the tree: a coroutine goes to sleep, or the earliest is looked for. */
  datatype Op = ToSleep(co: Elm<int>, sleepAt: nat, msecs: nat) | Look(lookAt: nat)

  /** Clock readings never decrease, and deadlines stay below 2^64 with `n` coroutines. */
  ghost predicate ForwardOps(last: nat, ops: seq<Op>, n: nat)
    decreases |ops|
  {
    ops == [] ||
    match ops[0]
    case ToSleep(_, now, msecs) => last <= now && now + 1000 * msecs + n < U64 && ForwardOps(now, ops[1..], n)
    case Look(now) => last <= now && ForwardOps(now, ops[1..], n)
  }

  ghost predicate Callable(ops: seq<Op>, all: set<Elm<int>>) {
    forall i :: 0 <= i < |ops| && ops[i].ToSleep? ==> ops[i].co in all && ops[i].msecs > 0
  }

  lemma {:induction false} ForwardFrom<T>(low: nat, last: nat, es: seq<Event<T>>)
    requires low <= last && Forward(last, es)
    ensures Forward(low, es)
    decreases |es|
  {
    if es != [] && es[0].Create? { ForwardFrom(low, last, es[1..]); }
  }

  lemma ForwardPrepended<T>(last: nat, e: Event<T>, rest: seq<Event<T>>)
    requires !e.Create? && last <= e.now && Forward(e.now, rest)
    requires e.Sleep? ==> e.msecs > 0 && e.now + 1000 * e.msecs + e.tries < U64
    ensures Forward(last, [e] + rest)
  {
    assert ([e] + rest)[1..] == rest;
  }

  lemma FewerThan(a: set<Elm<int>>, b: set<Elm<int>>)
    requires a <= b
    ensures |a| <= |b|
  {
    assert b == a + (b - a);
  }

  /** A whole run on the heap is a run of the machine, forward if the clock is. */
  method Replay(h: Head<int>, ops: seq<Op>, ghost all: set<Elm<int>>) returns (ghost es: seq<Event<Elm<int>>>)
    requires h.Valid() && h.cmp == SleepCmp && h.nodes <= all && |all| < U64 && Callable(ops, all)
    modifies h`root, h`shape, h`nodes, all
    ensures h.Valid() && h.nodes <= all
    ensures Possible(old(Snapshot(h, all)), es) && Snapshot(h, all) == After(old(Snapshot(h, all)), es)
    ensures forall last: nat :: ForwardOps(last, ops, |all|) ==> Forward(last, es)
    decreases |ops|
  {
    hide Head<int>.Valid, Possible, After, Enabled, Next, Forward;
    ghost var before := Snapshot(h, all);
    StopsHere(before);
    if ops == [] {
      es := [];
      return;
    }
    assert Callable(ops[1..], all);
    match ops[0]
    case ToSleep(co, now, msecs) =>
      FewerThan(h.nodes, all);
      ghost var tries := SleepStep(h, co, now, msecs, all);
      es := Replay(h, ops[1..], all);
      ghost var e := Sleep(co, now, msecs, tries);
      Continued(before, e, es);
      forall last: nat | ForwardOps(last, ops, |all|) ensures Forward(last, [e] + es) { ForwardPrepended(last, e, es); }
      es := [e] + es;
    case Look(now) =>
      var co := ExpireStep(h, now, all);
      es := Replay(h, ops[1..], all);
      if co == null {
        forall last: nat | ForwardOps(last, ops, |all|) ensures Forward(last, es) { ForwardFrom(last, now, es); }
      } else {
        ghost var e: Event<Elm<int>> := Expire(co, now);
        Continued(before, e, es);
        forall last: nat | ForwardOps(last, ops, |all|) ensures Forward(last, [e] + es) { ForwardPrepended(last, e, es); }
        es := [e] + es;
      }
  }

  lemma StopsHere<T>(s: State<T>)
    ensures Possible(s, []) && After(s, []) == s && forall last: nat :: Forward<T>(last, [])
  {
  }

  lemma Continued<T>(s: State<T>, e: Event<T>, rest: seq<Event<T>>)
    requires Enabled(s, e) && Possible(Next(s, e), rest)
    ensures Possible(s, [e] + rest) && After(s, [e] + rest) == After(Next(s, e), rest)
  {
    assert ([e] + rest)[1..] == rest;
  }

  /** On the heap, with nobody asleep at first and a clock that does not step back, no sleeper is dropped. */
  method ReplayForward(h: Head<int>, ops: seq<Op>, ghost all: set<Elm<int>>) returns (ghost es: seq<Event<Elm<int>>>)
    requires h.Valid() && h.cmp == SleepCmp && h.nodes == {} && |all| < U64 && Callable(ops, all)
    requires (forall c :: c in all ==> c.key == 0) && ForwardOps(0, ops, |all|)
    modifies h`root, h`shape, h`nodes, all
    ensures h.Valid() && h.nodes <= all && Possible(old(Snapshot(h, all)), es)
    ensures Snapshot(h, all) == After(old(Snapshot(h, all)), es) && !SomeoneDropped(old(Snapshot(h, all)), es)
  {
    hide Head<int>.Valid, Possible, After, Forward, SomeoneDropped;
    ghost var before := Snapshot(h, all);
    es := Replay(h, ops, all);
    ForwardIsTimely(0, 0, es);
    RunKeeps(before, 0, es);
  }
}
