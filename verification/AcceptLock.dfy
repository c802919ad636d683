/**
 The accept lock and the per-slot connection counters of ntyco_httpd.c, shared by forked server
 processes. A state change is one atomic access by one process, so a run is an interleaving.
 */
module AcceptLock {
  import opened Atomic

  /** Where the `server` coroutine of a process stands. */
  datatype Pc =
    | Trying                    // about to call `lock`
    | Accepting                 // holds the lock, inside `nty_accept`
    | Unlocking(fd: int)        // `nty_accept` has returned `fd`, `unlock` is next
    | Counting(fd: int)         // `INC_COUNTFD` is next
    | Finished                  // returned after a failed accept

  /** `serving` counts the connections counted in and not yet counted out. */
  datatype Process = Process(id: nat, pc: Pc, serving: nat)

  const TOTALFDS := 16
  const ACCEPT_MTX := 20

  /**
   The shared area as 32-bit words: 16 counters, 16 bytes of `cpu_lb`, then `accept_mtx`, and the
   rest of its page. The index of a counter is not checked against the 16, so it may name any
   word. `wide` says that the code is built for 64 bits, where `lock` compares two words.
   */
  datatype State = State(words: seq<int>, wide: bool, cpuSize: nat, procs: seq<Process>)

  /** There is a word for every index in use, the lock word and the one behind it among them. */
  predicate Laid(s: State) {
    s.cpuSize > 0 && |s.words| > ACCEPT_MTX + 1 && |s.words| >= s.cpuSize
  }

  predicate Init(s: State) {
    && Laid(s)
    && (forall i :: 0 <= i < |s.words| ==> s.words[i] == 0)
    && (forall p :: 0 <= p < |s.procs| ==> s.procs[p].pc == Trying && s.procs[p].serving == 0)
  }

  /** `self_id % cpu_size`. */
  function Slot(s: State, p: nat): (k: nat)
    requires p < |s.procs| && Laid(s)
    ensures k < s.cpuSize <= |s.words|
  {
    s.procs[p].id % s.cpuSize
  }

  datatype Event =
    | TryLock                   // `lock()`
    | Accepted(fd: int)         // `nty_accept` returns
    | Unlock                    // `unlock()` and the test of the descriptor
    | CountIn                   // `INC_COUNTFD`
    | CountOut                  // `DEC_COUNTFD` by one `accept_request`

  predicate Enabled(s: State, p: nat, e: Event)
    requires p < |s.procs|
  {
    match e
    case TryLock => s.procs[p].pc.Trying?
    case Accepted(_) => s.procs[p].pc.Accepting?
    case Unlock => s.procs[p].pc.Unlocking?
    case CountIn => s.procs[p].pc.Counting?
    case CountOut => s.procs[p].serving > 0
  }

  /** `lock`: the value it returns, and the lock word and the one behind it afterwards. */
  function Lock(s: State): (int, Words)
    requires Laid(s)
  {
    Cmpxchg(s.wide, Words(s.words[ACCEPT_MTX], s.words[ACCEPT_MTX + 1]), 0, 1)
  }

  /** The process after its own step, given what `lock` would return. */
  function Moved(locked: int, me: Process, e: Event): Process
    requires e.Unlock? ==> me.pc.Unlocking?
    requires e.CountOut? ==> me.serving > 0
  {
    match e
    case TryLock => me.(pc := if locked != 0 then Trying else Accepting)
    case Accepted(fd) => me.(pc := Unlocking(fd))
    case Unlock => me.(pc := if me.pc.fd < 0 then Finished else Counting(me.pc.fd))
    case CountIn => me.(pc := Trying, serving := me.serving + 1)
    case CountOut => me.(serving := me.serving - 1)
  }

  function Next(s: State, p: nat, e: Event): (s': State)
    requires p < |s.procs| && Laid(s) && Enabled(s, p, e)
    ensures Laid(s') && s'.cpuSize == s.cpuSize && s'.wide == s.wide
    ensures |s'.procs| == |s.procs| && |s'.words| == |s.words|
    ensures forall q :: 0 <= q < |s.procs| ==> s'.procs[q].id == s.procs[q].id
  {
    var w, k := s.words, Slot(s, p);
    var (prev, now) := Lock(s);
    var words := match e
      case TryLock => w[ACCEPT_MTX := now.lo][ACCEPT_MTX + 1 := now.hi]
      case Accepted(_) => w
      case Unlock => w[ACCEPT_MTX := 0]
      case CountIn => w[k := Int32(w[k] + 1)]
      case CountOut => w[k := Int32(w[k] - 1)];
    s.(words := words, procs := s.procs[p := Moved(prev, s.procs[p], e)])
  }

  /** Between `lock` and `unlock`. */
  predicate Inside(q: Process) {
    q.pc.Accepting? || q.pc.Unlocking?
  }

  function Holders(procs: seq<Process>): nat {
    if procs == [] then 0 else (if Inside(procs[0]) then 1 else 0) + Holders(procs[1..])
  }

  /** The connections counted in and not out by the processes that use slot `k` of `n`. */
  function Serving(procs: seq<Process>, n: nat, k: nat): nat
    requires n > 0
  {
    if procs == [] then 0
    else (if procs[0].id % n == k then procs[0].serving else 0) + Serving(procs[1..], n, k)
  }

  /** The words that `lock` compares. */
  predicate Compared(s: State, k: nat) {
    k == ACCEPT_MTX || (s.wide && k == ACCEPT_MTX + 1)
  }

  /** No process counts in a word that `lock` compares. */
  predicate Apart(s: State)
    requires Laid(s)
  {
    forall p :: 0 <= p < |s.procs| ==> !Compared(s, Slot(s, p))
  }

  ghost predicate Inv(s: State) {
    && Laid(s) && Apart(s)
    && s.words[ACCEPT_MTX] == Holders(s.procs) <= 1
    && forall k :: 0 <= k < |s.words| && k != ACCEPT_MTX ==> s.words[k] == Int32(Serving(s.procs, s.cpuSize, k))
  }

  lemma {:induction false} HoldersUpdate(procs: seq<Process>, p: nat, q: Process)
    requires p < |procs|
    ensures Holders(procs[p := q]) == Holders(procs) - (if Inside(procs[p]) then 1 else 0) + (if Inside(q) then 1 else 0)
  {
    if p == 0 {
      assert procs[p := q][1..] == procs[1..];
    } else {
      assert procs[p := q][1..] == procs[1..][p - 1 := q];
      HoldersUpdate(procs[1..], p - 1, q);
    }
  }

  lemma {:induction false} ServingUpdate(procs: seq<Process>, p: nat, q: Process, n: nat, k: nat)
    requires p < |procs| && n > 0 && q.id == procs[p].id
    ensures Serving(procs[p := q], n, k) ==
      Serving(procs, n, k) + if q.id % n == k then q.serving - procs[p].serving else 0
  {
    if p == 0 {
      assert procs[p := q][1..] == procs[1..];
    } else {
      assert procs[p := q][1..] == procs[1..][p - 1 := q];
      ServingUpdate(procs[1..], p - 1, q, n, k);
    }
  }

  lemma {:induction false} Nobody(procs: seq<Process>, n: nat, k: nat)
    requires n > 0 && forall p :: 0 <= p < |procs| ==> procs[p].pc == Trying && procs[p].serving == 0
    ensures Holders(procs) == 0 && Serving(procs, n, k) == 0
  {
    if procs != [] { Nobody(procs[1..], n, k); }
  }

  lemma {:induction false} InsideHolds(procs: seq<Process>, p: nat)
    requires p < |procs| && Inside(procs[p])
    ensures Holders(procs) >= 1
  {
    if p > 0 { InsideHolds(procs[1..], p - 1); }
  }

  lemma {:induction false} OnlyOneInside(procs: seq<Process>, p: nat, q: nat)
    requires p < q < |procs| && Holders(procs) <= 1
    ensures !(Inside(procs[p]) && Inside(procs[q]))
  {
    if p == 0 {
      if Inside(procs[q]) { InsideHolds(procs[1..], q - 1); }
    } else {
      OnlyOneInside(procs[1..], p - 1, q - 1);
    }
  }

  lemma {:induction false} SomeoneInside(procs: seq<Process>) returns (p: nat)
    requires Holders(procs) >= 1
    ensures p < |procs| && Inside(procs[p])
  {
    if Inside(procs[0]) {
      p := 0;
    } else {
      p := SomeoneInside(procs[1..]);
      p := p + 1;
    }
  }

  lemma InitInv(s: State)
    requires Init(s) && Apart(s)
    ensures Inv(s)
  {
    forall k | 0 <= k < |s.words| ensures s.words[k] == Int32(Serving(s.procs, s.cpuSize, k)) {
      Nobody(s.procs, s.cpuSize, k);
    }
    Nobody(s.procs, 1, 0);
  }

  /** A word that no process counts in stays 0. */
  lemma {:induction false} Uncounted(procs: seq<Process>, n: nat, k: nat)
    requires n > 0 && forall p :: 0 <= p < |procs| ==> procs[p].id % n != k
    ensures Serving(procs, n, k) == 0
  {
    if procs != [] { Uncounted(procs[1..], n, k); }
  }

  /** On 64 bits the word behind the lock is 0, so the swap looks at the lock word alone. */
  lemma BehindTheLock(s: State)
    requires Inv(s) && s.wide
    ensures s.words[ACCEPT_MTX + 1] == 0
  {
    forall p | 0 <= p < |s.procs| ensures s.procs[p].id % s.cpuSize != ACCEPT_MTX + 1 {
      assert !Compared(s, Slot(s, p));
    }
    Uncounted(s.procs, s.cpuSize, ACCEPT_MTX + 1);
  }

  lemma StepInv(s: State, p: nat, e: Event)
    requires Inv(s) && p < |s.procs| && Enabled(s, p, e)
    ensures Inv(Next(s, p, e))
  {
    hide Int32;
    var s', n := Next(s, p, e), s.cpuSize;
    var q := s'.procs[p];
    assert s'.procs == s.procs[p := q];
    assert !Compared(s, Slot(s, p));
    if s.wide { BehindTheLock(s); }
    HoldersUpdate(s.procs, p, q);
    if Inside(s.procs[p]) { InsideHolds(s.procs, p); }
    forall k | 0 <= k < |s.words| && k != ACCEPT_MTX ensures s'.words[k] == Int32(Serving(s'.procs, n, k)) {
      ServingUpdate(s.procs, p, q, n, k);
      WrapsOnce(Serving(s.procs, n, k), 1);
      WrapsOnce(Serving(s.procs, n, k), -1);
    }
    forall r | 0 <= r < |s'.procs| ensures !Compared(s', Slot(s', r)) {
      assert !Compared(s, Slot(s, r));
    }
  }

  datatype Step = Step(p: nat, e: Event)

  /** The run from `s` along `steps` is possible. */
  ghost predicate Possible(s: State, steps: seq<Step>)
    requires Laid(s)
    decreases |steps|
  {
    steps == [] ||
    (steps[0].p < |s.procs| && Enabled(s, steps[0].p, steps[0].e) && Possible(Next(s, steps[0].p, steps[0].e), steps[1..]))
  }

  ghost function After(s: State, steps: seq<Step>): (t: State)
    requires Laid(s) && Possible(s, steps)
    ensures Laid(t) && t.cpuSize == s.cpuSize && t.wide == s.wide
    ensures |t.procs| == |s.procs| && |t.words| == |s.words|
    ensures forall q :: 0 <= q < |s.procs| ==> t.procs[q].id == s.procs[q].id
    decreases |steps|
  {
    if steps == [] then s else After(Next(s, steps[0].p, steps[0].e), steps[1..])
  }

  lemma {:induction false} RunInv(s: State, steps: seq<Step>)
    requires Inv(s) && Possible(s, steps)
    ensures Inv(After(s, steps))
    decreases |steps|
  {
    if steps != [] {
      StepInv(s, steps[0].p, steps[0].e);
      RunInv(Next(s, steps[0].p, steps[0].e), steps[1..]);
    }
  }

  ghost predicate AtMostOneInside(s: State) {
    forall p, q :: 0 <= p < q < |s.procs| ==> !(Inside(s.procs[p]) && Inside(s.procs[q]))
  }

  /** The lock word is 1 while a process is inside and 0 while none is. */
  ghost predicate LockTells(s: State)
    requires Laid(s)
  {
    && (s.words[ACCEPT_MTX] == 0 || s.words[ACCEPT_MTX] == 1)
    && (s.words[ACCEPT_MTX] == 1 <==> exists p :: 0 <= p < |s.procs| && Inside(s.procs[p]))
  }

  /** Every word but the lock counts the open connections of the processes that use it. */
  ghost predicate SlotsCount(s: State)
    requires Laid(s)
  {
    forall k :: 0 <= k < |s.words| && k != ACCEPT_MTX ==> s.words[k] == Int32(Serving(s.procs, s.cpuSize, k))
  }

  /**
   After every interleaving of any number of processes none of which counts in a word that
   `lock` compares: no two are between `lock` and `unlock`, the lock word is set exactly while one is, and each
   slot counts the open connections of its processes.
   */
  lemma AcceptSafety(s: State, steps: seq<Step>)
    requires Init(s) && Apart(s) && Possible(s, steps)
    ensures var t := After(s, steps); AtMostOneInside(t) && LockTells(t) && SlotsCount(t)
  {
    hide Possible, After;
    InitInv(s);
    RunInv(s, steps);
    var t := After(s, steps);
    forall p, q | 0 <= p < q < |t.procs| ensures !(Inside(t.procs[p]) && Inside(t.procs[q])) {
      OnlyOneInside(t.procs, p, q);
    }
    if t.words[ACCEPT_MTX] == 1 {
      var p := SomeoneInside(t.procs);
    }
    if p :| 0 <= p < |t.procs| && Inside(t.procs[p]) {
      InsideHolds(t.procs, p);
    }
  }

  /** Up to 20 processors no slot is the lock word; up to 16 all slots are counters, and `cpu_lb` stays 0. */
  lemma SmallMachines(s: State, steps: seq<Step>)
    requires Init(s) && s.cpuSize <= ACCEPT_MTX && Possible(s, steps)
    ensures Apart(s)
    ensures var t := After(s, steps); AtMostOneInside(t) && LockTells(t) && SlotsCount(t)
    ensures s.cpuSize <= TOTALFDS ==>
      (forall p :: 0 <= p < |s.procs| ==> Slot(s, p) < TOTALFDS) &&
      forall k :: TOTALFDS <= k < ACCEPT_MTX ==> After(s, steps).words[k] == 0
  {
    AcceptSafety(s, steps);
    var t := After(s, steps);
    if s.cpuSize <= TOTALFDS {
      forall k | TOTALFDS <= k < ACCEPT_MTX ensures t.words[k] == 0 {
        Uncounted(t.procs, t.cpuSize, k);
      }
    }
  }

  // ---------- a slot that is the lock word ----------

  lemma {:induction false} Extended(s: State, steps: seq<Step>, x: Step)
    requires Laid(s) && Possible(s, steps) && x.p < |s.procs| && Enabled(After(s, steps), x.p, x.e)
    ensures Possible(s, steps + [x]) && After(s, steps + [x]) == Next(After(s, steps), x.p, x.e)
    decreases |steps|
  {
    if steps == [] {
      assert ([] + [x])[1..] == [];
      assert Possible(Next(s, x.p, x.e), []);
    } else {
      assert (steps + [x])[1..] == steps[1..] + [x];
      Extended(Next(s, steps[0].p, steps[0].e), steps[1..], x);
    }
  }

  /** One more step of a run that has reached `t`. */
  lemma Go(s: State, steps: seq<Step>, t: State, p: nat, e: Event) returns (steps': seq<Step>, t': State)
    requires Laid(s) && Possible(s, steps) && t == After(s, steps) && p < |s.procs| && Enabled(t, p, e)
    ensures Possible(s, steps') && t' == After(s, steps') && t' == Next(t, p, e)
  {
    Extended(s, steps, Step(p, e));
    steps', t' := steps + [Step(p, e)], Next(t, p, e);
  }

  /** One connection counted on the lock word leaves it set with nobody inside. */
  lemma LockLeftSet(s: State, p: nat) returns (steps: seq<Step>)
    requires Init(s) && p < |s.procs| && Slot(s, p) == ACCEPT_MTX
    ensures Possible(s, steps) && !LockTells(After(s, steps))
  {
    hide Possible, After;
    steps := [];
    Starts(s);
    var t := s;
    steps, t := Go(s, steps, t, p, TryLock);
    steps, t := Go(s, steps, t, p, Accepted(3));
    steps, t := Go(s, steps, t, p, Unlock);
    steps, t := Go(s, steps, t, p, CountIn);
    assert t.words[ACCEPT_MTX] == 1;
    forall q | 0 <= q < |t.procs| ensures !Inside(t.procs[q]) {
      assert t.procs[q] == if q == p then t.procs[p] else s.procs[q];
    }
  }

  lemma Starts(s: State)
    requires Laid(s)
    ensures Possible(s, []) && After(s, []) == s
  {
  }

  /**
   With any second process `q`: `p` counts in while `q` is inside, which `q`'s unlocking wipes
   out; `p` locks, its connection counts out and frees the lock, and `q` gets in as well.
   */
  lemma TwoInside(s: State, p: nat, q: nat) returns (steps: seq<Step>)
    requires Init(s) && p < |s.procs| && q < |s.procs| && p != q && Slot(s, p) == ACCEPT_MTX
    ensures Possible(s, steps) && Inside(After(s, steps).procs[p]) && Inside(After(s, steps).procs[q])
  {
    hide Possible, After;
    steps := [];
    Starts(s);
    var t := s;
    steps, t := Go(s, steps, t, p, TryLock);
    steps, t := Go(s, steps, t, p, Accepted(3));
    steps, t := Go(s, steps, t, p, Unlock);
    steps, t := Go(s, steps, t, q, TryLock);
    steps, t := Go(s, steps, t, p, CountIn);
    assert t.words[ACCEPT_MTX] == 2;
    steps, t := Go(s, steps, t, q, Accepted(3));
    steps, t := Go(s, steps, t, q, Unlock);
    steps, t := SecondHalf(s, steps, t, p, q);
  }

  lemma SecondHalf(s: State, steps0: seq<Step>, t0: State, p: nat, q: nat) returns (steps: seq<Step>, t: State)
    requires Laid(s) && Possible(s, steps0) && t0 == After(s, steps0)
    requires p < |s.procs| && q < |s.procs| && p != q && Slot(t0, p) == ACCEPT_MTX
    requires t0.words[ACCEPT_MTX] == 0 && t0.words[ACCEPT_MTX + 1] == 0
    requires t0.procs[p].pc == Trying && t0.procs[p].serving == 1
    requires t0.procs[q].pc.Counting?
    ensures Possible(s, steps) && t == After(s, steps) && Inside(t.procs[p]) && Inside(t.procs[q])
  {
    hide Possible, After;
    steps, t := Go(s, steps0, t0, q, CountIn);
    steps, t := Go(s, steps, t, q, CountOut);
    assert t.words[ACCEPT_MTX] == 0 && t.words[ACCEPT_MTX + 1] == 0;
    steps, t := Go(s, steps, t, p, TryLock);
    steps, t := Go(s, steps, t, p, CountOut);
    assert t.words[ACCEPT_MTX] == 0;
    steps, t := Go(s, steps, t, q, TryLock);
  }

  /**
   On 64 bits, one connection counted behind the lock makes every `lock` return 0 without taking
   it: `p` gets in, and so does anyone else.
   */
  lemma LockPassedBy(s: State, p: nat) returns (steps: seq<Step>)
    requires Init(s) && s.wide && p < |s.procs| && Slot(s, p) == ACCEPT_MTX + 1
    ensures Possible(s, steps) && !LockTells(After(s, steps))
    ensures var t := After(s, steps);
      && Inside(t.procs[p]) && t.words[ACCEPT_MTX] == 0 && t.words[ACCEPT_MTX + 1] == 1
      && forall q :: 0 <= q < |t.procs| && q != p ==> t.procs[q] == s.procs[q]
  {
    hide Possible, After;
    steps := [];
    Starts(s);
    var t := s;
    steps, t := Go(s, steps, t, p, TryLock);
    steps, t := Go(s, steps, t, p, Accepted(3));
    steps, t := Go(s, steps, t, p, Unlock);
    steps, t := Go(s, steps, t, p, CountIn);
    steps, t := Go(s, steps, t, p, TryLock);
    assert Inside(t.procs[p]);
  }

  lemma TwoPassedBy(s: State, p: nat, q: nat) returns (steps: seq<Step>)
    requires Init(s) && s.wide && p < |s.procs| && q < |s.procs| && p != q && Slot(s, p) == ACCEPT_MTX + 1
    ensures Possible(s, steps) && Inside(After(s, steps).procs[p]) && Inside(After(s, steps).procs[q])
  {
    hide Possible, After;
    steps := LockPassedBy(s, p);
    var t := After(s, steps);
    steps, t := Go(s, steps, t, q, TryLock);
  }

  /** Either way the lock fails on its own, and with any second process lets two in. */
  lemma LockFails(s: State, p: nat) returns (alone: seq<Step>)
    requires Init(s) && p < |s.procs| && Compared(s, Slot(s, p))
    ensures Possible(s, alone) && !LockTells(After(s, alone))
  {
    if Slot(s, p) == ACCEPT_MTX {
      alone := LockLeftSet(s, p);
    } else {
      alone := LockPassedBy(s, p);
    }
  }

  lemma LetsTwoIn(s: State, p: nat, q: nat) returns (steps: seq<Step>)
    requires Init(s) && p < |s.procs| && q < |s.procs| && p != q && Compared(s, Slot(s, p))
    ensures Possible(s, steps) && !AtMostOneInside(After(s, steps))
  {
    hide Possible, After;
    if Slot(s, p) == ACCEPT_MTX {
      steps := TwoInside(s, p, q);
    } else {
      steps := TwoPassedBy(s, p, q);
    }
    var t := After(s, steps);
    assert Inside(t.procs[if p < q then p else q]) && Inside(t.procs[if p < q then q else p]);
  }

  /**
   Exactly when the lock works, on either width: every run keeps it and the counters right if and
   only if no process counts in a word that `lock` compares, and every run keeps two processes
   from being inside at once if and only if that holds or there is only one process.
   */
  lemma AcceptSafetyIff(s: State)
    requires Init(s)
    ensures Apart(s) <==> forall steps :: Possible(s, steps) ==>
      AtMostOneInside(After(s, steps)) && LockTells(After(s, steps)) && SlotsCount(After(s, steps))
    ensures Apart(s) || |s.procs| <= 1 <==> forall steps :: Possible(s, steps) ==> AtMostOneInside(After(s, steps))
  {
    hide Possible, After, LockTells, SlotsCount;
    if Apart(s) {
      forall steps | Possible(s, steps)
        ensures AtMostOneInside(After(s, steps)) && LockTells(After(s, steps)) && SlotsCount(After(s, steps))
      {
        AcceptSafety(s, steps);
      }
    } else {
      var p :| 0 <= p < |s.procs| && Compared(s, Slot(s, p));
      var alone := LockFails(s, p);
      if |s.procs| > 1 {
        var both := LetsTwoIn(s, p, if p == 0 then 1 else 0);
      }
    }
  }

  /** From 21 processors on there are process numbers that break it: 20 and any other. */
  lemma TwentyOneProcessors(wide: bool) returns (steps: seq<Step>)
    ensures var s := State(seq(22, _ => 0), wide, 21, [Process(20, Trying, 0), Process(21, Trying, 0)]);
      Init(s) && Possible(s, steps) && !AtMostOneInside(After(s, steps))
  {
    var s := State(seq(22, _ => 0), wide, 21, [Process(20, Trying, 0), Process(21, Trying, 0)]);
    steps := LetsTwoIn(s, 0, 1);
  }

  /** On 64 bits, with 22 processors, number 21 breaks it as well: no process has slot 20 here. */
  lemma TwentyTwoProcessors() returns (steps: seq<Step>)
    ensures var s := State(seq(22, _ => 0), true, 22, [Process(21, Trying, 0), Process(22, Trying, 0)]);
      && Init(s) && (forall p :: 0 <= p < |s.procs| ==> Slot(s, p) != ACCEPT_MTX)
      && Possible(s, steps) && !AtMostOneInside(After(s, steps))
  {
    var s := State(seq(22, _ => 0), true, 22, [Process(21, Trying, 0), Process(22, Trying, 0)]);
    steps := LetsTwoIn(s, 0, 1);
  }

  // ---------- what a process has done, told from the run ----------

  /** A run and its last step. */
  lemma {:induction false} Split(s: State, front: seq<Step>, x: Step)
    requires Laid(s) && Possible(s, front + [x])
    ensures Possible(s, front) && x.p < |s.procs| && Enabled(After(s, front), x.p, x.e)
    ensures After(s, front + [x]) == Next(After(s, front), x.p, x.e)
    decreases |front|
  {
    if front == [] {
      assert [] + [x] == [x] && [x][1..] == [];
    } else {
      assert (front + [x])[1..] == front[1..] + [x];
      Split(Next(s, front[0].p, front[0].e), front[1..], x);
    }
  }

  function Count(steps: seq<Step>, x: Step): nat {
    if steps == [] then 0 else Count(steps[..|steps| - 1], x) + if steps[|steps| - 1] == x then 1 else 0
  }

  predicate Accepts(x: Step, q: nat) {
    x.p == q && x.e.Accepted? && x.e.fd >= 0
  }

  predicate FailsToAccept(x: Step, q: nat) {
    x.p == q && x.e.Accepted? && x.e.fd < 0
  }

  /** How many connections `q` has accepted along the run. */
  function AcceptedBy(steps: seq<Step>, q: nat): nat {
    if steps == [] then 0 else AcceptedBy(steps[..|steps| - 1], q) + if Accepts(steps[|steps| - 1], q) then 1 else 0
  }

  /** `q` has failed to accept and unlocked after that. */
  predicate GaveUp(steps: seq<Step>, q: nat) {
    exists i, j :: 0 <= i < j < |steps| && FailsToAccept(steps[i], q) && steps[j] == Step(q, Unlock)
  }

  /** `q` has failed to accept and not unlocked since. */
  predicate Failing(steps: seq<Step>, q: nat) {
    exists i :: 0 <= i < |steps| && FailsToAccept(steps[i], q) && forall j :: i < j < |steps| ==> steps[j] != Step(q, Unlock)
  }

  lemma GaveUpStep(front: seq<Step>, x: Step, q: nat)
    ensures GaveUp(front + [x], q) <==> GaveUp(front, q) || (x == Step(q, Unlock) && Failing(front, q))
  {
    var steps, n := front + [x], |front|;
    if GaveUp(front, q) {
      var i, j :| 0 <= i < j < n && FailsToAccept(front[i], q) && front[j] == Step(q, Unlock);
      assert FailsToAccept(steps[i], q) && steps[j] == Step(q, Unlock);
    } else if x == Step(q, Unlock) && Failing(front, q) {
      var i :| 0 <= i < n && FailsToAccept(front[i], q) && forall j :: i < j < n ==> front[j] != Step(q, Unlock);
      assert FailsToAccept(steps[i], q) && steps[n] == Step(q, Unlock);
    }
  }

  lemma FailingStep(front: seq<Step>, x: Step, q: nat)
    ensures Failing(front + [x], q) <==> FailsToAccept(x, q) || (x != Step(q, Unlock) && Failing(front, q))
  {
    var steps, n := front + [x], |front|;
    if FailsToAccept(x, q) {
      assert FailsToAccept(steps[n], q);
    } else if x != Step(q, Unlock) && Failing(front, q) {
      var i :| 0 <= i < n && FailsToAccept(front[i], q) && forall j :: i < j < n ==> front[j] != Step(q, Unlock);
      assert FailsToAccept(steps[i], q);
      forall j | i < j < |steps| ensures steps[j] != Step(q, Unlock) {
        assert j < n ==> steps[j] == front[j];
      }
    } else if Failing(steps, q) {
      var i :| 0 <= i < |steps| && FailsToAccept(steps[i], q) && forall j :: i < j < |steps| ==> steps[j] != Step(q, Unlock);
      assert i < n && FailsToAccept(front[i], q) && steps[n] == x;
      forall j | i < j < n ensures front[j] != Step(q, Unlock) {
        assert steps[j] == front[j];
      }
    }
  }

  /**
   What a run says of a process: it has finished exactly if it failed to accept and then unlocked;
   it has counted in every connection it accepted, but one it is about to; and it serves those
   counted in and not counted out.
   */
  predicate Accounted(me: Process, steps: seq<Step>, q: nat) {
    && (me.pc.Finished? <==> GaveUp(steps, q))
    && ((me.pc.Unlocking? && me.pc.fd < 0) <==> Failing(steps, q) && !GaveUp(steps, q))
    && (me.pc.Counting? ==> me.pc.fd >= 0)
    && AcceptedBy(steps, q) == Count(steps, Step(q, CountIn)) +
         (if (me.pc.Unlocking? || me.pc.Counting?) && me.pc.fd >= 0 then 1 else 0)
    && me.serving == Count(steps, Step(q, CountIn)) - Count(steps, Step(q, CountOut))
  }

  lemma AccountedOwnStep(s: State, front: seq<Step>, x: Step)
    requires Laid(s) && x.p < |s.procs| && Enabled(s, x.p, x.e) && Accounted(s.procs[x.p], front, x.p)
    ensures Accounted(Next(s, x.p, x.e).procs[x.p], front + [x], x.p)
  {
    var me := s.procs[x.p];
    assert Next(s, x.p, x.e).procs[x.p] == Moved(Lock(s).0, me, x.e);
    hide Next, Lock, Laid, GaveUp, Failing, Count, AcceptedBy;
    GaveUpStep(front, x, x.p);
    FailingStep(front, x, x.p);
    CountStep(front, x, x.p);
  }

  lemma AccountedOtherStep(me: Process, front: seq<Step>, x: Step, q: nat)
    requires Accounted(me, front, q) && x.p != q
    ensures Accounted(me, front + [x], q)
  {
    hide GaveUp, Failing, Count, AcceptedBy;
    GaveUpStep(front, x, q);
    FailingStep(front, x, q);
    CountStep(front, x, q);
  }

  /** In every run each process is accounted for; so a lock that was taken only makes it try again. */
  lemma {:induction false} ProcessAccount(s: State, steps: seq<Step>, q: nat)
    requires Init(s) && Possible(s, steps) && q < |s.procs|
    ensures Accounted(After(s, steps).procs[q], steps, q)
    decreases |steps|
  {
    if steps != [] {
      var n := |steps| - 1;
      var front, x := steps[..n], steps[n];
      assert steps == front + [x];
      Split(s, front, x);
      ProcessAccount(s, front, q);
      if x.p == q {
        AccountedOwnStep(After(s, front), front, x);
      } else {
        AccountedOtherStep(After(s, front).procs[q], front, x, q);
      }
    }
  }

  lemma CountStep(front: seq<Step>, x: Step, q: nat)
    ensures forall y :: Count(front + [x], y) == Count(front, y) + if x == y then 1 else 0
    ensures AcceptedBy(front + [x], q) == AcceptedBy(front, q) + if Accepts(x, q) then 1 else 0
  {
    assert (front + [x])[..|front|] == front;
  }

  /** In every run of processes apart from the lock, a process that tries while nobody is inside gets in. */
  lemma FreeLockIsTaken(s: State, steps: seq<Step>, p: nat)
    requires Init(s) && Apart(s) && Possible(s, steps) && p < |s.procs| && After(s, steps).procs[p].pc.Trying?
    requires forall q :: 0 <= q < |s.procs| ==> !Inside(After(s, steps).procs[q])
    ensures Inside(Next(After(s, steps), p, TryLock).procs[p])
  {
    hide Possible, After;
    InitInv(s);
    RunInv(s, steps);
    var t := After(s, steps);
    if t.wide { BehindTheLock(t); }
    if Holders(t.procs) >= 1 {
      var q := SomeoneInside(t.procs);
    }
  }

  /** And one that tries while somebody is inside goes on trying. */
  lemma TakenLockIsTriedAgain(s: State, steps: seq<Step>, p: nat)
    requires Init(s) && Apart(s) && Possible(s, steps) && p < |s.procs| && After(s, steps).procs[p].pc.Trying?
    requires exists q :: 0 <= q < |s.procs| && Inside(After(s, steps).procs[q])
    ensures Next(After(s, steps), p, TryLock) == After(s, steps)
  {
    hide Possible, After;
    InitInv(s);
    RunInv(s, steps);
    var t := After(s, steps);
    var q :| 0 <= q < |s.procs| && Inside(t.procs[q]);
    InsideHolds(t.procs, q);
    if t.wide { BehindTheLock(t); }
    assert t.procs[p := t.procs[p]] == t.procs;
    assert t.words[ACCEPT_MTX := t.words[ACCEPT_MTX]][ACCEPT_MTX + 1 := t.words[ACCEPT_MTX + 1]] == t.words;
  }
}
