/** The shared connection total of nty_server_mulcore.c, changed by compare-and-swap loops. */
module SharedTotal {
  import opened Atomic

  /** Where a process stands in `add_shmvalue` (delta 1) or `sub_shmvalue` (delta -1). */
  datatype Pc =
    | Outside
    | Loading(delta: int)                        // about to read the total
    | Swapping(delta: int, value: int)           // about to compare and swap
    | Testing(delta: int, value: int, ret: int)  // about to test `ret != value`
    | Leaving(delta: int)                        // out of the loop, about to read the result

  /**
   `adds` and `subs` count the calls that have left their loop; `hits` counts the times the
   current call has changed the total, and `result` is what the last call returned.
   */
  datatype Process = Process(pc: Pc, adds: nat, subs: nat, hits: nat, result: int)

  /**
   `high` is the field behind the total, which a 64-bit (`wide`) compare-and-swap compares and
   stores as well.
   */
  datatype State = State(total: int, high: int, wide: bool, procs: seq<Process>)

  datatype Event = CallAdd | CallSub | Load | Swap | Test | Return

  predicate Init(s: State) {
    s.total == 0 && s.high == 0 && forall p :: 0 <= p < |s.procs| ==> s.procs[p] == Process(Outside, 0, 0, 0, 0)
  }

  predicate Enabled(q: Process, e: Event) {
    match e
    case CallAdd => q.pc.Outside?
    case CallSub => q.pc.Outside?
    case Load => q.pc.Loading?
    case Swap => q.pc.Swapping?
    case Test => q.pc.Testing?
    case Return => q.pc.Leaving?
  }

  /** The compare-and-swap of a process, if that is its next step: what it returns, and memory afterwards. */
  function Swapped(s: State, q: Process): (int, Words)
    requires q.pc.Swapping?
  {
    Cmpxchg(s.wide, Words(s.total, s.high), q.pc.value, Int32(q.pc.value + q.pc.delta))
  }

  /** The process after its own step. */
  function Moved(s: State, q: Process, e: Event): Process
    requires Enabled(q, e)
  {
    match e
    case CallAdd => q.(pc := Loading(1), hits := 0)
    case CallSub => q.(pc := Loading(-1), hits := 0)
    case Load => q.(pc := Swapping(q.pc.delta, s.total))
    case Swap =>
      var (prev, now) := Swapped(s, q);
      q.(pc := Testing(q.pc.delta, q.pc.value, prev), hits := q.hits + if now.lo != s.total then 1 else 0)
    case Test =>
      if q.pc.ret != q.pc.value then q.(pc := Loading(q.pc.delta))
      else if q.pc.delta == 1 then q.(pc := Leaving(1), adds := q.adds + 1)
      else q.(pc := Leaving(q.pc.delta), subs := q.subs + 1)
    case Return => q.(pc := Outside, result := s.total)
  }

  function Next(s: State, p: nat, e: Event): State
    requires p < |s.procs| && Enabled(s.procs[p], e)
  {
    var mem := if e.Swap? then Swapped(s, s.procs[p]).1 else Words(s.total, s.high);
    State(mem.lo, mem.hi, s.wide, s.procs[p := Moved(s, s.procs[p], e)])
  }

  /** A call changes the total once, at the swap after which its loop ends. */
  predicate Honest(q: Process) {
    match q.pc
    case Outside => true
    case Loading(d) => (d == 1 || d == -1) && q.hits == 0
    case Swapping(d, _) => (d == 1 || d == -1) && q.hits == 0
    case Testing(d, v, r) => (d == 1 || d == -1) && q.hits == if r == v then 1 else 0
    case Leaving(d) => (d == 1 || d == -1) && q.hits == 1
  }

  /** What the process has contributed to the total so far. */
  function Share(q: Process): int {
    q.adds - q.subs + if q.pc.Testing? && q.pc.ret == q.pc.value then q.pc.delta else 0
  }

  function Shares(procs: seq<Process>): int {
    if procs == [] then 0 else Share(procs[0]) + Shares(procs[1..])
  }

  ghost predicate Inv(s: State) {
    && s.total == Int32(Shares(s.procs))
    && (s.wide ==> s.high == Sign(s.total))
    && forall p :: 0 <= p < |s.procs| ==> Honest(s.procs[p])
  }

  lemma {:induction false} SharesUpdate(procs: seq<Process>, p: nat, q: Process)
    requires p < |procs|
    ensures Shares(procs[p := q]) == Shares(procs) - Share(procs[p]) + Share(q)
  {
    if p == 0 {
      assert procs[p := q][1..] == procs[1..];
    } else {
      assert procs[p := q][1..] == procs[1..][p - 1 := q];
      SharesUpdate(procs[1..], p - 1, q);
    }
  }

  lemma {:induction false} NoShares(procs: seq<Process>)
    requires forall p :: 0 <= p < |procs| ==> procs[p] == Process(Outside, 0, 0, 0, 0)
    ensures Shares(procs) == 0
  {
    if procs != [] { NoShares(procs[1..]); }
  }

  /** A swap that succeeds always changes the word. */
  lemma SwapMoves(v: int, d: int)
    requires (d == 1 || d == -1) && Int32(v) == v
    ensures Int32(v + d) != v
  {
  }

  lemma WrapIdempotent(x: int)
    ensures Int32(Int32(x)) == Int32(x)
  {
    WrapsOnce(x, 0);
  }

  lemma StepInv(s: State, p: nat, e: Event)
    requires Inv(s) && p < |s.procs| && Enabled(s.procs[p], e)
    ensures Inv(Next(s, p, e))
  {
    hide Int32;
    var s', q := Next(s, p, e), s.procs[p];
    assert Honest(q);
    SharesUpdate(s.procs, p, s'.procs[p]);
    if e.Swap? {
      WrapsOnce(Shares(s.procs), q.pc.delta);
      WrapIdempotent(Shares(s.procs));
      if q.pc.value == s.total { SwapMoves(q.pc.value, q.pc.delta); }
    }
  }

  datatype Step = Step(p: nat, e: Event)

  ghost predicate Possible(s: State, steps: seq<Step>)
    decreases |steps|
  {
    steps == [] ||
    (steps[0].p < |s.procs| && Enabled(s.procs[steps[0].p], steps[0].e) &&
      Possible(Next(s, steps[0].p, steps[0].e), steps[1..]))
  }

  ghost function After(s: State, steps: seq<Step>): State
    requires Possible(s, steps)
    decreases |steps|
  {
    if steps == [] then s else After(Next(s, steps[0].p, steps[0].e), steps[1..])
  }

  lemma {:induction false} RunInv(s: State, steps: seq<Step>)
    requires Inv(s) && Possible(s, steps)
    ensures Inv(After(s, steps))
    decreases |steps|
  {
    if steps != [] {
      StepInv(s, steps[0].p, steps[0].e);
      RunInv(Next(s, steps[0].p, steps[0].e), steps[1..]);
    }
  }

  function Adds(procs: seq<Process>): nat {
    if procs == [] then 0 else procs[0].adds + Adds(procs[1..])
  }

  function Subs(procs: seq<Process>): nat {
    if procs == [] then 0 else procs[0].subs + Subs(procs[1..])
  }

  lemma {:induction false} SharesSettled(procs: seq<Process>)
    requires forall p :: 0 <= p < |procs| ==> !procs[p].pc.Testing?
    ensures Shares(procs) == Adds(procs) - Subs(procs)
  {
    if procs != [] { SharesSettled(procs[1..]); }
  }

  /**
   After every interleaving: a call that has left its loop has changed the total exactly once,
   and while no process is between its swap and its test, the total is the number of additions
   minus the number of subtractions.
   */
  lemma NoUpdateLost(s: State, steps: seq<Step>)
    requires Init(s) && Possible(s, steps)
    ensures var t := After(s, steps);
      && t.total == Int32(Shares(t.procs))
      && (forall p :: 0 <= p < |t.procs| && t.procs[p].pc.Leaving? ==> t.procs[p].hits == 1)
      && ((forall p :: 0 <= p < |t.procs| ==> !t.procs[p].pc.Testing?) ==>
        t.total == Int32(Adds(t.procs) - Subs(t.procs)))
  {
    hide Possible, After, Int32;
    StartInv(s);
    RunInv(s, steps);
    var t := After(s, steps);
    if forall p :: 0 <= p < |t.procs| ==> !t.procs[p].pc.Testing? {
      SharesSettled(t.procs);
    }
    forall p | 0 <= p < |t.procs| && t.procs[p].pc.Leaving? ensures t.procs[p].hits == 1 {
      assert Honest(t.procs[p]);
    }
  }

  lemma StartInv(s: State)
    requires Init(s)
    ensures Inv(s)
  {
    NoShares(s.procs);
  }

  lemma Prepended(s: State, p: nat, e: Event, rest: seq<Step>)
    requires p < |s.procs| && Enabled(s.procs[p], e) && Possible(Next(s, p, e), rest)
    ensures Possible(s, [Step(p, e)] + rest) && After(s, [Step(p, e)] + rest) == After(Next(s, p, e), rest)
  {
    assert ([Step(p, e)] + rest)[1..] == rest;
  }

  /** The first half of the run below: both swaps succeed one after the other. */
  lemma BothSwapped(idle: Process, wide: bool)
    requires idle == Process(Outside, 0, 0, 0, 0)
    ensures var steps := [Step(0, CallAdd), Step(0, Load), Step(0, Swap), Step(1, CallAdd), Step(1, Load), Step(1, Swap)];
      var s := State(0, 0, wide, [idle, idle]);
      Possible(s, steps) &&
      After(s, steps) == State(2, 0, wide, [Process(Testing(1, 0, 0), 0, 0, 1, 0), Process(Testing(1, 1, 1), 0, 0, 1, 0)])
  {
    hide Possible, After;
    var s0 := State(0, 0, wide, [idle, idle]);
    var s1 := Next(s0, 0, CallAdd);
    var s2 := Next(s1, 0, Load);
    var s3 := Next(s2, 0, Swap);
    var s4 := Next(s3, 1, CallAdd);
    var s5 := Next(s4, 1, Load);
    var s6 := Next(s5, 1, Swap);
    Stops(s6);
    var r5 := [Step(1, Swap)] + [];
    var r4 := [Step(1, Load)] + r5;
    var r3 := [Step(1, CallAdd)] + r4;
    var r2 := [Step(0, Swap)] + r3;
    var r1 := [Step(0, Load)] + r2;
    Prepended(s5, 1, Swap, []);
    Prepended(s4, 1, Load, r5);
    Prepended(s3, 1, CallAdd, r4);
    Prepended(s2, 0, Swap, r3);
    Prepended(s1, 0, Load, r2);
    Prepended(s0, 0, CallAdd, r1);
    assert [Step(0, CallAdd)] + r1 ==
      [Step(0, CallAdd), Step(0, Load), Step(0, Swap), Step(1, CallAdd), Step(1, Load), Step(1, Swap)];
  }

  lemma Stops(s: State)
    ensures Possible(s, []) && After(s, []) == s
  {
  }

  lemma {:induction false} Concatenated(s: State, a: seq<Step>, b: seq<Step>)
    requires Possible(s, a) && Possible(After(s, a), b)
    ensures Possible(s, a + b) && After(s, a + b) == After(After(s, a), b)
    decreases |a|
  {
    if a == [] {
      assert a + b == b;
    } else {
      assert (a + b)[1..] == a[1..] + b;
      Concatenated(Next(s, a[0].p, a[0].e), a[1..], b);
    }
  }

  /**
   The total is read again for the result, so a call need not return the value it stored: here
   two additions from 0 both return 2.
   */
  lemma AddsReturnTheSame(wide: bool)
    ensures var idle := Process(Outside, 0, 0, 0, 0);
      exists steps :: Possible(State(0, 0, wide, [idle, idle]), steps) &&
        After(State(0, 0, wide, [idle, idle]), steps) == State(2, 0, wide, [Process(Outside, 1, 0, 1, 2), Process(Outside, 1, 0, 1, 2)])
  {
    hide Possible, After;
    var idle := Process(Outside, 0, 0, 0, 0);
    var s := State(0, 0, wide, [idle, idle]);
    var a := [Step(0, CallAdd), Step(0, Load), Step(0, Swap), Step(1, CallAdd), Step(1, Load), Step(1, Swap)];
    BothSwapped(idle, wide);
    var s6 := State(2, 0, wide, [Process(Testing(1, 0, 0), 0, 0, 1, 0), Process(Testing(1, 1, 1), 0, 0, 1, 0)]);
    var s7 := Next(s6, 0, Test);
    var s8 := Next(s7, 1, Test);
    var s9 := Next(s8, 0, Return);
    var s10 := Next(s9, 1, Return);
    Stops(s10);
    var b1 := [Step(1, Return)] + [];
    var b2 := [Step(0, Return)] + b1;
    var b3 := [Step(1, Test)] + b2;
    var b4 := [Step(0, Test)] + b3;
    Prepended(s9, 1, Return, []);
    Prepended(s8, 0, Return, b1);
    Prepended(s7, 1, Test, b2);
    Prepended(s6, 0, Test, b3);
    Concatenated(s, a, b4);
  }

  // ---------- what a call returns ----------

  /** The next step of `x` is a swap that succeeds. */
  predicate Succeeds(s: State, x: Step) {
    && x.p < |s.procs| && x.e.Swap? && s.procs[x.p].pc.Swapping? && s.procs[x.p].pc.value == s.total
    && (s.wide ==> s.high == Sign(s.total))
  }

  /** The value a successful swap of `q` stores. */
  function Stored(q: Process): int
    requires q.pc.Swapping?
  {
    Int32(q.pc.value + q.pc.delta)
  }

  /** The sum of the deltas that processes other than `p` swap in along the run. */
  ghost function NetOfOthers(s: State, steps: seq<Step>, p: nat): int
    requires Possible(s, steps)
    decreases |steps|
  {
    if steps == [] then 0
    else
      (if Succeeds(s, steps[0]) && steps[0].p != p then s.procs[steps[0].p].pc.delta else 0) +
      NetOfOthers(Next(s, steps[0].p, steps[0].e), steps[1..], p)
  }

  /** No process other than `p` swaps successfully along the run. */
  ghost predicate NobodyElseSwaps(s: State, steps: seq<Step>, p: nat)
    requires Possible(s, steps)
    decreases |steps|
  {
    steps == [] ||
    (!(Succeeds(s, steps[0]) && steps[0].p != p) && NobodyElseSwaps(Next(s, steps[0].p, steps[0].e), steps[1..], p))
  }

  /** The process has changed the total in its current call and has not returned yet. */
  predicate HasSwapped(q: Process) {
    (q.pc.Testing? && q.pc.ret == q.pc.value) || q.pc.Leaving?
  }

  /** From its swap until it returns, a process leaves the total to the others. */
  lemma {:induction false} OthersMoveTotal(s: State, steps: seq<Step>, p: nat)
    requires Possible(s, steps) && p < |s.procs| && HasSwapped(s.procs[p]) && Step(p, Return) !in steps
    requires s.total == Int32(s.total)
    ensures After(s, steps).total == Int32(s.total + NetOfOthers(s, steps, p))
    decreases |steps|
  {
    if steps != [] {
      hide Int32;
      var x := steps[0];
      var s', rest := Next(s, x.p, x.e), steps[1..];
      assert x in steps && forall y :: y in rest ==> y in steps;
      if x.e.Swap? { WrapIdempotent(s.procs[x.p].pc.value + s.procs[x.p].pc.delta); }
      OthersMoveTotal(s', rest, p);
      if Succeeds(s, x) {
        WrapsOnce(s.total + s.procs[x.p].pc.delta, NetOfOthers(s', rest, p));
      }
    }
  }

  lemma {:induction false} NoNetWithoutSwaps(s: State, steps: seq<Step>, p: nat)
    requires Possible(s, steps) && NobodyElseSwaps(s, steps, p)
    ensures NetOfOthers(s, steps, p) == 0
    decreases |steps|
  {
    if steps != [] {
      NoNetWithoutSwaps(Next(s, steps[0].p, steps[0].e), steps[1..], p);
    }
  }

  /** A run and its last step. */
  lemma {:induction false} Split(s: State, front: seq<Step>, x: Step)
    requires Possible(s, front + [x])
    ensures Possible(s, front) && x.p < |After(s, front).procs| && Enabled(After(s, front).procs[x.p], x.e)
    ensures After(s, front + [x]) == Next(After(s, front), x.p, x.e)
    decreases |front|
  {
    if front == [] {
      assert [] + [x] == [x] && [x][1..] == [];
    } else {
      assert (front + [x])[1..] == front[1..] + [x];
      Split(Next(s, front[0].p, front[0].e), front[1..], x);
    }
  }

  lemma {:induction false} SameProcesses(s: State, steps: seq<Step>)
    requires Possible(s, steps)
    ensures |After(s, steps).procs| == |s.procs|
    decreases |steps|
  {
    if steps != [] { SameProcesses(Next(s, steps[0].p, steps[0].e), steps[1..]); }
  }

  /** A process that has changed the total in its current call did so by its last successful swap. */
  lemma {:induction false} LastSwap(s: State, steps: seq<Step>, p: nat) returns (pre: seq<Step>, mid: seq<Step>)
    requires Init(s) && Possible(s, steps) && p < |s.procs| && p < |After(s, steps).procs| && HasSwapped(After(s, steps).procs[p])
    ensures steps == pre + [Step(p, Swap)] + mid && Step(p, Return) !in mid
    ensures Possible(s, pre) && Succeeds(After(s, pre), Step(p, Swap))
    decreases |steps|
  {
    assert steps != [];
    var n := |steps| - 1;
    var front, x := steps[..n], steps[n];
    assert steps == front + [x];
    Split(s, front, x);
    SameProcesses(s, front);
    StartInv(s);
    RunInv(s, front);
    if Succeeds(After(s, front), x) && x.p == p {
      pre, mid := front, [];
      assert x == Step(p, Swap);
    } else {
      pre, mid := LastSwap(s, front, p);
      mid := mid + [x];
    }
  }

  lemma SameWrapped(x: int, d: int)
    requires Int32(x) == x
    ensures Int32(x + d) == x <==> d % 0x1_0000_0000 == 0
  {
  }

  /**
   In every run, a call that returns has swapped once, at the end of `pre`, and returns the value
   it stored there if and only if what the other processes have swapped in since cancels
   modulo 2^32; so it does whenever none of them has.
   */
  lemma ReturnsStored(s: State, steps: seq<Step>, p: nat) returns (pre: seq<Step>, mid: seq<Step>)
    requires Init(s) && Possible(s, steps + [Step(p, Return)])
    ensures steps == pre + [Step(p, Swap)] + mid && Step(p, Return) !in mid
    ensures Possible(s, pre) && Succeeds(After(s, pre), Step(p, Swap))
    ensures var u := Next(After(s, pre), p, Swap);
      var end := After(s, steps + [Step(p, Return)]);
      && Possible(u, mid) && p < |end.procs|
      && (end.procs[p].result == Stored(After(s, pre).procs[p]) <==> NetOfOthers(u, mid, p) % 0x1_0000_0000 == 0)
      && (NobodyElseSwaps(u, mid, p) ==> end.procs[p].result == Stored(After(s, pre).procs[p]))
  {
    Split(s, steps, Step(p, Return));
    SameProcesses(s, steps);
    pre, mid := LastSwap(s, steps, p);
    var x := Step(p, Swap);
    Divided(s, pre + [x], mid);
    Split(s, pre, x);
    SwapReturned(s, pre, p, mid);
    assert steps == (pre + [x]) + mid;
  }

  lemma {:induction false} Divided(s: State, a: seq<Step>, b: seq<Step>)
    requires Possible(s, a + b)
    ensures Possible(s, a) && Possible(After(s, a), b) && After(s, a + b) == After(After(s, a), b)
    decreases |a|
  {
    if a == [] {
      assert a + b == b;
    } else {
      assert (a + b)[1..] == a[1..] + b;
      Divided(Next(s, a[0].p, a[0].e), a[1..], b);
    }
  }

  lemma SwapReturned(s: State, pre: seq<Step>, p: nat, mid: seq<Step>)
    requires Init(s) && Possible(s, pre) && Succeeds(After(s, pre), Step(p, Swap)) && Step(p, Return) !in mid
    requires Possible(Next(After(s, pre), p, Swap), mid)
    ensures var u, stored := Next(After(s, pre), p, Swap), Stored(After(s, pre).procs[p]);
      && (After(u, mid).total == stored <==> NetOfOthers(u, mid, p) % 0x1_0000_0000 == 0)
      && (NobodyElseSwaps(u, mid, p) ==> After(u, mid).total == stored)
  {
    hide Possible, After, Int32;
    var t := After(s, pre);
    var u, stored := Next(t, p, Swap), Stored(t.procs[p]);
    WrapIdempotent(t.procs[p].pc.value + t.procs[p].pc.delta);
    assert u.total == stored;
    OthersMoveTotal(u, mid, p);
    SameWrapped(stored, NetOfOthers(u, mid, p));
    if NobodyElseSwaps(u, mid, p) { NoNetWithoutSwaps(u, mid, p); }
  }

  // ---------- no call is abandoned ----------

  /** How often step `x` stands in the run. */
  function Count(steps: seq<Step>, x: Step): nat {
    if steps == [] then 0 else Count(steps[..|steps| - 1], x) + if steps[|steps| - 1] == x then 1 else 0
  }

  /** How often some process takes event `e` in the run. */
  function CountAll(steps: seq<Step>, e: Event): nat {
    if steps == [] then 0 else CountAll(steps[..|steps| - 1], e) + if steps[|steps| - 1].e == e then 1 else 0
  }

  /** Inside the loop of a call with that delta. */
  predicate Pending(q: Process, delta: int) {
    (q.pc.Loading? || q.pc.Swapping? || q.pc.Testing?) && q.pc.delta == delta
  }

  /** One step makes a call pending, or takes one from pending to counted, or neither. */
  lemma CallsOfStep(s: State, q: Process, e: Event)
    requires Enabled(q, e) && Honest(q)
    ensures var q' := Moved(s, q, e);
      && q'.adds + (if Pending(q', 1) then 1 else 0) == q.adds + (if Pending(q, 1) then 1 else 0) + (if e == CallAdd then 1 else 0)
      && q'.subs + (if Pending(q', -1) then 1 else 0) == q.subs + (if Pending(q, -1) then 1 else 0) + (if e == CallSub then 1 else 0)
  {
  }

  /**
   In every run, each call that was made is in its loop or has been counted on leaving it: none
   is given up.
   */
  lemma {:induction false} CallsAccounted(s: State, steps: seq<Step>, p: nat)
    requires Init(s) && Possible(s, steps) && p < |s.procs|
    ensures |After(s, steps).procs| == |s.procs|
    ensures var q := After(s, steps).procs[p];
      && Count(steps, Step(p, CallAdd)) == q.adds + (if Pending(q, 1) then 1 else 0)
      && Count(steps, Step(p, CallSub)) == q.subs + (if Pending(q, -1) then 1 else 0)
    decreases |steps|
  {
    SameProcesses(s, steps);
    if steps != [] {
      var n := |steps| - 1;
      var front, x := steps[..n], steps[n];
      assert steps == front + [x];
      Split(s, front, x);
      CallsAccounted(s, front, p);
      StartInv(s);
      RunInv(s, front);
      CallsOfStep(After(s, front), After(s, front).procs[x.p], x.e);
    }
  }

  lemma {:induction false} CountsAdd(s: State, steps: seq<Step>)
    requires Init(s) && Possible(s, steps)
    ensures var t := After(s, steps);
      (forall p :: 0 <= p < |t.procs| ==> t.procs[p].pc.Outside?) ==>
        CountAll(steps, CallAdd) == Adds(t.procs) && CountAll(steps, CallSub) == Subs(t.procs)
  {
    AllCounted(s, steps);
    NothingPending(After(s, steps).procs);
  }

  /** The calls in their loops, over all processes. */
  function AllPending(procs: seq<Process>, delta: int): nat {
    if procs == [] then 0 else (if Pending(procs[0], delta) then 1 else 0) + AllPending(procs[1..], delta)
  }

  lemma {:induction false} NothingPending(procs: seq<Process>)
    ensures (forall p :: 0 <= p < |procs| ==> procs[p].pc.Outside?) ==> AllPending(procs, 1) == 0 && AllPending(procs, -1) == 0
  {
    if procs != [] && forall p :: 0 <= p < |procs| ==> procs[p].pc.Outside? {
      forall p | 0 <= p < |procs[1..]| ensures procs[1..][p].pc.Outside? { assert procs[1..][p] == procs[p + 1]; }
      NothingPending(procs[1..]);
    }
  }

  lemma {:induction false} CallsUpdate(procs: seq<Process>, p: nat, q: Process, d: int)
    requires p < |procs|
    ensures Adds(procs[p := q]) == Adds(procs) - procs[p].adds + q.adds
    ensures Subs(procs[p := q]) == Subs(procs) - procs[p].subs + q.subs
    ensures AllPending(procs[p := q], d) ==
      AllPending(procs, d) - (if Pending(procs[p], d) then 1 else 0) + (if Pending(q, d) then 1 else 0)
  {
    if p == 0 {
      assert procs[p := q][1..] == procs[1..];
    } else {
      assert procs[p := q][1..] == procs[1..][p - 1 := q];
      CallsUpdate(procs[1..], p - 1, q, d);
    }
  }

  lemma {:induction false} NoCalls(procs: seq<Process>)
    requires forall p :: 0 <= p < |procs| ==> procs[p] == Process(Outside, 0, 0, 0, 0)
    ensures Adds(procs) == 0 && Subs(procs) == 0
  {
    if procs != [] { NoCalls(procs[1..]); }
  }

  lemma {:induction false} AllCounted(s: State, steps: seq<Step>)
    requires Init(s) && Possible(s, steps)
    ensures var t := After(s, steps);
      && CountAll(steps, CallAdd) == Adds(t.procs) + AllPending(t.procs, 1)
      && CountAll(steps, CallSub) == Subs(t.procs) + AllPending(t.procs, -1)
    decreases |steps|
  {
    if steps == [] {
      NoCalls(s.procs);
      NothingPending(s.procs);
    } else {
      var n := |steps| - 1;
      var front, x := steps[..n], steps[n];
      assert steps == front + [x];
      Split(s, front, x);
      AllCounted(s, front);
      StartInv(s);
      RunInv(s, front);
      var t := After(s, front);
      assert Honest(t.procs[x.p]);
      hide Possible, After, Adds, Subs, AllPending, Pending, Moved, Enabled, Honest;
      var q := t.procs[x.p];
      CallsOfStep(t, q, x.e);
      CallsUpdate(t.procs, x.p, Moved(t, q, x.e), 1);
      CallsUpdate(t.procs, x.p, Moved(t, q, x.e), -1);
    }
  }

  /** When every call has returned, the total is the number of additions asked for minus the subtractions. */
  lemma TotalOfCalls(s: State, steps: seq<Step>)
    requires Init(s) && Possible(s, steps)
    requires var t := After(s, steps); forall p :: 0 <= p < |t.procs| ==> t.procs[p].pc.Outside?
    ensures After(s, steps).total == Int32(CountAll(steps, CallAdd) - CountAll(steps, CallSub))
  {
    hide Possible, After, Int32;
    NoUpdateLost(s, steps);
    CountsAdd(s, steps);
  }

  /**
   Undisturbed, either call takes one turn of its loop, changes the total by one and returns what
   it has stored.
   */
  lemma UndisturbedCall(s: State, p: nat, call: Event) returns (steps: seq<Step>)
    requires Inv(s) && p < |s.procs| && s.procs[p].pc.Outside? && (call.CallAdd? || call.CallSub?)
    ensures steps == [Step(p, call), Step(p, Load), Step(p, Swap), Step(p, Test), Step(p, Return)] && Possible(s, steps)
    ensures var t := After(s, steps);
      && p < |t.procs| && t.procs[p].pc.Outside? && t.procs[p].result == t.total
      && t.total == Int32(s.total + if call.CallAdd? then 1 else -1)
  {
    hide Possible, After, Int32;
    var s1 := Next(s, p, call);
    var s2 := Next(s1, p, Load);
    var s3 := Next(s2, p, Swap);
    var s4 := Next(s3, p, Test);
    var s5 := Next(s4, p, Return);
    Stops(s5);
    var r4 := [Step(p, Return)] + [];
    var r3 := [Step(p, Test)] + r4;
    var r2 := [Step(p, Swap)] + r3;
    var r1 := [Step(p, Load)] + r2;
    Prepended(s4, p, Return, []);
    Prepended(s3, p, Test, r4);
    Prepended(s2, p, Swap, r3);
    Prepended(s1, p, Load, r2);
    Prepended(s, p, call, r1);
    steps := [Step(p, call)] + r1;
  }
}
