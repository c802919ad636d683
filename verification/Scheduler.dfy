/**
 The coroutine scheduler as a step machine: `nty_schedule_run` with the operations a running
 coroutine may call (create, renice, sleep(0), a wait on one descriptor with timeout 1, and
 returning). Every step is what happens between two points where control may change hands.
 */
module Scheduler {
  import opened Sequences

  /** The address of a coroutine. */
  datatype Id = Id(address: int)

  datatype Fd = Fd(number: int)

  /** Where the loop of `nty_schedule_run` stands. */
  datatype Phase =
    | Top                          // before the test of `nty_schedule_isdone`
    | Draining(last: Id)           // in the ready phase, which ends after `last`
    | Polling                      // about to call `nty_schedule_epoll`
    | Handling(events: seq<Fd>)    // events not yet handled
    | Done
    | Crashed                      // a null waiter was dereferenced

  datatype Control =
    | Scheduling                   // the scheduler itself runs
    | Woken(fd: Fd, co: Id)        // resumed by an event, still in the wait tree
    | Running(co: Id, ops: nat)

  datatype State = State(
    phase: Phase,
    control: Control,
    ready: seq<Id>,
    waiting: map<Fd, Id>,
    interest: set<Fd>,
    trigger: Fd,
    live: set<Id>,
    spawned: int,
    eof: set<Id>)

  datatype Event =
    | Enter                        // the loop test, and the start of the ready phase
    | Take                         // the front of the ready queue is resumed
    | Poll(events: seq<Fd>)
    | Wake(hup: bool)              // the next event resumes its waiter
    | Desched                      // the waiter leaves epoll and the wait tree
    | Create(id: Id)
    | Renice
    | Sleep0
    | Wait(wfd: Fd)
    | Exit

  const RENICE_OPS := 5

  /** What the environment may do: fresh coroutines, descriptors nobody waits on, watched events. */
  ghost predicate Enabled(s: State, e: Event) {
    match e
    case Enter => s.phase.Top? && s.control.Scheduling?
    case Take => s.phase.Draining? && s.control.Scheduling? && s.ready != []
    case Poll(events) =>
      && s.phase.Polling? && s.control.Scheduling? && NoDuplicates(events)
      && (s.ready != [] ==> events == [])
      && forall f :: f in events ==> f in s.interest && f != s.trigger
    case Wake(_) => s.phase.Handling? && s.phase.events != [] && s.control.Scheduling?
    case Desched => s.control.Woken?
    case Create(id) => s.control.Running? && id !in s.live
    case Renice => s.control.Running?
    case Sleep0 => s.control.Running?
    case Wait(fd) => s.control.Running? && fd !in s.waiting && fd != s.trigger
    case Exit => s.control.Running?
  }

  function PhaseAfter(phase: Phase, co: Id, ready: seq<Id>): Phase {
    match phase
    case Draining(last) => if co == last || ready == [] then Polling else phase
    case Handling(events) => if events == [] then Top else phase
    case _ => phase
  }

  /** Control returns to the scheduler loop, which has just resumed `co`. */
  function Yielded(s: State): State
    requires s.control.Running?
  {
    s.(control := Scheduling, phase := PhaseAfter(s.phase, s.control.co, s.ready))
  }

  function Queued(s: State): State
    requires s.control.Running?
  {
    s.(ready := s.ready + [s.control.co])
  }

  ghost function Next(s: State, e: Event): State
    requires Enabled(s, e)
  {
    match e
    case Enter =>
      if s.waiting == map[] && s.ready == [] then s.(phase := Done)
      else if s.ready == [] then s.(phase := Polling)
      else s.(phase := Draining(s.ready[|s.ready| - 1]))
    case Take =>
      var co, rest := s.ready[0], s.ready[1..];
      if co in s.eof then s.(ready := rest, phase := Polling, live := s.live - {co}, spawned := s.spawned - 1)
      else s.(ready := rest, control := Running(co, 0))
    case Poll(events) => s.(phase := if events == [] then Top else Handling(events))
    case Wake(hup) =>
      var n := |s.phase.events| - 1;
      var fd := s.phase.events[n];
      if fd in s.waiting then
        s.(phase := Handling(s.phase.events[..n]), control := Woken(fd, s.waiting[fd]),
           eof := if hup then s.eof + {s.waiting[fd]} else s.eof)
      else s.(phase := Crashed)
    case Desched =>
      s.(interest := s.interest - {s.control.fd}, waiting := s.waiting - {s.control.fd},
         eof := s.eof - {s.control.co}, control := Running(s.control.co, 0))
    case Create(id) => s.(ready := s.ready + [id], live := s.live + {id}, spawned := s.spawned + 1)
    case Renice =>
      if s.control.ops + 1 < RENICE_OPS then s.(control := Running(s.control.co, s.control.ops + 1))
      else Yielded(Queued(s))
    case Sleep0 => Yielded(Queued(s))
    case Wait(fd) => Yielded(s.(interest := s.interest + {fd}, waiting := s.waiting[fd := s.control.co]))
    case Exit => Yielded(s.(live := s.live - {s.control.co}, spawned := s.spawned - 1))
  }

  /** `nty_schedule_create` and the coroutines created before `nty_schedule_run`. */
  ghost predicate Init(s: State) {
    && s.phase.Top? && s.control.Scheduling?
    && NoDuplicates(s.ready) && s.live == (set c | c in s.ready) && s.spawned == |s.ready|
    && s.waiting == map[] && s.interest == {s.trigger} && s.eof == {}
  }

  // ---------- the invariant ----------

  function Waiters(w: map<Fd, Id>): set<Id> {
    set f | f in w :: w[f]
  }

  ghost predicate Injective(w: map<Fd, Id>) {
    forall f, g :: f in w && g in w && f != g ==> w[f] != w[g]
  }

  /** Where coroutine `c` is: in the queue, in the wait tree, or running. */
  predicate IsRunning(s: State, c: Id) {
    s.control.Running? && s.control.co == c
  }

  /** Every live coroutine is in exactly one place, and once. */
  ghost predicate Placed(s: State) {
    && NoDuplicates(s.ready) && Injective(s.waiting)
    && (forall c :: c in s.live <==> c in s.ready || c in Waiters(s.waiting) || IsRunning(s, c))
    && (forall c :: c in s.ready ==> c !in Waiters(s.waiting) && !IsRunning(s, c))
    && (forall c :: c in Waiters(s.waiting) ==> !IsRunning(s, c))
  }

  ghost predicate Watched(s: State) {
    s.trigger in s.interest && s.trigger !in s.waiting && s.waiting.Keys == s.interest - {s.trigger}
  }

  /** End of file is only ever marked on a waiter that is just being woken. */
  ghost predicate Marked(s: State) {
    && (s.control.Woken? ==> s.control.fd in s.waiting && s.waiting[s.control.fd] == s.control.co)
    && (forall c :: c in s.eof ==> s.control.Woken? && s.control.co == c)
  }

  ghost predicate Phased(s: State) {
    match s.phase
    case Draining(last) => !s.control.Woken? && (last in s.ready || IsRunning(s, last))
    case Handling(events) =>
      && NoDuplicates(events)
      && (forall f :: f in events ==> f in s.waiting && (s.control.Woken? ==> f != s.control.fd))
      && (s.control.Scheduling? ==> events != [])
    case Done => s.live == {} && s.control.Scheduling?
    case Crashed => false
    case _ => s.control.Scheduling?
  }

  ghost predicate Inv(s: State) {
    && Placed(s) && Watched(s) && Marked(s) && Phased(s) && s.spawned == |s.live|
    && (s.control.Running? ==> s.control.ops < RENICE_OPS)
  }

  lemma InitInv(s: State)
    requires Init(s)
    ensures Inv(s)
  {
    DistinctSize(s.ready);
  }

  lemma {:induction false} DistinctSize(s: seq<Id>)
    requires NoDuplicates(s)
    ensures |set c | c in s| == |s|
  {
    if s != [] {
      var n := |s| - 1;
      DistinctSize(s[..n]);
      assert (set c | c in s) == (set c | c in s[..n]) + {s[n]};
    }
  }

  // ---------- every step keeps it ----------

  lemma EmptySet<T>(a: set<T>)
    requires forall c :: c !in a
    ensures a == {}
  {
  }

  lemma EnterInv(s: State)
    requires Inv(s) && Enabled(s, Enter)
    ensures Inv(Next(s, Enter))
  {
    if s.waiting == map[] && s.ready == [] {
      EmptySet(s.live);
    }
  }

  lemma TakeInv(s: State)
    requires Inv(s) && Enabled(s, Take)
    ensures Inv(Next(s, Take))
  {
    var co, rest := s.ready[0], s.ready[1..];
    assert s.ready == [co] + rest;
    assert forall c :: c in s.ready <==> c == co || c in rest;
  }

  lemma PollInv(s: State, events: seq<Fd>)
    requires Inv(s) && Enabled(s, Poll(events))
    ensures Inv(Next(s, Poll(events)))
  {
  }

  lemma WakeInv(s: State, hup: bool)
    requires Inv(s) && Enabled(s, Wake(hup))
    ensures Inv(Next(s, Wake(hup)))
  {
    var events, n := s.phase.events, |s.phase.events| - 1;
    assert forall f :: f in events[..n] ==> f in events && f != events[n];
    assert events[n] in events;
  }

  lemma DeschedInv(s: State)
    requires Inv(s) && Enabled(s, Desched)
    ensures Inv(Next(s, Desched))
  {
    var s', fd := Next(s, Desched), s.control.fd;
    WithoutWaiter(s.waiting, fd);
  }

  lemma WithoutWaiter(w: map<Fd, Id>, fd: Fd)
    requires fd in w && Injective(w)
    ensures Waiters(w - {fd}) == Waiters(w) - {w[fd]} && Injective(w - {fd})
  {
    forall c | c in Waiters(w) && c != w[fd] ensures c in Waiters(w - {fd}) {
      var f :| f in w && w[f] == c;
      assert f in w - {fd} && (w - {fd})[f] == c;
    }
  }

  lemma CreateInv(s: State, id: Id)
    requires Inv(s) && Enabled(s, Create(id))
    ensures Inv(Next(s, Create(id)))
  {
  }

  lemma YieldInv(s: State)
    requires s.control.Running? && Placed(s.(control := Scheduling)) && Watched(s) && s.eof == {} && s.spawned == |s.live|
    requires Phased(s)
    ensures Inv(Yielded(s))
  {
  }

  lemma OneMore<T>(s: seq<T>, x: T)
    requires NoDuplicates(s) && x !in s
    ensures NoDuplicates(s + [x]) && forall y :: y in s + [x] <==> y in s || y == x
  {
  }

  lemma QueueInv(s: State)
    requires Inv(s) && s.control.Running?
    ensures Inv(Yielded(Queued(s)))
  {
    var q := Queued(s);
    assert s.control.co !in s.ready;
    OneMore(s.ready, s.control.co);
    EmptySet(s.eof);
    YieldInv(q);
  }

  lemma WaitInv(s: State, fd: Fd)
    requires Inv(s) && Enabled(s, Wait(fd))
    ensures Inv(Next(s, Wait(fd)))
  {
    var t := s.(interest := s.interest + {fd}, waiting := s.waiting[fd := s.control.co]);
    WithWaiter(s.waiting, fd, s.control.co);
    EmptySet(s.eof);
    YieldInv(t);
  }

  lemma WithWaiter(w: map<Fd, Id>, fd: Fd, co: Id)
    requires fd !in w && co !in Waiters(w) && Injective(w)
    ensures Waiters(w[fd := co]) == Waiters(w) + {co} && Injective(w[fd := co])
  {
    var now := w[fd := co];
    assert now[fd] == co;
    forall c | c in Waiters(w) ensures c in Waiters(now) {
      var f :| f in w && w[f] == c;
      assert now[f] == c;
    }
    forall f | f in w ensures w[f] in Waiters(w) { }
  }

  lemma ExitInv(s: State)
    requires Inv(s) && Enabled(s, Exit)
    ensures Inv(Next(s, Exit))
  {
    EmptySet(s.eof);
    YieldInv(s.(live := s.live - {s.control.co}, spawned := s.spawned - 1));
  }

  lemma StepInv(s: State, e: Event)
    requires Inv(s) && Enabled(s, e)
    ensures Inv(Next(s, e))
  {
    match e
    case Enter => EnterInv(s);
    case Take => TakeInv(s);
    case Poll(events) => PollInv(s, events);
    case Wake(hup) => WakeInv(s, hup);
    case Desched => DeschedInv(s);
    case Create(id) => CreateInv(s, id);
    case Renice => QueueInv(s);
    case Sleep0 => QueueInv(s);
    case Wait(fd) => WaitInv(s, fd);
    case Exit => ExitInv(s);
  }

  // ---------- whole runs ----------

  ghost predicate Possible(s: State, es: seq<Event>)
    decreases |es|
  {
    es == [] || (Enabled(s, es[0]) && Possible(Next(s, es[0]), es[1..]))
  }

  ghost function After(s: State, es: seq<Event>): State
    requires Possible(s, es)
    decreases |es|
  {
    if es == [] then s else After(Next(s, es[0]), es[1..])
  }

  lemma {:induction false} RunInv(s: State, es: seq<Event>)
    requires Inv(s) && Possible(s, es)
    ensures Inv(After(s, es))
    decreases |es|
  {
    hide Inv, Enabled, Next;
    if es != [] {
      StepInv(s, es[0]);
      RunInv(Next(s, es[0]), es[1..]);
    }
  }

  /**
   After every run: whenever the scheduler has control, each live coroutine is either queued or
   waiting and not both, once, and on one descriptor; the descriptors waited on are those epoll
   watches, the trigger apart; `spawned_coroutines` is the number of live coroutines; the loop
   only ends when none is left; no coroutine that met its end of file is ever queued; and no
   event has failed to find its waiter.
   */
  lemma SchedulerSafety(s: State, es: seq<Event>)
    requires Init(s) && Possible(s, es)
    ensures var t := After(s, es);
      && !t.phase.Crashed?
      && (t.control.Scheduling? ==>
           && NoDuplicates(t.ready) && Injective(t.waiting)
           && t.live == (set c | c in t.ready) + Waiters(t.waiting)
           && (set c | c in t.ready) !! Waiters(t.waiting))
      && t.waiting.Keys == t.interest - {t.trigger}
      && t.spawned == |t.live|
      && (t.phase.Done? ==> t.live == {})
      && (forall c :: c in t.ready ==> c !in t.eof)
      && (t.phase.Handling? && t.control.Scheduling? ==> forall f :: f in t.phase.events ==> f in t.waiting)
  {
    hide Possible, After, Enabled, Next;
    InitInv(s);
    RunInv(s, es);
    var t := After(s, es);
    if t.control.Scheduling? {
      var queued := set c | c in t.ready;
      EmptySet(t.live - queued - Waiters(t.waiting));
      EmptySet(queued + Waiters(t.waiting) - t.live);
      EmptySet(queued * Waiters(t.waiting));
    }
  }

  // ---------- every delivered event is handled ----------

  /** The coroutines that events resume along the run. */
  ghost function WokenAlong(s: State, es: seq<Event>): seq<Id>
    requires Possible(s, es)
    decreases |es|
  {
    if es == [] then []
    else
      var t := Next(s, es[0]);
      (if es[0].Wake? && t.control.Woken? then [t.control.co] else []) + WokenAlong(t, es[1..])
  }

  /** Up to the end of the run, events are being handled. */
  ghost predicate StaysHandling(s: State, es: seq<Event>)
    requires Possible(s, es)
    decreases |es|
  {
    es == [] || (s.phase.Handling? && StaysHandling(Next(s, es[0]), es[1..]))
  }

  /** Who waits on the descriptors, the last one first. */
  function LastToFirst(w: map<Fd, Id>, fds: seq<Fd>): seq<Id>
    requires forall f :: f in fds ==> f in w
  {
    if fds == [] then []
    else
      var n := |fds| - 1;
      assert fds[n] in fds && forall f :: f in fds[..n] ==> f in fds;
      [w[fds[n]]] + LastToFirst(w, fds[..n])
  }

  lemma {:induction false} SameWaiters(w: map<Fd, Id>, w': map<Fd, Id>, fds: seq<Fd>)
    requires forall f :: f in fds ==> f in w && f in w' && w[f] == w'[f]
    ensures LastToFirst(w, fds) == LastToFirst(w', fds)
  {
    if fds != [] {
      var n := |fds| - 1;
      var front := fds[..n];
      FrontOf(fds);
      SameWaiters(w, w', front);
      assert LastToFirst(w, fds) == [w[fds[n]]] + LastToFirst(w, front);
      assert LastToFirst(w', fds) == [w'[fds[n]]] + LastToFirst(w', front);
      hide LastToFirst;
    }
  }

  lemma FrontOf<T>(s: seq<T>)
    requires s != []
    ensures var n := |s| - 1; s[n] in s && forall x :: x in s[..n] ==> x in s
  {
  }

  lemma {:induction false} WaitersDiffer(w: map<Fd, Id>, fds: seq<Fd>)
    requires Injective(w) && NoDuplicates(fds) && forall f :: f in fds ==> f in w
    ensures NoDuplicates(LastToFirst(w, fds))
    ensures forall c :: c in LastToFirst(w, fds) <==> exists f :: f in fds && w[f] == c
  {
    if fds != [] {
      var n := |fds| - 1;
      var front, rest := fds[..n], LastToFirst(w, fds[..n]);
      assert fds == front + [fds[n]];
      assert forall f :: f in fds <==> f in front || f == fds[n];
      WaitersDiffer(w, front);
      assert LastToFirst(w, fds) == [w[fds[n]]] + rest;
      assert w[fds[n]] !in rest;
      Prefixed(w[fds[n]], rest);
    }
  }

  lemma Prefixed<T>(x: T, s: seq<T>)
    requires NoDuplicates(s) && x !in s
    ensures NoDuplicates([x] + s)
  {
  }

  /** One step while events are handled: the waiters of those still to come are the same. */
  lemma HandlingStep(s: State, e: Event)
    requires Inv(s) && Enabled(s, e) && s.phase.Handling?
    ensures var t := Next(s, e);
      && (forall f :: f in s.phase.events ==> f in s.waiting)
      && (t.phase.Handling? || (t.phase.Top? && s.phase.events == []))
      && (e.Wake? ==>
        var n := |s.phase.events| - 1;
        n >= 0 && t.phase == Handling(s.phase.events[..n]) && t.waiting == s.waiting && t.control.Woken? &&
        s.phase.events[n] in s.waiting && t.control.co == s.waiting[s.phase.events[n]])
      && (!e.Wake? ==>
        && (t.phase.Handling? ==> t.phase.events == s.phase.events)
        && forall f :: f in s.phase.events ==> f in t.waiting && t.waiting[f] == s.waiting[f])
  {
    hide Placed;
    if e.Wake? {
      assert s.phase.events[|s.phase.events| - 1] in s.phase.events;
    }
  }

  lemma {:induction false} HandlesAll(s: State, es: seq<Event>)
    requires Inv(s) && Possible(s, es) && StaysHandling(s, es) && !After(s, es).phase.Handling?
    ensures s.phase.Handling? ==> forall f :: f in s.phase.events ==> f in s.waiting
    ensures WokenAlong(s, es) == if s.phase.Handling? then LastToFirst(s.waiting, s.phase.events) else []
    decreases |es|
  {
    if es != [] {
      hide Inv, Enabled, Next, LastToFirst;
      var t := Next(s, es[0]);
      HandlingStep(s, es[0]);
      StepInv(s, es[0]);
      HandlesAll(t, es[1..]);
      Unrolled(s, es[0], if t.phase.Handling? then t.phase.events else []);
    }
  }

  lemma Unrolled(s: State, e: Event, left: seq<Fd>)
    requires Inv(s) && Enabled(s, e) && s.phase.Handling?
    requires var t := Next(s, e); left == if t.phase.Handling? then t.phase.events else []
    ensures (forall f :: f in s.phase.events ==> f in s.waiting) && forall f :: f in left ==> f in Next(s, e).waiting
    ensures LastToFirst(s.waiting, s.phase.events) ==
      (if e.Wake? && Next(s, e).control.Woken? then [Next(s, e).control.co] else []) + LastToFirst(Next(s, e).waiting, left)
  {
    HandlingStep(s, e);
    hide Inv, Enabled, Next;
    var t := Next(s, e);
    assert forall f :: f in left ==> f in s.phase.events;
    SameWaiters(s.waiting, t.waiting, left);
  }

  /**
   In every run: from the delivery of events to the next turn of the loop, the coroutines resumed
   by events are the waiters of the delivered descriptors, each once, from the last event to the
   first.
   */
  lemma EventsAreHandled(s: State, pre: seq<Event>, events: seq<Fd>, es: seq<Event>)
    requires Init(s) && Possible(s, pre) && Enabled(After(s, pre), Poll(events))
    requires Possible(After(s, pre), [Poll(events)] + es) && Possible(Next(After(s, pre), Poll(events)), es)
    requires StaysHandling(Next(After(s, pre), Poll(events)), es) && After(After(s, pre), [Poll(events)] + es).phase.Top?
    ensures var u := After(s, pre);
      && (forall f :: f in events ==> f in u.waiting)
      && WokenAlong(u, [Poll(events)] + es) == LastToFirst(u.waiting, events)
      && NoDuplicates(WokenAlong(u, [Poll(events)] + es))
  {
    hide Possible, After, StaysHandling, WokenAlong;
    InitInv(s);
    RunInv(s, pre);
    var u := After(s, pre);
    var t := Next(u, Poll(events));
    StepInv(u, Poll(events));
    FirstStep(u, Poll(events), es);
    HandlesAll(t, es);
    WaitersDiffer(u.waiting, events);
  }

  lemma FirstStep(s: State, e: Event, rest: seq<Event>)
    requires Enabled(s, e) && Possible(s, [e] + rest) && Possible(Next(s, e), rest)
    ensures After(s, [e] + rest) == After(Next(s, e), rest)
    ensures WokenAlong(s, [e] + rest) ==
      (if e.Wake? && Next(s, e).control.Woken? then [Next(s, e).control.co] else []) + WokenAlong(Next(s, e), rest)
    ensures TakenAlong(s, [e] + rest) ==
      (if e.Take? && Next(s, e).control.Running? then [Next(s, e).control.co] else []) + TakenAlong(Next(s, e), rest)
    ensures e.Enter? ==> QueuedAlong(s, [e] + rest, 0) == QueuedAlong(Next(s, e), rest, 0)
  {
    assert ([e] + rest)[1..] == rest;
  }

  // ---------- the ready phase takes what was queued ----------

  /** The coroutines that the ready phase resumes along the run. */
  ghost function TakenAlong(s: State, es: seq<Event>): seq<Id>
    requires Possible(s, es)
    decreases |es|
  {
    if es == [] then []
    else
      var t := Next(s, es[0]);
      (if es[0].Take? && t.control.Running? then [t.control.co] else []) + TakenAlong(t, es[1..])
  }

  /**
   What a step asks to be queued: a creation, sleep(0), and every fifth renice, where `n` counts
   the renices of the running coroutine since it got control.
   */
  function QueuedBy(s: State, e: Event, n: nat): seq<Id> {
    match e
    case Create(id) => [id]
    case Sleep0 => if s.control.Running? then [s.control.co] else []
    case Renice => if s.control.Running? && n + 1 == 5 then [s.control.co] else []
    case _ => []
  }

  function RenicesAfter(e: Event, n: nat): nat {
    match e
    case Renice => n + 1
    case Take => 0
    case Desched => 0
    case _ => n
  }

  ghost function QueuedAlong(s: State, es: seq<Event>, n: nat): seq<Id>
    requires Possible(s, es)
    decreases |es|
  {
    if es == [] then [] else QueuedBy(s, es[0], n) + QueuedAlong(Next(s, es[0]), es[1..], RenicesAfter(es[0], n))
  }

  ghost predicate StaysDraining(s: State, es: seq<Event>)
    requires Possible(s, es)
    decreases |es|
  {
    es == [] || (s.phase.Draining? && StaysDraining(Next(s, es[0]), es[1..]))
  }

  /** `a` is still to be taken in this pass, `q` has been queued meanwhile. */
  ghost predicate Halfway(s: State, a: seq<Id>, q: seq<Id>, n: nat) {
    && s.ready == a + q
    && (s.control.Running? ==> n == s.control.ops)
    && match s.phase
       case Draining(last) =>
         && !s.control.Woken?
         && (a != [] ==> a[|a| - 1] == last)
         && (a == [] ==> s.control.Running? && s.control.co == last)
       case _ => a == []
  }

  /** What a step takes from the queue. */
  ghost function TakenBy(s: State, e: Event): seq<Id>
    requires Enabled(s, e)
  {
    if e.Take? && Next(s, e).control.Running? then [Next(s, e).control.co] else []
  }

  lemma TakeStep(s: State, a: seq<Id>, q: seq<Id>, n: nat)
    requires Inv(s) && Enabled(s, Take) && Halfway(s, a, q, n)
    ensures a != [] && TakenBy(s, Take) == [a[0]] && Halfway(Next(s, Take), a[1..], q, 0)
  {
    assert s.ready[0] == a[0] && s.ready[1..] == a[1..] + q;
    assert s.ready[0] !in s.eof;
  }

  lemma CreateStep(s: State, id: Id, a: seq<Id>, q: seq<Id>, n: nat)
    requires Inv(s) && Enabled(s, Create(id)) && s.phase.Draining? && Halfway(s, a, q, n)
    ensures Halfway(Next(s, Create(id)), a, q + [id], n)
  {
    assert a + q + [id] == a + (q + [id]);
  }

  /** The running coroutine, if it is not the last of the pass, leaves others to be taken. */
  lemma YieldStep(s: State, t: State, a: seq<Id>, q: seq<Id>, more: seq<Id>, n: nat, n': nat)
    requires Placed(s) && s.phase.Draining? && s.control.Running? && Halfway(s, a, q, n)
    requires t.control.Running? && t.control.co == s.control.co && t.phase == s.phase && t.ready == s.ready + more
    ensures Halfway(Yielded(t), a, q + more, n')
  {
    assert a + q + more == a + (q + more);
    if a != [] {
      assert s.ready[|a| - 1] == a[|a| - 1] && a[|a| - 1] in s.ready;
    }
  }

  /** One step of the pass. */
  lemma DrainingStep(s: State, e: Event, a: seq<Id>, q: seq<Id>, n: nat) returns (a': seq<Id>)
    requires Inv(s) && Enabled(s, e) && s.phase.Draining? && Halfway(s, a, q, n)
    ensures a == TakenBy(s, e) + a' && Halfway(Next(s, e), a', q + QueuedBy(s, e, n), RenicesAfter(e, n))
  {
    a' := a;
    assert s.ready + [] == s.ready && [] + a == a;
    if QueuedBy(s, e, n) == [] { assert q + QueuedBy(s, e, n) == q; }
    match e
    case Create(id) => CreateStep(s, id, a, q, n);
    case Sleep0 => YieldStep(s, Queued(s), a, q, [s.control.co], n, n);
    case Renice =>
      if n + 1 == 5 { YieldStep(s, Queued(s), a, q, [s.control.co], n, n + 1); }
    case Take =>
      TakeStep(s, a, q, n);
      a' := a[1..];
    case Wait(fd) =>
      YieldStep(s, s.(interest := s.interest + {fd}, waiting := s.waiting[fd := s.control.co]), a, q, [], n, n);
    case Exit => YieldStep(s, s.(live := s.live - {s.control.co}, spawned := s.spawned - 1), a, q, [], n, n);
  }

  lemma {:induction false} DrainsAll(s: State, es: seq<Event>, a: seq<Id>, q: seq<Id>, n: nat)
    requires Inv(s) && Possible(s, es) && StaysDraining(s, es) && !After(s, es).phase.Draining? && Halfway(s, a, q, n)
    ensures TakenAlong(s, es) == a && After(s, es).ready == q + QueuedAlong(s, es, n)
    decreases |es|
  {
    if es != [] {
      var e, rest := es[0], es[1..];
      var t, m := Next(s, e), RenicesAfter(e, n);
      hide Inv, Enabled, Next, Halfway, QueuedBy, RenicesAfter;
      var a' := DrainingStep(s, e, a, q, n);
      StepInv(s, e);
      DrainsAll(t, rest, a', q + QueuedBy(s, e, n), m);
      Regrouped(q, QueuedBy(s, e, n), QueuedAlong(t, rest, m));
    } else {
      assert [] + q == q;
    }
  }

  lemma Regrouped<T>(a: seq<T>, b: seq<T>, c: seq<T>)
    ensures a + b + c == a + (b + c)
  {
  }

  /**
   In every run: from the start of the ready phase to its end, the coroutines taken are those
   queued at the start, once each and in order, and what has been queued meanwhile stands in the
   queue in the order it was queued.
   */
  lemma ReadyPassTakesQueue(s: State, pre: seq<Event>, es: seq<Event>)
    requires Init(s) && Possible(s, pre) && Enabled(After(s, pre), Enter)
    requires Possible(After(s, pre), [Enter] + es) && Possible(Next(After(s, pre), Enter), es)
    requires StaysDraining(Next(After(s, pre), Enter), es) && !After(After(s, pre), [Enter] + es).phase.Draining?
    ensures var u := After(s, pre);
      && TakenAlong(u, [Enter] + es) == u.ready && NoDuplicates(u.ready)
      && After(u, [Enter] + es).ready == QueuedAlong(u, [Enter] + es, 0)
  {
    hide Possible, After, StaysDraining, TakenAlong, QueuedAlong;
    InitInv(s);
    RunInv(s, pre);
    var u := After(s, pre);
    var t := Next(u, Enter);
    StepInv(u, Enter);
    FirstStep(u, Enter, es);
    assert u.ready + [] == u.ready;
    DrainsAll(t, es, u.ready, [], 0);
  }

  // ---------- conservation, and no dead end ----------

  function Created(es: seq<Event>): nat {
    if es == [] then 0 else (if es[0].Create? then 1 else 0) + Created(es[1..])
  }

  function Exited(es: seq<Event>): nat {
    if es == [] then 0 else (if es[0].Exit? then 1 else 0) + Exited(es[1..])
  }

  /** Who asked to wait on what along the run, and has not been woken since. */
  ghost function Asked(s: State, w: map<Fd, Id>, es: seq<Event>): map<Fd, Id>
    requires Possible(s, es)
    decreases |es|
  {
    if es == [] then w
    else if es[0].Wait? then Asked(Next(s, es[0]), w[es[0].wfd := s.control.co], es[1..])
    else if es[0].Desched? then Asked(Next(s, es[0]), w - {s.control.fd}, es[1..])
    else Asked(Next(s, es[0]), w, es[1..])
  }

  /** In every run: coroutines are those created and not returned, and waiters those who asked to wait. */
  lemma {:induction false} NothingElseHappens(s: State, es: seq<Event>)
    requires Inv(s) && Possible(s, es)
    ensures After(s, es).spawned == s.spawned + Created(es) - Exited(es)
    ensures After(s, es).waiting == Asked(s, s.waiting, es)
    decreases |es|
  {
    if es != [] {
      StepInv(s, es[0]);
      hide Inv;
      NothingElseHappens(Next(s, es[0]), es[1..]);
    }
  }

  /** In every run: the loop ends exactly when it is tested with no coroutine left. */
  lemma EndsWhenNoneLeft(s: State, es: seq<Event>)
    requires Init(s) && Possible(s, es) && Enabled(After(s, es), Enter)
    ensures Next(After(s, es), Enter).phase.Done? <==> After(s, es).live == {}
  {
    InitInv(s);
    RunInv(s, es);
    var t := After(s, es);
    if Next(t, Enter).phase.Done? {
      StepInv(t, Enter);
    } else if t.ready != [] {
      assert t.ready[0] in t.ready;
    } else {
      var f :| f in t.waiting;
      assert t.waiting[f] in Waiters(t.waiting);
    }
  }

  /** In every run: a waiter is marked with end of file exactly if its event says so, until it has left the wait tree. */
  lemma WakeMarks(s: State, es: seq<Event>, hup: bool)
    requires Init(s) && Possible(s, es) && Enabled(After(s, es), Wake(hup))
    ensures var t := Next(After(s, es), Wake(hup));
      t.control.Woken? && (forall c :: c in t.eof <==> hup && c == t.control.co) &&
      Enabled(t, Desched) && forall c :: c !in Next(t, Desched).eof
  {
    InitInv(s);
    RunInv(s, es);
    var u := After(s, es);
    StepInv(u, Wake(hup));
    var t := Next(u, Wake(hup));
    assert Enabled(t, Desched);
    StepInv(t, Desched);
  }

  /** What a running coroutine may always do, and what epoll may report. */
  lemma MayHappen(s: State, id: Id, fd: Fd, events: seq<Fd>)
    ensures s.control.Running? ==> Enabled(s, Renice) && Enabled(s, Sleep0) && Enabled(s, Exit)
    ensures s.control.Running? && id !in s.live ==> Enabled(s, Create(id))
    ensures s.control.Running? && fd !in s.waiting && fd != s.trigger ==> Enabled(s, Wait(fd))
    ensures s.phase.Polling? && s.control.Scheduling? && s.ready == [] && NoDuplicates(events) ==>
      (forall f :: f in events ==> f in s.interest && f != s.trigger) ==> Enabled(s, Poll(events))
  {
  }

  /** Unless the loop has ended, some step is always possible. */
  lemma NeverStuck(s: State, es: seq<Event>) returns (e: Event)
    requires Init(s) && Possible(s, es) && !After(s, es).phase.Done?
    ensures Enabled(After(s, es), e)
  {
    InitInv(s);
    RunInv(s, es);
    var t := After(s, es);
    if t.control.Woken? {
      e := Desched;
    } else if t.control.Running? {
      e := Exit;
    } else {
      e := match t.phase
        case Top => Enter
        case Draining(_) => Take
        case Polling => Poll([])
        case _ => Wake(false);
    }
  }
}
