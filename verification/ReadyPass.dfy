/** The ready phase of `nty_schedule_run` over the linked ready queue. */
module ReadyPass {
  import opened Sequences
  import opened TailQueue

  /**
   A coroutine runs until it yields. It may create coroutines, which are queued, may queue
   itself (sleep(0), renice) as the last thing it does, and may change its own status.
   */
  method Resume(q: Queue, co: Coroutine) returns (ghost queued: seq<Coroutine>)
    requires q.Valid() && co !in q.items
    modifies q, q.items`next, co
    ensures q.Valid() && q.items == old(q.items) + queued
    ensures forall c :: c in queued ==> c == co || fresh(c)
  {
    hide Linked, NoDuplicates;
    queued := [];
    var creations: nat :| creations >= 0;
    for i := 0 to creations
      invariant q.Valid() && q.items == old(q.items) + queued
      invariant forall c :: c in queued ==> fresh(c) && c != co
    {
      var c := new Coroutine();
      Grown(q.items, old(q.items), queued);
      q.InsertTail(c);
      queued := queued + [c];
    }
    co.eof := *;
    var again: bool := *;
    if again {
      Grown(q.items, old(q.items), queued);
      q.InsertTail(co);
      queued := queued + [co];
    }
  }

  lemma Grown(s: seq<Coroutine>, a: seq<Coroutine>, b: seq<Coroutine>)
    requires s == a + b
    ensures forall i :: 0 <= i < |s| ==> s[i] in a || s[i] in b
  {
  }

  /** The first queued coroutine that has met the end of its file, or the end of the queue. */
  ghost function FirstEof(s: seq<Coroutine>): (k: nat)
    reads s`eof
    ensures k <= |s| && (k < |s| ==> s[k].eof) && forall i :: 0 <= i < k ==> !s[i].eof
  {
    if s == [] then 0 else if s[0].eof then 0 else 1 + FirstEof(s[1..])
  }

  /**
   One pass: the coroutines queued when it began are resumed once each and in order, up to the
   first that met its end of file, which is freed instead; everything queued meanwhile is left.
   */
  method Pass(q: Queue) returns (ghost resumed: seq<Coroutine>, ghost freed: seq<Coroutine>, ghost queued: seq<Coroutine>)
    requires q.Valid()
    modifies q, q.items
    ensures q.Valid()
    ensures resumed == old(q.items[..FirstEof(q.items)])
    ensures old(FirstEof(q.items) == |q.items|) ==> freed == [] && q.items == queued
    ensures old(FirstEof(q.items) < |q.items|) ==>
      freed == old([q.items[FirstEof(q.items)]]) && q.items == old(q.items[FirstEof(q.items) + 1..]) + queued
  {
    hide Linked, NoDuplicates, At, Before;
    var last := q.Back();
    var co := q.Front();
    resumed, freed, queued := [], [], [];
    if co != null {
      FrontOf(q.items, []);
      resumed, freed, queued := Turns(q, co, last, q.items, FirstEof(q.items));
    }
  }

  /** The loop of the pass over the queue `s`, in which element `k` is the first to be freed. */
  method Turns(q: Queue, front: Coroutine, last: Coroutine?, ghost s: seq<Coroutine>, ghost k: nat)
    returns (ghost resumed: seq<Coroutine>, ghost freed: seq<Coroutine>, ghost queued: seq<Coroutine>)
    requires q.Valid() && q.items == s != [] && front == s[0] && last == s[|s| - 1]
    requires k <= |s| && (k < |s| ==> s[k].eof) && forall j :: 0 <= j < k ==> !s[j].eof
    modifies q, q.items
    ensures q.Valid() && resumed == s[..k]
    ensures k == |s| ==> freed == [] && q.items == queued
    ensures k < |s| ==> freed == [s[k]] && q.items == s[k + 1..] + queued
  {
    hide Linked, NoDuplicates, At, Before;
    ghost var i: nat := 0;
    resumed, freed, queued := [], [], [];
    assert NoDuplicates(s);
    var co: Coroutine? := front;
    while co != null
      invariant q.Valid() && i <= k && i < |s| && resumed == s[..i] && freed == []
      invariant q.items == s[i..] + queued && co == s[i]
      invariant (k < |s| ==> s[k].eof) && forall j :: i <= j < k ==> !s[j].eof
      invariant forall j :: 0 <= j < |q.items| ==> q.items[j] in s || fresh(q.items[j])
      decreases |s| - i
    {
      DistinctFrom(s, i);
      var eof;
      eof, queued := Turn(q, co, s, i, queued);
      if eof {
        freed := [co];
        break;
      }
      assert s[..i] + [co] == s[..i + 1];
      resumed := resumed + [co];
      i := i + 1;
      if co == last {
        break;
      }
      co := q.Front();
      FrontOf(s[i..], queued);
    }
  }

  /** One turn of the loop: the front is taken off and, unless it met its end of file, resumed. */
  method Turn(q: Queue, co: Coroutine, ghost s: seq<Coroutine>, ghost i: nat, ghost queued: seq<Coroutine>)
    returns (eof: bool, ghost queued': seq<Coroutine>)
    requires q.Valid() && i < |s| && co == s[i] && q.items == s[i..] + queued && NoDuplicates(s)
    modifies q, q.items
    ensures q.Valid() && eof == old(co.eof) && q.items == s[i + 1..] + queued'
    ensures forall j :: i < j < |s| ==> s[j].eof == old(s[j].eof)
    ensures forall c :: c in queued' ==> c in queued || c == co || fresh(c)
    ensures forall j :: 0 <= j < |q.items| ==> q.items[j] in old(q.items) || fresh(q.items[j])
  {
    hide Linked, NoDuplicates, At, Before;
    DistinctFrom(s, i);
    Dequeue(q, co);
    eof, queued' := co.eof, queued;
    assert q.items == s[i + 1..] + queued;
    if !eof {
      ghost var more := Resume(q, co);
      queued' := queued + more;
    }
    Grown(q.items, s[i + 1..], queued');
    Grown(old(q.items), s[i..], queued);
  }

  lemma FrontOf(a: seq<Coroutine>, b: seq<Coroutine>)
    requires a != [] || b == []
    ensures At(a + b, 0) == if a == [] then null else a[0]
    ensures a + [] == a
  {
  }

  /** `TAILQ_REMOVE` of the first element. */
  method Dequeue(q: Queue, co: Coroutine)
    requires q.Valid() && q.items != [] && co == q.items[0]
    modifies q, q.items`next, q.items`prev
    ensures q.Valid() && q.items == old(q.items[1..]) && co !in q.items
  {
    hide Linked, NoDuplicates, At, Before;
    DistinctFrom(q.items, 0);
    q.Remove(co, 0);
  }
}
