/**
 The tail queue macros of nty_queue.h as the scheduler uses them for its ready queue. A
 `tqe_prev` or `tqh_last` field holds the address of a pointer field: the head's `tqh_first` or
 some element's `tqe_next`.
 */
module TailQueue {
  import opened Sequences

  datatype Place = First | NextOf(elm: Coroutine)

  class Coroutine {
    var next: Coroutine?
    var prev: Place
    var eof: bool

    /** A new coroutine; its links are not yet meaningful. */
    constructor ()
      ensures !eof
    {
      next, prev, eof := null, First, false;
    }
  }

  function At(s: seq<Coroutine>, i: nat): Coroutine? {
    if i < |s| then s[i] else null
  }

  /** The address of the field that points to position `i`. */
  function Before(s: seq<Coroutine>, i: nat): Place
    requires i <= |s|
  {
    if i == 0 then First else NextOf(s[i - 1])
  }

  /** Element `i` points to the next one and to the field that points to it. */
  ghost predicate LinkedAt(s: seq<Coroutine>, i: nat)
    requires i < |s|
    reads s`next, s`prev
  {
    s[i].next == At(s, i + 1) && s[i].prev == Before(s, i)
  }

  ghost predicate Linked(s: seq<Coroutine>)
    reads s`next, s`prev
  {
    forall i :: 0 <= i < |s| ==> LinkedAt(s, i)
  }

  lemma Appended(s: seq<Coroutine>, elm: Coroutine)
    requires elm !in s && NoDuplicates(s)
    requires forall i :: 0 <= i < |s| ==> s[i].next == (if i == |s| - 1 then elm else At(s, i + 1)) && s[i].prev == Before(s, i)
    requires elm.next == null && elm.prev == Before(s, |s|)
    ensures Linked(s + [elm]) && NoDuplicates(s + [elm])
  {
    var s' := s + [elm];
    forall i | 0 <= i < |s'| ensures LinkedAt(s', i) { }
  }

  function Without(s: seq<Coroutine>, i: nat): seq<Coroutine>
    requires i < |s|
  {
    s[..i] + s[i + 1..]
  }

  lemma WithoutAt(s: seq<Coroutine>, i: nat, k: nat)
    requires i < |s| && k <= |s| - 1
    ensures |Without(s, i)| == |s| - 1
    ensures At(Without(s, i), k) == At(s, if k < i then k else k + 1)
    ensures Before(Without(s, i), k) == Before(s, if k <= i then k else k + 1)
  {
  }

  lemma Removed(s: seq<Coroutine>, i: nat)
    requires i < |s| && NoDuplicates(s)
    requires forall k :: 0 <= k < |s| ==> s[k].next == At(s, if k == i - 1 then i + 1 else k + 1)
    requires forall k :: 0 <= k < |s| ==> s[k].prev == Before(s, if k == i + 1 then i else k)
    ensures Linked(Without(s, i)) && NoDuplicates(Without(s, i))
  {
    var s' := Without(s, i);
    hide At, Before, LinkedAt;
    forall k | 0 <= k < |s'| ensures LinkedAt(s', k) {
      RemovedAt(s, i, k);
    }
  }

  lemma RemovedAt(s: seq<Coroutine>, i: nat, k: nat)
    requires i < |s| && k < |s| - 1
    requires var j := if k < i then k else k + 1;
      && s[j].next == At(s, if j == i - 1 then i + 1 else j + 1)
      && s[j].prev == Before(s, if j == i + 1 then i else j)
    ensures k < |Without(s, i)| && LinkedAt(Without(s, i), k)
  {
    assert Without(s, i)[k] == s[if k < i then k else k + 1];
    hide At, Before, Without;
    WithoutAt(s, i, k);
    WithoutAt(s, i, k + 1);
  }

  /** Where an element's own fields lead. */
  lemma Around(s: seq<Coroutine>, i: nat)
    requires i < |s|
    ensures At(s, i + 1) == if i + 1 < |s| then s[i + 1] else null
    ensures Before(s, i) == if i == 0 then First else NextOf(s[i - 1])
  {
  }

  lemma EndOf(s: seq<Coroutine>, elm: Coroutine)
    ensures Before(s, |s|) == if s == [] then First else NextOf(s[|s| - 1])
    ensures At(s, 0) == if s == [] then null else s[0]
    ensures At(s, |s|) == null && At(s + [elm], 0) == if s == [] then elm else s[0]
    ensures Before(s + [elm], |s| + 1) == NextOf(elm)
  {
  }

  lemma HeadOf(s: seq<Coroutine>)
    requires s != []
    ensures At(s, 0) == s[0] && (|s| > 1 ==> At(s, 1) == s[1]) && (|s| == 1 ==> At(s, 1) == null)
    ensures Before(s, |s|) == NextOf(s[|s| - 1]) && (|s| > 1 ==> Before(s, |s| - 1) == NextOf(s[|s| - 2]))
  {
  }

  class Queue {
    var first: Coroutine?
    var last: Place
    ghost var items: seq<Coroutine>

    /** `TAILQ_INIT`. */
    constructor ()
      ensures Valid() && items == []
    {
      first, last, items := null, First, [];
    }

    ghost predicate Valid()
      reads this, items`next, items`prev
    {
      first == At(items, 0) && last == Before(items, |items|) && Linked(items) && NoDuplicates(items)
    }

    /** What the field at an address holds. */
    function Read(p: Place): Coroutine?
      reads `first, (if p.NextOf? then {p.elm} else {})`next
    {
      match p
      case First => first
      case NextOf(e) => e.next
    }

    method Write(p: Place, c: Coroutine?)
      modifies this`first, (if p.NextOf? then {p.elm} else {})`next
      ensures match p
        case First => first == c
        case NextOf(e) => e.next == c && first == old(first)
    {
      match p
      case First => first := c;
      case NextOf(e) => e.next := c;
    }

    /** `TAILQ_EMPTY` and `TAILQ_FIRST`. */
    method Front() returns (c: Coroutine?)
      requires Valid()
      ensures c == At(items, 0) && (c == null <==> items == [])
    {
      c := first;
    }

    /**
     `TAILQ_LAST`: the address in `tqh_last` is taken for a head, whose second field is `last`
     of the head itself or `prev` of the last element, and the field at that address is read.
     */
    method Back() returns (c: Coroutine?)
      requires Valid()
      ensures c == if items == [] then null else items[|items| - 1]
    {
      if items != [] {
        assert LinkedAt(items, |items| - 1);
        if |items| > 1 { assert LinkedAt(items, |items| - 2); }
      }
      var second := match last
        case First => last
        case NextOf(e) => e.prev;
      c := Read(second);
    }

    lemma LinkFacts()
      requires Valid()
      ensures forall k :: 0 <= k < |items| ==> items[k].next == At(items, k + 1) && items[k].prev == Before(items, k)
    {
      hide At, Before;
      forall k | 0 <= k < |items| ensures items[k].next == At(items, k + 1) && items[k].prev == Before(items, k) {
        assert LinkedAt(items, k);
      }
    }

    /** `TAILQ_INSERT_TAIL`. */
    method InsertTail(elm: Coroutine)
      requires Valid() && elm !in items
      modifies this, elm`next, elm`prev, items`next
      ensures Valid() && items == old(items) + [elm]
    {
      hide Linked, NoDuplicates, At, Before;
      LinkFacts();
      EndOf(items, elm);
      if last.NextOf? {
        assert last.elm in items;
        DistinctFrom(items, |items| - 1);
      }
      elm.next := null;
      elm.prev := last;
      Write(last, elm);
      last := NextOf(elm);
      Appended(items, elm);
      items := items + [elm];
    }

    /** `TAILQ_REMOVE` of the element at position `i`. */
    method Remove(elm: Coroutine, ghost i: nat)
      requires Valid() && i < |items| && elm == items[i]
      modifies this, items`next, items`prev
      ensures Valid() && items == old(Without(items, i))
    {
      hide Linked, NoDuplicates, Without, At, Before;
      LinkFacts();
      Around(items, i);
      if i > 0 { DistinctFrom(items, i - 1); }
      if i + 1 < |items| { DistinctFrom(items, i + 1); }
      DistinctFrom(items, i);
      if elm.next != null {
        elm.next.prev := elm.prev;
      } else {
        last := elm.prev;
      }
      Write(elm.prev, elm.next);
      Removed(items, i);
      HeadOf(items);
      WithoutAt(items, i, 0);
      WithoutAt(items, i, |items| - 1);
      items := Without(items, i);
    }
  }
}
