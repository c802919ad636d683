/**
 The skip list engine of skiptable.c, in its string-key form. The ghost sequence `list` holds
 the header and then every node in the order of level 0; `hs` holds their heights. Level i is
 the chain of the nodes higher than i.
 */
module SkipList {
  import opened Sequences
  import opened Bindings
  import opened Strings

  const MAX_LEVEL := 6

  class SkNode {
    var key: CString
    var value: CString
    var forward: seq<SkNode?>

    /** `createNode`: all `level` forward links are null. */
    constructor (key: CString, value: CString, level: nat)
      ensures this.key == key && this.value == value
      ensures |forward| == level && forall i :: 0 <= i < level ==> forward[i] == null
    {
      this.key, this.value := key, value;
      forward := seq(level, i => null);
    }
  }

  // ---------- levels of a sequence of heights ----------

  /** The first position after `k` whose height exceeds `i`, or the end. */
  function Next(hs: seq<nat>, k: nat, i: nat): (j: nat)
    requires k < |hs|
    ensures k < j <= |hs|
    ensures forall m :: k < m < j ==> hs[m] <= i
    ensures j < |hs| ==> hs[j] > i
    decreases |hs| - k
  {
    if k + 1 == |hs| then |hs|
    else if hs[k + 1] > i then k + 1
    else Next(hs, k + 1, i)
  }

  lemma NextIs(hs: seq<nat>, k: nat, i: nat, j: nat)
    requires k < |hs| && k < j <= |hs|
    requires forall m :: k < m < j ==> hs[m] <= i
    requires j < |hs| ==> hs[j] > i
    ensures Next(hs, k, i) == j
  {
  }

  /** `u` is the last position before `pos` that level `i` passes through. */
  ghost predicate Precedes(hs: seq<nat>, u: nat, pos: nat, i: nat) {
    u < pos <= |hs| && hs[u] > i && forall m :: u < m < pos ==> hs[m] <= i
  }

  function At(list: seq<SkNode>, j: nat): SkNode? {
    if j < |list| then list[j] else null
  }

  /** Following `forward[i]` from any node of level i leads to the next node of level i. */
  ghost predicate LevelLinked(list: seq<SkNode>, hs: seq<nat>, i: nat)
    requires |list| == |hs|
    reads list`forward
  {
    forall k :: 0 <= k < |list| && hs[k] > i ==>
      |list[k].forward| > i && list[k].forward[i] == At(list, Next(hs, k, i))
  }

  function Insert<T>(s: seq<T>, pos: nat, x: T): seq<T>
    requires pos <= |s|
  {
    s[..pos] + [x] + s[pos..]
  }

  function Remove<T>(s: seq<T>, pos: nat): seq<T>
    requires pos < |s|
  {
    s[..pos] + s[pos + 1..]
  }

  /** How `Next` moves when a position is inserted. */
  lemma NextInsert(hs: seq<nat>, pos: nat, h: nat, i: nat, k: nat)
    requires 0 < pos <= |hs| && k < |hs|
    ensures var hs', n := Insert(hs, pos, h), Next(hs, k, i);
      Next(hs', if k < pos then k else k + 1, i) ==
        if k < pos && n >= pos && h > i then pos
        else if n < pos then n else n + 1
  {
    var hs', n := Insert(hs, pos, h), Next(hs, k, i);
    var k' := if k < pos then k else k + 1;
    var n' := if k < pos && n >= pos && h > i then pos else if n < pos then n else n + 1;
    forall m | 0 <= m < |hs'| ensures hs'[m] == if m < pos then hs[m] else if m == pos then h else hs[m - 1] { }
    NextIs(hs', k', i, n');
  }

  /** The new position continues where its predecessor on the level led. */
  lemma NextOfInserted(hs: seq<nat>, pos: nat, h: nat, i: nat, u: nat)
    requires Precedes(hs, u, pos, i)
    ensures Next(hs, u, i) >= pos
    ensures Next(Insert(hs, pos, h), pos, i) == Next(hs, u, i) + 1
  {
    var hs', n := Insert(hs, pos, h), Next(hs, u, i);
    forall m | 0 <= m < |hs'| ensures hs'[m] == if m < pos then hs[m] else if m == pos then h else hs[m - 1] { }
    NextIs(hs', pos, i, n + 1);
  }

  ghost predicate KeysSorted(list: seq<SkNode>)
    reads list`key
  {
    forall j, k :: 0 < j < k < |list| ==> Strcmp(list[j].key, list[k].key) < 0
  }

  lemma AtInsert(list: seq<SkNode>, pos: nat, node: SkNode, j: nat)
    requires pos <= |list|
    ensures At(Insert(list, pos, node), j) ==
      if j < pos then At(list, j) else if j == pos then node else At(list, j - 1)
  {
  }

  lemma AtRemove(list: seq<SkNode>, pos: nat, j: nat)
    requires pos < |list|
    ensures At(Remove(list, pos), j) == if j < pos then At(list, j) else At(list, j + 1)
  {
  }

  /** Between two nodes of the level there is none: a node other than `u` leads before `pos` or is behind it. */
  lemma LeadsBefore(hs: seq<nat>, u: nat, pos: nat, i: nat, k: nat)
    requires Precedes(hs, u, pos, i) && k < |hs| && hs[k] > i && k != u
    ensures k >= pos || Next(hs, k, i) < pos
  {
    if k < pos {
      assert k < u;
    }
  }

  /** A link that does not cross the inserted position still leads to the next node of its level. */
  lemma LinkKept(list: seq<SkNode>, hs: seq<nat>, node: SkNode, h: nat, pos: nat, i: nat, k: nat)
    requires |list| == |hs| && 0 < pos <= |list| && k < |list|
    requires k >= pos || Next(hs, k, i) < pos || h <= i
    ensures At(Insert(list, pos, node), Next(Insert(hs, pos, h), if k < pos then k else k + 1, i)) == At(list, Next(hs, k, i))
  {
    NextInsert(hs, pos, h, i, k);
    AtInsert(list, pos, node, Next(Insert(hs, pos, h), if k < pos then k else k + 1, i));
  }

  lemma InsertedAt<T>(s: seq<T>, pos: nat, x: T, j: nat)
    requires pos <= |s| && j <= |s|
    ensures |Insert(s, pos, x)| == |s| + 1
    ensures Insert(s, pos, x)[j] == if j < pos then s[j] else if j == pos then x else s[j - 1]
  {
  }

  lemma InsertedIn<T>(s: seq<T>, pos: nat, x: T)
    requires pos <= |s|
    ensures forall y :: y in Insert(s, pos, x) <==> y in s || y == x
  {
    assert s == s[..pos] + s[pos..];
  }

  lemma RemovedAt<T>(s: seq<T>, pos: nat, k: nat)
    requires pos < |s| && k < |s| - 1
    ensures k < |Remove(s, pos)| && Remove(s, pos)[k] == s[if k < pos then k else k + 1]
  {
  }

  lemma RemovedLength<T>(s: seq<T>, pos: nat)
    requires pos < |s|
    ensures |Remove(s, pos)| == |s| - 1
  {
  }

  lemma StillLow(hs: seq<nat>, pos: nat, h: nat)
    requires pos < |hs| && forall k :: 0 < k < |hs| ==> hs[k] <= h
    ensures var s := Remove(hs, pos); forall k :: 0 < k < |s| ==> s[k] <= h
  {
  }

  lemma RemovedIn<T>(s: seq<T>, pos: nat)
    requires pos < |s|
    ensures forall y :: y in Remove(s, pos) ==> y in s
    ensures forall y :: y in s ==> y in Remove(s, pos) || y == s[pos]
    ensures NoDuplicates(s) ==> s[pos] !in Remove(s, pos)
  {
    assert s == s[..pos] + [s[pos]] + s[pos + 1..];
  }

  /** The links into and out of the new node. */
  lemma LinksOfNew(list: seq<SkNode>, hs: seq<nat>, node: SkNode, h: nat, pos: nat, u: nat, i: nat)
    requires |list| == |hs| && 0 < pos && i < h && Precedes(hs, u, pos, i)
    ensures At(Insert(list, pos, node), Next(Insert(hs, pos, h), u, i)) == node
    ensures At(Insert(list, pos, node), Next(Insert(hs, pos, h), pos, i)) == At(list, Next(hs, u, i))
  {
    hide Next, Insert;
    InsertedAt(list, pos, node, 0);
    InsertedAt(hs, pos, h, 0);
    NextOfInserted(hs, pos, h, i, u);
    NextInsert(hs, pos, h, i, u);
    AtInsert(list, pos, node, Next(hs, u, i) + 1);
    AtInsert(list, pos, node, pos);
  }

  /**
   One level after `node` has been linked in behind position `u`: every other link of the
   level is as before.
   */
  lemma {:induction false} LevelWithNode(list: seq<SkNode>, hs: seq<nat>, node: SkNode, h: nat, pos: nat, u: nat, i: nat)
    requires |list| == |hs| && 0 < pos && i < h && Precedes(hs, u, pos, i)
    requires forall k :: 0 <= k < |list| && hs[k] > i && k != u ==>
      |list[k].forward| > i && list[k].forward[i] == At(list, Next(hs, k, i))
    requires |list[u].forward| > i && list[u].forward[i] == node
    requires |node.forward| > i && node.forward[i] == At(list, Next(hs, u, i))
    ensures LevelLinked(Insert(list, pos, node), Insert(hs, pos, h), i)
  {
    hide Next, At, Insert;
    var list', hs' := Insert(list, pos, node), Insert(hs, pos, h);
    InsertedAt(list, pos, node, 0);
    InsertedAt(hs, pos, h, 0);
    forall k' | 0 <= k' < |list'| && hs'[k'] > i
      ensures |list'[k'].forward| > i && list'[k'].forward[i] == At(list', Next(hs', k', i))
    {
      InsertedAt(hs, pos, h, k');
      LevelWithNodeAt(list, hs, node, h, pos, u, i, k');
    }
  }

  lemma LevelWithNodeAt(list: seq<SkNode>, hs: seq<nat>, node: SkNode, h: nat, pos: nat, u: nat, i: nat, k': nat)
    requires |list| == |hs| && 0 < pos && i < h && Precedes(hs, u, pos, i) && k' <= |list|
    requires k' == pos || hs[if k' < pos then k' else k' - 1] > i
    requires k' != pos && k' != u ==> var k := if k' < pos then k' else k' - 1;
      |list[k].forward| > i && list[k].forward[i] == At(list, Next(hs, k, i))
    requires |list[u].forward| > i && list[u].forward[i] == node
    requires |node.forward| > i && node.forward[i] == At(list, Next(hs, u, i))
    ensures var l, s := Insert(list, pos, node), Insert(hs, pos, h);
      k' < |l| && k' < |s| && |l[k'].forward| > i && l[k'].forward[i] == At(l, Next(s, k', i))
  {
    hide Next, At, Insert;
    InsertedAt(list, pos, node, k');
    InsertedAt(hs, pos, h, k');
    if k' == pos || k' == u {
      LinksOfNew(list, hs, node, h, pos, u, i);
    } else {
      var k := if k' < pos then k' else k' - 1;
      LeadsBefore(hs, u, pos, i, k);
      LinkKept(list, hs, node, h, pos, i, k);
    }
  }

  /** A level above the height of the inserted node keeps its links. */
  lemma LevelAboveNode(list: seq<SkNode>, hs: seq<nat>, node: SkNode, h: nat, pos: nat, i: nat)
    requires |list| == |hs| && 0 < pos <= |list| && h <= i && LevelLinked(list, hs, i)
    ensures LevelLinked(Insert(list, pos, node), Insert(hs, pos, h), i)
  {
    hide Next, At;
    var list', hs' := Insert(list, pos, node), Insert(hs, pos, h);
    forall k' | 0 <= k' < |list'| && hs'[k'] > i
      ensures |list'[k'].forward| > i && list'[k'].forward[i] == At(list', Next(hs', k', i))
    {
      var k := if k' < pos then k' else k' - 1;
      assert list'[k'] == list[k] && hs'[k'] == hs[k];
      LinkKept(list, hs, node, h, pos, i, k);
    }
  }

  /** How `Next` moves when a position is removed. */
  lemma NextRemove(hs: seq<nat>, pos: nat, i: nat, k: nat)
    requires 0 < pos < |hs| && k < |hs| && k != pos
    ensures var hs', n := Remove(hs, pos), Next(hs, k, i);
      Next(hs', if k < pos then k else k - 1, i) ==
        if n < pos then n else if n == pos then Next(hs, pos, i) - 1 else n - 1
  {
    var hs', n := Remove(hs, pos), Next(hs, k, i);
    var k' := if k < pos then k else k - 1;
    var n' := if n < pos then n else if n == pos then Next(hs, pos, i) - 1 else n - 1;
    forall m | 0 <= m < |hs'| ensures hs'[m] == if m < pos then hs[m] else hs[m + 1] { }
    NextIs(hs', k', i, n');
  }

  /** The links into and out of a removed position are composed, the others kept. */
  lemma LinkComposed(list: seq<SkNode>, hs: seq<nat>, pos: nat, i: nat, k: nat)
    requires |list| == |hs| && 0 < pos < |list| && k < |list| && k != pos
    ensures At(Remove(list, pos), Next(Remove(hs, pos), if k < pos then k else k - 1, i)) ==
      At(list, if Next(hs, k, i) == pos then Next(hs, pos, i) else Next(hs, k, i))
  {
    NextRemove(hs, pos, i, k);
    AtRemove(list, pos, Next(Remove(hs, pos), if k < pos then k else k - 1, i));
  }

  lemma NextOfPred(hs: seq<nat>, u: nat, pos: nat, i: nat)
    requires Precedes(hs, u, pos, i) && pos < |hs|
    ensures Next(hs, u, i) == pos <==> hs[pos] > i
  {
    if hs[pos] > i { NextIs(hs, u, i, pos); }
  }

  /** One level after the node at `pos` has been bypassed, if it was on that level at all. */
  lemma {:induction false} LevelWithoutNode(list: seq<SkNode>, hs: seq<nat>, pos: nat, u: nat, i: nat)
    requires |list| == |hs| && 0 < pos < |list| && Precedes(hs, u, pos, i)
    requires forall k :: 0 <= k < |list| && hs[k] > i && k != u ==>
      |list[k].forward| > i && list[k].forward[i] == At(list, Next(hs, k, i))
    requires |list[u].forward| > i
    requires list[u].forward[i] == At(list, if hs[pos] > i then Next(hs, pos, i) else Next(hs, u, i))
    ensures LevelLinked(Remove(list, pos), Remove(hs, pos), i)
  {
    hide Next, At, Remove;
    var list', hs' := Remove(list, pos), Remove(hs, pos);
    RemovedLength(list, pos);
    RemovedLength(hs, pos);
    forall k' | 0 <= k' < |list'| && hs'[k'] > i
      ensures |list'[k'].forward| > i && list'[k'].forward[i] == At(list', Next(hs', k', i))
    {
      RemovedAt(hs, pos, k');
      LevelWithoutNodeAt(list, hs, pos, u, i, k');
    }
  }

  lemma LevelWithoutNodeAt(list: seq<SkNode>, hs: seq<nat>, pos: nat, u: nat, i: nat, k': nat)
    requires |list| == |hs| && 0 < pos < |list| && Precedes(hs, u, pos, i) && k' < |list| - 1
    requires hs[if k' < pos then k' else k' + 1] > i
    requires k' != u ==> var k := if k' < pos then k' else k' + 1;
      |list[k].forward| > i && list[k].forward[i] == At(list, Next(hs, k, i))
    requires |list[u].forward| > i
    requires list[u].forward[i] == At(list, if hs[pos] > i then Next(hs, pos, i) else Next(hs, u, i))
    ensures var l, s := Remove(list, pos), Remove(hs, pos);
      k' < |l| && k' < |s| && |l[k'].forward| > i && l[k'].forward[i] == At(l, Next(s, k', i))
  {
    hide Next, At, Remove;
    var k := if k' < pos then k' else k' + 1;
    RemovedAt(list, pos, k');
    RemovedAt(hs, pos, k');
    NextOfPred(hs, u, pos, i);
    LinkComposed(list, hs, pos, i, k);
    if k != u {
      LeadsBefore(hs, u, pos, i, k);
      StaysBehind(hs, k, i);
    }
  }

  lemma StaysBehind(hs: seq<nat>, k: nat, i: nat)
    requires k < |hs|
    ensures Next(hs, k, i) > k
  {
  }

  // ---------- what following one level's links visits ----------

  /** The nodes from position `k` on that are higher than `i`. */
  ghost function Higher(list: seq<SkNode>, hs: seq<nat>, k: nat, i: nat): seq<SkNode>
    requires |list| == |hs|
    decreases |list| - k
  {
    if k >= |list| then []
    else (if hs[k] > i then [list[k]] else []) + Higher(list, hs, k + 1, i)
  }

  /** The links `forward[i]` from `p` on visit exactly `s` and end in null. */
  ghost predicate Chain(p: SkNode?, s: seq<SkNode>, i: nat)
    reads s`forward
    decreases |s|
  {
    if s == [] then p == null
    else p == s[0] && |s[0].forward| > i && Chain(s[0].forward[i], s[1..], i)
  }

  ghost predicate Subsequence<T>(a: seq<T>, b: seq<T>) {
    a == [] || (b != [] && ((a[0] == b[0] && Subsequence(a[1..], b[1..])) || Subsequence(a, b[1..])))
  }

  lemma {:induction false} HigherSkips(list: seq<SkNode>, hs: seq<nat>, k: nat, i: nat)
    requires |list| == |hs| && k < |list|
    ensures Higher(list, hs, k + 1, i) == Higher(list, hs, Next(hs, k, i), i)
    decreases |list| - k
  {
    if k + 1 < |list| && hs[k + 1] <= i {
      HigherSkips(list, hs, k + 1, i);
    }
  }

  lemma {:induction false} LevelIsChain(list: seq<SkNode>, hs: seq<nat>, k: nat, i: nat)
    requires |list| == |hs| && LevelLinked(list, hs, i) && k <= |list| && (k < |list| ==> hs[k] > i)
    ensures Chain(At(list, k), Higher(list, hs, k, i), i)
    decreases |list| - k
  {
    if k < |list| {
      HigherSkips(list, hs, k, i);
      LevelIsChain(list, hs, Next(hs, k, i), i);
      assert Higher(list, hs, k, i)[1..] == Higher(list, hs, k + 1, i);
    }
  }

  lemma {:induction false} HigherIsSubsequence(list: seq<SkNode>, hs: seq<nat>, k: nat, i: nat)
    requires |list| == |hs|
    ensures Subsequence(Higher(list, hs, k, i + 1), Higher(list, hs, k, i))
    decreases |list| - k
  {
    if k < |list| {
      HigherIsSubsequence(list, hs, k + 1, i);
      var low, high := Higher(list, hs, k, i), Higher(list, hs, k, i + 1);
      assert (if hs[k] > i then low[1..] else low) == Higher(list, hs, k + 1, i);
      assert (if hs[k] > i + 1 then high[1..] else high) == Higher(list, hs, k + 1, i + 1);
    }
  }

  /** Each element of a level comes from a position of the list, in the same order. */
  lemma {:induction false} HigherFrom(list: seq<SkNode>, hs: seq<nat>, k: nat, i: nat, j: nat) returns (at: nat)
    requires |list| == |hs| && j < |Higher(list, hs, k, i)|
    ensures k <= at < |list| && Higher(list, hs, k, i)[j] == list[at] && hs[at] > i
    decreases |list| - k
  {
    if hs[k] > i && j == 0 {
      at := k;
    } else {
      at := HigherFrom(list, hs, k + 1, i, if hs[k] > i then j - 1 else j);
    }
  }

  lemma {:induction false} HigherSorted(list: seq<SkNode>, hs: seq<nat>, k: nat, i: nat)
    requires |list| == |hs| && KeysSorted(list) && k > 0
    ensures SortedNodes(Higher(list, hs, k, i))
    decreases |list| - k
  {
    if k < |list| {
      hide KeysSorted;
      HigherSorted(list, hs, k + 1, i);
      var s, rest := Higher(list, hs, k, i), Higher(list, hs, k + 1, i);
      if hs[k] > i {
        forall m | 0 < m < |s| ensures Strcmp(s[0].key, s[m].key) < 0 {
          var at := HigherFrom(list, hs, k + 1, i, m - 1);
          SortedPair(list, k, at);
        }
      }
    }
  }

  lemma SortedPair(list: seq<SkNode>, j: nat, k: nat)
    requires KeysSorted(list) && 0 < j < k < |list|
    ensures Strcmp(list[j].key, list[k].key) < 0
  {
  }

  ghost predicate SortedNodes(s: seq<SkNode>)
    reads s`key
  {
    forall j, k :: 0 <= j < k < |s| ==> Strcmp(s[j].key, s[k].key) < 0
  }

  ghost function BindingsOf(s: seq<SkNode>): (bs: seq<Binding>)
    reads s`key, s`value
    ensures |bs| == |s|
    ensures forall i :: 0 <= i < |s| ==> bs[i] == Binding(s[i].key, s[i].value)
  {
    if s == [] then [] else [Binding(s[0].key, s[0].value)] + BindingsOf(s[1..])
  }

  lemma LinksOf(list: seq<SkNode>, hs: seq<nat>, i: nat)
    requires |list| == |hs| && LevelLinked(list, hs, i)
    ensures forall k :: 0 <= k < |list| && hs[k] > i ==>
      |list[k].forward| > i && list[k].forward[i] == At(list, Next(hs, k, i))
  {
  }

  /** Every node is still in the list or has been freed, and freed once. */
  ghost predicate Partitioned(all: seq<SkNode>, list: seq<SkNode>, freed: seq<SkNode>) {
    && NoDuplicates(list) && NoDuplicates(freed)
    && (forall n :: n in all ==> n in list || n in freed)
    && (forall n :: n in list ==> n in all)
    && (forall n :: n in freed ==> n in all && n !in list)
  }

  lemma NoneFreed(list: seq<SkNode>)
    requires NoDuplicates(list)
    ensures Partitioned(list, list, [])
  {
  }

  lemma StillThere(all: seq<SkNode>, list: seq<SkNode>, freed: seq<SkNode>)
    requires Partitioned(all, list, freed)
    ensures forall n :: n in list ==> n in all
    ensures forall k :: 0 <= k < |list| ==> list[k] in all
  {
  }

  lemma PartitionMoves(all: seq<SkNode>, freed: seq<SkNode>, before: seq<SkNode>, pos: nat)
    requires pos < |before| && Partitioned(all, before, freed) && NoDuplicates(Remove(before, pos))
    ensures Partitioned(all, Remove(before, pos), freed + [before[pos]])
  {
    hide Remove;
    RemovedIn(before, pos);
    var freed' := freed + [before[pos]];
    assert forall n :: n in freed' ==> n in freed || n == before[pos];
    forall i, j | 0 <= i < j < |freed'| ensures freed'[i] != freed'[j] {
      assert freed'[i] == freed[i] && freed[i] in freed;
      assert j < |freed| ==> freed'[j] == freed[j];
    }
  }

  /** One assignment `p->forward[i] = q`: no other level of the two lists given can tell. */
  method Relink(p: SkNode, i: nat, q: SkNode?, ghost l: seq<SkNode>, ghost s: seq<nat>, ghost l2: seq<SkNode>, ghost s2: seq<nat>)
    requires i < |p.forward| && |l| == |s| && |l2| == |s2|
    modifies p`forward
    ensures p.forward == old(p.forward)[i := q]
    ensures forall j: nat :: j != i && old(LevelLinked(l, s, j)) ==> LevelLinked(l, s, j)
    ensures forall j: nat :: j != i && old(LevelLinked(l2, s2, j)) ==> LevelLinked(l2, s2, j)
  {
    hide Next, At;
    p.forward := p.forward[i := q];
  }

  class SkipList {
    var level: nat
    var header: SkNode
    var nbElements: int
    ghost var list: seq<SkNode>
    ghost var hs: seq<nat>
    ghost var overwrites: nat

    /** `init_skiptable`, with the counter of a zeroed global. */
    constructor ()
      ensures Valid() && fresh(header) && list == [header] && nbElements == 0 && overwrites == 0
    {
      var node := new SkNode([], [], MAX_LEVEL);
      level, header, nbElements := 1, node, 0;
      list, hs, overwrites := [node], [MAX_LEVEL], 0;
    }

    ghost predicate Shaped()
      reads `level, `header, `list, `hs, list`forward
    {
      && |list| == |hs| > 0 && list[0] == header && hs[0] == MAX_LEVEL
      && NoDuplicates(list)
      && 1 <= level <= MAX_LEVEL
      && (forall k :: 0 <= k < |list| ==> |list[k].forward| == hs[k] && 1 <= hs[k] <= MAX_LEVEL)
      && (forall k :: 0 < k < |list| ==> hs[k] <= level)
    }

    ghost predicate Valid()
      reads this, list
    {
      Indexed() && nbElements == |list| - 1 + overwrites
    }

    /** The nodes of level `i`, in order. */
    ghost function Level(i: nat): seq<SkNode>
      requires |list| == |hs|
      reads `list, `hs
    {
      Higher(list, hs, 1, i)
    }

    /**
     The links of every level visit strictly sorted nodes, each level a subsequence of the one
     below it, level 0 all of them; no node is visited on a level beyond its own height.
     */
    lemma Levels(i: nat)
      requires Indexed() && i < MAX_LEVEL
      ensures Chain(header.forward[i], Level(i), i) && SortedNodes(Level(i))
      ensures Subsequence(Level(i + 1), Level(i))
      ensures Level(0) == list[1..]
    {
      hide KeysSorted, Strcmp;
      Link(0, i);
      HigherSkips(list, hs, 0, i);
      LevelIsChain(list, hs, Next(hs, 0, i), i);
      HigherSorted(list, hs, 1, i);
      HigherIsSubsequence(list, hs, 1, i);
      AllOnLevel0(1);
    }

    lemma {:induction false} AllOnLevel0(k: nat)
      requires Shaped() && 0 < k <= |list|
      ensures Higher(list, hs, k, 0) == list[k..]
      decreases |list| - k
    {
      if k < |list| {
        AllOnLevel0(k + 1);
      }
    }

    lemma Link(at: nat, i: nat)
      requires Shaped() && at < |list| && i < hs[at] && LevelLinked(list, hs, i)
      ensures list[at].forward[i] == At(list, Next(hs, at, i))
    {
    }

    /** Along one level, as long as the next key is smaller. */
    method Advance(q: SkNode, key: CString, i: nat, ghost from: nat, ghost hi: nat) returns (p: SkNode, ghost at: nat)
      requires Shaped() && KeysSorted(list) && LevelLinked(list, hs, i)
      requires from < hi <= |list| && q == list[from] && hs[from] > i
      requires forall m :: 0 < m <= from ==> Strcmp(list[m].key, key) < 0
      requires forall m :: hi <= m < |list| ==> Strcmp(list[m].key, key) >= 0
      ensures from <= at < hi && p == list[at] && hs[at] > i
      ensures forall m :: 0 < m <= at ==> Strcmp(list[m].key, key) < 0
      ensures forall m :: Next(hs, at, i) <= m < |list| ==> Strcmp(list[m].key, key) >= 0
    {
      hide LevelLinked, KeysSorted;
      p, at := q, from;
      Link(at, i);
      while p.forward[i] != null && Strcmp(p.forward[i].key, key) < 0
        invariant from <= at < hi && p == list[at] && hs[at] > i
        invariant p.forward[i] == At(list, Next(hs, at, i))
        invariant forall m :: 0 < m <= at ==> Strcmp(list[m].key, key) < 0
        decreases |list| - at
      {
        ghost var next := Next(hs, at, i);
        BelowTo(next, key);
        p := p.forward[i];
        at := next;
        Link(at, i);
      }
      if Next(hs, at, i) < |list| {
        OverFromHere(Next(hs, at, i), key);
      }
    }

    /** Where the three operations start: the last node of each level before the key. */
    method Descend(key: CString) returns (p: SkNode, update: seq<SkNode>, ghost us: seq<nat>, ghost pos: nat)
      requires Shaped() && KeysSorted(list) && forall i :: 0 <= i < level ==> LevelLinked(list, hs, i)
      ensures 0 < pos <= |list| && p == list[pos - 1]
      ensures |update| == MAX_LEVEL && |us| == level
      ensures forall i :: 0 <= i < level ==> us[i] < pos && Precedes(hs, us[i], pos, i) && update[i] == list[us[i]]
      ensures forall m :: 0 < m < pos ==> Strcmp(list[m].key, key) < 0
      ensures forall m :: pos <= m < |list| ==> Strcmp(list[m].key, key) >= 0
    {
      hide LevelLinked, KeysSorted, NoDuplicates;
      p := header;
      var top := p;
      update, us := seq(MAX_LEVEL, i => top), seq(level, i => 0);
      ghost var at: nat, hi: nat := 0, |list|;
      for i := level downto 0
        invariant at < hi <= |list| && p == list[at]
        invariant hs[at] >= i && |update| == MAX_LEVEL && |us| == level
        invariant forall m :: 0 < m <= at ==> Strcmp(list[m].key, key) < 0
        invariant forall m :: hi <= m < |list| ==> Strcmp(list[m].key, key) >= 0
        invariant forall j :: i <= j < level ==> us[j] <= at && Precedes(hs, us[j], hi, j) && update[j] == list[us[j]]
        invariant i == 0 ==> hi == at + 1
      {
        p, at := Advance(p, key, i, at, hi);
        ghost var next := Next(hs, at, i);
        hi := if next < hi then next else hi;
        update := update[i := p];
        us := us[i := at];
      }
      pos := hi;
    }

    lemma BelowTo(next: nat, key: CString)
      requires KeysSorted(list) && 0 < next < |list| && Strcmp(list[next].key, key) < 0
      ensures forall m :: 0 < m <= next ==> Strcmp(list[m].key, key) < 0
    {
      forall m | 0 < m < next ensures Strcmp(list[m].key, key) < 0 {
        StrcmpTransitive(list[m].key, list[next].key, key);
      }
    }

    lemma OverFromHere(next: nat, key: CString)
      requires KeysSorted(list) && 0 < next < |list| && Strcmp(list[next].key, key) >= 0
      ensures forall m :: next <= m < |list| ==> Strcmp(list[m].key, key) >= 0
    {
      forall m | next < m < |list| ensures Strcmp(list[m].key, key) >= 0 {
        StrcmpAntisymmetric(list[m].key, key);
        StrcmpAntisymmetric(list[next].key, key);
        if Strcmp(list[m].key, key) < 0 {
          StrcmpTransitive(list[next].key, list[m].key, key);
        }
      }
    }

    /** All that the links and keys promise, the counter apart. */
    ghost predicate Indexed()
      reads `level, `header, `list, `hs, list`forward, list`key
    {
      && Shaped()
      && KeysSorted(list)
      && (forall i :: 0 <= i < MAX_LEVEL ==> LevelLinked(list, hs, i))
    }

    /** The bindings in the order of level 0. */
    ghost function Contents(): seq<Binding>
      requires |list| > 0
      reads `list, list`key, list`value
    {
      BindingsOf(list[1..])
    }

    ghost function Map(): map<CString, CString>
      requires |list| > 0
      reads `list, list`key, list`value
    {
      AsMap(Contents())
    }

    lemma MapFacts()
      requires |list| > 0 && KeysSorted(list)
      ensures DistinctKeys(Contents()) && |Map()| == |list| - 1
    {
      hide Strcmp, BindingsOf;
      assert SortedByKey(Contents());
      SortedIsDistinct(Contents());
      AsMapSize(Contents());
    }

    /** The position a descent ends at holds the key, or no position does. */
    lemma Decided(key: CString, pos: nat)
      requires KeysSorted(list) && 0 < pos <= |list|
      requires forall m :: 0 < m < pos ==> Strcmp(list[m].key, key) < 0
      requires forall m :: pos <= m < |list| ==> Strcmp(list[m].key, key) >= 0
      ensures key in Map() <==> pos < |list| && list[pos].key == key
      ensures key in Map() ==> Map()[key] == list[pos].value
    {
      hide First, BindingsOf, Strcmp, AsMap;
      var bs := Contents();
      assert SortedByKey(bs);
      Located(bs, key, pos - 1);
    }

    /** `find`. */
    method Find(key: CString) returns (value: CharPtr)
      requires Indexed()
      ensures value == if key in Map() then Ptr(Map()[key]) else Null
    {
      hide LevelLinked, KeysSorted, NoDuplicates, AsMap, BindingsOf;
      var p, update;
      ghost var us, pos;
      p, update, us, pos := Descend(key);
      Decided(key, pos);
      Level0(pos - 1);
      if p.forward[0] != null && Strcmp(p.forward[0].key, key) == 0 {
        StrcmpZero(p.forward[0].key, key);
        return Ptr(p.forward[0].value);
      }
      if p.forward[0] != null { StrcmpZero(p.forward[0].key, key); }
      value := Null;
    }

    /** Every node is on level 0. */
    lemma Level0(at: nat)
      requires Shaped() && LevelLinked(list, hs, 0) && at < |list|
      ensures list[at].forward[0] == At(list, at + 1)
    {
      NextIs(hs, at, 0, at + 1);
    }

    /** `while (rand() % 2 && level < MAX_LEVEL)`, for every run of coin tosses. */
    method RandomLevel() returns (h: nat)
      ensures 1 <= h <= 6
    {
      h := 1;
      var coin: bool := *;
      while coin && h < MAX_LEVEL
        invariant 1 <= h <= MAX_LEVEL
      {
        h := h + 1;
        coin := *;
      }
    }

    /** Links `node` in behind `p` on level `i`; no other level notices. */
    method LinkLevel(p: SkNode, node: SkNode, i: nat, ghost u: nat, ghost pos: nat, ghost h: nat)
      requires |list| == |hs| && node !in list && NoDuplicates(list)
      requires 0 < pos && Precedes(hs, u, pos, i) && p == list[u]
      requires |node.forward| == h > i && LevelLinked(list, hs, i)
      modifies p`forward, node`forward
      ensures |node.forward| == h && |p.forward| == old(|p.forward|)
      ensures LevelLinked(Insert(list, pos, node), Insert(hs, pos, h), i)
      ensures forall j :: 0 <= j < MAX_LEVEL && j != i && old(LevelLinked(list, hs, j)) ==> LevelLinked(list, hs, j)
      ensures forall j :: 0 <= j < MAX_LEVEL && j != i && old(LevelLinked(Insert(list, pos, node), Insert(hs, pos, h), j)) ==>
        LevelLinked(Insert(list, pos, node), Insert(hs, pos, h), j)
    {
      hide Next, At, Insert, LevelLinked, NoDuplicates;
      InsertedAt(list, pos, node, 0);
      InsertedAt(hs, pos, h, 0);
      ghost var l, s := Insert(list, pos, node), Insert(hs, pos, h);
      LinksOf(list, hs, i);
      assert p != node && forall k :: 0 <= k < |list| && k != u ==> list[k] != p by { DistinctFrom(list, u); }
      Relink(node, i, p.forward[i], list, hs, l, s);
      Relink(p, i, node, list, hs, l, s);
      LevelWithNode(list, hs, node, h, pos, u, i);
    }

    lemma ShapedInsert(node: SkNode, h: nat, pos: nat)
      requires Shaped() && node !in list && 0 < pos <= |list| && |node.forward| == h && 1 <= h <= level
      ensures var l, s := Insert(list, pos, node), Insert(hs, pos, h);
        && |l| == |s| > 0 && l[0] == header && s[0] == MAX_LEVEL && NoDuplicates(l)
        && (forall k :: 0 <= k < |l| ==> |l[k].forward| == s[k] && 1 <= s[k] <= MAX_LEVEL)
        && (forall k :: 0 < k < |l| ==> s[k] <= level)
    {
      var l, s := Insert(list, pos, node), Insert(hs, pos, h);
      forall j | 0 <= j < |l|
        ensures l[j] == if j < pos then list[j] else if j == pos then node else list[j - 1]
        ensures s[j] == if j < pos then hs[j] else if j == pos then h else hs[j - 1] { }
    }

    lemma SortedInsert(node: SkNode, pos: nat)
      requires KeysSorted(list) && 0 < pos <= |list|
      requires forall m :: 0 < m < pos ==> Strcmp(list[m].key, node.key) < 0
      requires forall m :: pos <= m < |list| ==> Strcmp(list[m].key, node.key) > 0
      ensures KeysSorted(Insert(list, pos, node))
    {
      hide Strcmp;
      var l := Insert(list, pos, node);
      forall j | 0 <= j < |l|
        ensures l[j] == if j < pos then list[j] else if j == pos then node else list[j - 1] { }
      forall m | pos <= m < |list| ensures Strcmp(node.key, list[m].key) < 0 {
        StrcmpAntisymmetric(list[m].key, node.key);
      }
    }

    /** The loop that links the new node in on each of its levels. */
    method LinkLevels(node: SkNode, update: seq<SkNode>, h: nat, ghost us: seq<nat>, ghost pos: nat)
      requires Shaped() && (forall i :: 0 <= i < MAX_LEVEL ==> LevelLinked(list, hs, i))
      requires node !in list && |node.forward| == h && 1 <= h <= level
      requires 0 < pos <= |list| && |update| == MAX_LEVEL && |us| >= h
      requires forall i :: 0 <= i < h ==> us[i] < pos && Precedes(hs, us[i], pos, i) && update[i] == list[us[i]]
      modifies list`forward, node`forward
      ensures Shaped() && |node.forward| == h
      ensures |Insert(list, pos, node)| == |Insert(hs, pos, h)|
      ensures forall i :: 0 <= i < MAX_LEVEL ==> LevelLinked(Insert(list, pos, node), Insert(hs, pos, h), i)
    {
      hide LevelLinked, Precedes, Insert, NoDuplicates;
      ghost var l, s := Insert(list, pos, node), Insert(hs, pos, h);
      InsertedAt(list, pos, node, 0);
      InsertedAt(hs, pos, h, 0);
      for i := 0 to h
        invariant Shaped() && |node.forward| == h
        invariant forall j :: 0 <= j < i ==> LevelLinked(l, s, j)
        invariant forall j :: i <= j < MAX_LEVEL ==> LevelLinked(list, hs, j)
        modifies list`forward, node`forward
      {
        assert update[i] in list;
        LinkLevel(update[i], node, i, us[i], pos, h);
      }
      forall j | h <= j < MAX_LEVEL ensures LevelLinked(l, s, j) {
        LevelAboveNode(list, hs, node, h, pos, j);
      }
    }

    method LinkIn(node: SkNode, update: seq<SkNode>, h: nat, ghost us: seq<nat>, ghost pos: nat)
      requires Indexed() && node !in list && |node.forward| == h && 1 <= h <= level
      requires 0 < pos <= |list| && |update| == MAX_LEVEL && |us| >= h
      requires forall i :: 0 <= i < h ==> us[i] < pos && Precedes(hs, us[i], pos, i) && update[i] == list[us[i]]
      requires forall m :: 0 < m < pos ==> Strcmp(list[m].key, node.key) < 0
      requires forall m :: pos <= m < |list| ==> Strcmp(list[m].key, node.key) > 0
      modifies list`forward, node`forward, `list, `hs
      ensures Indexed() && list == Insert(old(list), pos, node) && hs == Insert(old(hs), pos, h)
    {
      hide LevelLinked, Precedes, KeysSorted, Insert, NoDuplicates, Strcmp;
      LinkLevels(node, update, h, us, pos);
      ShapedInsert(node, h, pos);
      SortedInsert(node, pos);
      Relist(Insert(list, pos, node), Insert(hs, pos, h));
    }

    /** The node sequence catches up with the links. */
    ghost method Relist(l: seq<SkNode>, s: seq<nat>)
      requires |l| == |s| > 0 && l[0] == header && s[0] == MAX_LEVEL && NoDuplicates(l) && KeysSorted(l)
      requires 1 <= level <= MAX_LEVEL
      requires forall k :: 0 <= k < |l| ==> |l[k].forward| == s[k] && 1 <= s[k] <= MAX_LEVEL
      requires forall k :: 0 < k < |l| ==> s[k] <= level
      requires forall i :: 0 <= i < MAX_LEVEL ==> LevelLinked(l, s, i)
      modifies `list, `hs
      ensures list == l && hs == s && Indexed()
    {
      hide LevelLinked, KeysSorted, NoDuplicates, Strcmp;
      list, hs := l, s;
    }

    /** A level no node has reached yet starts at the header. */
    lemma EmptyLevel(pos: nat, i: nat)
      requires Shaped() && 0 < pos <= |list| && level <= i < MAX_LEVEL
      ensures Precedes(hs, 0, pos, i)
    {
    }

    /** Raises the list to the height of a new node: the levels added start at the header. */
    method Grow(up: seq<SkNode>, h: nat, ghost us0: seq<nat>, ghost pos: nat) returns (update: seq<SkNode>, ghost us: seq<nat>)
      requires Shaped() && 0 < pos <= |list| && h <= MAX_LEVEL && |up| == MAX_LEVEL && |us0| == level
      requires forall i :: 0 <= i < level ==> us0[i] < pos && Precedes(hs, us0[i], pos, i) && up[i] == list[us0[i]]
      modifies `level
      ensures Shaped() && h <= level && |update| == MAX_LEVEL && |us| == level
      ensures forall i :: 0 <= i < level ==> us[i] < pos && Precedes(hs, us[i], pos, i) && update[i] == list[us[i]]
    {
      hide Precedes, NoDuplicates;
      update, us := up, us0;
      if h > level {
        for i := level to h
          invariant |update| == MAX_LEVEL && |us| == i
          invariant forall j :: 0 <= j < i ==> us[j] < pos && Precedes(hs, us[j], pos, j) && update[j] == list[us[j]]
          modifies {}
        {
          EmptyLevel(pos, i);
          update := update[i := header];
          us := us + [0];
        }
        level := h;
      }
    }

    /** The part of `insert` for an absent key. */
    method InsertNew(key: CString, value: CString, up: seq<SkNode>, ghost us0: seq<nat>, ghost pos: nat) returns (node: SkNode)
      requires Indexed() && 0 < pos <= |list| && |up| == MAX_LEVEL && |us0| == level
      requires forall i :: 0 <= i < level ==> us0[i] < pos && Precedes(hs, us0[i], pos, i) && up[i] == list[us0[i]]
      requires forall m :: 0 < m < pos ==> Strcmp(list[m].key, key) < 0
      requires forall m :: pos <= m < |list| ==> Strcmp(list[m].key, key) > 0
      modifies `level, `list, `hs, list`forward
      ensures Indexed() && fresh(node) && node.key == key && node.value == value
      ensures list == Insert(old(list), pos, node)
    {
      hide LevelLinked, Precedes, KeysSorted, Insert, NoDuplicates, Strcmp;
      var h := RandomLevel();
      node := new SkNode(key, value, h);
      var update;
      ghost var us;
      update, us := Grow(up, h, us0, pos);
      LinkIn(node, update, h, us, pos);
    }

    lemma ContentsInsert(before: seq<SkNode>, was: seq<Binding>, pos: nat, node: SkNode)
      requires 0 < pos <= |before| && list == Insert(before, pos, node) && KeysSorted(list)
      requires |was| == |before| - 1
      requires forall i :: 0 <= i < |was| ==> was[i] == Binding(before[i + 1].key, before[i + 1].value)
      ensures Map() == AsMap(was)[node.key := node.value]
    {
      hide AsMap, Strcmp, DistinctKeys, KeysSorted;
      MapFacts();
      var b, now, at := Binding(node.key, node.value), Contents(), pos - 1;
      forall i | 0 <= i < |now| ensures now[i] == (was[..at] + [b] + was[at..])[i] { }
      assert now == was[..at] + [b] + was[at..];
      AsMapInsert(was, at, b);
    }

    lemma ContentsUpdate(was: seq<Binding>, pos: nat)
      requires 0 < pos < |list| == |was| + 1 && KeysSorted(list) && was[pos - 1].key == list[pos].key
      requires forall i :: 0 <= i < |was| && i != pos - 1 ==> was[i] == Binding(list[i + 1].key, list[i + 1].value)
      ensures Map() == AsMap(was)[list[pos].key := list[pos].value]
    {
      hide AsMap, Strcmp, KeysSorted;
      MapFacts();
      var now, at := Contents(), pos - 1;
      assert forall i :: 0 <= i < |was| ==> now[i].key == was[i].key;
      assert now == was[at := Binding(was[at].key, list[pos].value)];
      AsMapUpdate(was, at, list[pos].value);
    }

    /** The part of `insert` for a key that is bound already. */
    method Overwrite(node: SkNode, value: CString, ghost pos: nat)
      requires 0 < pos < |list| && node == list[pos] && KeysSorted(list) && NoDuplicates(list)
      modifies node`value
      ensures node.value == value && Map() == old(Map())[node.key := value]
    {
      hide NoDuplicates, AsMap, Strcmp;
      ghost var was := Contents();
      DistinctFrom(list, pos);
      node.value := value;
      ContentsUpdate(was, pos);
    }

    /** `insert`: binds the key, on an existing node if there is one. */
    method InsertKey(key: CString, value: CString) returns (ghost fresh_: bool)
      requires Indexed() && KeyFits(key) && ValueFits(value)
      modifies `level, `list, `hs, list`forward, list`value
      ensures Indexed() && fresh_ == (key !in old(Map()))
      ensures fresh_ ==> |list| == |old(list)| + 1
      ensures !fresh_ ==> list == old(list) && hs == old(hs)
      ensures forall n :: n in list ==> n in old(list) || fresh(n)
      ensures Map() == old(Map())[key := value]
    {
      hide LevelLinked, KeysSorted, NoDuplicates, AsMap, BindingsOf, Precedes, Strcmp, Insert;
      var p, update;
      ghost var us, pos;
      p, update, us, pos := Descend(key);
      Decided(key, pos);
      Level0(pos - 1);
      ghost var was := Contents();
      if p.forward[0] != null && Strcmp(p.forward[0].key, key) == 0 {
        fresh_ := false;
        StrcmpZero(p.forward[0].key, key);
        Overwrite(p.forward[0], value, pos);
      } else {
        fresh_ := true;
        NotHere(key, pos);
        var node := InsertNew(key, value, update, us, pos);
        ContentsInsert(old(list), was, pos, node);
        InsertedAt(old(list), pos, node, 0);
        InsertedIn(old(list), pos, node);
      }
    }

    lemma NotHere(key: CString, pos: nat)
      requires KeysSorted(list) && 0 < pos <= |list| && (pos < |list| ==> Strcmp(list[pos].key, key) != 0)
      requires forall m :: pos <= m < |list| ==> Strcmp(list[m].key, key) >= 0
      ensures pos < |list| ==> list[pos].key != key
      ensures forall m :: pos <= m < |list| ==> Strcmp(list[m].key, key) > 0
    {
      hide Strcmp;
      StrcmpZero(key, key);
      forall m | pos <= m < |list| ensures Strcmp(list[m].key, key) > 0 {
        StrcmpZero(list[m].key, key);
        assert m != pos ==> list[m].key != key;
      }
    }

    /** Bypasses `node` on level `i`, if it is there; no other level notices. */
    method UnlinkLevel(p: SkNode, node: SkNode, i: nat, ghost u: nat, ghost pos: nat)
      requires |list| == |hs| && NoDuplicates(list)
      requires 0 < pos < |list| && Precedes(hs, u, pos, i) && p == list[u] && node == list[pos]
      requires LevelLinked(list, hs, i)
      modifies p`forward
      ensures |p.forward| == old(|p.forward|)
      ensures |Remove(list, pos)| == |Remove(hs, pos)| && LevelLinked(Remove(list, pos), Remove(hs, pos), i)
      ensures forall j: nat :: j != i && old(LevelLinked(list, hs, j)) ==> LevelLinked(list, hs, j)
      ensures forall j: nat :: j != i && old(LevelLinked(Remove(list, pos), Remove(hs, pos), j)) ==>
        LevelLinked(Remove(list, pos), Remove(hs, pos), j)
    {
      hide Next, Remove, LevelLinked, NoDuplicates;
      RemovedLength(list, pos);
      RemovedLength(hs, pos);
      LinksOf(list, hs, i);
      NextOfPred(hs, u, pos, i);
      DistinctFrom(list, u);
      DistinctFrom(list, pos);
      if p.forward[i] == node {
        Relink(p, i, node.forward[i], list, hs, Remove(list, pos), Remove(hs, pos));
      }
      LevelWithoutNode(list, hs, pos, u, i);
    }

    /** The loop that takes `node` off every level. */
    method UnlinkLevels(node: SkNode, update: seq<SkNode>, ghost us: seq<nat>, ghost pos: nat)
      requires Shaped() && (forall i :: 0 <= i < MAX_LEVEL ==> LevelLinked(list, hs, i))
      requires 0 < pos < |list| && node == list[pos] && |update| == MAX_LEVEL && |us| == level
      requires forall i :: 0 <= i < level ==> us[i] < pos && Precedes(hs, us[i], pos, i) && update[i] == list[us[i]]
      modifies list`forward
      ensures Shaped() && |Remove(list, pos)| == |Remove(hs, pos)|
      ensures forall i :: 0 <= i < MAX_LEVEL ==> LevelLinked(Remove(list, pos), Remove(hs, pos), i)
    {
      hide LevelLinked, Precedes, Remove, NoDuplicates;
      ghost var l, s := Remove(list, pos), Remove(hs, pos);
      RemovedLength(list, pos);
      RemovedLength(hs, pos);
      for i := 0 to level
        invariant Shaped()
        invariant forall j :: 0 <= j < i ==> LevelLinked(l, s, j)
        invariant forall j :: i <= j < MAX_LEVEL ==> LevelLinked(list, hs, j)
        modifies list`forward
      {
        assert update[i] in list;
        UnlinkLevel(update[i], node, i, us[i], pos);
      }
      forall j | level <= j < MAX_LEVEL ensures LevelLinked(l, s, j) {
        EmptyLevel(pos, j);
        LinksOf(list, hs, j);
        LevelWithoutNode(list, hs, pos, 0, j);
      }
    }

    lemma ShapedRemove(pos: nat)
      requires Shaped() && KeysSorted(list) && 0 < pos < |list|
      ensures var l, s := Remove(list, pos), Remove(hs, pos);
        && |l| == |s| > 0 && l[0] == header && s[0] == MAX_LEVEL && NoDuplicates(l) && KeysSorted(l)
        && (forall k :: 0 <= k < |l| ==> |l[k].forward| == s[k] && 1 <= s[k] <= MAX_LEVEL)
        && (forall k :: 0 < k < |l| ==> s[k] <= level)
    {
      hide Strcmp;
      var l, s := Remove(list, pos), Remove(hs, pos);
      forall j | 0 <= j < |l|
        ensures l[j] == list[if j < pos then j else j + 1]
        ensures s[j] == hs[if j < pos then j else j + 1] { }
    }

    lemma ContentsRemove(before: seq<SkNode>, was: seq<Binding>, pos: nat)
      requires 0 < pos < |before| == |was| + 1 && list == Remove(before, pos) && DistinctKeys(was)
      requires forall i :: 0 <= i < |was| ==> was[i] == Binding(before[i + 1].key, before[i + 1].value)
      ensures Map() == AsMap(was) - {before[pos].key}
    {
      hide AsMap, DistinctKeys;
      var now, at := Contents(), pos - 1;
      forall i | 0 <= i < |now| ensures now[i] == (was[..at] + was[at + 1..])[i] { }
      assert now == was[..at] + was[at + 1..];
      AsMapRemove(was, at);
    }

    /** `delete`: unlinks and frees the node of the key, if there is one. */
    method DeleteNode(key: CString) returns (ghost freed: SkNode?, ghost pos: nat)
      requires Indexed()
      modifies `list, `hs, list`forward
      ensures Indexed() && 0 < pos
      ensures freed == null <==> key !in old(Map())
      ensures freed == null ==> list == old(list) && hs == old(hs) && Map() == old(Map())
      ensures freed != null ==> pos < |old(list)| && freed == old(list)[pos] && freed.key == key
      ensures freed != null ==> list == Remove(old(list), pos) && hs == Remove(old(hs), pos)
      ensures Map() == old(Map()) - {key}
    {
      hide LevelLinked, KeysSorted, NoDuplicates, AsMap, BindingsOf, Precedes, Strcmp, Remove, DistinctKeys;
      var p, update;
      ghost var us;
      p, update, us, pos := Descend(key);
      Decided(key, pos);
      Level0(pos - 1);
      freed := null;
      if p.forward[0] != null && Strcmp(p.forward[0].key, key) == 0 {
        StrcmpZero(p.forward[0].key, key);
        freed := p.forward[0];
        UnlinkNode(p.forward[0], update, us, pos);
      } else {
        NotHere(key, pos);
      }
    }

    method UnlinkNode(node: SkNode, update: seq<SkNode>, ghost us: seq<nat>, ghost pos: nat)
      requires Indexed() && 0 < pos < |list| && node == list[pos] && |update| == MAX_LEVEL && |us| == level
      requires forall i :: 0 <= i < level ==> us[i] < pos && Precedes(hs, us[i], pos, i) && update[i] == list[us[i]]
      modifies `list, `hs, list`forward
      ensures Indexed() && list == Remove(old(list), pos) && hs == Remove(old(hs), pos)
      ensures Map() == old(Map()) - {node.key}
    {
      hide LevelLinked, KeysSorted, NoDuplicates, AsMap, Precedes, Strcmp, Remove, DistinctKeys;
      ghost var was := Contents();
      MapFacts();
      UnlinkLevels(node, update, us, pos);
      ShapedRemove(pos);
      Relist(Remove(list, pos), Remove(hs, pos));
      ContentsRemove(old(list), was, pos);
    }

    // ---------- the engine interface ----------

    /** Counts every call, also one that only overwrites a value. */
    method Put(key: CharPtr, value: CharPtr) returns (r: int)
      requires Valid() && (key.Ptr? ==> KeyFits(key.s)) && (value.Ptr? ==> ValueFits(value.s))
      modifies this, list
      ensures Valid() && header == old(header)
      ensures forall n :: n in list ==> n in old(list) || fresh(n)
      ensures r == if key.Null? || value.Null? then -1 else 0
      ensures Map() == if r == 0 then old(Map())[key.s := value.s] else old(Map())
      ensures overwrites == old(overwrites) + if r == 0 && key.s in old(Map()) then 1 else 0
      ensures nbElements == old(nbElements) + if r == 0 then 1 else 0
    {
      hide Indexed, AsMap, Map;
      if key.Null? || value.Null? {
        return -1;
      }
      ghost var isNew := InsertKey(key.s, value.s);
      if !isNew {
        overwrites := overwrites + 1;
      }
      nbElements := nbElements + 1;
      r := 0;
    }

    method Get(key: CharPtr) returns (value: CharPtr)
      requires Valid()
      ensures value == if key.Ptr? && key.s in Map() then Ptr(Map()[key.s]) else Null
    {
      if key.Null? {
        return Null;
      }
      value := Find(key.s);
    }

    /** The number of bindings and of the overwriting puts so far. */
    method Count() returns (n: int)
      requires Valid()
      ensures n == |Map()| + overwrites
    {
      MapFacts();
      n := nbElements;
    }

    /** A null key is compared without a check, so callers must not pass one. */
    method Exist(key: CString) returns (r: int)
      requires Valid()
      ensures r == if key in Map() then 1 else 0
    {
      var value := Find(key);
      r := if value.Null? then 0 else 1;
    }

    method DeleteKey(key: CString) returns (r: int)
      requires Valid()
      modifies this, list
      ensures Valid() && header == old(header) && overwrites == old(overwrites)
      ensures forall n :: n in list ==> n in old(list)
      ensures r == if key in old(Map()) then 0 else -1
      ensures Map() == old(Map()) - {key}
      ensures nbElements == old(nbElements) - if r == 0 then 1 else 0
    {
      hide LevelLinked, KeysSorted, NoDuplicates, AsMap, Remove, BindingsOf;
      var value := Find(key);
      if value.Null? {
        assert Map() - {key} == Map();
        return -1;
      }
      ghost var freed, pos;
      freed, pos := DeleteNode(key);
      RemovedLength(old(list), pos);
      RemovedIn(old(list), pos);
      nbElements := nbElements - 1;
      r := 0;
    }

    /** A node found by its key is the one at that key's only position. */
    lemma KeyedAt(pos: nat)
      requires KeysSorted(list) && 0 < pos < |list|
      ensures list[pos].key in Map()
      ensures forall j :: 0 < j < |list| && list[j].key == list[pos].key ==> j == pos
    {
      hide Strcmp, First, BindingsOf;
      MapFacts();
      FirstAt(Contents(), pos - 1);
      StrcmpZero(list[pos].key, list[pos].key);
    }

    /** The inner loop of `dest_skiptable`: deletes the nodes of level `i` from the front. */
    method ClearLevel(i: nat, ghost all: seq<SkNode>, ghost freed0: seq<SkNode>) returns (ghost freed: seq<SkNode>)
      requires Indexed() && i < level && Partitioned(all, list, freed0)
      requires forall k :: 0 < k < |list| ==> hs[k] <= i + 1
      modifies `list, `hs, all`forward
      ensures Indexed() && Partitioned(all, list, freed)
      ensures forall k :: 0 < k < |list| ==> hs[k] <= i
    {
      hide LevelLinked, KeysSorted, NoDuplicates, AsMap, Strcmp, Partitioned, BindingsOf, Next;
      freed := freed0;
      var current := header.forward[i];
      StillThere(all, list, freed);
      Link(0, i);
      while current != null
        invariant Indexed() && Partitioned(all, list, freed) && current == header.forward[i]
        invariant forall k :: 0 < k < |list| ==> hs[k] <= i + 1
        decreases |list|
      {
        StillThere(all, list, freed);
        freed, current := ClearFirst(current, i, all, freed);
      }
      Link(0, i);
    }

    method ClearFirst(current: SkNode, i: nat, ghost all: seq<SkNode>, ghost freed0: seq<SkNode>) returns (ghost freed: seq<SkNode>, next: SkNode?)
      requires Indexed() && i < level && Partitioned(all, list, freed0) && forall n :: n in list ==> n in all
      requires current == header.forward[i]
      requires forall k :: 0 < k < |list| ==> hs[k] <= i + 1
      modifies `list, `hs, list`forward
      ensures Indexed() && Partitioned(all, list, freed) && next == header.forward[i] && |list| < |old(list)|
      ensures forall k :: 0 < k < |list| ==> hs[k] <= i + 1
    {
      hide LevelLinked, KeysSorted, NoDuplicates, AsMap, Strcmp, Partitioned, BindingsOf, Next, Remove;
      ghost var n: nat := Next(hs, 0, i);
      Link(0, i);
      Link(n, i);
      KeyedAt(n);
      next := current.forward[i];
      LinkComposed(list, hs, n, i, 0);
      ghost var out, pos;
      out, pos := DeleteNode(current.key);
      Link(0, i);
      RemovedLength(old(list), pos);
      StillLow(old(hs), pos, i + 1);
      freed := freed0 + [out];
      PartitionMoves(all, freed0, old(list), pos);
    }

    /** `dest_skiptable` frees every node except the header, each one once. */
    method Destroy() returns (ghost freed: seq<SkNode>)
      requires Valid()
      modifies this, list
      ensures list == [header] && header == old(header) && NoDuplicates(freed)
      ensures forall n :: n in freed <==> n in old(list) && n != header
      ensures |header.forward| == MAX_LEVEL && forall i :: 0 <= i < MAX_LEVEL ==> header.forward[i] == null
    {
      hide LevelLinked, KeysSorted, NoDuplicates, AsMap, Strcmp, BindingsOf;
      freed := [];
      NoneFreed(list);
      for i := level downto 0
        invariant Indexed() && Partitioned(old(list), list, freed) && header == old(header)
        invariant forall k :: 0 < k < |list| ==> hs[k] <= i
        modifies `list, `hs, old(list)`forward
      {
        freed := ClearLevel(i, old(list), freed);
      }
      NoneLeft();
      forall i | 0 <= i < MAX_LEVEL ensures header.forward[i] == null {
        Link(0, i);
      }
    }

    lemma NoneLeft()
      requires Shaped() && forall k :: 0 < k < |list| ==> hs[k] <= 0
      ensures list == [header]
    {
      var k := |list| - 1;
      assert hs[k] >= 1;
    }
  }
}
