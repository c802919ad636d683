/** Singly linked chains of key-value nodes, as hash.c and dhash.c hang them from their buckets. */
module Chains {
  import opened Bindings
  import opened Strings

  /** Neither engine writes the key or the value of a linked node. */
  class Node {
    const key: CString
    const value: CString
    var next: Node?

    constructor (key: CString, value: CString, next: Node?)
      ensures this.key == key && this.value == value && this.next == next
    {
      this.key, this.value, this.next := key, value, next;
    }
  }

  function At(s: seq<Node>, i: nat): Node? {
    if i < |s| then s[i] else null
  }

  /** The links from `head` visit exactly `s` and end in null. */
  ghost predicate Chained(head: Node?, s: seq<Node>)
    reads s`next
  {
    && head == At(s, 0)
    && (forall i {:trigger s[i].next} :: 0 <= i < |s| ==> s[i].next == At(s, i + 1))
    && (forall i, j :: 0 <= i < j < |s| ==> s[i] != s[j])
  }

  ghost function BindingsOf(s: seq<Node>): (bs: seq<Binding>)
    ensures |bs| == |s|
    ensures forall i :: 0 <= i < |s| ==> bs[i] == Binding(s[i].key, s[i].value)
  {
    seq(|s|, i requires 0 <= i < |s| => Binding(s[i].key, s[i].value))
  }

  /** The chains of all buckets, one after the other. */
  ghost function Flat(chains: seq<seq<Node>>): (s: seq<Node>)
    ensures forall b, i :: 0 <= b < |chains| && 0 <= i < |chains[b]| ==> chains[b][i] in s
  {
    if chains == [] then [] else chains[0] + Flat(chains[1..])
  }

  ghost function All(chains: seq<seq<Node>>): seq<Binding> {
    BindingsOf(Flat(chains))
  }

  /** Where the chain of bucket `b` starts among all nodes. */
  ghost function Start(chains: seq<seq<Node>>, b: nat): nat
    requires b <= |chains|
  {
    |Flat(chains[..b])|
  }

  lemma {:induction false} FlatConcat(a: seq<seq<Node>>, b: seq<seq<Node>>)
    ensures Flat(a + b) == Flat(a) + Flat(b)
  {
    if a == [] {
      assert a + b == b;
    } else {
      assert (a + b)[1..] == a[1..] + b;
      FlatConcat(a[1..], b);
    }
  }

  lemma {:induction false} NoChains(chains: seq<seq<Node>>)
    requires forall b :: 0 <= b < |chains| ==> chains[b] == []
    ensures Flat(chains) == [] && NodesIn(chains) == {}
  {
    if chains != [] {
      NoChains(chains[1..]);
    }
  }

  lemma FlatAround(chains: seq<seq<Node>>, b: nat, s: seq<Node>)
    requires b < |chains|
    ensures Flat(chains[b := s]) == Flat(chains[..b]) + s + Flat(chains[b + 1..])
  {
    assert chains[b := s] == chains[..b] + [s] + chains[b + 1..];
    FlatConcat(chains[..b], [s]);
    FlatConcat(chains[..b] + [s], chains[b + 1..]);
    assert Flat([s]) == s;
  }

  /** Node `i` of bucket `b` among all nodes. */
  lemma InFlat(chains: seq<seq<Node>>, b: nat, i: nat)
    requires b < |chains| && i < |chains[b]|
    ensures Start(chains, b) + i < |All(chains)|
    ensures All(chains)[Start(chains, b) + i] == Binding(chains[b][i].key, chains[b][i].value)
  {
    hide Flat;
    FlatAround(chains, b, chains[b]);
    assert chains[b := chains[b]] == chains;
    var pre, post := Flat(chains[..b]), Flat(chains[b + 1..]);
    assert (pre + chains[b] + post)[|pre| + i] == chains[b][i];
  }

  /** Every node of the table is in some bucket. */
  lemma {:induction false} FlatFrom(chains: seq<seq<Node>>, n: Node) returns (b: nat)
    requires n in Flat(chains)
    ensures b < |chains| && n in chains[b]
  {
    if n in chains[0] {
      b := 0;
    } else {
      b := FlatFrom(chains[1..], n);
      b := b + 1;
    }
  }

  /** Prepending to a bucket inserts one binding. */
  lemma AllPrepend(chains: seq<seq<Node>>, b: nat, n: Node)
    requires b < |chains|
    ensures Start(chains, b) <= |All(chains)|
    ensures var bs, at := All(chains), Start(chains, b);
      All(chains[b := [n] + chains[b]]) == bs[..at] + [Binding(n.key, n.value)] + bs[at..]
  {
    hide Flat;
    FlatAround(chains, b, chains[b]);
    FlatAround(chains, b, [n] + chains[b]);
    assert chains[b := chains[b]] == chains;
    var pre, post := Flat(chains[..b]), Flat(chains[b + 1..]);
    assert pre + ([n] + chains[b]) + post == pre + [n] + (chains[b] + post);
    assert pre + chains[b] + post == pre + (chains[b] + post);
  }

  /** Unlinking node `i` of a bucket removes one binding. */
  lemma AllRemove(chains: seq<seq<Node>>, b: nat, i: nat)
    requires b < |chains| && i < |chains[b]|
    ensures var bs, at := All(chains), Start(chains, b) + i;
      && at < |bs| && bs[at] == Binding(chains[b][i].key, chains[b][i].value)
      && All(chains[b := chains[b][..i] + chains[b][i + 1..]]) == bs[..at] + bs[at + 1..]
  {
    hide Flat;
    var s := chains[b];
    FlatAround(chains, b, s);
    FlatAround(chains, b, s[..i] + s[i + 1..]);
    assert chains[b := s] == chains;
    var pre, post := Flat(chains[..b]), Flat(chains[b + 1..]);
    assert s == s[..i] + [s[i]] + s[i + 1..];
    assert pre + s + post == (pre + s[..i]) + [s[i]] + (s[i + 1..] + post);
    assert pre + (s[..i] + s[i + 1..]) + post == (pre + s[..i]) + (s[i + 1..] + post);
  }

  lemma FlatStep(chains: seq<seq<Node>>, b: nat)
    requires b < |chains|
    ensures Flat(chains[..b + 1]) == Flat(chains[..b]) + chains[b]
  {
    assert chains[..b + 1] == chains[..b] + [chains[b]];
    FlatConcat(chains[..b], [chains[b]]);
  }

  lemma NodesAround(chains: seq<seq<Node>>, b: nat, s: seq<Node>, extra: seq<Node>)
    requires b < |chains| && forall n :: n in s ==> n in chains[b] || n in extra
    ensures forall n :: n in NodesIn(chains[b := s]) ==> n in NodesIn(chains) || n in extra
  {
    hide Flat;
    FlatAround(chains, b, s);
    FlatAround(chains, b, chains[b]);
    assert chains[b := chains[b]] == chains;
  }

  // ---------- the heap ----------

  /** The search loop of every operation: stops at the first node with the key. */
  method FindIn(head: Node?, key: CString, ghost s: seq<Node>) returns (node: Node?, ghost at: nat)
    requires Chained(head, s)
    ensures at <= |s| && node == At(s, at) && (node != null ==> node.key == key)
    ensures forall i :: 0 <= i < at ==> s[i].key != key
  {
    node, at := head, 0;
    while node != null
      invariant at <= |s| && node == At(s, at)
      invariant forall i :: 0 <= i < at ==> s[i].key != key
      decreases |s| - at
    {
      StrcmpZero(node.key, key);
      if Strcmp(node.key, key) == 0 {
        return;
      }
      node, at := node.next, at + 1;
    }
  }

  lemma Prepended(head: Node?, s: seq<Node>, n: Node)
    requires Chained(head, s) && n !in s && n.next == head
    ensures Chained(n, [n] + s)
  {
  }

  /** The chain after the link into node `i` has been redirected behind it. */
  lemma Unlinked(head: Node?, s: seq<Node>, i: nat)
    requires i < |s|
    requires head == if i == 0 then At(s, 1) else s[0]
    requires forall k :: 0 <= k < |s| && k != i - 1 ==> s[k].next == At(s, k + 1)
    requires i > 0 ==> s[i - 1].next == At(s, i + 1)
    requires forall j, k :: 0 <= j < k < |s| ==> s[j] != s[k]
    ensures Chained(head, s[..i] + s[i + 1..])
  {
    var s' := s[..i] + s[i + 1..];
    forall k | 0 <= k < |s'| ensures s'[k] == s[if k < i then k else k + 1] { }
  }

  ghost function NodesIn(chains: seq<seq<Node>>): (ns: set<Node>)
    ensures forall b, i :: 0 <= b < |chains| && 0 <= i < |chains[b]| ==> chains[b][i] in ns
  {
    set n | n in Flat(chains)
  }

  /** Every bucket's links visit its chain, and every node hangs in the bucket of its key. */
  ghost predicate Linked(nodes: array<Node?>, chains: seq<seq<Node>>, hash: CString -> int)
    reads nodes, NodesIn(chains)`next
  {
    && |chains| == nodes.Length
    && (forall b :: 0 <= b < |chains| ==> Chained(nodes[b], chains[b]))
    && (forall b, i :: 0 <= b < |chains| && 0 <= i < |chains[b]| ==> hash(chains[b][i].key) == b)
  }

  method Prepend(nodes: array<Node?>, b: nat, key: CString, value: CString, ghost chains: seq<seq<Node>>, ghost hash: CString -> int)
    returns (node: Node)
    requires Linked(nodes, chains, hash) && b < nodes.Length && hash(key) == b
    modifies nodes
    ensures fresh(node) && node.key == key && node.value == value
    ensures Linked(nodes, chains[b := [node] + chains[b]], hash)
  {
    node := new Node(key, value, nodes[b]);
    Prepended(nodes[b], chains[b], node);
    nodes[b] := node;
  }

  /** `*indirect = current->next`, where a null `prev` means the bucket itself. */
  method Unlink(nodes: array<Node?>, b: nat, prev: Node?, node: Node, ghost chains: seq<seq<Node>>, ghost hash: CString -> int, ghost i: nat)
    requires Linked(nodes, chains, hash) && b < nodes.Length && i < |chains[b]| && node == chains[b][i]
    requires prev == if i == 0 then null else chains[b][i - 1]
    modifies nodes, NodesIn(chains)`next
    ensures Linked(nodes, chains[b := chains[b][..i] + chains[b][i + 1..]], hash)
  {
    hide Chained, NodesIn;
    ChainFacts(nodes[b], chains[b]);
    if prev == null {
      nodes[b] := node.next;
    } else {
      OtherBuckets(nodes, chains, hash, b, prev);
      prev.next := node.next;
    }
    Unlinked(nodes[b], chains[b], i);
    Relinked(nodes, chains, hash, b, chains[b][..i] + chains[b][i + 1..]);
  }

  lemma Relinked(nodes: array<Node?>, chains: seq<seq<Node>>, hash: CString -> int, b: nat, s: seq<Node>)
    requires |chains| == nodes.Length && b < |chains| && Chained(nodes[b], s)
    requires forall c :: 0 <= c < |chains| && c != b ==> Chained(nodes[c], chains[c])
    requires forall c, i :: 0 <= c < |chains| && 0 <= i < |chains[c]| ==> hash(chains[c][i].key) == c
    requires forall i :: 0 <= i < |s| ==> hash(s[i].key) == b
    ensures Linked(nodes, chains[b := s], hash)
  {
  }

  lemma ChainFacts(head: Node?, s: seq<Node>)
    requires Chained(head, s)
    ensures head == At(s, 0) && forall i :: 0 <= i < |s| ==> s[i].next == At(s, i + 1)
    ensures forall i, j :: 0 <= i < j < |s| ==> s[i] != s[j]
  {
  }

  lemma OtherBuckets(nodes: array<Node?>, chains: seq<seq<Node>>, hash: CString -> int, b: nat, n: Node)
    requires Linked(nodes, chains, hash) && b < nodes.Length && n in chains[b]
    ensures forall c :: 0 <= c < |chains| && c != b ==> n !in chains[c]
  {
  }

  /** A key bound anywhere is bound in the bucket it hashes to. */
  lemma InItsBucket(nodes: array<Node?>, chains: seq<seq<Node>>, hash: CString -> int, key: CString)
    requires Linked(nodes, chains, hash) && key in KeySet(All(chains))
    ensures 0 <= hash(key) < |chains| && exists i :: 0 <= i < |chains[hash(key)]| && chains[hash(key)][i].key == key
  {
    var i :| 0 <= i < |All(chains)| && All(chains)[i].key == key;
    var b := FlatFrom(chains, Flat(chains)[i]);
  }
}
