/** The hash engine of hash.c: duplicate-free chains in 1024 buckets and a counter. */
module HashTable {
  import opened Bindings
  import opened Chains
  import opened Strings

  const MAX_TABLE_SIZE := 1024

  function ByteSum(key: CString): int {
    if key == [] then 0 else ByteSum(key[..|key| - 1]) + SignedChar(key[|key| - 1])
  }

  /** The C remainder, which takes the sign of the dividend. */
  function Rem(a: int, b: int): int
    requires b > 0
  {
    if a >= 0 then a % b else -((-a) % b)
  }

  function Index(key: CString): int {
    Rem(ByteSum(key), MAX_TABLE_SIZE)
  }

  /** The bytes do not sum to a negative number outside bucket 0. */
  predicate Bucketed(key: CString) {
    ByteSum(key) >= 0 || (-ByteSum(key)) % MAX_TABLE_SIZE == 0
  }

  predicate SevenBit(key: CString) {
    forall i :: 0 <= i < |key| ==> key[i] < 128
  }

  /** Exactly the keys whose bucket is inside the table. */
  lemma IndexInTable(key: CString)
    ensures Index(key) < 1024
    ensures 0 <= Index(key) <==> Bucketed(key)
  {
  }

  lemma {:induction false} SevenBitBucketed(key: CString)
    requires SevenBit(key)
    ensures ByteSum(key) >= 0 && Bucketed(key)
  {
    if key != [] {
      SevenBitBucketed(key[..|key| - 1]);
    }
  }

  /** A single high byte makes the bucket negative. */
  lemma HighByteUnbucketed()
    ensures Index([255]) == -1
  {
    assert ByteSum([255]) == ByteSum([]) - 1;
  }

  /** `_hash`. */
  method Hash(key: CharPtr, size: int) returns (idx: int)
    requires size > 0
    ensures idx == if key.Null? then -1 else Rem(ByteSum(key.s), size)
  {
    if key.Null? {
      return -1;
    }
    var sum, i := 0, 0;
    while i < |key.s|
      invariant 0 <= i <= |key.s| && sum == ByteSum(key.s[..i])
    {
      assert key.s[..i + 1][..i] == key.s[..i];
      sum := sum + SignedChar(key.s[i]);
      i := i + 1;
    }
    assert key.s[..i] == key.s;
    idx := Rem(sum, size);
  }

  /** No key of the map has the bucket of `key`. */
  predicate Vacant(m: map<CString, CString>, key: CString) {
    forall k :: k in m ==> Index(k) != Index(key)
  }

  /**
   `locked` is the mutex: the operations take it once their arguments are known to be there, and
   the thread that finds it taken waits forever, since there is no other to release it.
   */
  class HashTable {
    const nodes: array<Node?>
    var count: int
    var locked: bool
    ghost var chains: seq<seq<Node>>
    ghost var repr: set<Node>

    constructor ()
      ensures Valid() && !locked && Map() == map[] && fresh(nodes) && repr == {}
    {
      nodes := new Node?[MAX_TABLE_SIZE](_ => null);
      count, locked := 0, false;
      chains := seq(MAX_TABLE_SIZE, _ => []);
      repr := {};
      new;
      NoChains(chains);
    }

    ghost predicate Valid()
      reads `count, `chains, `repr, nodes, repr`next
    {
      && nodes.Length == MAX_TABLE_SIZE && repr == NodesIn(chains)
      && Linked(nodes, chains, Index)
      && DistinctKeys(All(chains))
      && count == |All(chains)|
    }

    ghost function Map(): map<CString, CString>
      reads `chains
    {
      AsMap(All(chains))
    }

    /** What the search of one bucket says about the whole table. */
    lemma Decided(key: CString, at: nat)
      requires Valid() && Bucketed(key) && at <= |chains[Index(key)]|
      requires forall i :: 0 <= i < at ==> chains[Index(key)][i].key != key
      requires at < |chains[Index(key)]| ==> chains[Index(key)][at].key == key
      ensures at < |chains[Index(key)]| <==> key in Map()
      ensures key in Map() ==> Map()[key] == chains[Index(key)][at].value
    {
      hide DistinctKeys, Flat, Chained, ByteSum;
      if at < |chains[Index(key)]| {
        InFlat(chains, Index(key), at);
        FirstAt(All(chains), Start(chains, Index(key)) + at);
      } else if key in Map() {
        InItsBucket(nodes, chains, Index, key);
      }
    }

    /** A bucket is empty exactly if no bound key belongs there. */
    lemma EmptyBucket(key: CString)
      requires Valid() && Bucketed(key)
      ensures 0 <= Index(key) < |chains|
      ensures chains[Index(key)] == [] <==> Vacant(Map(), key)
    {
      hide DistinctKeys, Flat, Chained, ByteSum;
      IndexInTable(key);
      var b := Index(key);
      if chains[b] == [] {
        forall k | k in Map() ensures Index(k) != b {
          InItsBucket(nodes, chains, Index, k);
        }
      } else {
        InFlat(chains, b, 0);
        var x := All(chains)[Start(chains, b)];
        assert x in All(chains) && x.key == chains[b][0].key;
        assert Index(x.key) == b;
      }
    }

    method Lookup(key: CString) returns (idx: nat, node: Node?, ghost at: nat)
      requires Valid() && Bucketed(key)
      ensures idx == Index(key) < nodes.Length && at <= |chains[idx]| && node == At(chains[idx], at)
      ensures forall i :: 0 <= i < at ==> chains[idx][i].key != key
      ensures node != null <==> key in Map()
      ensures node != null ==> node.key == key && Map()[key] == node.value
    {
      hide DistinctKeys, AsMap, Rem, ByteSum;
      IndexInTable(key);
      var i := Hash(Ptr(key), MAX_TABLE_SIZE);
      idx := i;
      assert Chained(nodes[idx], chains[idx]) by { BucketChain(idx); }
      node, at := FindIn(nodes[idx], key, chains[idx]);
      Decided(key, at);
    }

    lemma BucketChain(b: nat)
      requires Valid() && b < nodes.Length
      ensures |chains| == nodes.Length && Chained(nodes[b], chains[b])
    {
    }

    method Put(key: CharPtr, value: CharPtr) returns (r: int)
      requires Valid() && (key.Ptr? ==> Bucketed(key.s) && KeyFits(key.s)) && (value.Ptr? ==> ValueFits(value.s))
      requires key.Ptr? && value.Ptr? ==> !locked
      modifies this, nodes
      ensures Valid() && fresh(repr - old(repr)) && locked == old(locked)
      ensures r == if key.Null? || value.Null? then -1 else if key.s in old(Map()) then 1 else 0
      ensures Map() == if r == 0 then old(Map())[key.s := value.s] else old(Map())
    {
      hide DistinctKeys, AsMap, Rem, ByteSum, NodesIn, KeySet;
      if key.Null? || value.Null? {
        return -1;
      }
      locked := true;
      var idx, node;
      ghost var at;
      idx, node, at := Lookup(key.s);
      if node != null {
        locked := false;
        return 1;
      }
      PutNew(idx, key.s, value.s);
      locked := false;
      r := 0;
    }

    method PutNew(idx: nat, key: CString, value: CString)
      requires Valid() && idx == Index(key) < nodes.Length && key !in Map()
      modifies `count, `chains, `repr, nodes
      ensures Valid() && fresh(repr - old(repr))
      ensures Map() == old(Map())[key := value]
    {
      hide DistinctKeys, AsMap, Rem, ByteSum, NodesIn, KeySet, Flat, Chained;
      var node := Prepend(nodes, idx, key, value, chains, Index);
      Grown(chains, idx, node);
      chains := chains[idx := [node] + chains[idx]];
      repr := NodesIn(chains);
      count := count + 1;
    }

    /** Takes the mutex and releases it again, on both ways out. */
    method Get(key: CharPtr) returns (value: CharPtr)
      requires Valid() && (key.Ptr? ==> Bucketed(key.s) && !locked)
      ensures value == if key.Ptr? && key.s in Map() then Ptr(Map()[key.s]) else Null
    {
      if key.Null? {
        return Null;
      }
      var idx, node;
      ghost var at;
      idx, node, at := Lookup(key.s);
      value := if node != null then Ptr(node.value) else Null;
    }

    method Count() returns (n: int)
      requires Valid()
      ensures n == |Map()|
    {
      AsMapSize(All(chains));
      n := count;
    }

    /** An empty bucket is left with the mutex taken. */
    method Delete(key: CharPtr) returns (r: int)
      requires Valid() && (key.Ptr? ==> Bucketed(key.s) && !locked)
      modifies this, nodes, repr
      ensures Valid() && repr <= old(repr)
      ensures r == if key.Null? then -2 else if key.s in old(Map()) then 0 else -1
      ensures locked == if key.Null? then old(locked) else Vacant(old(Map()), key.s)
      ensures Map() == if r == 0 then old(Map()) - {key.s} else old(Map())
    {
      hide DistinctKeys, AsMap, Rem, ByteSum, NodesIn;
      if key.Null? {
        return -2;
      }
      IndexInTable(key.s);
      var i := Hash(key, MAX_TABLE_SIZE);
      var idx: nat := i;
      BucketChain(idx);
      EmptyBucket(key.s);
      locked := true;
      if nodes[idx] == null {
        Decided(key.s, 0);
        return -1;
      }
      r := DeleteFrom(idx, key.s);
      locked := false;
    }

    /** The part of `delete` for a bucket that is not empty. */
    method DeleteFrom(idx: nat, key: CString) returns (r: int)
      requires Valid() && Bucketed(key) && idx == Index(key) < nodes.Length && nodes[idx] != null
      modifies `count, `chains, `repr, nodes, repr
      ensures Valid() && repr <= old(repr)
      ensures r == if key in old(Map()) then 0 else -1
      ensures Map() == if r == 0 then old(Map()) - {key} else old(Map())
    {
      hide DistinctKeys, AsMap, Rem, ByteSum, NodesIn, Flat;
      BucketChain(idx);
      var head := nodes[idx];
      StrcmpZero(head.key, key);
      if Strcmp(head.key, key) == 0 {
        Decided(key, 0);
        Unhook(idx, null, head, 0);
        return 0;
      }
      var cur;
      ghost var at;
      cur, at := Predecessor(head, key, chains[idx]);
      Decided(key, at + 1);
      if cur.next == null {
        return -1;
      }
      Unhook(idx, cur, cur.next, at + 1);
      r := 0;
    }

    method Unhook(idx: nat, prev: Node?, node: Node, ghost i: nat)
      requires Valid() && idx < nodes.Length && i < |chains[idx]| && node == chains[idx][i]
      requires prev == if i == 0 then null else chains[idx][i - 1]
      modifies `count, `chains, `repr, nodes, repr
      ensures Valid() && repr <= old(repr)
      ensures Map() == old(Map()) - {node.key}
    {
      hide DistinctKeys, AsMap, Rem, ByteSum, NodesIn, Flat, Chained;
      Unlink(nodes, idx, prev, node, chains, Index, i);
      Shrunk(chains, idx, i);
      chains := chains[idx := chains[idx][..i] + chains[idx][i + 1..]];
      repr := NodesIn(chains);
      count := count - 1;
    }

    method Exist(key: CharPtr) returns (r: int)
      requires Valid() && (key.Ptr? ==> Bucketed(key.s) && !locked)
      ensures r == if key.Ptr? && key.s in Map() then 1 else 0
    {
      var value := Get(key);
      r := if value.Ptr? then 1 else 0;
    }

    /** Frees the chain of one bucket from the front. */
    method ClearBucket(b: nat, ghost freed0: seq<Node>) returns (ghost freed: seq<Node>)
      requires |chains| == nodes.Length && b < nodes.Length && Chained(nodes[b], chains[b])
      modifies nodes
      ensures freed == freed0 + chains[b] && nodes[b] == null
      ensures forall c :: 0 <= c < nodes.Length && c != b ==> nodes[c] == old(nodes[c])
    {
      freed := freed0;
      var node := nodes[b];
      ghost var at: nat := 0;
      while node != null
        invariant at <= |chains[b]| && node == At(chains[b], at) && nodes[b] == node
        invariant forall c :: 0 <= c < nodes.Length && c != b ==> nodes[c] == old(nodes[c])
        invariant freed == freed0 + chains[b][..at]
        decreases |chains[b]| - at
      {
        freed := freed + [node];
        node, at := node.next, at + 1;
        nodes[b] := node;
      }
      assert chains[b][..at] == chains[b];
    }

    /** `dest_hashtable`: every node is freed once, bucket by bucket. */
    method Destroy() returns (ghost freed: seq<Node>)
      requires Valid()
      modifies nodes
      ensures freed == old(Flat(chains)) && forall b :: 0 <= b < nodes.Length ==> nodes[b] == null
    {
      hide DistinctKeys, Flat, Chained;
      freed := [];
      NoChains([]);
      for b := 0 to nodes.Length
        invariant forall c :: 0 <= c < b ==> nodes[c] == null
        invariant forall c :: b <= c < nodes.Length ==> Chained(nodes[c], chains[c])
        invariant freed == Flat(chains[..b])
      {
        freed := ClearBucket(b, freed);
        FlatStep(chains, b);
      }
      assert chains[..nodes.Length] == chains;
    }
  }

  /** The walk of `delete` along a chain that does not start with the key. */
  method Predecessor(head: Node, key: CString, ghost s: seq<Node>) returns (cur: Node, ghost at: nat)
    requires Chained(head, s) && head.key != key
    ensures at < |s| && cur == s[at] && cur.next == At(s, at + 1)
    ensures forall i :: 0 <= i <= at ==> s[i].key != key
    ensures cur.next != null ==> cur.next.key == key
  {
    cur, at := head, 0;
    while cur.next != null
      invariant at < |s| && cur == s[at]
      invariant forall i :: 0 <= i <= at ==> s[i].key != key
      decreases |s| - at
    {
      StrcmpZero(cur.next.key, key);
      if Strcmp(cur.next.key, key) == 0 {
        break;
      }
      cur, at := cur.next, at + 1;
    }
  }


  lemma Grown(chains: seq<seq<Node>>, b: nat, n: Node)
    requires b < |chains| && DistinctKeys(All(chains)) && n.key !in AsMap(All(chains))
    ensures var now := chains[b := [n] + chains[b]];
      && DistinctKeys(All(now)) && |All(now)| == |All(chains)| + 1
      && AsMap(All(now)) == AsMap(All(chains))[n.key := n.value]
      && forall x :: x in NodesIn(now) ==> x in NodesIn(chains) || x == n
  {
    hide Flat, DistinctKeys;
    var now := chains[b := [n] + chains[b]];
    AllPrepend(chains, b, n);
    DistinctInsert(All(chains), Start(chains, b), Binding(n.key, n.value));
    AsMapInsert(All(chains), Start(chains, b), Binding(n.key, n.value));
    NodesAround(chains, b, [n] + chains[b], [n]);
  }

  lemma Shrunk(chains: seq<seq<Node>>, b: nat, i: nat)
    requires b < |chains| && i < |chains[b]| && DistinctKeys(All(chains))
    ensures var now := chains[b := chains[b][..i] + chains[b][i + 1..]];
      && DistinctKeys(All(now)) && |All(now)| == |All(chains)| - 1
      && AsMap(All(now)) == AsMap(All(chains)) - {chains[b][i].key}
      && NodesIn(now) <= NodesIn(chains)
  {
    hide Flat, DistinctKeys, AsMap;
    var s := chains[b];
    var now := chains[b := s[..i] + s[i + 1..]];
    AllRemove(chains, b, i);
    DistinctRemove(All(chains), Start(chains, b) + i);
    AsMapRemove(All(chains), Start(chains, b) + i);
    NodesAround(chains, b, s[..i] + s[i + 1..], []);
  }
}
