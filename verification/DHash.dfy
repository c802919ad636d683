/**
 The dhash engine of dhash.c: chains in 100 buckets that `put` only ever prepends to, so that
 each key has a stack of values.
 */
module DHash {
  import opened Bindings
  import opened Chains
  import opened Strings

  const TABLE_SIZE := 100

  /** `unsigned int` arithmetic: every step is taken modulo 2^32. */
  function Djb2(key: CString): nat {
    if key == [] then 5381
    else (Djb2(key[..|key| - 1]) * 33 + SignedChar(key[|key| - 1])) % 0x1_0000_0000
  }

  function Index(key: CString): int {
    Djb2(key) % TABLE_SIZE
  }

  lemma ModShift(a: int, t: int)
    ensures (a - t * 0x1_0000_0000) % 0x1_0000_0000 == a % 0x1_0000_0000
  {
  }

  /** Wrapping at each step is wrapping once. */
  lemma Wraps(h: nat, c: int)
    ensures ((h * 32 % 0x1_0000_0000 + h) % 0x1_0000_0000 + c) % 0x1_0000_0000 == (h * 33 + c) % 0x1_0000_0000
  {
    var q := h * 32 / 0x1_0000_0000;
    var shifted := h * 32 % 0x1_0000_0000;
    var q2 := (shifted + h) / 0x1_0000_0000;
    ModShift(h * 33 + c, q + q2);
  }

  /** `hash_function`. */
  method HashFunction(key: CString) returns (index: nat)
    ensures index == Index(key) < 100
  {
    var h, i := 5381, 0;
    while i < |key|
      invariant 0 <= i <= |key| && 0 <= h < 0x1_0000_0000 && h == Djb2(key[..i])
    {
      assert key[..i + 1][..i] == key[..i];
      Wraps(h, SignedChar(key[i]));
      var shifted := h * 32 % 0x1_0000_0000;
      h := ((shifted + h) % 0x1_0000_0000 + SignedChar(key[i])) % 0x1_0000_0000;
      i := i + 1;
    }
    assert key[..i] == key;
    index := h % TABLE_SIZE;
  }

  /** Below `i` in its own bucket and in all buckets before, the key does not occur. */
  lemma NoneBefore(nodes: array<Node?>, chains: seq<seq<Node>>, key: CString, i: nat)
    requires Linked(nodes, chains, Index) && |chains| == TABLE_SIZE && i <= |chains[Index(key)]|
    requires forall j :: 0 <= j < i ==> chains[Index(key)][j].key != key
    ensures Start(chains, Index(key)) + i <= |All(chains)|
    ensures key !in KeySet(All(chains)[..Start(chains, Index(key)) + i])
  {
    hide Flat, Chained, Djb2;
    var b := Index(key);
    var s, pre, post := chains[b], Flat(chains[..b]), Flat(chains[b + 1..]);
    FlatAround(chains, b, s);
    assert chains[b := s] == chains;
    forall m | 0 <= m < |pre| + i ensures All(chains)[m].key != key {
      if m < |pre| {
        assert Flat(chains)[m] == pre[m] && pre[m] in pre;
        var c := FlatFrom(chains[..b], pre[m]);
        assert chains[..b][c] == chains[c];
      } else {
        assert Flat(chains)[m] == s[m - |pre|];
      }
    }
  }

  class DHashTable {
    const table: array<Node?>
    ghost var chains: seq<seq<Node>>
    ghost var repr: set<Node>

    constructor ()
      ensures Valid() && All(chains) == [] && fresh(table) && repr == {}
    {
      table := new Node?[TABLE_SIZE](_ => null);
      chains := seq(TABLE_SIZE, _ => []);
      repr := {};
      new;
      NoChains(chains);
    }

    ghost predicate Valid()
      reads this, table, repr`next
    {
      table.Length == TABLE_SIZE && repr == NodesIn(chains) && Linked(table, chains, Index)
    }

    /** The values of each key, the newest one first. */
    ghost function Contents(): Stacks
      reads `chains
    {
      StacksOf(All(chains))
    }

    lemma BucketChain(b: nat)
      requires Valid() && b < table.Length
      ensures |chains| == table.Length && Chained(table[b], chains[b])
    {
    }

    /** Where the newest value of the key hangs. */
    lemma Decided(key: CString, at: nat)
      requires Valid() && at <= |chains[Index(key)]|
      requires forall i :: 0 <= i < at ==> chains[Index(key)][i].key != key
      requires at < |chains[Index(key)]| ==> chains[Index(key)][at].key == key
      ensures at < |chains[Index(key)]| <==> key in Contents()
      ensures key in Contents() ==> |Contents()[key]| > 0 && Contents()[key][0] == chains[Index(key)][at].value
    {
      hide Flat, Chained, Djb2;
      if at < |chains[Index(key)]| {
        Newest(key, at);
      } else if key in Contents() {
        InItsBucket(table, chains, Index, key);
      }
    }

    lemma Newest(key: CString, at: nat)
      requires Valid() && at < |chains[Index(key)]| && chains[Index(key)][at].key == key
      requires forall i :: 0 <= i < at ==> chains[Index(key)][i].key != key
      ensures key in Contents() && |Contents()[key]| > 0 && Contents()[key][0] == chains[Index(key)][at].value
      ensures var now := chains[Index(key) := chains[Index(key)][..at] + chains[Index(key)][at + 1..]];
        StacksOf(All(now)) == Pop(Contents(), key)
    {
      hide Flat, Chained, Djb2, KeySet, Select, StacksOf, All;
      var bs, m := All(chains), Start(chains, Index(key)) + at;
      NoneBefore(table, chains, key, at);
      AllRemove(chains, Index(key), at);
      assert bs == bs[..m] + [bs[m]] + bs[m + 1..];
      PoppedOff(bs[..m], bs[m], bs[m + 1..]);
    }

    method Find(key: CString) returns (node: Node?, ghost at: nat)
      requires Valid()
      ensures at <= |chains[Index(key)]| && node == At(chains[Index(key)], at)
      ensures forall i :: 0 <= i < at ==> chains[Index(key)][i].key != key
      ensures node != null <==> key in Contents()
      ensures node != null ==> node.key == key && |Contents()[key]| > 0 && Contents()[key][0] == node.value
    {
      hide Flat, Djb2, StacksOf;
      var index := HashFunction(key);
      BucketChain(index);
      node, at := FindIn(table[index], key, chains[index]);
      Decided(key, at);
    }

    method Put(key: CString, value: CString) returns (r: int)
      requires Valid()
      modifies this, table
      ensures Valid() && r == 0 && fresh(repr - old(repr))
      ensures Contents() == Push(old(Contents()), key, value)
    {
      hide Chained, NodesIn, KeySet, Flat, Djb2, StacksOf;
      var index := HashFunction(key);
      ghost var was := chains;
      NoneBefore(table, chains, key, 0);
      var node := Prepend(table, index, key, value, chains, Index);
      chains := chains[index := [node] + chains[index]];
      repr := NodesIn(chains);
      Pushed(was, index, node);
      NodesAround(was, index, [node] + was[index], [node]);
      r := 0;
    }

    method Get(key: CString) returns (value: CharPtr)
      requires Valid()
      ensures value == if key in Contents() && Contents()[key] != [] then Ptr(Contents()[key][0]) else Null
    {
      var node;
      ghost var at;
      node, at := Find(key);
      value := if node != null then Ptr(node.value) else Null;
    }

    method Count() returns (count: int)
      requires Valid()
      ensures count == Total(Contents())
    {
      hide Flat, Djb2, StacksOf, Chained;
      count := 0;
      NoChains([]);
      for i := 0 to TABLE_SIZE
        invariant count == |Flat(chains[..i])|
      {
        BucketChain(i);
        var n := Length(table[i], chains[i]);
        count := count + n;
        FlatStep(chains, i);
      }
      assert chains[..TABLE_SIZE] == chains;
      TotalIsLength(All(chains));
    }

    method Delete(key: CString) returns (r: int)
      requires Valid()
      modifies this, table, repr
      ensures Valid() && repr <= old(repr)
      ensures r == if key in old(Contents()) then 0 else -1
      ensures Contents() == if r == 0 then Pop(old(Contents()), key) else old(Contents())
    {
      hide Flat, Djb2, StacksOf, NodesIn, Chained;
      var index := HashFunction(key);
      BucketChain(index);
      var prev, current;
      ghost var at;
      prev, current, at := Walk(table[index], key, chains[index]);
      Decided(key, at);
      if current == null {
        return -1;
      }
      Newest(key, at);
      Unhook(index, prev, current, at);
      r := 0;
    }

    method Unhook(index: nat, prev: Node?, node: Node, ghost i: nat)
      requires Valid() && index < table.Length && i < |chains[index]| && node == chains[index][i]
      requires prev == if i == 0 then null else chains[index][i - 1]
      modifies this, table, repr
      ensures Valid() && repr <= old(repr)
      ensures chains == old(chains[index := chains[index][..i] + chains[index][i + 1..]])
    {
      hide Flat, Djb2, NodesIn, Chained;
      Unlink(table, index, prev, node, chains, Index, i);
      NodesAround(chains, index, chains[index][..i] + chains[index][i + 1..], []);
      chains := chains[index := chains[index][..i] + chains[index][i + 1..]];
      repr := NodesIn(chains);
    }

    method Exist(key: CString) returns (r: int)
      requires Valid()
      ensures r == if key in Contents() then 1 else 0
    {
      var node;
      ghost var at;
      node, at := Find(key);
      r := if node != null then 1 else 0;
    }
  }

  /** The loop of `delete`; a null `prev` stands for the bucket the walk starts from. */
  method Walk(head: Node?, key: CString, ghost s: seq<Node>) returns (prev: Node?, current: Node?, ghost at: nat)
    requires Chained(head, s)
    ensures at <= |s| && current == At(s, at) && prev == if at == 0 then null else s[at - 1]
    ensures forall i :: 0 <= i < at ==> s[i].key != key
    ensures current != null ==> current.key == key
  {
    prev, current, at := null, head, 0;
    while current != null && Strcmp(current.key, key) != 0
      invariant at <= |s| && current == At(s, at) && prev == if at == 0 then null else s[at - 1]
      invariant forall i :: 0 <= i < at ==> s[i].key != key
      decreases |s| - at
    {
      StrcmpZero(current.key, key);
      prev, current, at := current, current.next, at + 1;
    }
    if current != null { StrcmpZero(current.key, key); }
  }

  method Length(head: Node?, ghost s: seq<Node>) returns (n: int)
    requires Chained(head, s)
    ensures n == |s|
  {
    n := 0;
    var node := head;
    while node != null
      invariant 0 <= n <= |s| && node == At(s, n)
      decreases |s| - n
    {
      n := n + 1;
      node := node.next;
    }
  }

  lemma Pushed(chains: seq<seq<Node>>, b: nat, n: Node)
    requires b < |chains| && Start(chains, b) <= |All(chains)|
    requires n.key !in KeySet(All(chains)[..Start(chains, b)])
    ensures StacksOf(All(chains[b := [n] + chains[b]])) == Push(StacksOf(All(chains)), n.key, n.value)
  {
    hide Flat, KeySet, StacksOf;
    AllPrepend(chains, b, n);
    var bs, at := All(chains), Start(chains, b);
    assert bs[..at] + bs[at..] == bs;
    PushedOn(bs[..at], Binding(n.key, n.value), bs[at..]);
  }
}
