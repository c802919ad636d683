/** The array engine of kvstore.c: a table of slots searched from the front. */
module ArrayStore {
  import opened Bindings
  import opened Strings

  const KVS_ARRAY_ITEM_SIZE := 1024

  datatype Item = Item(key: CharPtr, value: CharPtr) {
    /** Key and value are both null or both set. */
    predicate Whole() {
      key.Ptr? <==> value.Ptr?
    }
  }

  const FREE := Item(Null, Null)

  /** The bindings of the occupied slots, in slot order. */
  ghost function Stored(items: seq<Item>): seq<Binding>
    requires forall i :: 0 <= i < |items| ==> items[i].Whole()
  {
    if items == [] then []
    else assert items[0].Whole(); (if items[0].key.Null? then [] else [Binding(items[0].key.s, items[0].value.s)]) + Stored(items[1..])
  }

  /** The number of occupied slots. */
  function Occupied(items: seq<Item>): nat {
    if items == [] then 0 else (if items[0].key.Ptr? then 1 else 0) + Occupied(items[1..])
  }

  lemma {:induction false} StoredLength(items: seq<Item>)
    requires forall i :: 0 <= i < |items| ==> items[i].Whole()
    ensures |Stored(items)| == Occupied(items)
  {
    if items != [] { StoredLength(items[1..]); }
  }

  lemma {:induction false} StoredConcat(a: seq<Item>, b: seq<Item>)
    requires forall i :: 0 <= i < |a| ==> a[i].Whole()
    requires forall i :: 0 <= i < |b| ==> b[i].Whole()
    ensures Stored(a + b) == Stored(a) + Stored(b)
  {
    if a == [] {
      assert a + b == b;
    } else {
      assert (a + b)[1..] == a[1..] + b;
      StoredConcat(a[1..], b);
    }
  }

  /** Writing slot `i` replaces the stretch of bindings it stands for. */
  lemma {:induction false} StoredWrite(items: seq<Item>, i: nat, x: Item)
    requires forall j :: 0 <= j < |items| ==> items[j].Whole()
    requires i < |items| && x.Whole()
    ensures var now := items[i := x]; forall j :: 0 <= j < |now| ==> now[j].Whole()
    ensures Stored(items[i := x]) == Stored(items[..i]) + Stored([x]) + Stored(items[i + 1..])
  {
    var a, b := items[..i], items[i + 1..];
    assert items[i := x] == a + [x] + b;
    StoredConcat(a, [x]);
    StoredConcat(a + [x], b);
  }

  lemma {:induction false} StoredAround(items: seq<Item>, i: nat)
    requires forall j :: 0 <= j < |items| ==> items[j].Whole()
    requires i < |items|
    ensures Stored(items) == Stored(items[..i]) + Stored([items[i]]) + Stored(items[i + 1..])
  {
    StoredWrite(items, i, items[i]);
    assert items[i := items[i]] == items;
  }

  /** Pigeonhole: a table without a free slot holds as many bindings as it has slots. */
  lemma {:induction false} FullTable(items: seq<Item>)
    requires forall i :: 0 <= i < |items| ==> items[i].key.Ptr?
    ensures Occupied(items) == |items|
  {
    if items != [] { FullTable(items[1..]); }
  }

  lemma {:induction false} KeyIsStored(items: seq<Item>, key: CString)
    requires forall i :: 0 <= i < |items| ==> items[i].Whole()
    ensures key in KeySet(Stored(items)) <==> exists i :: 0 <= i < |items| && items[i].key == Ptr(key)
  {
    if items != [] {
      KeyIsStored(items[1..], key);
      var rest, s := Stored(items[1..]), Stored(items);
      assert forall b :: b in s <==> b in rest || (items[0].key.Ptr? && b == Binding(items[0].key.s, items[0].value.s));
      if key in KeySet(s) && key in KeySet(rest) {
        var i :| 0 <= i < |items[1..]| && items[1..][i].key == Ptr(key);
        assert items[i + 1].key == Ptr(key);
      }
      if i :| 0 <= i < |items| && items[i].key == Ptr(key) {
        if i > 0 { assert items[1..][i - 1].key == Ptr(key); }
        else { assert Binding(key, items[0].value.s) in s; }
      }
    }
  }

  /** Distinct stored keys means that no two slots hold the same key. */
  lemma {:induction false} SlotsDistinct(items: seq<Item>, i: nat, j: nat)
    requires forall k :: 0 <= k < |items| ==> items[k].Whole()
    requires DistinctKeys(Stored(items)) && i < j < |items| && items[i].key.Ptr?
    ensures items[i].key != items[j].key
  {
    hide DistinctKeys, Stored;
    var a, b, x := Stored(items[..i]), Stored(items[i + 1..]), Binding(items[i].key.s, items[i].value.s);
    StoredAround(items, i);
    StoredOne(items[i]);
    assert Stored(items) == a + [x] + b;
    KeyIsStored(items[i + 1..], x.key);
    assert items[i + 1..][j - i - 1] == items[j];
    LaterDiffers(a, x, b);
  }

  lemma StoredOne(x: Item)
    requires x.Whole()
    ensures Stored([x]) == if x.key.Null? then [] else [Binding(x.key.s, x.value.s)]
  {
  }

  lemma LaterDiffers(a: seq<Binding>, x: Binding, b: seq<Binding>)
    requires DistinctKeys(a + [x] + b)
    ensures x.key !in KeySet(b)
  {
    var s := a + [x] + b;
    assert s[|a|] == x;
    forall k | 0 <= k < |b| ensures b[k].key != x.key {
      assert s[|a| + 1 + k] == b[k];
    }
  }

  class ArrayStore {
    const table: array<Item>
    var count: int

    constructor ()
      ensures Valid() && Map() == map[] && fresh(table)
    {
      table := new Item[KVS_ARRAY_ITEM_SIZE](_ => FREE);
      count := 0;
      new;
      NoneStored(table[..]);
    }

    ghost predicate Valid()
      reads this, table
    {
      && table.Length == KVS_ARRAY_ITEM_SIZE
      && (forall i :: 0 <= i < table.Length ==> table[i].Whole())
      && DistinctKeys(Stored(table[..]))
      && count == Occupied(table[..]) < KVS_ARRAY_ITEM_SIZE
    }

    ghost function Map(): map<CString, CString>
      requires forall i :: 0 <= i < table.Length ==> table[i].Whole()
      reads this, table
    {
      AsMap(Stored(table[..]))
    }

    method SearchItem(key: CharPtr) returns (at: int)
      requires Valid()
      ensures -1 <= at < table.Length
      ensures at == -1 <==> key.Null? || key.s !in Map()
      ensures at >= 0 ==> table[at].key == key && table[at].value == Ptr(Map()[key.s])
    {
      hide DistinctKeys, Occupied, Stored;
      if key.Null? {
        return -1;
      }
      for i := 0 to KVS_ARRAY_ITEM_SIZE
        invariant forall j :: 0 <= j < i ==> table[j].key != key
      {
        if table[i].key.Ptr? && Strcmp(table[i].key.s, key.s) == 0 {
          StrcmpZero(table[i].key.s, key.s);
          ValueAt(table[..], i);
          return i;
        }
        if table[i].key.Ptr? { StrcmpZero(table[i].key.s, key.s); }
      }
      KeyIsStored(table[..], key.s);
      at := -1;
    }

    method Exist(key: CharPtr) returns (r: int)
      requires Valid()
      ensures r == if key.Ptr? && key.s in Map() then 1 else 0
    {
      var at := SearchItem(key);
      r := if at >= 0 then 1 else 0;
    }

    /** The search for a free slot, which stops inside the table. */
    method FreeSlot() returns (i: nat)
      requires Valid()
      ensures i < table.Length && table[i] == FREE
      ensures forall j :: 0 <= j < i ==> table[j] != FREE
    {
      i := 0;
      while i < KVS_ARRAY_ITEM_SIZE
        invariant i <= table.Length
        invariant forall j :: 0 <= j < i ==> table[j].key.Ptr?
      {
        if table[i].key.Null? && table[i].value.Null? {
          break;
        }
        i := i + 1;
      }
      NotFull(table[..], i);
    }

    method Set(key: CharPtr, value: CharPtr) returns (r: int)
      requires Valid()
      modifies this, table
      ensures Valid()
      ensures r == if key.Null? || value.Null? || |old(Map())| == 1023 || key.s in old(Map()) then -1 else 0
      ensures Map() == if r == 0 then old(Map())[key.s := value.s] else old(Map())
    {
      hide DistinctKeys, Occupied, Stored, AsMap, KeySet;
      Size();
      if key.Null? || value.Null? || count == KVS_ARRAY_ITEM_SIZE - 1 {
        return -1;
      }
      var there := Exist(key);
      if there == 1 {
        return -1;
      }
      var i := FreeSlot();
      ghost var was := table[..];
      table[i] := Item(key, value);
      count := count + 1;
      assert table[..] == was[i := Item(key, value)];
      Filled(was, i, key.s, value.s);
      r := 0;
    }

    method Get(key: CharPtr) returns (value: CharPtr)
      requires Valid()
      ensures value == if key.Ptr? && key.s in Map() then Ptr(Map()[key.s]) else Null
    {
      var at := SearchItem(key);
      if at >= 0 {
        return table[at].value;
      }
      value := Null;
    }

    method Count() returns (n: int)
      requires Valid()
      ensures n == |Map()|
    {
      Size();
      n := count;
    }

    method Delete(key: CharPtr) returns (r: int)
      requires Valid()
      modifies this, table
      ensures Valid()
      ensures r == if key.Null? || key.s !in old(Map()) then -1 else 0
      ensures Map() == if r == 0 then old(Map()) - {key.s} else old(Map())
    {
      hide DistinctKeys, Occupied, Stored, AsMap;
      if key.Null? {
        return -1;
      }
      var at := SearchItem(key);
      if at < 0 {
        return -1;
      }
      ghost var was := table[..];
      if table[at].key.Ptr? {
        table[at] := table[at].(key := Null);
      }
      if table[at].value.Ptr? {
        table[at] := table[at].(value := Null);
      }
      count := count - 1;
      assert table[..] == was[at := FREE];
      Cleared(was, at);
      r := 0;
    }

    lemma Size()
      requires Valid()
      ensures |Map()| == count
    {
      StoredLength(table[..]);
      AsMapSize(Stored(table[..]));
    }
  }

  lemma {:induction false} NoneStored(items: seq<Item>)
    requires forall i :: 0 <= i < |items| ==> items[i] == FREE
    ensures Stored(items) == [] && Occupied(items) == 0
  {
    if items != [] { NoneStored(items[1..]); }
  }

  lemma {:induction false} NotFull(items: seq<Item>, i: nat)
    requires i <= |items| && Occupied(items) < |items|
    requires forall j :: 0 <= j < i ==> items[j].key.Ptr?
    ensures i < |items|
  {
    if i == |items| { FullTable(items); }
  }

  lemma {:induction false} ValueAt(items: seq<Item>, i: nat)
    requires forall j :: 0 <= j < |items| ==> items[j].Whole()
    requires i < |items| && items[i].key.Ptr? && DistinctKeys(Stored(items))
    ensures items[i].key.s in AsMap(Stored(items))
    ensures AsMap(Stored(items))[items[i].key.s] == items[i].value.s
  {
    StoredAround(items, i);
    var at := |Stored(items[..i])|;
    assert Stored(items)[at] == Binding(items[i].key.s, items[i].value.s);
    FirstAt(Stored(items), at);
  }

  lemma {:induction false} Filled(items: seq<Item>, i: nat, k: CString, v: CString)
    requires forall j :: 0 <= j < |items| ==> items[j].Whole()
    requires i < |items| && items[i] == FREE && DistinctKeys(Stored(items)) && k !in AsMap(Stored(items))
    ensures var now := items[i := Item(Ptr(k), Ptr(v))];
      && (forall j :: 0 <= j < |now| ==> now[j].Whole())
      && DistinctKeys(Stored(now)) && Occupied(now) == Occupied(items) + 1
      && AsMap(Stored(now)) == AsMap(Stored(items))[k := v]
  {
    hide DistinctKeys, Stored, Occupied;
    var now, at, b := items[i := Item(Ptr(k), Ptr(v))], |Stored(items[..i])|, Binding(k, v);
    StoredAround(items, i);
    StoredWrite(items, i, Item(Ptr(k), Ptr(v)));
    var bs := Stored(items);
    StoredOne(items[i]);
    StoredOne(Item(Ptr(k), Ptr(v)));
    assert Stored(now) == bs[..at] + [b] + bs[at..];
    DistinctInsert(bs, at, b);
    AsMapInsert(bs, at, b);
    StoredLength(items);
    StoredLength(now);
  }

  lemma {:induction false} Cleared(items: seq<Item>, i: nat)
    requires forall j :: 0 <= j < |items| ==> items[j].Whole()
    requires i < |items| && items[i].key.Ptr? && DistinctKeys(Stored(items))
    ensures var now := items[i := FREE];
      && (forall j :: 0 <= j < |now| ==> now[j].Whole())
      && DistinctKeys(Stored(now)) && Occupied(now) == Occupied(items) - 1
      && AsMap(Stored(now)) == AsMap(Stored(items)) - {items[i].key.s}
  {
    hide DistinctKeys, AsMap, Stored, Occupied;
    var now, at := items[i := FREE], |Stored(items[..i])|;
    StoredAround(items, i);
    StoredWrite(items, i, FREE);
    var bs := Stored(items);
    StoredOne(items[i]);
    StoredOne(FREE);
    assert Stored(now) == bs[..at] + bs[at + 1..];
    DistinctRemove(bs, at);
    AsMapRemove(bs, at);
    StoredLength(items);
    StoredLength(now);
  }
}
