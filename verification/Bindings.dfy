/** Sequences of key-value bindings and the finite map they stand for. */
module Bindings {
  import opened Strings

  datatype Binding = Binding(key: CString, value: CString)

  ghost predicate DistinctKeys(bs: seq<Binding>) {
    forall i, j :: 0 <= i < j < |bs| ==> bs[i].key != bs[j].key
  }

  function KeySet(bs: seq<Binding>): set<CString> {
    set b | b in bs :: b.key
  }

  /** The value of the first binding of `k`, as a linear scan finds it. */
  function First(bs: seq<Binding>, k: CString): CString
    requires k in KeySet(bs)
  {
    if bs[0].key == k then bs[0].value else First(bs[1..], k)
  }

  ghost function AsMap(bs: seq<Binding>): map<CString, CString> {
    map k | k in KeySet(bs) :: First(bs, k)
  }

  lemma {:induction false} FirstAt(bs: seq<Binding>, i: nat)
    requires i < |bs| && DistinctKeys(bs)
    ensures bs[i].key in KeySet(bs) && First(bs, bs[i].key) == bs[i].value
  {
    assert bs[i] in bs;
    if i > 0 {
      assert bs[1..][i - 1] == bs[i];
      FirstAt(bs[1..], i - 1);
    }
  }

  /** Two lists of distinct keys with the same bindings stand for the same map. */
  lemma SameBindings(bs: seq<Binding>, m: map<CString, CString>)
    requires DistinctKeys(bs)
    requires forall b :: b in bs ==> b.key in m && m[b.key] == b.value
    requires forall k :: k in m ==> k in KeySet(bs)
    ensures AsMap(bs) == m
  {
    forall k | k in KeySet(bs) ensures k in m && First(bs, k) == m[k] {
      var i :| 0 <= i < |bs| && bs[i].key == k;
      FirstAt(bs, i);
    }
  }

  lemma AsMapInsert(bs: seq<Binding>, i: nat, b: Binding)
    requires i <= |bs| && DistinctKeys(bs[..i] + [b] + bs[i..])
    ensures b.key !in AsMap(bs)
    ensures AsMap(bs[..i] + [b] + bs[i..]) == AsMap(bs)[b.key := b.value]
  {
    var bs', m := bs[..i] + [b] + bs[i..], AsMap(bs)[b.key := b.value];
    WithoutInserted(bs, i, b);
    KeysInserted(bs, i, b);
    forall x | x in bs' ensures x.key in m && m[x.key] == x.value {
      if x in bs {
        var j :| 0 <= j < |bs| && bs[j] == x;
        FirstAt(bs, j);
      }
    }
    hide DistinctKeys;
    SameBindings(bs', m);
  }

  lemma KeysInserted(bs: seq<Binding>, i: nat, b: Binding)
    requires i <= |bs|
    ensures forall x :: x in bs[..i] + [b] + bs[i..] <==> x in bs || x == b
    ensures KeySet(bs[..i] + [b] + bs[i..]) == KeySet(bs) + {b.key}
  {
    assert bs == bs[..i] + bs[i..];
    assert forall x :: x in bs[..i] + [b] + bs[i..] <==> x in bs || x == b;
  }

  lemma WithoutInserted(bs: seq<Binding>, i: nat, b: Binding)
    requires i <= |bs| && DistinctKeys(bs[..i] + [b] + bs[i..])
    ensures DistinctKeys(bs) && forall x :: x in bs ==> x.key != b.key
  {
    var bs' := bs[..i] + [b] + bs[i..];
    assert bs'[i] == b;
    forall j | 0 <= j < |bs| ensures bs[j] == bs'[if j < i then j else j + 1] { }
  }

  lemma DistinctInsert(bs: seq<Binding>, i: nat, b: Binding)
    requires i <= |bs| && DistinctKeys(bs) && b.key !in KeySet(bs)
    ensures DistinctKeys(bs[..i] + [b] + bs[i..])
  {
    var bs' := bs[..i] + [b] + bs[i..];
    forall j, k | 0 <= j < k < |bs'| ensures bs'[j].key != bs'[k].key {
      assert j != i ==> bs'[j] == bs[if j < i then j else j - 1];
      assert k != i ==> bs'[k] == bs[if k < i then k else k - 1];
      assert forall b' :: b' in bs ==> b'.key != b.key;
    }
  }

  lemma DistinctRemove(bs: seq<Binding>, i: nat)
    requires i < |bs| && DistinctKeys(bs)
    ensures DistinctKeys(bs[..i] + bs[i + 1..])
  {
    var rest := bs[..i] + bs[i + 1..];
    forall j, k | 0 <= j < k < |rest| ensures rest[j].key != rest[k].key {
      assert rest[j] == bs[if j < i then j else j + 1];
      assert rest[k] == bs[if k < i then k else k + 1];
    }
  }

  lemma AsMapRemove(bs: seq<Binding>, i: nat)
    requires i < |bs| && DistinctKeys(bs)
    ensures AsMap(bs[..i] + bs[i + 1..]) == AsMap(bs) - {bs[i].key}
  {
    hide DistinctKeys, KeySet, AsMap;
    var rest, b := bs[..i] + bs[i + 1..], bs[i];
    assert rest[..i] + [b] + rest[i..] == bs;
    AsMapInsert(rest, i, b);
    assert AsMap(rest)[b.key := b.value] - {b.key} == AsMap(rest);
  }

  /** A sorted list has distinct keys, and its map has one entry per binding. */
  ghost predicate SortedByKey(bs: seq<Binding>) {
    forall i, j :: 0 <= i < j < |bs| ==> Strcmp(bs[i].key, bs[j].key) < 0
  }

  lemma SortedIsDistinct(bs: seq<Binding>)
    requires SortedByKey(bs)
    ensures DistinctKeys(bs)
  {
    forall i, j | 0 <= i < j < |bs| ensures bs[i].key != bs[j].key {
      StrcmpZero(bs[i].key, bs[j].key);
    }
  }

  /** In a sorted list, the place where the keys stop being smaller decides whether `key` is bound. */
  lemma Located(bs: seq<Binding>, key: CString, at: nat)
    requires SortedByKey(bs) && at <= |bs|
    requires forall i :: 0 <= i < at ==> Strcmp(bs[i].key, key) < 0
    requires forall i :: at <= i < |bs| ==> Strcmp(bs[i].key, key) >= 0
    ensures key in AsMap(bs) <==> at < |bs| && bs[at].key == key
    ensures key in AsMap(bs) ==> AsMap(bs)[key] == bs[at].value
  {
    hide First, Strcmp;
    SortedIsDistinct(bs);
    StrcmpZero(key, key);
    if at < |bs| && bs[at].key == key {
      FirstAt(bs, at);
    }
    if key in AsMap(bs) {
      var j :| 0 <= j < |bs| && bs[j].key == key;
      assert at <= j && !(at < j);
    }
  }

  lemma AsMapUpdate(bs: seq<Binding>, i: nat, v: CString)
    requires i < |bs| && DistinctKeys(bs)
    ensures bs[i].key in AsMap(bs)
    ensures AsMap(bs[i := Binding(bs[i].key, v)]) == AsMap(bs)[bs[i].key := v]
  {
    var bs', k := bs[i := Binding(bs[i].key, v)], bs[i].key;
    FirstAt(bs, i);
    assert forall j :: 0 <= j < |bs| ==> bs'[j].key == bs[j].key;
    forall b | b in bs' ensures b.key in AsMap(bs)[k := v] && AsMap(bs)[k := v][b.key] == b.value {
      var j :| 0 <= j < |bs| && bs'[j] == b;
      FirstAt(bs, j);
    }
    forall x | x in AsMap(bs)[k := v] ensures x in KeySet(bs') {
      var j :| 0 <= j < |bs| && bs[j].key == x;
      assert bs'[j] in bs';
    }
    SameBindings(bs', AsMap(bs)[k := v]);
  }

  lemma {:induction false} AsMapSize(bs: seq<Binding>)
    requires DistinctKeys(bs)
    ensures |AsMap(bs)| == |bs|
  {
    if bs == [] {
      assert AsMap(bs) == map[];
    } else {
      var n := |bs| - 1;
      assert bs[..n] + bs[n + 1..] == bs[..n];
      AsMapRemove(bs, n);
      DistinctRemove(bs, n);
      AsMapSize(bs[..n]);
      FirstAt(bs, n);
      assert AsMap(bs).Keys == AsMap(bs[..n]).Keys + {bs[n].key};
    }
  }

  // ---------- lists with repeated keys ----------

  /** The values bound to `k`, the first one first. */
  ghost function Select(bs: seq<Binding>, k: CString): seq<CString> {
    if bs == [] then []
    else (if bs[0].key == k then [bs[0].value] else []) + Select(bs[1..], k)
  }

  lemma {:induction false} SelectConcat(a: seq<Binding>, b: seq<Binding>, k: CString)
    ensures Select(a + b, k) == Select(a, k) + Select(b, k)
  {
    if a == [] {
      assert a + b == b;
    } else {
      assert (a + b)[1..] == a[1..] + b;
      SelectConcat(a[1..], b, k);
    }
  }

  lemma SelectAround(a: seq<Binding>, x: Binding, b: seq<Binding>, k: CString)
    ensures Select(a + [x] + b, k) == Select(a, k) + (if x.key == k then [x.value] else []) + Select(b, k)
    ensures Select(a + b, k) == Select(a, k) + Select(b, k)
  {
    SelectConcat(a, b, k);
    SelectConcat(a, [x], k);
    SelectConcat(a + [x], b, k);
    assert Select([x], k) == if x.key == k then [x.value] else [];
  }

  lemma {:induction false} SelectNone(bs: seq<Binding>, k: CString)
    ensures Select(bs, k) == [] <==> k !in KeySet(bs)
  {
    if bs != [] {
      SelectNone(bs[1..], k);
      assert bs == [bs[0]] + bs[1..];
      assert forall b :: b in bs <==> b == bs[0] || b in bs[1..];
    }
  }

  type Stacks = map<CString, seq<CString>>

  ghost function StacksOf(bs: seq<Binding>): Stacks {
    map k | k in KeySet(bs) :: Select(bs, k)
  }

  function Push(m: Stacks, k: CString, v: CString): Stacks {
    m[k := [v] + if k in m then m[k] else []]
  }

  /** Without the newest value of `k`; an empty stack is no entry. */
  function Pop(m: Stacks, k: CString): Stacks
    requires k in m
  {
    if |m[k]| <= 1 then m - {k} else m[k := m[k][1..]]
  }

  ghost function Total(m: Stacks): nat {
    if m == map[] then 0 else var k :| k in m; |m[k]| + Total(m - {k})
  }

  /** A binding whose key does not occur before it is on top of its stack. */
  lemma PushedOn(a: seq<Binding>, x: Binding, b: seq<Binding>)
    requires x.key !in KeySet(a)
    ensures StacksOf(a + [x] + b) == Push(StacksOf(a + b), x.key, x.value)
  {
    hide Select, KeySet;
    var now, was := a + [x] + b, a + b;
    KeySetInsert(a, x, b);
    SelectNone(a, x.key);
    SelectNone(was, x.key);
    var l, r := StacksOf(now), Push(StacksOf(was), x.key, x.value);
    assert l.Keys == r.Keys;
    forall k | k in l ensures l[k] == r[k] {
      SelectAround(a, x, b, k);
      if k == x.key {
        assert Select(now, k) == [x.value] + Select(was, k);
      } else {
        assert Select(now, k) == Select(was, k);
      }
    }
  }

  lemma KeySetInsert(a: seq<Binding>, x: Binding, b: seq<Binding>)
    ensures KeySet(a + [x] + b) == KeySet(a + b) + {x.key}
  {
    assert forall y :: y in a + [x] + b <==> y in a + b || y == x;
  }

  lemma PopPush(m: Stacks, k: CString, v: CString)
    requires k in m ==> m[k] != []
    ensures Pop(Push(m, k, v), k) == m
  {
  }

  lemma PoppedOff(a: seq<Binding>, x: Binding, b: seq<Binding>)
    requires x.key !in KeySet(a)
    ensures x.key in StacksOf(a + [x] + b) && StacksOf(a + [x] + b)[x.key] == [x.value] + Select(b, x.key)
    ensures StacksOf(a + b) == Pop(StacksOf(a + [x] + b), x.key)
  {
    hide KeySet, Select;
    PushedOn(a, x, b);
    SelectNone(a, x.key);
    SelectNone(a + b, x.key);
    SelectAround(a, x, b, x.key);
    PopPush(StacksOf(a + b), x.key, x.value);
  }

  lemma {:induction false} TotalWithout(m: Stacks, k: CString)
    requires k in m
    ensures Total(m) == |m[k]| + Total(m - {k})
  {
    var x :| x in m && Total(m) == |m[x]| + Total(m - {x});
    if x != k {
      TotalWithout(m - {x}, k);
      TotalWithout(m - {k}, x);
      assert m - {x} - {k} == m - {k} - {x};
    }
  }

  lemma TotalPush(m: Stacks, k: CString, v: CString)
    ensures Total(Push(m, k, v)) == Total(m) + 1
  {
    var now := Push(m, k, v);
    TotalWithout(now, k);
    if k in m {
      TotalWithout(m, k);
      assert now - {k} == m - {k};
    } else {
      assert now - {k} == m;
    }
  }

  /** Every binding is on the stack of its key. */
  lemma {:induction false} TotalIsLength(bs: seq<Binding>)
    ensures Total(StacksOf(bs)) == |bs|
  {
    if bs == [] {
      assert StacksOf(bs) == map[];
    } else {
      TotalIsLength(bs[1..]);
      PushedOn([], bs[0], bs[1..]);
      assert [] + [bs[0]] + bs[1..] == bs && [] + bs[1..] == bs[1..];
      TotalPush(StacksOf(bs[1..]), bs[0].key, bs[0].value);
    }
  }

  /** With one value to each key, the stacks are a plain map. */
  predicate Shallow(m: Stacks) {
    forall k :: k in m ==> |m[k]| == 1
  }

  function Tops(m: Stacks): map<CString, CString> {
    map k | k in m :: if m[k] == [] then [] else m[k][0]
  }

  lemma {:induction false} TotalShallow(m: Stacks)
    requires Shallow(m)
    ensures Total(m) == |Tops(m)|
    decreases |m|
  {
    if m == map[] {
      assert Tops(m) == map[];
    } else {
      var k :| k in m;
      TotalWithout(m, k);
      TotalShallow(m - {k});
      assert Tops(m).Keys == Tops(m - {k}).Keys + {k};
      assert |Tops(m)| == |Tops(m).Keys| && |Tops(m - {k})| == |Tops(m - {k}).Keys|;
    }
  }
}
