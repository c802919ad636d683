/**
 Searching an ordered tree from the root. `key` gives the key of each node object and `cmp`
 is any total order, `strcmp` for rbtree.c and the `cmp` argument of the macros in nty_tree.h.
 */
module Search {
  import opened RedBlack
  import opened Strings

  ghost predicate Ordered<E, K>(cmp: (K, K) -> int, key: map<E, K>, s: seq<E>) {
    && (forall i :: 0 <= i < |s| ==> s[i] in key)
    && (forall i, j :: 0 <= i < j < |s| ==> cmp(key[s[i]], key[s[j]]) < 0)
  }

  ghost predicate Below<E, K>(cmp: (K, K) -> int, key: map<E, K>, s: seq<E>, k: K) {
    forall i :: 0 <= i < |s| ==> s[i] in key && cmp(key[s[i]], k) < 0
  }

  ghost predicate Over<E, K>(cmp: (K, K) -> int, key: map<E, K>, s: seq<E>, k: K) {
    forall i :: 0 <= i < |s| ==> s[i] in key && cmp(k, key[s[i]]) < 0
  }

  /** The hole of `c` is where `k` belongs. */
  ghost predicate Around<E, K>(cmp: (K, K) -> int, key: map<E, K>, c: Ctx<E>, k: K) {
    Below(cmp, key, Before(c), k) && Over(cmp, key, After(c), k)
  }

  lemma OrderedParts<E, K>(cmp: (K, K) -> int, key: map<E, K>, c: Ctx<E>, t: Tree<E>)
    requires Ordered(cmp, key, Inorder(Plug(c, t)))
    ensures Ordered(cmp, key, Inorder(t))
  {
    InorderPlug(c, t);
    MiddleOrdered(cmp, key, Before(c), Inorder(t), After(c));
  }

  lemma MiddleOrdered<E, K>(cmp: (K, K) -> int, key: map<E, K>, b: seq<E>, x: seq<E>, a: seq<E>)
    requires Ordered(cmp, key, b + x + a)
    ensures Ordered(cmp, key, x)
  {
    var s := b + x + a;
    forall i | 0 <= i < |x| ensures x[i] == s[|b| + i] { }
  }

  lemma AroundTop<E, K>(cmp: (K, K) -> int, key: map<E, K>, k: K)
    ensures Around(cmp, key, Top, k)
  {
  }

  lemma Transitive<K(!new)>(cmp: (K, K) -> int, a: K, b: K, c: K)
    requires TotalOrder(cmp) && cmp(a, b) < 0 && cmp(b, c) < 0
    ensures cmp(a, c) < 0
  {
  }

  lemma OverFrom<E, K(!new)>(cmp: (K, K) -> int, key: map<E, K>, l: seq<E>, e: E, r: seq<E>, k: K)
    requires TotalOrder(cmp) && Ordered(cmp, key, l + [e] + r) && e in key && cmp(k, key[e]) < 0
    ensures Over(cmp, key, [e] + r, k)
  {
    hide TotalOrder;
    var s, r' := l + [e] + r, [e] + r;
    forall i | 0 <= i < |r'| ensures r'[i] in key && cmp(k, key[r'[i]]) < 0 {
      assert r'[i] == s[|l| + i] && s[|l|] == e;
      if i > 0 { Transitive(cmp, k, key[e], key[r'[i]]); }
    }
  }

  lemma BelowUpTo<E, K(!new)>(cmp: (K, K) -> int, key: map<E, K>, l: seq<E>, e: E, r: seq<E>, k: K)
    requires TotalOrder(cmp) && Ordered(cmp, key, l + [e] + r) && e in key && cmp(key[e], k) < 0
    ensures Below(cmp, key, l + [e], k)
  {
    hide TotalOrder;
    var s, l' := l + [e] + r, l + [e];
    forall i | 0 <= i < |l'| ensures l'[i] in key && cmp(key[l'[i]], k) < 0 {
      assert l'[i] == s[i] && s[|l|] == e;
      if i < |l| { Transitive(cmp, key[l'[i]], key[e], k); }
    }
  }

  lemma DescendLeft<E, K(!new)>(cmp: (K, K) -> int, key: map<E, K>, c: Ctx<E>, t: Tree<E>, k: K)
    requires TotalOrder(cmp) && Ordered(cmp, key, Inorder(Plug(c, t))) && Around(cmp, key, c, k)
    requires t.Node? && t.elem in key && cmp(k, key[t.elem]) < 0
    ensures Around(cmp, key, In(Left, t.red, t.elem, t.right, c), k)
  {
    OrderedParts(cmp, key, c, t);
    OverFrom(cmp, key, Inorder(t.left), t.elem, Inorder(t.right), k);
  }

  lemma DescendRight<E, K(!new)>(cmp: (K, K) -> int, key: map<E, K>, c: Ctx<E>, t: Tree<E>, k: K)
    requires TotalOrder(cmp) && Ordered(cmp, key, Inorder(Plug(c, t))) && Around(cmp, key, c, k)
    requires t.Node? && t.elem in key && cmp(k, key[t.elem]) > 0
    ensures Around(cmp, key, In(Right, t.red, t.elem, t.left, c), k)
  {
    OrderedParts(cmp, key, c, t);
    assert cmp(key[t.elem], k) < 0;
    BelowUpTo(cmp, key, Inorder(t.left), t.elem, Inorder(t.right), k);
    assert Before(In(Right, t.red, t.elem, t.left, c)) == Before(c) + (Inorder(t.left) + [t.elem]);
  }

  /** A search that ends at a leaf has shown the key absent. */
  lemma Missed<E, K(!new)>(cmp: (K, K) -> int, key: map<E, K>, c: Ctx<E>, k: K)
    requires TotalOrder(cmp) && Around(cmp, key, c, k)
    ensures forall e :: e in Inorder(Plug(c, Leaf)) ==> e in key && key[e] != k
  {
    InorderPlug(c, Leaf);
  }

  /** A new node put where its key belongs keeps the order. */
  lemma OrderedInsert<E, K(!new)>(cmp: (K, K) -> int, key: map<E, K>, b: seq<E>, e: E, a: seq<E>)
    requires TotalOrder(cmp) && Ordered(cmp, key, b + a)
    requires e in key && Below(cmp, key, b, key[e]) && Over(cmp, key, a, key[e])
    ensures Ordered(cmp, key, b + [e] + a)
  {
    hide TotalOrder;
    var s, s' := b + a, b + [e] + a;
    forall i | 0 <= i < |s'| ensures s'[i] == if i < |b| then s[i] else if i == |b| then e else s[i - 1] { }
    forall i | 0 <= i < |b| ensures cmp(key[s'[i]], key[e]) < 0 { assert s'[i] == b[i]; }
    forall j | |b| < j < |s'| ensures cmp(key[e], key[s'[j]]) < 0 { assert s'[j] == a[j - |b| - 1]; }
    forall i, j | 0 <= i < j < |s'| ensures cmp(key[s'[i]], key[s'[j]]) < 0 {
      if i != |b| && j != |b| {
        var i', j' := if i < |b| then i else i - 1, if j < |b| then j else j - 1;
        assert s'[i] == s[i'] && s'[j] == s[j'] && i' < j';
      }
    }
  }

  /** Both notions look only at the keys of the nodes they speak of. */
  lemma AroundGrows<E, K>(cmp: (K, K) -> int, key: map<E, K>, key': map<E, K>, c: Ctx<E>, k: K)
    requires forall e :: e in key ==> e in key' && key'[e] == key[e]
    ensures Around(cmp, key, c, k) ==> Around(cmp, key', c, k)
    ensures Ordered(cmp, key, Before(c) + After(c)) ==> Ordered(cmp, key', Before(c) + After(c))
  {
  }

  lemma OrderedRemove<E, K>(cmp: (K, K) -> int, key: map<E, K>, b: seq<E>, e: E, a: seq<E>)
    requires Ordered(cmp, key, b + [e] + a)
    ensures Ordered(cmp, key, b + a)
  {
    var s, s' := b + [e] + a, b + a;
    forall i | 0 <= i < |s'| ensures s'[i] == s[if i < |b| then i else i + 1] { }
  }

  /** A key between two parts of a walk is the key of none of them. */
  lemma NotBetween<E, K(!new)>(cmp: (K, K) -> int, key: map<E, K>, b: seq<E>, k: K, a: seq<E>)
    requires TotalOrder(cmp) && Below(cmp, key, b, k) && Over(cmp, key, a, k)
    ensures forall i :: 0 <= i < |b + a| ==> (b + a)[i] in key && key[(b + a)[i]] != k
  {
  }

  /** Being ordered depends only on the keys of the nodes in the walk. */
  lemma OrderedAgain<E, K>(cmp: (K, K) -> int, key: map<E, K>, key': map<E, K>, s: seq<E>)
    requires Ordered(cmp, key, s)
    requires forall i :: 0 <= i < |s| ==> s[i] in key' && (s[i] in key ==> key'[s[i]] == key[s[i]])
    ensures Ordered(cmp, key', s)
  {
  }

  lemma InsertAt<E, K(!new)>(cmp: (K, K) -> int, key: map<E, K>, key': map<E, K>, b: seq<E>, e: E, a: seq<E>)
    requires TotalOrder(cmp) && Ordered(cmp, key, b + a)
    requires forall x :: x in key ==> x in key' && key'[x] == key[x]
    requires e in key' && Below(cmp, key, b, key'[e]) && Over(cmp, key, a, key'[e])
    ensures Ordered(cmp, key', b + [e] + a)
  {
    hide TotalOrder;
    OrderedAgain(cmp, key, key', b + a);
    OrderedInsert(cmp, key', b, e, a);
  }

  lemma BelowJoin<E, K>(cmp: (K, K) -> int, key: map<E, K>, a: seq<E>, b: seq<E>, k: K)
    requires Below(cmp, key, a, k) && Below(cmp, key, b, k)
    ensures Below(cmp, key, a + b, k)
  {
  }

  lemma OverJoin<E, K>(cmp: (K, K) -> int, key: map<E, K>, a: seq<E>, b: seq<E>, k: K)
    requires Over(cmp, key, a, k) && Over(cmp, key, b, k)
    ensures Over(cmp, key, a + b, k)
  {
  }
}
