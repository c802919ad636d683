/**
 The top-down splay tree that the SPLAY_* macros of NtyCo/core/nty_tree.h generate. While
 splaying, the nodes already passed hang in two spines from a dummy node; the spines are
 contexts with holes on one side only, and the tree being walked is what is left of the root.
 Shapes, walks and order are those of RedBlack and Search; colours play no part.
 */
module Splay {
  import opened Sequences
  import opened RedBlack
  import opened Links
  import opened Search
  import opened Strings

  datatype Pair<E> = Pair(left: Link<E>, right: Link<E>)
  type Pairs<E> = map<E, Pair<E>>

  ghost predicate Holds<E>(m: Pairs<E>, t: Tree<E>) {
    t.Node? ==>
      && t.elem in m
      && m[t.elem] == Pair(LinkTo(t.left), LinkTo(t.right))
      && Holds(m, t.left)
      && Holds(m, t.right)
  }

  /** The spine `c` hangs from a link holding `base`; the link at its hole holds `hole`. */
  ghost predicate HoldsSpine<E>(m: Pairs<E>, c: Ctx<E>, hole: Link<E>, base: Link<E>)
    decreases c
  {
    if c.Top? then hole == base
    else
      && c.elem in m
      && m[c.elem] == (if c.side.Left? then Pair(hole, LinkTo(c.sib)) else Pair(LinkTo(c.sib), hole))
      && Holds(m, c.sib)
      && HoldsSpine(m, c.up, To(c.elem), base)
  }

  /** All frames of `c` are on the same side. */
  predicate Straight<E>(c: Ctx<E>, side: Side) {
    c.In? ==> c.side == side && Straight(c.up, side)
  }

  ghost predicate Separate<E>(l: Ctx<E>, t: Tree<E>, r: Ctx<E>) {
    && Straight(l, Right) && Straight(r, Left)
    && DistinctCtx(l) && Distinct(t) && DistinctCtx(r)
    && CtxElems(l) !! Elems(t)
    && CtxElems(r) !! Elems(t)
    && CtxElems(l) !! CtxElems(r)
  }

  lemma {:induction false} HoldsFrame<E>(m: Pairs<E>, m': Pairs<E>, t: Tree<E>)
    requires Holds(m, t) && forall e :: e in Elems(t) && e in m ==> e in m' && m'[e] == m[e]
    ensures Holds(m', t)
    decreases t
  {
    if t.Node? {
      HoldsFrame(m, m', t.left);
      HoldsFrame(m, m', t.right);
    }
  }

  lemma {:induction false} SpineFrame<E>(m: Pairs<E>, m': Pairs<E>, c: Ctx<E>, hole: Link<E>, base: Link<E>)
    requires HoldsSpine(m, c, hole, base)
    requires forall e :: e in CtxElems(c) && e in m ==> e in m' && m'[e] == m[e]
    ensures HoldsSpine(m', c, hole, base)
    decreases c
  {
    if c.In? {
      HoldsFrame(m, m', c.sib);
      SpineFrame(m, m', c.up, To(c.elem), base);
    }
  }

  /** Redirecting the link at the hole. */
  lemma SpineRedirect<E>(m: Pairs<E>, m': Pairs<E>, c: Ctx<E>, hole: Link<E>, base: Link<E>, hole': Link<E>, base': Link<E>)
    requires HoldsSpine(m, c, hole, base) && DistinctCtx(c)
    requires if c.Top? then base' == hole' else
      && base' == base && c.elem in m'
      && m'[c.elem] == (if c.side.Left? then Pair(hole', LinkTo(c.sib)) else Pair(LinkTo(c.sib), hole'))
    requires forall e :: e in CtxElems(c) && e in m && (c.In? ==> e != c.elem) ==> e in m' && m'[e] == m[e]
    ensures HoldsSpine(m', c, hole', base')
  {
    if c.In? {
      HoldsFrame(m, m', c.sib);
      SpineFrame(m, m', c.up, To(c.elem), base);
    }
  }

  /** A spine whose hole is filled is a tree. */
  lemma {:induction false} SpineFilled<E>(m: Pairs<E>, c: Ctx<E>, t: Tree<E>, base: Link<E>)
    requires HoldsSpine(m, c, LinkTo(t), base) && Holds(m, t)
    ensures Holds(m, Plug(c, t)) && base == LinkTo(Plug(c, t))
    decreases c
  {
    if c.In? {
      SpineFilled(m, c.up, Join(c.side, c.red, t, c.elem, c.sib), base);
    }
  }

  lemma {:induction false} StraightWalk<E>(c: Ctx<E>)
    ensures Straight(c, Right) ==> After(c) == []
    ensures Straight(c, Left) ==> Before(c) == []
  {
    if c.In? { StraightWalk(c.up); }
  }

  /** The tree being walked, between the two spines with their hole and base links. */
  ghost predicate Split<E>(m: Pairs<E>, l: Ctx<E>, hl: Link<E>, bl: Link<E>, t: Tree<E>,
                           r: Ctx<E>, hr: Link<E>, br: Link<E>)
  {
    && Separate(l, t, r)
    && (l.In? ==> l.elem in m) && (r.In? ==> r.elem in m)
    && HoldsSpine(m, l, hl, bl)
    && Holds(m, t)
    && HoldsSpine(m, r, hr, br)
  }

  lemma SplitRightRotated<E>(m: Pairs<E>, m': Pairs<E>, l: Ctx<E>, hl: Link<E>, bl: Link<E>, t: Tree<E>,
                          r: Ctx<E>, hr: Link<E>, br: Link<E>)
    requires Split(m, l, hl, bl, t, r, hr, br) && t.Node? && t.left.Node?
    requires m' == m[t.elem := Pair(LinkTo(t.left.right), LinkTo(t.right))][t.left.elem := Pair(LinkTo(t.left.left), To(t.elem))]
    ensures Split(m', l, hl, bl, RotatedRight(t), r, hr, br)
  {
    RotatedRightElems(t);
    RotatedRightDistinct(t);
    assert Holds(m, t.left) && Distinct(t.left);
    assert Elems(t.left) == Elems(t.left.left) + {t.left.elem} + Elems(t.left.right);
    assert t.elem in Elems(t) && t.left.elem in Elems(t);
    HoldsFrame(m, m', t.right);
    HoldsFrame(m, m', t.left.left);
    HoldsFrame(m, m', t.left.right);
    SpineFrame(m, m', l, hl, bl);
    SpineFrame(m, m', r, hr, br);
  }

  lemma SplitLeftRotated<E>(m: Pairs<E>, m': Pairs<E>, l: Ctx<E>, hl: Link<E>, bl: Link<E>, t: Tree<E>,
                          r: Ctx<E>, hr: Link<E>, br: Link<E>)
    requires Split(m, l, hl, bl, t, r, hr, br) && t.Node? && t.right.Node?
    requires m' == m[t.elem := Pair(LinkTo(t.left), LinkTo(t.right.left))][t.right.elem := Pair(To(t.elem), LinkTo(t.right.right))]
    ensures Split(m', l, hl, bl, RotatedLeft(t), r, hr, br)
  {
    RotatedLeftElems(t);
    RotatedLeftDistinct(t);
    assert Holds(m, t.right) && Distinct(t.right);
    assert Elems(t.right) == Elems(t.right.left) + {t.right.elem} + Elems(t.right.right);
    assert t.elem in Elems(t) && t.right.elem in Elems(t);
    HoldsFrame(m, m', t.left);
    HoldsFrame(m, m', t.right.left);
    HoldsFrame(m, m', t.right.right);
    SpineFrame(m, m', l, hl, bl);
    SpineFrame(m, m', r, hr, br);
  }

  lemma SplitLinkedLeft<E>(m: Pairs<E>, m': Pairs<E>, l: Ctx<E>, hl: Link<E>, bl: Link<E>, t: Tree<E>,
                         r: Ctx<E>, hr: Link<E>, br: Link<E>)
    requires Split(m, l, hl, bl, t, r, hr, br) && t.Node?
    requires m' == if r.Top? then m else m[r.elem := m[r.elem].(left := To(t.elem))]
    ensures Split(m', l, hl, bl, t.left, In(Left, t.red, t.elem, t.right, r), LinkTo(t.left), if r.Top? then To(t.elem) else br)
  {
    SpineRedirect(m, m', r, hr, br, To(t.elem), if r.Top? then To(t.elem) else br);
    SpineFrame(m, m', l, hl, bl);
    HoldsFrame(m, m', t.left);
    HoldsFrame(m, m', t.right);
  }

  lemma SplitLinkedRight<E>(m: Pairs<E>, m': Pairs<E>, l: Ctx<E>, hl: Link<E>, bl: Link<E>, t: Tree<E>,
                         r: Ctx<E>, hr: Link<E>, br: Link<E>)
    requires Split(m, l, hl, bl, t, r, hr, br) && t.Node?
    requires m' == if l.Top? then m else m[l.elem := m[l.elem].(right := To(t.elem))]
    ensures Split(m', In(Right, t.red, t.elem, t.left, l), LinkTo(t.right), if l.Top? then To(t.elem) else bl, t.right, r, hr, br)
  {
    SpineRedirect(m, m', l, hl, bl, To(t.elem), if l.Top? then To(t.elem) else bl);
    SpineFrame(m, m', r, hr, br);
    HoldsFrame(m, m', t.left);
    HoldsFrame(m, m', t.right);
  }

  /** What splaying makes of the root and the two spines. */
  function Assembled<E>(l: Ctx<E>, t: Tree<E>, r: Ctx<E>): Tree<E>
    requires t.Node?
  {
    Node(t.red, Plug(l, t.left), t.elem, Plug(r, t.right))
  }

  lemma SplitAssembled<E>(m: Pairs<E>, m': Pairs<E>, l: Ctx<E>, hl: Link<E>, bl: Link<E>, t: Tree<E>,
                          r: Ctx<E>, hr: Link<E>, br: Link<E>, bl': Link<E>, br': Link<E>)
    requires Split(m, l, hl, bl, t, r, hr, br) && t.Node?
    requires bl' == if l.Top? then LinkTo(t.left) else bl
    requires br' == if r.Top? then LinkTo(t.right) else br
    requires t.elem in m' && m'[t.elem] == Pair(bl', br')
    requires l.In? ==> l.elem in m' && m'[l.elem] == m[l.elem].(right := LinkTo(t.left))
    requires r.In? ==> r.elem in m' && m'[r.elem] == m[r.elem].(left := LinkTo(t.right))
    requires forall e :: e in m && e != t.elem && (l.In? ==> e != l.elem) && (r.In? ==> e != r.elem) ==>
      e in m' && m'[e] == m[e]
    ensures Holds(m', Assembled(l, t, r)) && Distinct(Assembled(l, t, r))
    ensures Elems(Assembled(l, t, r)) == CtxElems(l) + Elems(t) + CtxElems(r)
  {
    SpineRedirect(m, m', l, hl, bl, LinkTo(t.left), bl');
    SpineRedirect(m, m', r, hr, br, LinkTo(t.right), br');
    HoldsFrame(m, m', t.left);
    HoldsFrame(m, m', t.right);
    SpineFilled(m', l, t.left, bl');
    SpineFilled(m', r, t.right, br');
    AssembledElems(l, t, r);
  }

  lemma AssembledElems<E>(l: Ctx<E>, t: Tree<E>, r: Ctx<E>)
    requires Separate(l, t, r) && t.Node?
    ensures Distinct(Assembled(l, t, r))
    ensures Elems(Assembled(l, t, r)) == CtxElems(l) + Elems(t) + CtxElems(r)
  {
    ApartPlug(l, t.left);
    ApartPlug(r, t.right);
  }

  lemma NothingAround<E>(s: seq<E>)
    ensures [] + s == s && s + [] == s
  {
  }

  lemma {:induction false} AssembledWalk<E>(l: Ctx<E>, t: Tree<E>, r: Ctx<E>)
    requires Straight(l, Right) && Straight(r, Left) && t.Node?
    ensures Inorder(Assembled(l, t, r)) == Before(l) + Inorder(t) + After(r)
    ensures Inorder(Plug(l, t.left)) == Before(l) + Inorder(t.left)
    ensures Inorder(Plug(r, t.right)) == Inorder(t.right) + After(r)
  {
    hide Plug, Before, After, Inorder;
    StraightWalk(l);
    StraightWalk(r);
    InorderPlug(l, t.left);
    InorderPlug(r, t.right);
    NothingAround(Before(l) + Inorder(t.left));
    NothingAround(Inorder(t.right));
    NodeWalk(t.red, t.left, t.elem, t.right);
    NodeWalk(t.red, Plug(l, t.left), t.elem, Plug(r, t.right));
    Inward(Before(l), Inorder(t.left), [t.elem], Inorder(t.right), After(r));
  }

  lemma Inward<E>(a: seq<E>, b: seq<E>, c: seq<E>, d: seq<E>, e: seq<E>)
    ensures (a + b) + c + (d + e) == a + (b + c + d) + e
  {
  }

  lemma NodeWalk<E>(red: bool, l: Tree<E>, e: E, r: Tree<E>)
    ensures Inorder(Node(red, l, e, r)) == Inorder(l) + [e] + Inorder(r)
  {
  }

  /** A new root `e` above the old one, which keeps only its right subtree. */
  lemma GraftedBelow<E>(m: Pairs<E>, t: Tree<E>, e: E)
    requires Holds(m, t) && Distinct(t) && t.Node? && e !in Elems(t)
    ensures
      var T := Node(false, t.left, e, Node(t.red, Leaf, t.elem, t.right));
      && Holds(m[t.elem := Pair(Nil, LinkTo(t.right))][e := Pair(LinkTo(t.left), To(t.elem))], T)
      && Distinct(T) && Elems(T) == Elems(t) + {e}
  {
    var m' := m[t.elem := Pair(Nil, LinkTo(t.right))][e := Pair(LinkTo(t.left), To(t.elem))];
    var x := Node(t.red, Leaf, t.elem, t.right);
    HoldsFrame(m, m', t.left);
    HoldsFrame(m, m', t.right);
    assert Elems(x) == {t.elem} + Elems(t.right);
    assert Holds(m', x) && Distinct(x);
  }

  lemma GraftedAbove<E>(m: Pairs<E>, t: Tree<E>, e: E)
    requires Holds(m, t) && Distinct(t) && t.Node? && e !in Elems(t)
    ensures
      var T := Node(false, Node(t.red, t.left, t.elem, Leaf), e, t.right);
      && Holds(m[t.elem := Pair(LinkTo(t.left), Nil)][e := Pair(To(t.elem), LinkTo(t.right))], T)
      && Distinct(T) && Elems(T) == Elems(t) + {e}
  {
    var m' := m[t.elem := Pair(LinkTo(t.left), Nil)][e := Pair(To(t.elem), LinkTo(t.right))];
    var x := Node(t.red, t.left, t.elem, Leaf);
    HoldsFrame(m, m', t.left);
    HoldsFrame(m, m', t.right);
    assert Elems(x) == Elems(t.left) + {t.elem};
    assert Holds(m', x) && Distinct(x);
  }

  lemma WalkHungRight<E>(t: Tree<E>, R: Tree<E>)
    requires t.Node? && t.right.Leaf?
    ensures Inorder(Node(t.red, t.left, t.elem, R)) == Inorder(t) + Inorder(R)
  {
    assert Inorder(t) == Inorder(t.left) + [t.elem];
  }

  lemma HungRight<E>(m: Pairs<E>, mr: Pairs<E>, t: Tree<E>, R: Tree<E>)
    requires Holds(m, t) && Distinct(t) && t.Node? && t.right.Leaf?
    requires Holds(mr, R) && Distinct(R) && Elems(R) !! Elems(t) && mr.Keys == Elems(R)
    ensures
      var T := Node(t.red, t.left, t.elem, R);
      && Holds(m[t.elem := Pair(LinkTo(t.left), LinkTo(R))] + mr, T)
      && Distinct(T) && Elems(T) == Elems(t) + Elems(R)
      && Inorder(T) == Inorder(t) + Inorder(R)
  {
    hide Inorder;
    var T, m' := Node(t.red, t.left, t.elem, R), m[t.elem := Pair(LinkTo(t.left), LinkTo(R))] + mr;
    WalkHungRight(t, R);
    assert Elems(t) == Elems(t.left) + {t.elem};
    assert Distinct(T);
    HoldsFrame(m, m', t.left);
    HoldsFrame(mr, m', R);
  }

  lemma PutIn<E>(b: seq<E>, e: E, a: seq<E>)
    ensures
      var s := b + a;
      b + [e] + a == s[..|b|] + [e] + s[|b|..]
  {
  }

  class Spl<K> {
    var left: Spl?<K>
    var right: Spl?<K>
    var key: K

    constructor (key: K)
      ensures this.key == key && left == null && right == null
    {
      this.key := key;
      left, right := null, null;
    }
  }

  ghost function AsLink<K>(n: Spl?<K>): Link<Spl<K>> {
    if n == null then Nil else (var e: Spl<K> := n; To(e))
  }

  ghost function Ref<K>(t: Tree<Spl<K>>): Spl?<K> {
    if t.Leaf? then null else t.elem
  }

  ghost function Memory<K>(nodes: set<Spl<K>>): Pairs<Spl<K>>
    reads nodes`left, nodes`right
  {
    map n | n in nodes :: Pair(AsLink(n.left), AsLink(n.right))
  }

  ghost function KeyMap<K>(nodes: set<Spl<K>>): map<Spl<K>, K>
    reads nodes`key
  {
    map n | n in nodes :: n.key
  }

  class SplHead<K(!new, ==)> {
    const cmp: (K, K) -> int
    var root: Spl?<K>
    ghost var shape: Tree<Spl<K>>
    ghost var nodes: set<Spl<K>>

    ghost predicate Linked()
      reads `root, `shape, `nodes, nodes`left, nodes`right
    {
      && nodes == Elems(shape) && Distinct(shape)
      && root == Ref(shape)
      && Holds(Memory(nodes), shape)
    }

    /** A binary search tree under `cmp`. */
    ghost predicate Valid()
      reads `root, `shape, `nodes, nodes
    {
      TotalOrder(cmp) && Linked() && Ordered(cmp, KeyMap(nodes), Inorder(shape))
    }

    constructor (cmp: (K, K) -> int)
      requires TotalOrder(cmp)
      ensures Valid() && this.cmp == cmp && nodes == {} && Inorder(shape) == []
    {
      this.cmp := cmp;
      root, shape, nodes := null, Leaf, {};
    }

    /** While splaying: `d` is the dummy node, `lt` and `rt` the ends of the two spines. */
    ghost predicate Parts(d: Spl<K>, lt: Spl<K>, rt: Spl<K>, l: Ctx<Spl<K>>, t: Tree<Spl<K>>, r: Ctx<Spl<K>>)
      reads `root, `nodes, d, lt, rt, nodes`left, nodes`right
    {
      && d !in nodes && nodes == CtxElems(l) + Elems(t) + CtxElems(r)
      && lt == (if l.Top? then d else l.elem)
      && rt == (if r.Top? then d else r.elem)
      && root == Ref(t)
      && Split(Memory(nodes), l, AsLink(lt.right), AsLink(d.right), t, r, AsLink(rt.left), AsLink(d.left))
    }

    /** What the parts say about the root of the middle tree. */
    lemma PartsView(d: Spl<K>, lt: Spl<K>, rt: Spl<K>, l: Ctx<Spl<K>>, t: Tree<Spl<K>>, r: Ctx<Spl<K>>)
      requires Parts(d, lt, rt, l, t, r)
      ensures t.Node? ==>
        && t.elem in nodes && t.elem != d && t.elem != lt && t.elem != rt
        && t.elem.left == Ref(t.left) && t.elem.right == Ref(t.right)
      ensures l.In? ==> l.elem in nodes && lt != d && lt != rt
      ensures r.In? ==> r.elem in nodes && rt != d && lt != rt
      ensures Separate(l, t, r) && root == Ref(t)
    {
      assert t.Node? ==> t.elem in Elems(t);
    }

    lemma PartsViewLeft(d: Spl<K>, lt: Spl<K>, rt: Spl<K>, l: Ctx<Spl<K>>, t: Tree<Spl<K>>, r: Ctx<Spl<K>>)
      requires Parts(d, lt, rt, l, t, r) && t.Node? && t.right.Node?
      ensures t.right.elem in nodes && t.right.elem !in {d, lt, rt, t.elem}
      ensures t.right.elem.left == Ref(t.right.left) && t.right.elem.right == Ref(t.right.right)
    {
      assert t.right.elem in Elems(t.right) && t.right.elem in Elems(t);
      assert Holds(Memory(nodes), t.right);
    }

    lemma PartsViewRight(d: Spl<K>, lt: Spl<K>, rt: Spl<K>, l: Ctx<Spl<K>>, t: Tree<Spl<K>>, r: Ctx<Spl<K>>)
      requires Parts(d, lt, rt, l, t, r) && t.Node? && t.left.Node?
      ensures t.left.elem in nodes && t.left.elem !in {d, lt, rt, t.elem}
      ensures t.left.elem.left == Ref(t.left.left) && t.left.elem.right == Ref(t.left.right)
    {
      assert t.left.elem in Elems(t.left) && t.left.elem in Elems(t);
      assert Holds(Memory(nodes), t.left);
    }

    /** SPLAY_ROTATE_RIGHT. */
    method RotateRight(tmp: Spl<K>, d: Spl<K>, lt: Spl<K>, rt: Spl<K>, ghost l: Ctx<Spl<K>>, ghost t: Tree<Spl<K>>, ghost r: Ctx<Spl<K>>)
      requires Parts(d, lt, rt, l, t, r) && t.Node? && t.left.Node? && tmp == t.left.elem
      modifies `root, nodes`left, nodes`right
      ensures Parts(d, lt, rt, l, RotatedRight(t), r)
    {
      PartsView(d, lt, rt, l, t, r);
      PartsViewRight(d, lt, rt, l, t, r);
      ghost var m := Memory(nodes);
      ghost var hl, bl, hr, br := AsLink(lt.right), AsLink(d.right), AsLink(rt.left), AsLink(d.left);
      hide Split;
      assert t.elem in nodes && tmp in nodes;
      root.left := tmp.right;
      tmp.right := root;
      root := tmp;
      ghost var m1: Pairs<Spl<K>> := m[t.elem := Pair(LinkTo(t.left.right), LinkTo(t.right))];
      assert Memory(nodes) == m1[t.left.elem := Pair(LinkTo(t.left.left), To(t.elem))];
      SplitRightRotated(m, Memory(nodes), l, hl, bl, t, r, hr, br);
      RotatedRightElems(t);
    }

    /** SPLAY_ROTATE_LEFT. */
    method RotateLeft(tmp: Spl<K>, d: Spl<K>, lt: Spl<K>, rt: Spl<K>, ghost l: Ctx<Spl<K>>, ghost t: Tree<Spl<K>>, ghost r: Ctx<Spl<K>>)
      requires Parts(d, lt, rt, l, t, r) && t.Node? && t.right.Node? && tmp == t.right.elem
      modifies `root, nodes`right, nodes`left
      ensures Parts(d, lt, rt, l, RotatedLeft(t), r)
    {
      PartsView(d, lt, rt, l, t, r);
      PartsViewLeft(d, lt, rt, l, t, r);
      ghost var m := Memory(nodes);
      ghost var hl, bl, hr, br := AsLink(lt.right), AsLink(d.right), AsLink(rt.left), AsLink(d.left);
      hide Split;
      assert t.elem in nodes && tmp in nodes;
      root.right := tmp.left;
      tmp.left := root;
      root := tmp;
      ghost var m1: Pairs<Spl<K>> := m[t.elem := Pair(LinkTo(t.left), LinkTo(t.right.left))];
      assert Memory(nodes) == m1[t.right.elem := Pair(To(t.elem), LinkTo(t.right.right))];
      SplitLeftRotated(m, Memory(nodes), l, hl, bl, t, r, hr, br);
      RotatedLeftElems(t);
    }

    /** SPLAY_LINKLEFT: the root goes to the end of the right spine. */
    method LinkLeft(d: Spl<K>, lt: Spl<K>, rt: Spl<K>, ghost l: Ctx<Spl<K>>, ghost t: Tree<Spl<K>>, ghost r: Ctx<Spl<K>>)
      returns (tmp': Spl<K>)
      requires Parts(d, lt, rt, l, t, r) && t.Node?
      modifies `root, rt`left
      ensures Parts(d, lt, tmp', l, t.left, In(Left, t.red, t.elem, t.right, r))
    {
      PartsView(d, lt, rt, l, t, r);
      ghost var m := Memory(nodes);
      ghost var hl, bl, hr, br := AsLink(lt.right), AsLink(d.right), AsLink(rt.left), AsLink(d.left);
      hide Split;
      rt.left := root;
      tmp' := root;
      root := root.left;
      assert Memory(nodes) == if r.Top? then m else m[r.elem := m[r.elem].(left := To(t.elem))];
      SplitLinkedLeft(m, Memory(nodes), l, hl, bl, t, r, hr, br);
      assert Elems(t) == Elems(t.left) + {t.elem} + Elems(t.right);
    }

    /** SPLAY_LINKRIGHT: the root goes to the end of the left spine. */
    method LinkRight(d: Spl<K>, lt: Spl<K>, rt: Spl<K>, ghost l: Ctx<Spl<K>>, ghost t: Tree<Spl<K>>, ghost r: Ctx<Spl<K>>)
      returns (tmp': Spl<K>)
      requires Parts(d, lt, rt, l, t, r) && t.Node?
      modifies `root, lt`right
      ensures Parts(d, tmp', rt, In(Right, t.red, t.elem, t.left, l), t.right, r)
    {
      PartsView(d, lt, rt, l, t, r);
      ghost var m := Memory(nodes);
      ghost var hl, bl, hr, br := AsLink(lt.right), AsLink(d.right), AsLink(rt.left), AsLink(d.left);
      hide Split;
      lt.right := root;
      tmp' := root;
      root := root.right;
      assert Memory(nodes) == if l.Top? then m else m[l.elem := m[l.elem].(right := To(t.elem))];
      SplitLinkedRight(m, Memory(nodes), l, hl, bl, t, r, hr, br);
      assert Elems(t) == Elems(t.left) + {t.elem} + Elems(t.right);
    }

    method AssembleLinks(d: Spl<K>, lt: Spl<K>, rt: Spl<K>)
      requires root != null && root != d && root != lt && root != rt && (lt == rt ==> lt == d)
      modifies lt`right, rt`left, root`left, root`right
      ensures lt.right == old(root.left) && rt.left == old(root.right)
      ensures root.left == d.right && root.right == d.left
    {
      lt.right := root.left;
      rt.left := root.right;
      root.left := d.right;
      root.right := d.left;
    }

    /** SPLAY_ASSEMBLE. */
    method Assemble(d: Spl<K>, lt: Spl<K>, rt: Spl<K>, ghost l: Ctx<Spl<K>>, ghost t: Tree<Spl<K>>, ghost r: Ctx<Spl<K>>)
      requires Parts(d, lt, rt, l, t, r) && t.Node?
      modifies `shape, d, nodes`left, nodes`right
      ensures Linked() && shape == Assembled(l, t, r)
    {
      PartsView(d, lt, rt, l, t, r);
      ghost var m := Memory(nodes);
      ghost var hl, bl, hr, br := AsLink(lt.right), AsLink(d.right), AsLink(rt.left), AsLink(d.left);
      hide Split;
      AssembleLinks(d, lt, rt);
      ghost var bl', br' := AsLink(d.right), AsLink(d.left);
      assert Memory(nodes)[t.elem] == Pair(bl', br');
      assert l.In? ==> Memory(nodes)[l.elem] == m[l.elem].(right := LinkTo(t.left));
      assert r.In? ==> Memory(nodes)[r.elem] == m[r.elem].(left := LinkTo(t.right));
      SplitAssembled(m, Memory(nodes), l, hl, bl, t, r, hr, br, bl', br');
      Reshape(Assembled(l, t, r));
    }

    ghost method Reshape(T: Tree<Spl<K>>)
      requires nodes == Elems(T) && Distinct(T) && root == Ref(T) && Holds(Memory(nodes), T)
      modifies `shape
      ensures Linked() && shape == T
    {
      ghost var m := Memory(nodes);
      shape := T;
      assert Memory(nodes) == m;
    }

    /** The walk over everything, with `key` between the two spines. */
    ghost predicate Between(s: seq<Spl<K>>, key: K, l: Ctx<Spl<K>>, t: Tree<Spl<K>>, r: Ctx<Spl<K>>)
      reads `nodes, nodes`key
    {
      && s == Before(l) + Inorder(t) + After(r)
      && Below(cmp, KeyMap(nodes), Before(l), key)
      && Over(cmp, KeyMap(nodes), After(r), key)
    }

    lemma BetweenLeft(s: seq<Spl<K>>, key: K, l: Ctx<Spl<K>>, t: Tree<Spl<K>>, r: Ctx<Spl<K>>)
      requires TotalOrder(cmp) && Ordered(cmp, KeyMap(nodes), s) && Between(s, key, l, t, r)
      requires t.Node? && t.elem in nodes && cmp(key, t.elem.key) < 0
      ensures Between(s, key, l, t.left, In(Left, t.red, t.elem, t.right, r))
    {
      hide TotalOrder, Ordered, Below;
      MiddleOrdered(cmp, KeyMap(nodes), Before(l), Inorder(t), After(r));
      OverFrom(cmp, KeyMap(nodes), Inorder(t.left), t.elem, Inorder(t.right), key);
      Regroup(Before(l), Inorder(t.left), [t.elem], Inorder(t.right), After(r));
    }

    lemma BetweenRight(s: seq<Spl<K>>, key: K, l: Ctx<Spl<K>>, t: Tree<Spl<K>>, r: Ctx<Spl<K>>)
      requires TotalOrder(cmp) && Ordered(cmp, KeyMap(nodes), s) && Between(s, key, l, t, r)
      requires t.Node? && t.elem in nodes && cmp(key, t.elem.key) > 0
      ensures Between(s, key, In(Right, t.red, t.elem, t.left, l), t.right, r)
    {
      assert cmp(t.elem.key, key) < 0;
      hide TotalOrder, Ordered, Over;
      MiddleOrdered(cmp, KeyMap(nodes), Before(l), Inorder(t), After(r));
      BelowUpTo(cmp, KeyMap(nodes), Inorder(t.left), t.elem, Inorder(t.right), key);
      Regroup(Before(l), Inorder(t.left), [t.elem], Inorder(t.right), After(r));
      Associate(Before(l), Inorder(t.left), [t.elem]);
    }

    lemma BetweenSame(s: seq<Spl<K>>, key: K, l: Ctx<Spl<K>>, t: Tree<Spl<K>>, t': Tree<Spl<K>>, r: Ctx<Spl<K>>)
      requires Between(s, key, l, t, r) && Inorder(t) == Inorder(t')
      ensures Between(s, key, l, t', r)
    {
    }

    /** One pass of the loop of SPLAY when the key is below the root; `stop` is its break. */
    method StepLeft(key: K, d: Spl<K>, lt: Spl<K>, rt: Spl<K>, ghost s: seq<Spl<K>>,
                  ghost l: Ctx<Spl<K>>, ghost t: Tree<Spl<K>>, ghost r: Ctx<Spl<K>>)
      returns (stop: bool, rt': Spl<K>, ghost t': Tree<Spl<K>>, ghost r': Ctx<Spl<K>>)
      requires Parts(d, lt, rt, l, t, r) && t.Node? && cmp(key, t.elem.key) < 0
      requires TotalOrder(cmp) && Ordered(cmp, KeyMap(nodes), s) && Between(s, key, l, t, r)
      modifies `root, d, nodes`left, nodes`right
      ensures Parts(d, lt, rt', l, t', r') && t'.Node?
      ensures Between(s, key, l, t', r')
      ensures if stop then t'.left.Leaf? && cmp(key, t'.elem.key) < 0 else Size(t') < Size(t)
    {
      hide Split, TotalOrder, Ordered, Between, Inorder;
      PartsView(d, lt, rt, l, t, r);
      rt', t', r' := rt, t, r;
      var tmp := root.left;
      if tmp == null {
        return true, rt', t', r';
      }
      PartsViewRight(d, lt, rt, l, t, r);
      if cmp(key, tmp.key) < 0 {
        RotateRight(tmp, d, lt, rt, l, t, r);
        RotatedRightInorder(t);
        t' := RotatedRight(t);
        BetweenSame(s, key, l, t, t', r);
        PartsView(d, lt, rt, l, t', r);
        if root.left == null {
          return true, rt', t', r';
        }
      }
      BetweenLeft(s, key, l, t', r);
      rt' := LinkLeft(d, lt, rt, l, t', r);
      r' := In(Left, t'.red, t'.elem, t'.right, r);
      t' := t'.left;
      stop := false;
    }

    /** One pass of the loop of SPLAY when the key is above the root; `stop` is its break. */
    method StepRight(key: K, d: Spl<K>, lt: Spl<K>, rt: Spl<K>, ghost s: seq<Spl<K>>,
                  ghost l: Ctx<Spl<K>>, ghost t: Tree<Spl<K>>, ghost r: Ctx<Spl<K>>)
      returns (stop: bool, lt': Spl<K>, ghost l': Ctx<Spl<K>>, ghost t': Tree<Spl<K>>)
      requires Parts(d, lt, rt, l, t, r) && t.Node? && cmp(key, t.elem.key) > 0
      requires TotalOrder(cmp) && Ordered(cmp, KeyMap(nodes), s) && Between(s, key, l, t, r)
      modifies `root, d, nodes`left, nodes`right
      ensures Parts(d, lt', rt, l', t', r) && t'.Node?
      ensures Between(s, key, l', t', r)
      ensures if stop then t'.right.Leaf? && cmp(key, t'.elem.key) > 0 else Size(t') < Size(t)
    {
      hide Split, TotalOrder, Ordered, Between, Inorder;
      PartsView(d, lt, rt, l, t, r);
      lt', t', l' := lt, t, l;
      var tmp := root.right;
      if tmp == null {
        return true, lt', l', t';
      }
      PartsViewLeft(d, lt, rt, l, t, r);
      if cmp(key, tmp.key) > 0 {
        RotateLeft(tmp, d, lt, rt, l, t, r);
        RotatedLeftInorder(t);
        t' := RotatedLeft(t);
        BetweenSame(s, key, l, t, t', r);
        PartsView(d, lt, rt, l, t', r);
        if root.right == null {
          return true, lt', l', t';
        }
      }
      BetweenRight(s, key, l, t', r);
      lt' := LinkRight(d, lt, rt, l, t', r);
      l' := In(Right, t'.red, t'.elem, t'.left, l);
      t' := t'.right;
      stop := false;
    }

    /**
     SPLAY: the walk does not change, and the new root holds the key or is one of the two
     nodes of the walk the key falls between.
     */
    method Splay(key: K)
      requires Valid() && shape.Node?
      modifies `root, `shape, nodes`left, nodes`right
      ensures Valid() && shape.Node? && Inorder(shape) == old(Inorder(shape))
      ensures cmp(key, shape.elem.key) <= 0 ==> Below(cmp, KeyMap(nodes), Inorder(shape.left), key)
      ensures cmp(key, shape.elem.key) >= 0 ==> Over(cmp, KeyMap(nodes), Inorder(shape.right), key)
    {
      hide Split, TotalOrder, Between, Ordered, Separate, Inorder, Parts, Linked, Assembled;
      var node := new Spl(key);
      var lt, rt, stop := node, node, false;
      ghost var s, l, t, r := Inorder(shape), Top, shape, Top;
      ghost var keys := KeyMap(nodes);
      PartsStart(node);
      BetweenStart(s, key);
      PartsView(node, lt, rt, l, t, r);
      while !stop && cmp(key, root.key) != 0
        invariant Parts(node, lt, rt, l, t, r) && t.Node? && root == t.elem && t.elem in nodes
        invariant KeyMap(nodes) == keys && Between(s, key, l, t, r)
        invariant stop ==>
          (cmp(key, t.elem.key) < 0 && t.left.Leaf?) || (cmp(key, t.elem.key) > 0 && t.right.Leaf?)
        invariant fresh(node) && Separate(l, t, r)
        decreases if stop then 0 else 1, Size(t)
      {
        if cmp(key, root.key) < 0 {
          stop, rt, t, r := StepLeft(key, node, lt, rt, s, l, t, r);
        } else {
          stop, lt, l, t := StepRight(key, node, lt, rt, s, l, t, r);
        }
        PartsView(node, lt, rt, l, t, r);
      }
      Arrived(s, key, l, t, r);
      assert Assembled(l, t, r).Node? && Assembled(l, t, r).elem == t.elem by { RootStays(l, t, r); }
      Assemble(node, lt, rt, l, t, r);
      assert KeyMap(nodes) == keys;
    }

    lemma RootStays(l: Ctx<Spl<K>>, t: Tree<Spl<K>>, r: Ctx<Spl<K>>)
      requires t.Node?
      ensures Assembled(l, t, r).Node? && Assembled(l, t, r).elem == t.elem
    {
    }

    lemma PartsStart(d: Spl<K>)
      requires Linked() && d !in nodes && d.left == null && d.right == null
      ensures root == Ref(shape)
      ensures Parts(d, d, d, Top, shape, Top)
    {
    }

    lemma BetweenStart(s: seq<Spl<K>>, key: K)
      requires s == Inorder(shape)
      ensures Between(s, key, Top, shape, Top)
    {
      assert [] + Inorder(shape) + [] == Inorder(shape);
    }

    lemma Arrived(s: seq<Spl<K>>, key: K, l: Ctx<Spl<K>>, t: Tree<Spl<K>>, r: Ctx<Spl<K>>)
      requires Between(s, key, l, t, r) && TotalOrder(cmp) && Ordered(cmp, KeyMap(nodes), s)
      requires Separate(l, t, r) && t.Node? && t.elem in nodes
      requires cmp(key, t.elem.key) < 0 ==> t.left.Leaf?
      requires cmp(key, t.elem.key) > 0 ==> t.right.Leaf?
      ensures var u := Assembled(l, t, r);
        && s == Inorder(u)
        && (cmp(key, u.elem.key) <= 0 ==> Below(cmp, KeyMap(nodes), Inorder(u.left), key))
        && (cmp(key, u.elem.key) >= 0 ==> Over(cmp, KeyMap(nodes), Inorder(u.right), key))
    {
      hide Inorder, Plug, Before, After, Below, Over, Ordered, TotalOrder;
      AssembledWalk(l, t, r);
      MiddleOrdered(cmp, KeyMap(nodes), Before(l), Inorder(t), After(r));
      var keys := KeyMap(nodes);
      KeyEqual(key, t.elem.key);
      if cmp(key, t.elem.key) == 0 { AllBelowRoot(t); }
      if cmp(key, t.elem.key) < 0 { LeafSides(t.left, key); }
      if cmp(key, t.elem.key) > 0 { LeafSides(t.right, key); }
      if cmp(key, t.elem.key) <= 0 { BelowJoin(cmp, keys, Before(l), Inorder(t.left), key); }
      if cmp(key, t.elem.key) >= 0 { OverJoin(cmp, keys, Inorder(t.right), After(r), key); }
    }

    lemma LeafSides(t: Tree<Spl<K>>, key: K)
      requires t.Leaf?
      ensures Below(cmp, KeyMap(nodes), Inorder(t), key) && Over(cmp, KeyMap(nodes), Inorder(t), key)
    {
    }

    lemma AllBelowRoot(t: Tree<Spl<K>>)
      requires t.Node? && t.elem in nodes && TotalOrder(cmp) && Ordered(cmp, KeyMap(nodes), Inorder(t))
      ensures Below(cmp, KeyMap(nodes), Inorder(t.left), t.elem.key)
      ensures Over(cmp, KeyMap(nodes), Inorder(t.right), t.elem.key)
    {
      var s, l, r := Inorder(t), Inorder(t.left), Inorder(t.right);
      assert s[|l|] == t.elem;
      forall i | 0 <= i < |l| ensures l[i] == s[i] { }
      forall i | 0 <= i < |r| ensures r[i] == s[|l| + 1 + i] { }
    }

    /** SPLAY_FIND. */
    method Find(key: K) returns (e: Spl?<K>)
      requires Valid()
      modifies `root, `shape, nodes`left, nodes`right
      ensures Valid() && Inorder(shape) == old(Inorder(shape))
      ensures e != null ==> e in nodes && e.key == key
      ensures e == null ==> forall n :: n in nodes ==> n.key != key
    {
      WalkNodes();
      if root == null {
        return null;
      }
      Splay(key);
      WalkNodes();
      if cmp(key, root.key) == 0 {
        return root;
      }
      NotAtRoot(key);
      return null;
    }

    lemma WalkNodes()
      requires Linked()
      ensures nodes == (set n | n in Inorder(shape)) && NoDuplicates(Inorder(shape))
      ensures root == null <==> Inorder(shape) == []
      ensures root == Ref(shape) && (shape.Node? ==> shape.elem in nodes)
    {
      ElemsInorder(shape);
      DistinctInorder(shape);
    }

    lemma NotAtRoot(key: K)
      requires Valid() && shape.Node? && cmp(key, shape.elem.key) != 0
      requires cmp(key, shape.elem.key) <= 0 ==> Below(cmp, KeyMap(nodes), Inorder(shape.left), key)
      requires cmp(key, shape.elem.key) >= 0 ==> Over(cmp, KeyMap(nodes), Inorder(shape.right), key)
      ensures forall n :: n in nodes ==> n.key != key
    {
      hide Linked;
      WalkNodes();
      var l, e, r, keys := Inorder(shape.left), shape.elem, Inorder(shape.right), KeyMap(nodes);
      if cmp(key, e.key) < 0 {
        OverFrom(cmp, keys, l, e, r, key);
        NotBetween(cmp, keys, l, key, [e] + r);
        Associate(l, [e], r);
      } else {
        assert cmp(e.key, key) < 0;
        BelowUpTo(cmp, keys, l, e, r, key);
        NotBetween(cmp, keys, l + [e], key, r);
      }
    }

    // ---------- inserting ----------

    /** `elm` becomes the root, the old root its right child without its left subtree. */
    method GraftBelow(elm: Spl<K>, ghost t: Tree<Spl<K>>)
      requires Linked() && t == shape && t.Node? && elm !in nodes
      modifies `root, `shape, `nodes, elm`left, elm`right, nodes`left
      ensures Linked() && nodes == old(nodes) + {elm}
      ensures shape == Node(false, t.left, elm, Node(t.red, Leaf, t.elem, t.right))
    {
      hide Elems, Distinct, Holds;
      ghost var m := Memory(nodes);
      RootCell();
      elm.left := root.left;
      elm.right := root;
      root.left := null;
      root := elm;
      nodes := nodes + {elm};
      ghost var m1: Pairs<Spl<K>> := m[t.elem := Pair(Nil, LinkTo(t.right))];
      assert Memory(nodes) == m1[elm := Pair(LinkTo(t.left), To(t.elem))];
      GraftedBelow(m, t, elm);
      Reshape(Node(false, t.left, elm, Node(t.red, Leaf, t.elem, t.right)));
    }

    method GraftAbove(elm: Spl<K>, ghost t: Tree<Spl<K>>)
      requires Linked() && t == shape && t.Node? && elm !in nodes
      modifies `root, `shape, `nodes, elm`left, elm`right, nodes`right
      ensures Linked() && nodes == old(nodes) + {elm}
      ensures shape == Node(false, Node(t.red, t.left, t.elem, Leaf), elm, t.right)
    {
      hide Elems, Distinct, Holds;
      ghost var m := Memory(nodes);
      RootCell();
      elm.right := root.right;
      elm.left := root;
      root.right := null;
      root := elm;
      nodes := nodes + {elm};
      ghost var m1: Pairs<Spl<K>> := m[t.elem := Pair(LinkTo(t.left), Nil)];
      assert Memory(nodes) == m1[elm := Pair(To(t.elem), LinkTo(t.right))];
      GraftedAbove(m, t, elm);
      Reshape(Node(false, Node(t.red, t.left, t.elem, Leaf), elm, t.right));
    }

    lemma RootCell()
      requires Linked() && shape.Node?
      ensures root == shape.elem && root in nodes
      ensures root.left == Ref(shape.left) && root.right == Ref(shape.right)
    {
    }

    /** SPLAY_INSERT into an empty tree. */
    method InsertFirst(elm: Spl<K>)
      requires Valid() && elm !in nodes && root == null
      modifies `root, `shape, `nodes, elm`left, elm`right
      ensures Valid() && nodes == {elm} && Inorder(shape) == [elm] && old(nodes) == {} && old(Inorder(shape)) == []
    {
      hide Linked, Ordered, TotalOrder;
      WalkNodes();
      FirstNode(elm);
      elm.left, elm.right := null, null;
      root := elm;
      nodes := {elm};
      Reshape(Node(false, Leaf, elm, Leaf));
    }

    /** The part of SPLAY_INSERT after the splay, for a key that is not at the root. */
    method InsertAtRoot(elm: Spl<K>) returns (ghost at: nat)
      requires Valid() && elm !in nodes && shape.Node? && cmp(elm.key, shape.elem.key) != 0
      requires cmp(elm.key, shape.elem.key) <= 0 ==> Below(cmp, KeyMap(nodes), Inorder(shape.left), elm.key)
      requires cmp(elm.key, shape.elem.key) >= 0 ==> Over(cmp, KeyMap(nodes), Inorder(shape.right), elm.key)
      modifies `root, `shape, `nodes, elm`left, elm`right, nodes`left, nodes`right
      ensures Valid() && nodes == old(nodes) + {elm}
      ensures at <= |old(Inorder(shape))|
      ensures Inorder(shape) == old(Inorder(shape))[..at] + [elm] + old(Inorder(shape))[at..]
    {
      hide Linked, Ordered, Below, Over, TotalOrder, Inorder;
      ghost var keys, t := KeyMap(nodes + {elm}), shape;
      RootCell();
      if cmp(elm.key, root.key) < 0 {
        InsertOrderBelow(elm);
        at := |Inorder(t.left)|;
        GraftBelow(elm, t);
      } else {
        InsertOrderAbove(elm);
        at := |Inorder(t.left)| + 1;
        GraftAbove(elm, t);
      }
      assert KeyMap(nodes) == keys;
    }

    /** SPLAY_INSERT: the node already there with an equal key, or null once `elm` is in. */
    method Insert(elm: Spl<K>) returns (e: Spl?<K>, ghost at: nat)
      requires Valid() && elm !in nodes
      modifies `root, `shape, `nodes, elm`left, elm`right, nodes`left, nodes`right
      ensures Valid()
      ensures e != null ==>
        e in nodes && e.key == elm.key && nodes == old(nodes) && Inorder(shape) == old(Inorder(shape))
      ensures e == null ==>
        && nodes == old(nodes) + {elm}
        && (forall n :: n in old(nodes) ==> n.key != elm.key)
        && at <= |old(Inorder(shape))|
        && Inorder(shape) == old(Inorder(shape))[..at] + [elm] + old(Inorder(shape))[at..]
    {
      hide Linked, Ordered, Below, Over, TotalOrder, Inorder;
      e, at := null, 0;
      WalkNodes();
      if root == null {
        InsertFirst(elm);
      } else {
        Splay(elm.key);
        WalkNodes();
        RootCell();
        KeyEqual(elm.key, root.key);
        if cmp(elm.key, root.key) == 0 {
          return root, 0;
        }
        NotAtRoot(elm.key);
        at := InsertAtRoot(elm);
      }
    }

    lemma KeyEqual(a: K, b: K)
      requires TotalOrder(cmp)
      ensures cmp(a, b) == 0 <==> a == b
    {
    }

    lemma FirstNode(elm: Spl<K>)
      ensures Inorder(Node(false, Leaf, elm, Leaf)) == [elm]
      ensures Holds(map[elm := Pair(Nil, Nil)], Node(false, Leaf, elm, Leaf))
      ensures Ordered(cmp, KeyMap({elm}), [elm]) && Distinct(Node(false, Leaf, elm, Leaf))
    {
    }

    lemma InsertOrderBelow(elm: Spl<K>)
      requires Valid() && shape.Node? && cmp(elm.key, shape.elem.key) < 0 && elm !in nodes
      requires Below(cmp, KeyMap(nodes), Inorder(shape.left), elm.key)
      ensures GraftedInOrder(elm, Node(false, shape.left, elm, Node(shape.red, Leaf, shape.elem, shape.right)), |Inorder(shape.left)|)
    {
      hide Linked, TotalOrder, Ordered, Below, Over, Elems, Distinct;
      WalkNodes();
      var t, keys, keys' := shape, KeyMap(nodes), KeyMap(nodes + {elm});
      var l, r := Inorder(t.left), Inorder(t.right);
      OverFrom(cmp, keys, l, t.elem, r, elm.key);
      var a := Inorder(Node(t.red, Leaf, t.elem, t.right));
      LeafWalk(Leaf);
      assert a == [t.elem] + r;
      Associate(l, [t.elem], r);
      InsertAt(cmp, keys, keys', l, elm, a);
      GraftIs(elm, Node(false, t.left, elm, Node(t.red, Leaf, t.elem, t.right)), l, a);
    }

    lemma InsertOrderAbove(elm: Spl<K>)
      requires Valid() && shape.Node? && cmp(elm.key, shape.elem.key) > 0 && elm !in nodes
      requires Over(cmp, KeyMap(nodes), Inorder(shape.right), elm.key)
      ensures GraftedInOrder(elm, Node(false, Node(shape.red, shape.left, shape.elem, Leaf), elm, shape.right), |Inorder(shape.left)| + 1)
    {
      hide Linked, TotalOrder, Ordered, Below, Over;
      WalkNodes();
      var t, keys, keys' := shape, KeyMap(nodes), KeyMap(nodes + {elm});
      var l, r := Inorder(t.left), Inorder(t.right);
      Converse(elm.key, t.elem.key);
      BelowUpTo(cmp, keys, l, t.elem, r, elm.key);
      InsertAt(cmp, keys, keys', l + [t.elem], elm, r);
      assert Inorder(Node(t.red, t.left, t.elem, Leaf)) == l + [t.elem];
      PutIn(l + [t.elem], elm, r);
    }

    lemma GraftIs(elm: Spl<K>, T: Tree<Spl<K>>, b: seq<Spl<K>>, a: seq<Spl<K>>)
      requires Inorder(shape) == b + a && Inorder(T) == b + [elm] + a
      requires Ordered(cmp, KeyMap(nodes + {elm}), b + [elm] + a)
      ensures GraftedInOrder(elm, T, |b|)
    {
      hide Inorder, Ordered;
      PutIn(b, elm, a);
    }

    lemma Converse(a: K, b: K)
      requires TotalOrder(cmp) && cmp(a, b) > 0
      ensures cmp(b, a) < 0
    {
    }

    /** `T` is the tree with `elm` put in at `at`. */
    ghost predicate GraftedInOrder(elm: Spl<K>, T: Tree<Spl<K>>, at: nat)
      reads `shape, `nodes, nodes`key, elm`key
    {
      var s := Inorder(shape);
      at <= |s| && Inorder(T) == s[..at] + [elm] + s[at..] && Ordered(cmp, KeyMap(nodes + {elm}), Inorder(T))
    }

    // ---------- removing ----------

    /** SPLAY_REMOVE of the node with this key, if there is one. */
    method Remove(key: K) returns (removed: bool, ghost at: nat)
      requires Valid()
      modifies `root, `shape, `nodes, nodes`left, nodes`right
      ensures Valid() && nodes <= old(nodes)
      ensures removed <==> exists n :: n in old(nodes) && n.key == key
      ensures var s := old(Inorder(shape));
        if removed then at < |s| && s[at].key == key && Inorder(shape) == s[..at] + s[at + 1..]
        else nodes == old(nodes) && Inorder(shape) == s
    {
      hide Linked, Ordered, Below, Over, TotalOrder;
      removed, at := false, 0;
      WalkNodes();
      if root == null {
        return;
      }
      Splay(key);
      WalkNodes();
      KeyEqual(key, root.key);
      if cmp(key, root.key) != 0 {
        NotAtRoot(key);
        return;
      }
      removed, at := true, |Inorder(shape.left)|;
      RemoveRoot(key);
    }

    /** The root, which holds the key, goes; its subtrees are joined by splaying the left one. */
    method RemoveRoot(key: K)
      requires Valid() && shape.Node? && shape.elem.key == key
      requires Below(cmp, KeyMap(nodes), Inorder(shape.left), key)
      modifies `root, `shape, `nodes, nodes`left, nodes`right
      ensures Valid() && nodes <= old(nodes)
      ensures Inorder(shape) == old(Inorder(shape.left) + Inorder(shape.right))
    {
      hide Linked, Ordered, Below, Over, TotalOrder, Elems, Distinct, Inorder, Holds;
      ghost var t, keys := shape, KeyMap(nodes);
      RootParts(keys);
      if root.left == null {
        root := root.right;
        nodes := Elems(t.right);
        LeafWalk(t.left);
        Reshape(t.right);
      } else {
        JoinHalves(key, t, keys);
      }
      assert Inorder(shape) == Inorder(t.left) + Inorder(t.right);
      StillOrdered(keys);
    }

    /** The left subtree is splayed by a key above all of it, and takes the right one. */
    method JoinHalves(key: K, ghost t: Tree<Spl<K>>, ghost keys: map<Spl<K>, K>)
      requires Linked() && TotalOrder(cmp) && t == shape && t.Node? && t.left.Node?
      requires Ordered(cmp, keys, Inorder(shape)) && keys == KeyMap(nodes)
      requires Below(cmp, keys, Inorder(t.left), key)
      modifies `root, `shape, `nodes, nodes`left, nodes`right
      ensures Linked() && nodes == Elems(t.left) + Elems(t.right)
      ensures Inorder(shape) == Inorder(t.left) + Inorder(t.right)
    {
      hide Linked, Ordered, Below, Over, TotalOrder, Inorder, Elems, Distinct, Holds;
      RootParts(keys);
      var tmp := root.right;
      root := root.left;
      nodes := Elems(t.left);
      Reshape(t.left);
      StillOrdered(keys);
      ghost var right := Memory(Elems(t.right));
      Splay(key);
      assert Memory(Elems(t.right)) == right;
      RightEmpty(key, keys);
      HangRight(tmp, t.right);
    }

    lemma RootParts(keys: map<Spl<K>, K>)
      requires Linked() && shape.Node? && Ordered(cmp, keys, Inorder(shape))
      ensures var t := shape;
        && t.elem in nodes && nodes == Elems(t.left) + {t.elem} + Elems(t.right)
        && root == t.elem && t.elem.left == Ref(t.left) && t.elem.right == Ref(t.right)
        && t.elem !in Elems(t.left) && t.elem !in Elems(t.right)
        && Distinct(t.left) && Distinct(t.right) && Elems(t.left) !! Elems(t.right)
        && Holds(Memory(Elems(t.left)), t.left) && Holds(Memory(Elems(t.right)), t.right)
        && Ordered(cmp, keys, Inorder(t.left))
        && Ordered(cmp, keys, Inorder(t.left) + Inorder(t.right))
    {
      var t := shape;
      HoldsFrame(Memory(nodes), Memory(Elems(t.left)), t.left);
      HoldsFrame(Memory(nodes), Memory(Elems(t.right)), t.right);
      assert Inorder(t) == [] + Inorder(t.left) + ([t.elem] + Inorder(t.right));
      MiddleOrdered(cmp, keys, [], Inorder(t.left), [t.elem] + Inorder(t.right));
      OrderedRemove(cmp, keys, Inorder(t.left), t.elem, Inorder(t.right));
    }

    lemma StillOrdered(keys: map<Spl<K>, K>)
      requires Linked() && Ordered(cmp, keys, Inorder(shape))
      requires forall n :: n in nodes ==> n in keys && keys[n] == n.key
      ensures Ordered(cmp, KeyMap(nodes), Inorder(shape))
    {
      WalkNodes();
      OrderedAgain(cmp, keys, KeyMap(nodes), Inorder(shape));
    }

    lemma LeafWalk(t: Tree<Spl<K>>)
      requires t.Leaf?
      ensures Inorder(t) == [] && Elems(t) == {}
    {
    }

    lemma RightEmpty(key: K, keys: map<Spl<K>, K>)
      requires Linked() && shape.Node? && TotalOrder(cmp) && Below(cmp, keys, Inorder(shape), key)
      requires forall n :: n in nodes ==> n in keys && keys[n] == n.key
      requires cmp(key, shape.elem.key) >= 0 ==> Over(cmp, KeyMap(nodes), Inorder(shape.right), key)
      ensures shape.right.Leaf?
    {
      WalkNodes();
      OrderedKeys(keys, key);
      if shape.right.Node? {
        LastBelow(Inorder(shape.left), shape.elem, Inorder(shape.right), key);
      }
    }

    lemma OrderedKeys(keys: map<Spl<K>, K>, key: K)
      requires Linked() && Below(cmp, keys, Inorder(shape), key)
      requires forall n :: n in nodes ==> n in keys && keys[n] == n.key
      ensures Below(cmp, KeyMap(nodes), Inorder(shape), key)
    {
      WalkNodes();
    }

    /** Nothing after a key below `key` is above it when all of the walk is below it. */
    lemma LastBelow(l: seq<Spl<K>>, e: Spl<K>, r: seq<Spl<K>>, key: K)
      requires TotalOrder(cmp) && r != []
      ensures !(Below(cmp, KeyMap(nodes), l + [e] + r, key) && e in nodes && cmp(key, e.key) >= 0
                && Over(cmp, KeyMap(nodes), r, key))
      ensures Below(cmp, KeyMap(nodes), l + [e] + r, key) && e in nodes ==> cmp(e.key, key) < 0 && cmp(key, e.key) > 0
    {
      assert (l + [e] + r)[|l|] == e && (l + [e] + r)[|l| + 1] == r[0];
    }

    /** The right child of the root, so far null, becomes the tree `R`. */
    method HangRight(tmp: Spl?<K>, ghost R: Tree<Spl<K>>)
      requires Linked() && shape.Node? && shape.right.Leaf? && tmp == Ref(R)
      requires Distinct(R) && Elems(R) !! nodes && Holds(Memory(Elems(R)), R)
      modifies `shape, `nodes, nodes`right
      ensures Linked() && nodes == old(nodes) + Elems(R)
      ensures Inorder(shape) == old(Inorder(shape)) + Inorder(R)
    {
      hide Elems, Distinct, Holds;
      ghost var m, mr, t := Memory(nodes), Memory(Elems(R)), shape;
      RootCell();
      root.right := tmp;
      nodes := nodes + Elems(R);
      ghost var m1: Pairs<Spl<K>> := m[t.elem := Pair(LinkTo(t.left), LinkTo(R))];
      assert Memory(nodes) == m1 + mr;
      HungRight(m, mr, t, R);
      Reshape(Node(t.red, t.left, t.elem, R));
    }
  }
}
