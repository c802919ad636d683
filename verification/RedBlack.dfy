/**
 The heap-free part of both red-black trees of the repository: tree shapes, the path from
 a node of interest up to the root, and the colour discipline. A shape carries the node
 objects themselves, so it also records identity: `Inorder` is the sequence of objects met
 by a left-to-right walk.
 */
module RedBlack {
  import opened Sequences

  datatype Side = Left | Right

  function Flip(side: Side): Side {
    if side.Left? then Right else Left
  }

  datatype Tree<E> =
    | Leaf
    | Node(red: bool, left: Tree<E>, elem: E, right: Tree<E>)

  /** A tree with a hole: the ancestors of the hole, innermost first. */
  datatype Ctx<E> =
    | Top
    | In(side: Side, red: bool, elem: E, sib: Tree<E>, up: Ctx<E>)

  /** The node whose child on side `side` is `t` and whose other child is `sib`. */
  function Join<E>(side: Side, red: bool, t: Tree<E>, e: E, sib: Tree<E>): Tree<E> {
    if side.Left? then Node(red, t, e, sib) else Node(red, sib, e, t)
  }

  function Plug<E>(c: Ctx<E>, t: Tree<E>): Tree<E>
    decreases c
  {
    if c.Top? then t else Plug(c.up, Join(c.side, c.red, t, c.elem, c.sib))
  }

  /** The context `inner` with its own hole at the hole of `outer`. */
  function Append<E>(inner: Ctx<E>, outer: Ctx<E>): Ctx<E> {
    if inner.Top? then outer else inner.(up := Append(inner.up, outer))
  }

  function Depth<E>(c: Ctx<E>): nat {
    if c.Top? then 0 else 1 + Depth(c.up)
  }

  function Size<E>(t: Tree<E>): nat {
    if t.Leaf? then 0 else Size(t.left) + 1 + Size(t.right)
  }

  // ---------- in-order sequences ----------

  function Inorder<E>(t: Tree<E>): seq<E> {
    if t.Leaf? then [] else Inorder(t.left) + [t.elem] + Inorder(t.right)
  }

  /** What an in-order walk meets before the hole. */
  function Before<E>(c: Ctx<E>): seq<E> {
    if c.Top? then []
    else if c.side.Left? then Before(c.up)
    else Before(c.up) + Inorder(c.sib) + [c.elem]
  }

  /** What an in-order walk meets after the hole. */
  function After<E>(c: Ctx<E>): seq<E> {
    if c.Top? then []
    else if c.side.Left? then [c.elem] + Inorder(c.sib) + After(c.up)
    else After(c.up)
  }

  lemma Regroup<E>(a: seq<E>, b: seq<E>, c: seq<E>, d: seq<E>, e: seq<E>)
    ensures a + (b + c + d) + e == a + b + (c + d + e)
    ensures a + (b + c + d) + e == (a + b + c) + d + e
  {
  }

  lemma {:induction false} InorderPlug<E>(c: Ctx<E>, t: Tree<E>)
    ensures Inorder(Plug(c, t)) == Before(c) + Inorder(t) + After(c)
    decreases c
  {
    if c.Top? {
      assert [] + Inorder(t) + [] == Inorder(t);
    } else {
      InorderPlug(c.up, Join(c.side, c.red, t, c.elem, c.sib));
      if c.side.Left? {
        Regroup(Before(c.up), Inorder(t), [c.elem], Inorder(c.sib), After(c.up));
      } else {
        Regroup(Before(c.up), Inorder(c.sib), [c.elem], Inorder(t), After(c.up));
      }
    }
  }

  lemma {:induction false} SizeIsLength<E>(t: Tree<E>)
    ensures |Inorder(t)| == Size(t)
  {
    if t.Node? {
      SizeIsLength(t.left);
      SizeIsLength(t.right);
    }
  }

  /** How many nodes an in-order walk meets before the root of `t`. */
  function Rank<E>(c: Ctx<E>, t: Tree<E>): nat
    requires t.Node?
  {
    |Before(c)| + |Inorder(t.left)|
  }

  lemma RankInWalk<E>(c: Ctx<E>, t: Tree<E>)
    requires t.Node?
    ensures Rank(c, t) < |Inorder(Plug(c, t))| && Inorder(Plug(c, t))[Rank(c, t)] == t.elem
  {
    InorderPlug(c, t);
  }

  lemma ChildWalk<E>(t: Tree<E>, child: Tree<E>)
    requires t.Node? && ((child == t.left && t.right.Leaf?) || (child == t.right && t.left.Leaf?))
    ensures Inorder(child) == Inorder(t.left) + Inorder(t.right)
  {
  }

  lemma WalkWithout<E>(c: Ctx<E>, t: Tree<E>, child: Tree<E>)
    requires t.Node? && ((child == t.left && t.right.Leaf?) || (child == t.right && t.left.Leaf?))
    ensures Rank(c, t) < |Inorder(Plug(c, t))|
    ensures
      var s, at := Inorder(Plug(c, t)), Rank(c, t);
      Inorder(Plug(c, child)) == s[..at] + s[at + 1..]
  {
    hide Plug, Before, After;
    InorderPlug(c, t);
    InorderPlug(c, child);
    var l, r := Inorder(t.left), Inorder(t.right);
    ChildWalk(t, child);
    hide Inorder;
    TakeOut(Before(c), l, t.elem, r, After(c));
  }

  lemma TakeOut<E>(b: seq<E>, l: seq<E>, e: E, r: seq<E>, a: seq<E>)
    ensures
      var s, at := b + (l + [e] + r) + a, |b| + |l|;
      s[..at] + s[at + 1..] == b + (l + r) + a
  {
    var s, at := b + (l + [e] + r) + a, |b| + |l|;
    assert s[..at] == b + l;
    assert s[at + 1..] == r + a;
  }

  // ---------- node sets and their separation ----------

  ghost function Elems<E>(t: Tree<E>): set<E> {
    if t.Leaf? then {} else Elems(t.left) + {t.elem} + Elems(t.right)
  }

  ghost function CtxElems<E>(c: Ctx<E>): set<E> {
    if c.Top? then {} else {c.elem} + Elems(c.sib) + CtxElems(c.up)
  }

  ghost predicate Distinct<E>(t: Tree<E>) {
    t.Node? ==>
      && t.elem !in Elems(t.left)
      && t.elem !in Elems(t.right)
      && Elems(t.left) !! Elems(t.right)
      && Distinct(t.left)
      && Distinct(t.right)
  }

  ghost predicate DistinctCtx<E>(c: Ctx<E>) {
    c.In? ==>
      && c.elem !in Elems(c.sib)
      && c.elem !in CtxElems(c.up)
      && Elems(c.sib) !! CtxElems(c.up)
      && Distinct(c.sib)
      && DistinctCtx(c.up)
  }

  ghost predicate Apart<E>(c: Ctx<E>, t: Tree<E>) {
    Distinct(t) && DistinctCtx(c) && Elems(t) !! CtxElems(c)
  }

  lemma {:induction false} ApartPlug<E>(c: Ctx<E>, t: Tree<E>)
    ensures Elems(Plug(c, t)) == CtxElems(c) + Elems(t)
    ensures Apart(c, t) <==> Distinct(Plug(c, t))
    decreases c
  {
    if c.In? {
      ApartPlug(c.up, Join(c.side, c.red, t, c.elem, c.sib));
    }
  }

  lemma {:induction false} ElemsInorder<E>(t: Tree<E>)
    ensures Elems(t) == set e | e in Inorder(t)
  {
    if t.Node? {
      ElemsInorder(t.left);
      ElemsInorder(t.right);
    }
  }

  lemma {:induction false} DistinctInorder<E>(t: Tree<E>)
    requires Distinct(t)
    ensures NoDuplicates(Inorder(t))
  {
    if t.Node? {
      DistinctInorder(t.left);
      DistinctInorder(t.right);
      ElemsInorder(t.left);
      ElemsInorder(t.right);
      var l, r := Inorder(t.left), Inorder(t.right);
      forall i, j | 0 <= i < j < |Inorder(t)| ensures Inorder(t)[i] != Inorder(t)[j] {
        if j < |l| {
        } else if i > |l| {
          assert r[i - |l| - 1] != r[j - |l| - 1];
        } else if i < |l| {
          assert l[i] in l && l[i] in Elems(t.left);
          if j > |l| { assert r[j - |l| - 1] in r && r[j - |l| - 1] in Elems(t.right); }
        } else {
          assert r[j - |l| - 1] in r && r[j - |l| - 1] in Elems(t.right);
        }
      }
    }
  }

  lemma {:induction false} AppendPlug<E>(inner: Ctx<E>, outer: Ctx<E>, t: Tree<E>)
    ensures Plug(Append(inner, outer), t) == Plug(outer, Plug(inner, t))
    decreases inner
  {
    if inner.In? {
      AppendPlug(inner.up, outer, Join(inner.side, inner.red, t, inner.elem, inner.sib));
    }
  }

  /** Replacing a node by its only child takes exactly that node out. */
  lemma SpliceElems<E>(c: Ctx<E>, t: Tree<E>, child: Tree<E>)
    requires Apart(c, t) && t.Node?
    requires (child == t.left && t.right.Leaf?) || (child == t.right && t.left.Leaf?)
    ensures Elems(Plug(c, child)) == Elems(Plug(c, t)) - {t.elem}
    ensures child.Node? ==> child.elem in Elems(t) && child.elem != t.elem
    ensures c.In? && child.Node? ==> c.elem != child.elem
  {
    hide Plug, CtxElems;
    assert Elems(t) == Elems(child) + {t.elem};
    ApartPlug(c, t);
    ApartPlug(c, child);
    SpliceParent(c, t, child);
  }

  lemma SpliceParent<E>(c: Ctx<E>, t: Tree<E>, child: Tree<E>)
    requires Apart(c, t) && t.Node? && (child == t.left || child == t.right)
    ensures c.In? && child.Node? ==> c.elem != child.elem
  {
  }

  // ---------- rotations ----------

  function RotatedLeft<E>(t: Tree<E>): Tree<E>
    requires t.Node? && t.right.Node?
  {
    var y := t.right;
    Node(y.red, Node(t.red, t.left, t.elem, y.left), y.elem, y.right)
  }

  function RotatedRight<E>(t: Tree<E>): Tree<E>
    requires t.Node? && t.left.Node?
  {
    var x := t.left;
    Node(x.red, x.left, x.elem, Node(t.red, x.right, t.elem, t.right))
  }

  lemma RotatedLeftInorder<E>(t: Tree<E>)
    requires t.Node? && t.right.Node?
    ensures Inorder(RotatedLeft(t)) == Inorder(t)
  {
    var a, x, b, y, d := Inorder(t.left), [t.elem], Inorder(t.right.left), [t.right.elem], Inorder(t.right.right);
    assert Inorder(t) == a + x + (b + y + d);
    assert Inorder(RotatedLeft(t)) == (a + x + b) + y + d;
  }

  lemma RotatedLeftElems<E>(t: Tree<E>)
    requires t.Node? && t.right.Node?
    ensures Elems(RotatedLeft(t)) == Elems(t)
  {
    var a, x, b, y, d := Elems(t.left), {t.elem}, Elems(t.right.left), {t.right.elem}, Elems(t.right.right);
    assert Elems(t) == a + x + (b + y + d);
    assert Elems(RotatedLeft(t)) == (a + x + b) + y + d;
  }

  lemma RotatedLeftDistinct<E>(t: Tree<E>)
    requires t.Node? && t.right.Node?
    requires Distinct(t)
    ensures Distinct(RotatedLeft(t))
  {
    var x, y := t, t.right;
    var x' := Node(x.red, x.left, x.elem, y.left);
    assert Elems(y) == Elems(y.left) + {y.elem} + Elems(y.right);
    assert Distinct(x');
    assert Elems(x') == Elems(x.left) + {x.elem} + Elems(y.left);
  }

  lemma RotatedRightInorder<E>(t: Tree<E>)
    requires t.Node? && t.left.Node?
    ensures Inorder(RotatedRight(t)) == Inorder(t)
  {
    assert RotatedLeft(RotatedRight(t)) == t;
    RotatedLeftInorder(RotatedRight(t));
  }

  lemma RotatedRightElems<E>(t: Tree<E>)
    requires t.Node? && t.left.Node?
    ensures Elems(RotatedRight(t)) == Elems(t)
  {
    assert RotatedLeft(RotatedRight(t)) == t;
    RotatedLeftElems(RotatedRight(t));
  }

  lemma RotatedRightDistinct<E>(t: Tree<E>)
    requires t.Node? && t.left.Node?
    requires Distinct(t)
    ensures Distinct(RotatedRight(t))
  {
    var x, y := t.left, t;
    var y' := Node(y.red, x.right, y.elem, y.right);
    assert Elems(x) == Elems(x.left) + {x.elem} + Elems(x.right);
    assert Distinct(y');
    assert Elems(y') == Elems(x.right) + {y.elem} + Elems(y.right);
  }

  /** A replacement that keeps the in-order walk of a subtree keeps that of the whole tree. */
  lemma PlugKeeps<E>(c: Ctx<E>, t: Tree<E>, t': Tree<E>)
    requires Inorder(t) == Inorder(t')
    ensures Inorder(Plug(c, t')) == Inorder(Plug(c, t))
    ensures Elems(Plug(c, t')) == Elems(Plug(c, t))
  {
    InorderPlug(c, t);
    InorderPlug(c, t');
    ElemsInorder(Plug(c, t));
    ElemsInorder(Plug(c, t'));
  }

  // ---------- colours and black heights ----------

  predicate IsRed<E>(t: Tree<E>) {
    t.Node? && t.red
  }

  function Blacken<E>(t: Tree<E>): Tree<E> {
    if t.Leaf? then t else t.(red := false)
  }

  /** Every path of `t` down to a leaf meets `h` black nodes; no red node has a red child. */
  ghost predicate RB<E>(t: Tree<E>, h: nat) {
    if t.Leaf? then h == 0
    else if t.red then !IsRed(t.left) && !IsRed(t.right) && RB(t.left, h) && RB(t.right, h)
    else h > 0 && RB(t.left, h - 1) && RB(t.right, h - 1)
  }

  /** A red-black tree with a black root, of some black height. */
  ghost predicate Balanced<E>(t: Tree<E>) {
    !IsRed(t) && exists h: nat :: RB(t, h)
  }

  /** `c` is red-black with a black root once its hole is filled by a black tree of height `h`. */
  ghost predicate CtxRB<E>(c: Ctx<E>, h: nat)
    decreases c
  {
    c.In? ==>
      && RB(c.sib, h)
      && (c.red ==> !IsRed(c.sib) && c.up.In? && !c.up.red)
      && CtxRB(c.up, if c.red then h else h + 1)
  }

  predicate AcceptsRed<E>(c: Ctx<E>) {
    c.In? && !c.red
  }

  lemma {:induction false} BalancedPlug<E>(c: Ctx<E>, t: Tree<E>, h: nat)
    requires RB(t, h) && CtxRB(c, h)
    requires IsRed(t) ==> AcceptsRed(c)
    ensures Balanced(Plug(c, t))
    decreases c
  {
    if c.In? {
      BalancedPlug(c.up, Join(c.side, c.red, t, c.elem, c.sib), if c.red then h else h + 1);
    }
  }

  /** The converse: every subtree of a balanced tree fits the context above it. */
  lemma {:induction false} UnplugBalanced<E>(c: Ctx<E>, t: Tree<E>) returns (h: nat)
    requires Balanced(Plug(c, t))
    ensures RB(t, h) && CtxRB(c, h)
    ensures IsRed(t) ==> AcceptsRed(c)
    decreases c
  {
    if c.Top? {
      h :| RB(t, h);
    } else {
      var h' := UnplugBalanced(c.up, Join(c.side, c.red, t, c.elem, c.sib));
      h := if c.red then h' else h' - 1;
    }
  }

  /** When only the root may be red, painting it black restores the balance. */
  lemma RootIsBlackenable<E>(c: Ctx<E>, t: Tree<E>, h: nat)
    requires OneRedRed(c, t, h) && (c.In? ==> !c.red)
    ensures Plug(c, t).Node? && Balanced(Plug(c, t).(red := false))
  {
    if c.Top? {
      assert RB(t.(red := false), h + 1);
    } else {
      BalancedPlug(c, t, h);
      PlugNode(c, t);
    }
  }

  lemma {:induction false} PlugNode<E>(c: Ctx<E>, t: Tree<E>)
    requires c.In? || t.Node?
    ensures Plug(c, t).Node?
    decreases c
  {
    if c.In? { PlugNode(c.up, Join(c.side, c.red, t, c.elem, c.sib)); }
  }

  // ---------- the steps of the insertion fix-up ----------

  /** The node in focus may be a red child of a red parent; the colours are right everywhere else. */
  ghost predicate OneRedRed<E>(c: Ctx<E>, t: Tree<E>, h: nat) {
    t.Node? && t.red && RB(t, h) && CtxRB(c, h)
  }

  lemma RedParent<E>(c: Ctx<E>, t: Tree<E>, h: nat)
    requires OneRedRed(c, t, h)
    ensures t.Node? && t.red
    ensures c.In? && c.red ==> c.up.In?
  {
  }

  lemma PushedBlackness<E>(c: Ctx<E>, t: Tree<E>, h: nat)
    requires OneRedRed(c, t, h) && c.In? && c.red && IsRed(c.up.sib)
    ensures
      var p := Join(c.side, false, t, c.elem, c.sib);
      OneRedRed(c.up.up, Join(c.up.side, true, p, c.up.elem, Blacken(c.up.sib)), h + 1)
    ensures Depth(c.up.up) < Depth(c)
  {
    assert CtxRB(c.up, h) && RB(c.up.sib, h) && CtxRB(c.up.up, h + 1);
    assert RB(Join(c.side, false, t, c.elem, c.sib), h + 1);
    assert RB(Blacken(c.up.sib), h + 1);
    assert Depth(c) == 1 + Depth(c.up);
  }

  lemma StraightenedElbow<E>(c: Ctx<E>, t: Tree<E>, h: nat)
    requires OneRedRed(c, t, h) && c.In? && c.red
    ensures OneRedRed(In(Left, true, t.elem, t.right, c.up), Node(true, c.sib, c.elem, t.left), h)
    ensures OneRedRed(In(Right, true, t.elem, t.left, c.up), Node(true, t.right, c.elem, c.sib), h)
    ensures Depth(In(Left, true, t.elem, t.right, c.up)) == Depth(c)
    ensures Depth(In(Right, true, t.elem, t.left, c.up)) == Depth(c)
  {
  }

  lemma RaisedParent<E>(c: Ctx<E>, t: Tree<E>, h: nat)
    requires OneRedRed(c, t, h) && c.In? && c.red && !IsRed(c.up.sib)
    ensures OneRedRed(In(Left, false, c.elem, Node(true, c.sib, c.up.elem, c.up.sib), c.up.up), t, h)
    ensures OneRedRed(In(Right, false, c.elem, Node(true, c.up.sib, c.up.elem, c.sib), c.up.up), t, h)
    ensures Depth(In(Left, false, c.elem, Node(true, c.sib, c.up.elem, c.up.sib), c.up.up)) < Depth(c)
    ensures Depth(In(Right, false, c.elem, Node(true, c.up.sib, c.up.elem, c.sib), c.up.up)) < Depth(c)
  {
    assert CtxRB(c.up, h) && RB(c.up.sib, h) && CtxRB(c.up.up, h + 1);
    assert Depth(c) == 1 + Depth(c.up);
  }

  // ---------- the steps of the deletion fix-up ----------

  /**
   The subtree in focus is one black node short of what its context expects. A red root
   makes up for it as soon as it is painted black.
   */
  ghost predicate OneShort<E>(c: Ctx<E>, t: Tree<E>, h: nat) {
    RB(Blacken(t), if IsRed(t) then h + 1 else h) && CtxRB(c, h + 1)
  }

  lemma SiblingExists<E>(c: Ctx<E>, t: Tree<E>, h: nat)
    requires OneShort(c, t, h) && c.In?
    ensures c.sib.Node?
    ensures c.sib.red ==> !c.red && c.sib.left.Node? && c.sib.right.Node? && !c.sib.left.red && !c.sib.right.red
  {
    assert RB(c.sib, h + 1);
    assert IsRed(c.sib) ==> RB(c.sib.left, h + 1) && RB(c.sib.right, h + 1);
  }

  /** A red sibling above the hole: after the rotation the hole has a black one. */
  lemma RedSiblingPulled<E>(c: Ctx<E>, t: Tree<E>, h: nat)
    requires OneShort(c, t, h) && c.In? && IsRed(c.sib)
    ensures OneShort(In(Left, true, c.elem, c.sib.left, In(Left, false, c.sib.elem, c.sib.right, c.up)), t, h)
    ensures OneShort(In(Right, true, c.elem, c.sib.right, In(Right, false, c.sib.elem, c.sib.left, c.up)), t, h)
  {
    assert RB(c.sib.left, h + 1) && RB(c.sib.right, h + 1);
    assert CtxRB(In(Left, false, c.sib.elem, c.sib.right, c.up), h + 1);
    assert CtxRB(In(Right, false, c.sib.elem, c.sib.left, c.up), h + 1);
  }

  /** A black sibling with black children turns red: the parent is now the short one. */
  lemma SiblingReddened<E>(c: Ctx<E>, t: Tree<E>, h: nat)
    requires OneShort(c, t, h) && !IsRed(t) && c.In?
    requires c.sib.Node? && !c.sib.red && !IsRed(c.sib.left) && !IsRed(c.sib.right)
    ensures OneShort(c.up, Join(c.side, c.red, t, c.elem, c.sib.(red := true)), if c.red then h else h + 1)
  {
    assert RB(c.sib.(red := true), h);
  }

  /** A red near nephew replaces the sibling, which becomes the red far nephew. */
  lemma NephewRaised<E>(c: Ctx<E>, t: Tree<E>, h: nat)
    requires OneShort(c, t, h) && c.In? && c.sib.Node? && !c.sib.red
    ensures IsRed(c.sib.left) && !IsRed(c.sib.right) ==>
      var n := c.sib.left;
      OneShort(c.(sib := Node(false, n.left, n.elem, Node(true, n.right, c.sib.elem, c.sib.right))), t, h)
    ensures IsRed(c.sib.right) && !IsRed(c.sib.left) ==>
      var n := c.sib.right;
      OneShort(c.(sib := Node(false, Node(true, c.sib.left, c.sib.elem, n.left), n.elem, n.right)), t, h)
  {
    assert RB(c.sib, h + 1) && RB(c.sib.left, h) && RB(c.sib.right, h);
    if IsRed(c.sib.left) && !IsRed(c.sib.right) {
      assert RB(Node(true, c.sib.left.right, c.sib.elem, c.sib.right), h) && RB(c.sib.left.left, h);
    }
    if IsRed(c.sib.right) && !IsRed(c.sib.left) {
      assert RB(Node(true, c.sib.left, c.sib.elem, c.sib.right.left), h) && RB(c.sib.right.right, h);
    }
  }

  /** A red far nephew pays for the missing black node. */
  lemma Borrowed<E>(c: Ctx<E>, t: Tree<E>, h: nat)
    requires OneShort(c, t, h) && !IsRed(t) && c.In? && c.sib.Node? && !c.sib.red
    ensures IsRed(c.sib.right) ==>
      Balanced(Plug(c.up, Node(c.red, Node(false, t, c.elem, c.sib.left), c.sib.elem, Blacken(c.sib.right))))
    ensures IsRed(c.sib.left) ==>
      Balanced(Plug(c.up, Node(c.red, Blacken(c.sib.left), c.sib.elem, Node(false, c.sib.right, c.elem, t))))
  {
    var h' := if c.red then h + 1 else h + 2;
    assert RB(c.sib, h + 1) && RB(c.sib.left, h) && RB(c.sib.right, h);
    if IsRed(c.sib.right) {
      var t' := Node(c.red, Node(false, t, c.elem, c.sib.left), c.sib.elem, Blacken(c.sib.right));
      assert RB(Node(false, t, c.elem, c.sib.left), h + 1);
      assert RB(Blacken(c.sib.right), h + 1);
      BalancedPlug(c.up, t', h');
    }
    if IsRed(c.sib.left) {
      var t' := Node(c.red, Blacken(c.sib.left), c.sib.elem, Node(false, c.sib.right, c.elem, t));
      assert RB(Node(false, c.sib.right, c.elem, t), h + 1);
      assert RB(Blacken(c.sib.left), h + 1);
      BalancedPlug(c.up, t', h');
    }
  }

  /** Painting the node in focus black ends the fix-up. */
  lemma ShortPaid<E>(c: Ctx<E>, t: Tree<E>, h: nat)
    requires OneShort(c, t, h) && (c.Top? || IsRed(t))
    ensures Balanced(Plug(c, Blacken(t)))
  {
    BalancedPlug(c, Blacken(t), if IsRed(t) then h + 1 else h);
  }

  // ---------- heights ----------

  function Pow2(n: nat): nat {
    if n == 0 then 1 else 2 * Pow2(n - 1)
  }

  function Height<E>(t: Tree<E>): nat {
    if t.Leaf? then 0
    else 1 + if Height(t.left) < Height(t.right) then Height(t.right) else Height(t.left)
  }

  lemma {:induction false} Pow2Monotone(a: nat, b: nat)
    requires a <= b
    ensures Pow2(a) <= Pow2(b)
  {
    if a < b { Pow2Monotone(a, b - 1); }
  }

  lemma {:induction false} Pow2Double(h: nat)
    ensures Pow2(2 * h) == Pow2(h) * Pow2(h)
  {
    if h > 0 {
      Pow2Double(h - 1);
      assert Pow2(2 * h) == 2 * (2 * Pow2(2 * (h - 1)));
      var p := Pow2(h - 1);
      assert (2 * p) * (2 * p) == 4 * (p * p);
    }
  }

  lemma SquareMonotone(a: nat, b: nat)
    requires a <= b
    ensures a * a <= b * b
  {
    assert a * a <= b * a <= b * b;
  }

  lemma {:induction false} BlackHeightBounds<E>(t: Tree<E>, h: nat)
    requires RB(t, h)
    ensures Pow2(h) <= Size(t) + 1
    ensures Height(t) <= 2 * h + if IsRed(t) then 1 else 0
  {
    if t.Node? {
      var h' := if t.red then h else h - 1;
      BlackHeightBounds(t.left, h');
      BlackHeightBounds(t.right, h');
    }
  }

  /** Height at most 2*log2(n+1), in the form 2^height <= (n+1)^2. */
  lemma LogarithmicHeight<E>(t: Tree<E>)
    requires Balanced(t)
    ensures Pow2(Height(t)) <= (Size(t) + 1) * (Size(t) + 1)
  {
    var h: nat :| RB(t, h);
    BlackHeightBounds(t, h);
    Pow2Monotone(Height(t), 2 * h);
    Pow2Double(h);
    SquareMonotone(Pow2(h), Size(t) + 1);
  }

  lemma {:induction false} DepthBelowHeight<E>(c: Ctx<E>, t: Tree<E>)
    ensures Depth(c) + Height(t) <= Height(Plug(c, t))
    decreases c
  {
    if c.In? {
      DepthBelowHeight(c.up, Join(c.side, c.red, t, c.elem, c.sib));
    }
  }

  // ---------- around the fix-ups ----------

  /** Unlinking a red node leaves a balanced tree, unlinking a black one a single shortage. */
  lemma SplicedColours<E>(c: Ctx<E>, t: Tree<E>, child: Tree<E>) returns (h: nat)
    requires Balanced(Plug(c, t)) && t.Node? && (child == t.left || child == t.right)
    ensures t.red ==> Balanced(Plug(c, child))
    ensures !t.red ==> OneShort(c, child, h)
  {
    var h' := UnplugBalanced(c, t);
    if t.red {
      BalancedPlug(c, child, h');
      h := 0;
    } else {
      h := h' - 1;
    }
  }

  /** Some hole of a tree. */
  lemma HoleOf<E>(t: Tree<E>) returns (c: Ctx<E>, l: Tree<E>)
    ensures Plug(c, l) == t && l.Leaf?
    decreases t
  {
    c, l := Top, t;
    while l.Node?
      invariant Plug(c, l) == t
      decreases l
    {
      c, l := In(Left, l.red, l.elem, l.right, c), l.left;
    }
  }

  /** Steps the deletion fix-up can still take: it climbs, or stops at a red node. */
  ghost function FixupMeasure<E>(c: Ctx<E>, t: Tree<E>): nat {
    Depth(c) + if IsRed(t) then 0 else 1
  }

  lemma WholeIsPaid<E>(t: Tree<E>) returns (h: nat)
    requires Balanced(t)
    ensures OneShort(Top, t, h)
  {
    h :| RB(t, h);
  }

  /** Where a red leaf may be hung without disturbing the black heights. */
  lemma LeafHeight<E>(c: Ctx<E>) returns (h: nat)
    requires Balanced(Plug(c, Leaf))
    ensures forall e :: OneRedRed(c, Node(true, Leaf, e, Leaf), h)
  {
    h := UnplugBalanced(c, Leaf);
  }

  lemma InorderOfGraft<E>(c: Ctx<E>, e: E)
    ensures var s := Inorder(Plug(c, Leaf));
      && |Before(c)| <= |s|
      && Inorder(Plug(c, Node(true, Leaf, e, Leaf))) == s[..|Before(c)|] + [e] + s[|Before(c)|..]
    ensures Inorder(Plug(c, Node(true, Leaf, e, Leaf))) == Before(c) + [e] + After(c)
  {
    InorderPlug(c, Leaf);
    InorderPlug(c, Node(true, Leaf, e, Leaf));
    assert Inorder(Node(true, Leaf, e, Leaf)) == [e];
  }

  /** The colour discipline does not look at which object stands at an ancestor. */
  lemma {:induction false} RenamedCtx<E>(path: Ctx<E>, outer: Ctx<E>, e: E, h: nat)
    requires outer.In?
    ensures CtxRB(Append(path, outer), h) <==> CtxRB(Append(path, outer.(elem := e)), h)
    ensures AcceptsRed(Append(path, outer)) <==> AcceptsRed(Append(path, outer.(elem := e)))
    decreases path
  {
    if path.In? {
      RenamedCtx(path.up, outer, e, if path.red then h else h + 1);
    }
  }

  lemma RenamedBalance<E>(path: Ctx<E>, outer: Ctx<E>, e: E, t: Tree<E>)
    requires outer.In? && Balanced(Plug(Append(path, outer), t))
    ensures Balanced(Plug(Append(path, outer.(elem := e)), t))
  {
    var h := UnplugBalanced(Append(path, outer), t);
    RenamedCtx(path, outer, e, h);
    BalancedPlug(Append(path, outer.(elem := e)), t, h);
  }

  /** Moving the next object in order into the place of `t.elem` takes `t.elem` out of the walk. */
  lemma {:induction false} WalkWithoutInner<E>(c: Ctx<E>, t: Tree<E>, path: Ctx<E>, u: Tree<E>)
    requires t.Node? && t.right == Plug(path, u) && u.Node? && u.left.Leaf? && Before(path) == []
    ensures Rank(c, t) < |Inorder(Plug(c, t))|
    ensures
      var s, at := Inorder(Plug(c, t)), Rank(c, t);
      Inorder(Plug(c, Node(t.red, t.left, u.elem, Plug(path, u.right)))) == s[..at] + s[at + 1..]
  {
    hide Plug, Before, After;
    var t' := Node(t.red, t.left, u.elem, Plug(path, u.right));
    LeftmostFirst(path, u);
    InorderPlug(c, t);
    InorderPlug(c, t');
    Associate(Inorder(t.left), [u.elem], Inorder(Plug(path, u.right)));
    TakeOut(Before(c), Inorder(t.left), t.elem, Inorder(t.right), After(c));
  }

  lemma Associate<E>(a: seq<E>, b: seq<E>, c: seq<E>)
    ensures a + b + c == a + (b + c)
  {
  }

  lemma LeftmostFirst<E>(path: Ctx<E>, u: Tree<E>)
    requires u.Node? && u.left.Leaf? && Before(path) == []
    ensures Inorder(Plug(path, u)) == [u.elem] + Inorder(Plug(path, u.right))
  {
    InorderPlug(path, u);
    InorderPlug(path, u.right);
    LeftmostRegroup(u.elem, Inorder(u.right), After(path));
    assert Inorder(u) == [] + [u.elem] + Inorder(u.right);
    hide *;
  }

  lemma LeftmostRegroup<E>(e: E, r: seq<E>, a: seq<E>)
    ensures [] + ([] + [e] + r) + a == [e] + ([] + r + a)
  {
    var s, s' := [] + ([] + [e] + r) + a, [e] + ([] + r + a);
    assert |s| == |s'|;
    forall i | 0 <= i < |s| ensures s[i] == s'[i] { }
  }
}
