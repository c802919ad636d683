/** The sentinel red-black tree engine of rbtree.c. */
module RbTree {
  import opened Sequences
  import opened RedBlack
  import opened Bindings
  import opened Links
  import opened Search
  import opened Strings

  class RbNode {
    var red: bool
    var left: RbNode
    var right: RbNode
    var parent: RbNode
    var key: CString
    var value: CString

    /** The shared sentinel: black, empty, its own child. */
    constructor Sentinel()
      ensures !red && left == this && right == this && key == [] && value == []
    {
      red, key, value := false, [], [];
      left, right, parent := this, this, this;
    }

    constructor (key: CString, value: CString, nil: RbNode)
      ensures this.key == key && this.value == value && parent == nil
    {
      red, this.key, this.value := false, key, value;
      left, right, parent := nil, nil, nil;
    }
  }

  ghost function AsLink(n: RbNode, nil: RbNode): Link<RbNode> {
    if n == nil then Nil else To(n)
  }

  /** The link and colour fields of `nodes`. */
  ghost function Memory(nodes: set<RbNode>, nil: RbNode): Cells<RbNode>
    reads nodes`red, nodes`left, nodes`right, nodes`parent
  {
    map n | n in nodes :: Cell(n.red, AsLink(n.left, nil), AsLink(n.right, nil), AsLink(n.parent, nil))
  }

  ghost function KeyMap(nodes: set<RbNode>): map<RbNode, CString>
    reads nodes`key
  {
    map n | n in nodes :: n.key
  }

  class RbTree {
    var root: RbNode
    var nil: RbNode
    var nbElements: int
    ghost var shape: Tree<RbNode>
    ghost var nodes: set<RbNode>

    /** `root` leads to the linked form of `shape`. */
    ghost predicate Linked()
      reads `root, `nil, `shape, `nodes, nil`red, nodes`red, nodes`left, nodes`right, nodes`parent
    {
      && nodes == Elems(shape)
      && nil !in nodes
      && !nil.red
      && Rep(Memory(nodes, nil), AsLink(root, nil), Top, shape)
    }

    /** A binary search tree under `strcmp`. */
    ghost predicate InOrder()
      reads `root, `nil, `shape, `nodes, nil`red, nodes
    {
      Linked() && Ordered(Strcmp, KeyMap(nodes), Inorder(shape))
    }

    lemma Focus(c: Ctx<RbNode>, t: Tree<RbNode>)
      requires Linked() && shape == Plug(c, t)
      ensures Rep(Memory(nodes, nil), AsLink(root, nil), c, t)
      ensures nodes == Elems(shape) == CtxElems(c) + Elems(t)
    {
      Refocus(Memory(nodes, nil), AsLink(root, nil), shape, c, t);
      ApartPlug(c, t);
    }

    ghost function Ref(t: Tree<RbNode>): RbNode
      reads `nil
    {
      if t.Leaf? then nil else t.elem
    }

    /** What the fields of the root of `t` hold when its parent is `p`. */
    ghost predicate NodeIs(t: Tree<RbNode>, p: RbNode)
      reads `nil, `nodes, Roots(t)
    {
      t.Node? ==>
        && t.elem in nodes
        && t.elem != nil
        && t.elem.red == t.red
        && t.elem.left == Ref(t.left)
        && t.elem.right == Ref(t.right)
        && t.elem.parent == p
    }

    lemma Local(c: Ctx<RbNode>, t: Tree<RbNode>)
      requires Linked() && shape == Plug(c, t)
      ensures nil !in nodes && !nil.red
      ensures NodeIs(t, if c.Top? then nil else c.elem)
      ensures c.Top? ==> root == Ref(t)
      ensures c.In? ==> c.elem in nodes && c.elem != nil && c.elem.red == c.red
      ensures c.In? && t.Node? ==> Ref(c.sib) != t.elem
      ensures c.In? ==> root != Ref(t)
    {
      Focus(c, t);
      assert c.In? && c.sib.Node? ==> c.sib.elem in CtxElems(c);
    }

    /** Record that the links now form `T`. */
    ghost method Reshape(T: Tree<RbNode>)
      requires nil !in nodes && !nil.red && nodes == Elems(T)
      requires Rep(Memory(nodes, nil), AsLink(root, nil), Top, T)
      modifies `shape
      ensures Linked() && shape == T
    {
      ghost var m := Memory(nodes, nil);
      shape := T;
      assert Memory(nodes, nil) == m;
    }

    // ---------- rotations ----------

    /** The pointer assignments of a left rotation: y replaces x, b changes sides. */
    method LeftRotateLinks(x: RbNode, ghost yy: RbNode, ghost b: RbNode, ghost p: RbNode)
      requires yy == x.right && b == yy.left && p == x.parent
      requires x !in {nil, yy, p} && yy !in {nil, b, p}
      requires b != nil ==> b !in {x, p}
      modifies `root, x`right, x`parent, yy`left, yy`parent
      modifies (if b == nil then {} else {b})`parent
      modifies (if p == nil then {} else {p})`left, (if p == nil then {} else {p})`right
      ensures x.right == b && x.parent == yy && yy.left == x && yy.parent == p
      ensures b != nil ==> b.parent == x
      ensures p == nil ==> root == yy
      ensures p != nil ==> root == old(root)
      ensures p != nil ==> p.left == if old(p.left) == x then yy else old(p.left)
      ensures p != nil ==> p.right == if old(p.left) == x then old(p.right) else yy
    {
      var y := x.right;
      x.right := y.left;
      if y.left != nil {
        y.left.parent := x;
      }
      y.parent := x.parent;
      if x.parent == nil {
        root := y;
      } else if x == x.parent.left {
        x.parent.left := y;
      } else {
        x.parent.right := y;
      }
      y.left := x;
      x.parent := y;
    }

    method LeftRotateCells(x: RbNode, ghost c: Ctx<RbNode>, ghost t: Tree<RbNode>)
      requires nil !in nodes && LeftRotatable(Memory(nodes, nil), c, t) && t.elem == x
      modifies `root, nodes`left, nodes`right, nodes`parent
      ensures LeftRotated(old(Memory(nodes, nil)), Memory(nodes, nil), c, t)
      ensures root == if c.Top? then t.right.elem else old(root)
    {
      ghost var m := Memory(nodes, nil);
      ghost var y, p := t.right.elem, x.parent;
      ghost var b := y.left;
      assert m[x].right == AsLink(x.right, nil) && m[x].parent == AsLink(x.parent, nil);
      assert m[y].left == AsLink(y.left, nil);
      LeftRotateLinks(x, y, b, p);
      ghost var m' := Memory(nodes, nil);
      assert m'[x] == Cell(t.red, LinkTo(t.left), LinkTo(t.right.left), To(y));
      assert m'[y] == Cell(t.right.red, To(x), LinkTo(t.right.right), Above(c));
      assert t.right.left.Node? ==> m'[b] == m[b].(parent := To(x));
      assert c.In? ==> p == c.elem && m'[p] == FrameCell(c, To(y));
    }

    method LeftRotate(x: RbNode, ghost c: Ctx<RbNode>, ghost t: Tree<RbNode>)
      requires Linked() && shape == Plug(c, t)
      requires t.Node? && t.elem == x && t.right.Node?
      modifies `root, `shape, nodes`left, nodes`right, nodes`parent
      ensures Linked() && shape == Plug(c, RotatedLeft(t))
      ensures Inorder(shape) == old(Inorder(shape))
    {
      ghost var m := Memory(nodes, nil);
      ghost var r := AsLink(root, nil);
      Focus(c, t);
      LeftRotateView(m, r, c, t);
      LeftRotateCells(x, c, t);
      LeftRotatedRep(m, Memory(nodes, nil), r, AsLink(root, nil), c, t);
      RotatedLeftInorder(t);
      PlugKeeps(c, t, RotatedLeft(t));
      Reshape(Plug(c, RotatedLeft(t)));
    }

    /** The pointer assignments of a right rotation: x replaces y, b changes sides. */
    method RightRotateLinks(y: RbNode, ghost xx: RbNode, ghost b: RbNode, ghost p: RbNode)
      requires xx == y.left && b == xx.right && p == y.parent
      requires y !in {nil, xx, p} && xx !in {nil, b, p}
      requires b != nil ==> b !in {y, p}
      modifies `root, y`left, y`parent, xx`right, xx`parent
      modifies (if b == nil then {} else {b})`parent
      modifies (if p == nil then {} else {p})`left, (if p == nil then {} else {p})`right
      ensures y.left == b && y.parent == xx && xx.right == y && xx.parent == p
      ensures b != nil ==> b.parent == y
      ensures p == nil ==> root == xx
      ensures p != nil ==> root == old(root)
      ensures p != nil ==> p.left == if old(p.right) == y then old(p.left) else xx
      ensures p != nil ==> p.right == if old(p.right) == y then xx else old(p.right)
    {
      var x := y.left;
      y.left := x.right;
      if x.right != nil {
        x.right.parent := y;
      }
      x.parent := y.parent;
      if y.parent == nil {
        root := x;
      } else if y == y.parent.right {
        y.parent.right := x;
      } else {
        y.parent.left := x;
      }
      x.right := y;
      y.parent := x;
    }

    method RightRotateCells(y: RbNode, ghost c: Ctx<RbNode>, ghost t: Tree<RbNode>)
      requires nil !in nodes && RightRotatable(Memory(nodes, nil), c, t) && t.elem == y
      modifies `root, nodes`left, nodes`right, nodes`parent
      ensures RightRotated(old(Memory(nodes, nil)), Memory(nodes, nil), c, t)
      ensures root == if c.Top? then t.left.elem else old(root)
    {
      ghost var m := Memory(nodes, nil);
      ghost var x, p := t.left.elem, y.parent;
      ghost var b := x.right;
      assert m[y].left == AsLink(y.left, nil) && m[y].parent == AsLink(y.parent, nil);
      assert m[x].right == AsLink(x.right, nil);
      RightRotateLinks(y, x, b, p);
      ghost var m' := Memory(nodes, nil);
      assert m'[y] == Cell(t.red, LinkTo(t.left.right), LinkTo(t.right), To(x));
      assert m'[x] == Cell(t.left.red, LinkTo(t.left.left), To(y), Above(c));
      assert t.left.right.Node? ==> m'[b] == m[b].(parent := To(y));
      assert c.In? ==> p == c.elem && m'[p] == FrameCell(c, To(x));
    }

    method RightRotate(y: RbNode, ghost c: Ctx<RbNode>, ghost t: Tree<RbNode>)
      requires Linked() && shape == Plug(c, t)
      requires t.Node? && t.elem == y && t.left.Node?
      modifies `root, `shape, nodes`left, nodes`right, nodes`parent
      ensures Linked() && shape == Plug(c, RotatedRight(t))
      ensures Inorder(shape) == old(Inorder(shape))
    {
      ghost var m := Memory(nodes, nil);
      ghost var r := AsLink(root, nil);
      Focus(c, t);
      RightRotateView(m, r, c, t);
      RightRotateCells(y, c, t);
      RightRotatedRep(m, Memory(nodes, nil), r, AsLink(root, nil), c, t);
      RotatedRightInorder(t);
      PlugKeeps(c, t, RotatedRight(t));
      Reshape(Plug(c, RotatedRight(t)));
    }

    /** `n->color = red`. */
    method Paint(n: RbNode, red: bool, ghost c: Ctx<RbNode>, ghost t: Tree<RbNode>)
      requires Linked() && shape == Plug(c, t) && t.Node? && t.elem == n
      modifies `shape, n`red
      ensures Linked() && shape == Plug(c, t.(red := red))
      ensures Inorder(shape) == old(Inorder(shape))
    {
      ghost var m := Memory(nodes, nil);
      Focus(c, t);
      n.red := red;
      assert Memory(nodes, nil) == m[n := m[n].(red := red)];
      PaintedRep(m, Memory(nodes, nil), AsLink(root, nil), c, t, red);
      assert Inorder(t.(red := red)) == Inorder(t);
      PlugKeeps(c, t, t.(red := red));
      Reshape(Plug(c, t.(red := red)));
    }

    // ---------- insertion ----------

    /** The parent and the uncle of `z` turn black, its grandparent red. */
    method PushBlackness(z: RbNode, y: RbNode, ghost c: Ctx<RbNode>, ghost t: Tree<RbNode>)
      requires Linked() && shape == Plug(c, t) && t.Node? && t.elem == z
      requires c.In? && c.up.In? && c.up.sib.Node? && c.up.sib.elem == y
      modifies `shape, nodes`red
      ensures Linked() && Inorder(shape) == old(Inorder(shape))
      ensures shape == Plug(c.up.up,
        Join(c.up.side, true, Join(c.side, false, t, c.elem, c.sib), c.up.elem, Blacken(c.up.sib)))
    {
      hide Linked, Inorder;
      ghost var up, p := c.up, Join(c.side, c.red, t, c.elem, c.sib);
      Local(c, t);
      Local(up, p);
      Paint(z.parent, false, up, p);
      p := Join(c.side, false, t, c.elem, c.sib);
      ghost var cy := In(Flip(up.side), up.red, up.elem, p, up.up);
      Local(cy, up.sib);
      Paint(y, false, cy, up.sib);
      ghost var g := Join(up.side, up.red, p, up.elem, Blacken(up.sib));
      Local(up.up, g);
      Paint(z.parent.parent, true, up.up, g);
    }

    /** The parent of `z` turns black, the grandparent red and moves below the parent. */
    method RaiseParentRight(z: RbNode, ghost c: Ctx<RbNode>, ghost t: Tree<RbNode>)
      requires Linked() && shape == Plug(c, t) && t.Node? && t.elem == z
      requires c.In? && c.side.Left? && c.up.In? && c.up.side.Left?
      modifies `root, `shape, nodes`red, nodes`left, nodes`right, nodes`parent
      ensures Linked() && Inorder(shape) == old(Inorder(shape))
      ensures shape == Plug(In(Left, false, c.elem, Node(true, c.sib, c.up.elem, c.up.sib), c.up.up), t)
    {
      hide Linked, Inorder;
      ghost var up, p := c.up, Node(c.red, t, c.elem, c.sib);
      Local(c, t);
      Local(up, p);
      Paint(z.parent, false, up, p);
      p := Node(false, t, c.elem, c.sib);
      ghost var g := Node(up.red, p, up.elem, up.sib);
      Local(up.up, g);
      Paint(z.parent.parent, true, up.up, g);
      RightRotate(z.parent.parent, up.up, Node(true, p, up.elem, up.sib));
    }

    method RaiseParentLeft(z: RbNode, ghost c: Ctx<RbNode>, ghost t: Tree<RbNode>)
      requires Linked() && shape == Plug(c, t) && t.Node? && t.elem == z
      requires c.In? && c.side.Right? && c.up.In? && c.up.side.Right?
      modifies `root, `shape, nodes`red, nodes`left, nodes`right, nodes`parent
      ensures Linked() && Inorder(shape) == old(Inorder(shape))
      ensures shape == Plug(In(Right, false, c.elem, Node(true, c.up.sib, c.up.elem, c.sib), c.up.up), t)
    {
      hide Linked, Inorder;
      ghost var up, p := c.up, Node(c.red, c.sib, c.elem, t);
      Local(c, t);
      Local(up, p);
      Paint(z.parent, false, up, p);
      p := Node(false, c.sib, c.elem, t);
      ghost var g := Node(up.red, up.sib, up.elem, p);
      Local(up.up, g);
      Paint(z.parent.parent, true, up.up, g);
      LeftRotate(z.parent.parent, up.up, Node(true, up.sib, up.elem, p));
    }

    /** One pass of the fix-up loop when the parent of `z` is a left child. */
    method InsertStepLeft(z: RbNode, ghost c: Ctx<RbNode>, ghost t: Tree<RbNode>, ghost h: nat)
      returns (z': RbNode, ghost c': Ctx<RbNode>, ghost t': Tree<RbNode>, ghost h': nat)
      requires Linked() && shape == Plug(c, t) && OneRedRed(c, t, h) && t.elem == z
      requires c.In? && c.red && c.up.In? && c.up.side.Left?
      modifies `root, `shape, nodes`red, nodes`left, nodes`right, nodes`parent
      ensures Linked() && shape == Plug(c', t') && Inorder(shape) == old(Inorder(shape))
      ensures OneRedRed(c', t', h') && t'.elem == z'
      ensures Depth(c') < Depth(c)
    {
      hide Linked, Inorder, OneRedRed, Depth;
      z', c', t', h' := z, c, t, h;
      ghost var up, p := c.up, Join(c.side, c.red, t, c.elem, c.sib);
      RedParent(c, t, h);
      Local(c, t);
      Local(up, p);
      Local(up.up, Join(up.side, up.red, p, up.elem, up.sib));
      Local(In(Flip(up.side), up.red, up.elem, p, up.up), up.sib);
      var y := z.parent.parent.right;
      if y.red {
        PushBlackness(z, y, c, t);
        PushedBlackness(c, t, h);
        z' := z.parent.parent;
        t' := Join(up.side, true, Join(c.side, false, t, c.elem, c.sib), up.elem, Blacken(up.sib));
        c', h' := up.up, h + 1;
      } else {
        if z == z.parent.right {
          z' := z.parent;
          LeftRotate(z', up, p);
          StraightenedElbow(c, t, h);
          c', t' := In(Left, true, t.elem, t.right, up), Node(true, c.sib, c.elem, t.left);
        }
        RaiseParentRight(z', c', t');
        RaisedParent(c', t', h);
        c' := In(Left, false, c'.elem, Node(true, c'.sib, up.elem, up.sib), up.up);
      }
    }

    /** One pass of the fix-up loop when the parent of `z` is a right child. */
    method InsertStepRight(z: RbNode, ghost c: Ctx<RbNode>, ghost t: Tree<RbNode>, ghost h: nat)
      returns (z': RbNode, ghost c': Ctx<RbNode>, ghost t': Tree<RbNode>, ghost h': nat)
      requires Linked() && shape == Plug(c, t) && OneRedRed(c, t, h) && t.elem == z
      requires c.In? && c.red && c.up.In? && c.up.side.Right?
      modifies `root, `shape, nodes`red, nodes`left, nodes`right, nodes`parent
      ensures Linked() && shape == Plug(c', t') && Inorder(shape) == old(Inorder(shape))
      ensures OneRedRed(c', t', h') && t'.elem == z'
      ensures Depth(c') < Depth(c)
    {
      hide Linked, Inorder, OneRedRed, Depth;
      z', c', t', h' := z, c, t, h;
      ghost var up, p := c.up, Join(c.side, c.red, t, c.elem, c.sib);
      RedParent(c, t, h);
      Local(c, t);
      Local(up, p);
      Local(up.up, Join(up.side, up.red, p, up.elem, up.sib));
      Local(In(Flip(up.side), up.red, up.elem, p, up.up), up.sib);
      var y := z.parent.parent.left;
      if y.red {
        PushBlackness(z, y, c, t);
        PushedBlackness(c, t, h);
        z' := z.parent.parent;
        t' := Join(up.side, true, Join(c.side, false, t, c.elem, c.sib), up.elem, Blacken(up.sib));
        c', h' := up.up, h + 1;
      } else {
        if z == z.parent.left {
          z' := z.parent;
          RightRotate(z', up, p);
          StraightenedElbow(c, t, h);
          c', t' := In(Right, true, t.elem, t.left, up), Node(true, t.right, c.elem, c.sib);
        }
        RaiseParentLeft(z', c', t');
        RaisedParent(c', t', h);
        c' := In(Right, false, c'.elem, Node(true, up.sib, up.elem, c'.sib), up.up);
      }
    }

    method InsertFixup(z0: RbNode, ghost c0: Ctx<RbNode>, ghost t0: Tree<RbNode>, ghost h0: nat)
      requires Linked() && shape == Plug(c0, t0) && OneRedRed(c0, t0, h0) && t0.elem == z0
      modifies `root, `shape, nodes`red, nodes`left, nodes`right, nodes`parent
      ensures Linked() && Inorder(shape) == old(Inorder(shape))
      ensures Balanced(shape)
    {
      hide Linked, Inorder, OneRedRed, Depth, Balanced;
      var z := z0;
      ghost var c, t, h := c0, t0, h0;
      RedParent(c, t, h);
      Local(c, t);
      while z.parent.red
        invariant Linked() && shape == Plug(c, t) && Inorder(shape) == old(Inorder(shape))
        invariant OneRedRed(c, t, h) && t.Node? && t.elem == z
        invariant !nil.red && NodeIs(t, if c.Top? then nil else c.elem) && (c.In? ==> c.elem.red == c.red)
        decreases Depth(c)
      {
        ghost var p := Join(c.side, c.red, t, c.elem, c.sib);
        RedParent(c, t, h);
        Local(c.up, p);
        Local(c.up.up, Join(c.up.side, c.up.red, p, c.up.elem, c.up.sib));
        if z.parent == z.parent.parent.left {
          z, c, t, h := InsertStepLeft(z, c, t, h);
        } else {
          z, c, t, h := InsertStepRight(z, c, t, h);
        }
        RedParent(c, t, h);
        Local(c, t);
      }
      BlackenRoot(c, t, h);
    }

    /** `T->root->color = BLACK`, when the only thing left to mend is a red root. */
    method BlackenRoot(ghost c: Ctx<RbNode>, ghost t: Tree<RbNode>, ghost h: nat)
      requires Linked() && shape == Plug(c, t) && OneRedRed(c, t, h)
      requires c.In? ==> !c.red
      modifies `shape, nodes`red
      ensures Linked() && Inorder(shape) == old(Inorder(shape))
      ensures Balanced(shape)
    {
      hide Linked, Inorder;
      RootIsBlackenable(c, t, h);
      Local(Top, shape);
      Paint(root, false, Top, shape);
    }

    // ---------- searching ----------

    /**
     The node holding `key`, or the sentinel. `c` and `t` say where in the tree the search
     ended, `steps` how often the loop body ran: at most 2*log2(n+1) times.
     */
    method Search(key: CString) returns (node: RbNode, ghost c: Ctx<RbNode>, ghost t: Tree<RbNode>, ghost steps: nat)
      requires InOrder() && Balanced(shape)
      ensures shape == Plug(c, t) && node == Ref(t)
      ensures node != nil ==> node in nodes && node.key == key
      ensures node == nil ==> Around(Strcmp, KeyMap(nodes), c, key)
      ensures node == nil ==> forall n :: n in nodes ==> n.key != key
      ensures Pow2(steps) <= (Size(shape) + 1) * (Size(shape) + 1)
    {
      hide Linked, Inorder, Ordered, Around, Balanced, TotalOrder;
      StrcmpIsTotalOrder();
      node := root;
      c, t, steps := Top, shape, 0;
      AroundTop(Strcmp, KeyMap(nodes), key);
      Local(c, t);
      while node != nil
        invariant shape == Plug(c, t) && node == Ref(t)
        invariant NodeIs(t, if c.Top? then nil else c.elem)
        invariant Around(Strcmp, KeyMap(nodes), c, key)
        invariant steps == Depth(c)
        decreases t
      {
        var ret := Strcmp(key, node.key);
        StrcmpZero(key, node.key);
        if ret < 0 {
          DescendLeft(Strcmp, KeyMap(nodes), c, t, key);
          node := node.left;
          c, t := In(Left, t.red, t.elem, t.right, c), t.left;
        } else if ret > 0 {
          DescendRight(Strcmp, KeyMap(nodes), c, t, key);
          node := node.right;
          c, t := In(Right, t.red, t.elem, t.left, c), t.right;
        } else {
          steps := steps + 1;
          StepsBound(c, t, steps);
          return;
        }
        steps := steps + 1;
        Local(c, t);
      }
      Absent(c, key);
      StepsBound(c, t, steps);
    }

    lemma Absent(c: Ctx<RbNode>, key: CString)
      requires Linked() && shape == Plug(c, Leaf) && Around(Strcmp, KeyMap(nodes), c, key)
      ensures forall n :: n in nodes ==> n.key != key
    {
      StrcmpIsTotalOrder();
      Missed(Strcmp, KeyMap(nodes), c, key);
      ElemsInorder(shape);
    }

    lemma StepsBound(c: Ctx<RbNode>, t: Tree<RbNode>, steps: nat)
      requires shape == Plug(c, t) && Balanced(shape)
      requires steps == if t.Leaf? then Depth(c) else Depth(c) + 1
      ensures Pow2(steps) <= (Size(shape) + 1) * (Size(shape) + 1)
    {
      DepthBelowHeight(c, t);
      Pow2Monotone(steps, Height(shape));
      LogarithmicHeight(shape);
    }

    // ---------- inserting ----------

    /** Link the red leaf `z` below `y`, in the hole of `c`. */
    method Attach(z: RbNode, y: RbNode, ghost c: Ctx<RbNode>)
      requires Linked() && shape == Plug(c, Leaf) && z !in nodes && z != nil
      requires y == if c.Top? then nil else c.elem
      requires c.In? ==> (c.side.Left? <==> Strcmp(z.key, y.key) < 0)
      modifies `root, `shape, `nodes, z`red, z`left, z`right, z`parent, nodes`left, nodes`right
      ensures Linked() && nodes == old(nodes) + {z}
      ensures shape == Plug(c, Node(true, Leaf, z, Leaf))
    {
      hide Linked, Rep, Plug, Elems, CtxElems;
      ghost var m, r := Memory(nodes, nil), AsLink(root, nil);
      HoleView(c);
      AttachLinks(z, y);
      nodes := nodes + {z};
      AttachRep(m, r, z, c);
    }

    lemma HoleView(c: Ctx<RbNode>)
      requires Linked() && shape == Plug(c, Leaf)
      ensures nil !in nodes && !nil.red
      ensures Rep(Memory(nodes, nil), AsLink(root, nil), c, Leaf)
      ensures nodes == Elems(Plug(c, Leaf)) == CtxElems(c)
      ensures c.In? ==> c.elem in nodes && Memory(nodes, nil)[c.elem] == FrameCell(c, Nil)
    {
      Focus(c, Leaf);
    }

    method AttachLinks(z: RbNode, y: RbNode)
      requires z != nil && z != y
      modifies `root, z`red, z`left, z`right, z`parent
      modifies (if y == nil then {} else {y})`left, (if y == nil then {} else {y})`right
      ensures z.red && z.left == nil && z.right == nil && z.parent == y
      ensures root == if y == nil then z else old(root)
      ensures y != nil ==> y.left == if Strcmp(z.key, y.key) < 0 then z else old(y.left)
      ensures y != nil ==> y.right == if Strcmp(z.key, y.key) < 0 then old(y.right) else z
    {
      z.parent := y;
      if y == nil {
        root := z;
      } else if Strcmp(z.key, y.key) < 0 {
        y.left := z;
      } else {
        y.right := z;
      }
      z.left := nil;
      z.right := nil;
      z.red := true;
    }

    ghost method AttachRep(m: Cells<RbNode>, r: Link<RbNode>, z: RbNode, c: Ctx<RbNode>)
      requires Rep(m, r, c, Leaf) && z in nodes && nil !in nodes && !nil.red
      requires nodes == Elems(Plug(c, Leaf)) + {z} && z !in CtxElems(c)
      requires z.red && z.left == nil && z.right == nil && AsLink(z.parent, nil) == Above(c)
      requires c.In? ==> c.elem in nodes && Memory(nodes, nil)[c.elem] == FrameCell(c, To(z))
      requires AsLink(root, nil) == if c.Top? then To(z) else r
      requires Agree(m, Memory(nodes, nil), if c.Top? then {} else CtxElems(c) - {c.elem})
      modifies `shape
      ensures Linked() && shape == Plug(c, Node(true, Leaf, z, Leaf))
    {
      var t' := Node(true, Leaf, z, Leaf);
      Replace(m, Memory(nodes, nil), r, AsLink(root, nil), c, Leaf, t');
      ApartPlug(c, Leaf);
      ApartPlug(c, t');
      Reshape(Plug(c, t'));
    }

    /** The part of `rbtree_insert` after the descent: hangs `z` below `y` and repairs. */
    method Graft(z: RbNode, y: RbNode, ghost c: Ctx<RbNode>) returns (ghost at: nat)
      requires InOrder() && Balanced(shape) && z !in nodes && z != nil && shape == Plug(c, Leaf)
      requires y == if c.Top? then nil else c.elem
      requires c.In? ==> (c.side.Left? <==> Strcmp(z.key, y.key) < 0)
      requires Around(Strcmp, KeyMap(nodes), c, z.key)
      modifies `root, `shape, `nodes, z`red, z`left, z`right, z`parent
      modifies nodes`red, nodes`left, nodes`right, nodes`parent
      ensures InOrder() && Balanced(shape)
      ensures nodes == old(nodes) + {z} && at <= |old(Inorder(shape))|
      ensures Inorder(shape) == old(Inorder(shape))[..at] + [z] + old(Inorder(shape))[at..]
    {
      hide Linked, Inorder, Ordered, Around, Balanced, Strcmp;
      at := |Before(c)|;
      InorderOfGraft(c, z);
      ghost var h := LeafHeight(c);
      ghost var keys := KeyMap(nodes + {z});
      KeysGrow(c, z);
      Attach(z, y, c);
      InsertFixup(z, c, Node(true, Leaf, z, Leaf), h);
      assert KeyMap(nodes) == keys;
    }

    /** `steps` counts the turns of the descent: at most 2*log2(n+1). */
    method Insert(z: RbNode) returns (ghost at: nat, ghost steps: nat)
      requires InOrder() && Balanced(shape) && z !in nodes && z != nil
      modifies `root, `shape, `nodes, z`red, z`left, z`right, z`parent
      modifies nodes`red, nodes`left, nodes`right, nodes`parent
      ensures InOrder() && Balanced(shape)
      ensures (exists n :: n in old(nodes) && n.key == z.key) ==>
        nodes == old(nodes) && shape == old(shape)
      ensures (forall n :: n in old(nodes) ==> n.key != z.key) ==>
        && nodes == old(nodes) + {z}
        && at <= |old(Inorder(shape))|
        && Inorder(shape) == old(Inorder(shape))[..at] + [z] + old(Inorder(shape))[at..]
      ensures Pow2(steps) <= (old(Size(shape)) + 1) * (old(Size(shape)) + 1)
    {
      hide Linked, Inorder, Ordered, Around, Balanced, TotalOrder;
      StrcmpIsTotalOrder();
      at, steps := 0, 0;
      var y := nil;
      var x := root;
      ghost var c, t := Top, shape;
      AroundTop(Strcmp, KeyMap(nodes), z.key);
      Local(c, t);
      while x != nil
        invariant shape == Plug(c, t) && x == Ref(t)
        invariant y == if c.Top? then nil else c.elem
        invariant NodeIs(t, y)
        invariant c.In? ==> (c.side.Left? <==> Strcmp(z.key, y.key) < 0)
        invariant Around(Strcmp, KeyMap(nodes), c, z.key)
        invariant steps == Depth(c)
        decreases t
        modifies {}
      {
        y := x;
        var ret := Strcmp(z.key, x.key);
        StrcmpZero(z.key, x.key);
        if ret < 0 {
          DescendLeft(Strcmp, KeyMap(nodes), c, t, z.key);
          x := x.left;
          c, t := In(Left, t.red, t.elem, t.right, c), t.left;
        } else if ret > 0 {
          DescendRight(Strcmp, KeyMap(nodes), c, t, z.key);
          x := x.right;
          c, t := In(Right, t.red, t.elem, t.left, c), t.right;
        } else {
          steps := steps + 1;
          StepsBound(c, t, steps);
          return;
        }
        steps := steps + 1;
        Local(c, t);
      }
      Absent(c, z.key);
      StepsBound(c, t, steps);
      at := Graft(z, y, c);
    }

    lemma KeysGrow(c: Ctx<RbNode>, z: RbNode)
      requires InOrder() && shape == Plug(c, Leaf) && Around(Strcmp, KeyMap(nodes), c, z.key)
      ensures Ordered(Strcmp, KeyMap(nodes + {z}), Inorder(Plug(c, Node(true, Leaf, z, Leaf))))
    {
      hide Linked, TotalOrder, Plug, Around, Before, After;
      StrcmpIsTotalOrder();
      InorderOfGraft(c, z);
      InorderPlug(c, Leaf);
      assert Before(c) + [] + After(c) == Before(c) + After(c);
      AroundGrows(Strcmp, KeyMap(nodes), KeyMap(nodes + {z}), c, z.key);
      OrderedInsert(Strcmp, KeyMap(nodes + {z}), Before(c), z, After(c));
    }

    // ---------- deleting ----------

    lemma Nephews(c: Ctx<RbNode>, t: Tree<RbNode>)
      requires Linked() && shape == Plug(c, t) && t.Node?
      ensures t.elem in nodes
      ensures t.elem.left.red == IsRed(t.left) && t.elem.right.red == IsRed(t.right)
    {
      Local(c, t);
      Local(In(Left, t.red, t.elem, t.right, c), t.left);
      Local(In(Right, t.red, t.elem, t.left, c), t.right);
    }

    /** The hole is on the left and its sibling `w` red: rotate at the parent, recoloured. */
    method PullSiblingLeft(x: RbNode, w: RbNode, ghost c: Ctx<RbNode>, ghost t: Tree<RbNode>)
      requires Linked() && shape == Plug(c, t) && x == Ref(t)
      requires c.In? && c.side.Left? && c.sib.Node? && c.sib.elem == w && x.parent == c.elem
      modifies `root, `shape, nodes`red, nodes`left, nodes`right, nodes`parent
      ensures Linked() && Inorder(shape) == old(Inorder(shape)) && x.parent == c.elem
      ensures shape == Plug(In(Left, true, c.elem, c.sib.left, In(Left, false, c.sib.elem, c.sib.right, c.up)), t)
    {
      hide Linked, Inorder;
      ghost var cw := In(Right, c.red, c.elem, t, c.up);
      ghost var sib := c.sib.(red := false);
      Local(c, t);
      Local(cw, c.sib);
      Paint(w, false, cw, c.sib);
      Paint(x.parent, true, c.up, Node(c.red, t, c.elem, sib));
      LeftRotate(x.parent, c.up, Node(true, t, c.elem, sib));
      Local(In(Left, true, c.elem, sib.left, In(Left, false, sib.elem, sib.right, c.up)), t);
    }

    /** The near child of the sibling `w` is red: it takes the place of `w`. */
    method RaiseNephewLeft(x: RbNode, w: RbNode, ghost c: Ctx<RbNode>, ghost t: Tree<RbNode>)
      requires Linked() && shape == Plug(c, t) && x == Ref(t)
      requires c.In? && c.side.Left? && c.sib.Node? && c.sib.left.Node? && c.sib.elem == w && x.parent == c.elem
      modifies `root, `shape, nodes`red, nodes`left, nodes`right, nodes`parent
      ensures Linked() && Inorder(shape) == old(Inorder(shape)) && x.parent == c.elem
      ensures var n := c.sib.left;
        shape == Plug(c.(sib := Node(false, n.left, n.elem, Node(true, n.right, w, c.sib.right))), t)
    {
      hide Linked, Inorder;
      ghost var n, d := c.sib.left, c.sib.right;
      ghost var cw := In(Right, c.red, c.elem, t, c.up);
      Local(c, t);
      Local(cw, c.sib);
      ghost var cn := In(Left, c.sib.red, w, d, cw);
      Local(cn, n);
      Paint(w.left, false, cn, n);
      ghost var s := Node(c.sib.red, n.(red := false), w, d);
      Paint(w, true, cw, s);
      s := Node(true, n.(red := false), w, d);
      RightRotate(w, cw, s);
      n := Node(false, n.left, n.elem, Node(true, n.right, w, d));
      Local(c.(sib := n), t);
    }

    /** The far child of the sibling `w` is red: rotate at the parent and end. */
    method BorrowLeft(x: RbNode, w: RbNode, ghost c: Ctx<RbNode>, ghost t: Tree<RbNode>)
      requires Linked() && shape == Plug(c, t) && x == Ref(t)
      requires c.In? && c.side.Left? && c.sib.Node? && c.sib.right.Node? && c.sib.elem == w && x.parent == c.elem
      modifies `root, `shape, nodes`red, nodes`left, nodes`right, nodes`parent
      ensures Linked() && Inorder(shape) == old(Inorder(shape))
      ensures shape == Plug(c.up,
        Node(c.red, Node(false, t, c.elem, c.sib.left), w, Blacken(c.sib.right)))
    {
      hide Linked, Inorder;
      ghost var b, d := c.sib.left, c.sib.right;
      ghost var cw := In(Right, c.red, c.elem, t, c.up);
      Local(c, t);
      Local(cw, c.sib);
      Paint(w, x.parent.red, cw, c.sib);
      ghost var s := Node(c.red, b, w, d);
      ghost var p := Node(c.red, t, c.elem, s);
      Local(c.up, p);
      Paint(x.parent, false, c.up, p);
      ghost var cd := In(Right, c.red, w, b, In(Right, false, c.elem, t, c.up));
      Local(cd.up, s);
      Local(cd, d);
      Paint(w.right, false, cd, d);
      LeftRotate(x.parent, c.up, Node(false, t, c.elem, Node(c.red, b, w, Blacken(d))));
    }

    /** One pass of the fix-up loop when `x` is a left child. */
    method DeleteStepLeft(x: RbNode, ghost c0: Ctx<RbNode>, ghost t: Tree<RbNode>, ghost h: nat)
      returns (x': RbNode, ghost c': Ctx<RbNode>, ghost t': Tree<RbNode>, ghost h': nat)
      requires Linked() && shape == Plug(c0, t) && x == Ref(t) && OneShort(c0, t, h) && !IsRed(t)
      requires c0.In? && c0.side.Left? && x.parent == c0.elem
      modifies `root, `shape, nodes`red, nodes`left, nodes`right, nodes`parent
      ensures Linked() && Inorder(shape) == old(Inorder(shape))
      ensures shape == Plug(c', t') && x' == Ref(t') && OneShort(c', t', h')
      ensures c'.In? ==> x'.parent == c'.elem
      ensures FixupMeasure(c', t') < FixupMeasure(c0, t)
    {
      hide Linked, Inorder, OneShort, Balanced;
      ghost var c := c0;
      SiblingExists(c, t, h);
      Local(c, t);
      ghost var p := Node(c.red, t, c.elem, c.sib);
      Local(c.up, p);
      Local(In(Right, c.red, c.elem, t, c.up), c.sib);
      var w := x.parent.right;
      if w.red {
        PullSiblingLeft(x, w, c, t);
        RedSiblingPulled(c, t, h);
        c := In(Left, true, c.elem, c.sib.left, In(Left, false, c.sib.elem, c.sib.right, c.up));
        p := Node(true, t, c.elem, c.sib);
        Local(c.up, p);
        Local(In(Right, c.red, c.elem, t, c.up), c.sib);
        w := x.parent.right;
      }
      ghost var cw := In(Right, c.red, c.elem, t, c.up);
      Nephews(cw, c.sib);
      if !w.left.red && !w.right.red {
        Paint(w, true, cw, c.sib);
        SiblingReddened(c, t, h);
        Local(c.up, Node(c.red, t, c.elem, c.sib.(red := true)));
        x' := x.parent;
        c', t', h' := c.up, Node(c.red, t, c.elem, c.sib.(red := true)), if c.red then h else h + 1;
      } else {
        if !w.right.red {
          RaiseNephewLeft(x, w, c, t);
          NephewRaised(c, t, h);
          ghost var n := c.sib.left;
          c := c.(sib := Node(false, n.left, n.elem, Node(true, n.right, c.sib.elem, c.sib.right)));
          Local(c.up, Node(c.red, t, c.elem, c.sib));
          w := x.parent.right;
        }
        BorrowLeft(x, w, c, t);
        Borrowed(c, t, h);
        Local(Top, shape);
        x' := root;
        c', t' := Top, shape;
        h' := WholeIsPaid(shape);
      }
    }

    /** The hole is on the right and its sibling `w` red: rotate at the parent, recoloured. */
    method PullSiblingRight(x: RbNode, w: RbNode, ghost c: Ctx<RbNode>, ghost t: Tree<RbNode>)
      requires Linked() && shape == Plug(c, t) && x == Ref(t)
      requires c.In? && c.side.Right? && c.sib.Node? && c.sib.elem == w && x.parent == c.elem
      modifies `root, `shape, nodes`red, nodes`left, nodes`right, nodes`parent
      ensures Linked() && Inorder(shape) == old(Inorder(shape)) && x.parent == c.elem
      ensures shape == Plug(In(Right, true, c.elem, c.sib.right, In(Right, false, c.sib.elem, c.sib.left, c.up)), t)
    {
      hide Linked, Inorder;
      ghost var cw := In(Left, c.red, c.elem, t, c.up);
      ghost var sib := c.sib.(red := false);
      Local(c, t);
      Local(cw, c.sib);
      Paint(w, false, cw, c.sib);
      Paint(x.parent, true, c.up, Node(c.red, sib, c.elem, t));
      RightRotate(x.parent, c.up, Node(true, sib, c.elem, t));
      Local(In(Right, true, c.elem, sib.right, In(Right, false, sib.elem, sib.left, c.up)), t);
    }

    /** The near child of the sibling `w` is red: it takes the place of `w`. */
    method RaiseNephewRight(x: RbNode, w: RbNode, ghost c: Ctx<RbNode>, ghost t: Tree<RbNode>)
      requires Linked() && shape == Plug(c, t) && x == Ref(t)
      requires c.In? && c.side.Right? && c.sib.Node? && c.sib.right.Node? && c.sib.elem == w && x.parent == c.elem
      modifies `root, `shape, nodes`red, nodes`left, nodes`right, nodes`parent
      ensures Linked() && Inorder(shape) == old(Inorder(shape)) && x.parent == c.elem
      ensures var n := c.sib.right;
        shape == Plug(c.(sib := Node(false, Node(true, c.sib.left, w, n.left), n.elem, n.right)), t)
    {
      hide Linked, Inorder;
      ghost var n, d := c.sib.right, c.sib.left;
      ghost var cw := In(Left, c.red, c.elem, t, c.up);
      Local(c, t);
      Local(cw, c.sib);
      ghost var cn := In(Right, c.sib.red, w, d, cw);
      Local(cn, n);
      Paint(w.right, false, cn, n);
      ghost var s := Node(c.sib.red, d, w, n.(red := false));
      Paint(w, true, cw, s);
      s := Node(true, d, w, n.(red := false));
      LeftRotate(w, cw, s);
      n := Node(false, Node(true, d, w, n.left), n.elem, n.right);
      Local(c.(sib := n), t);
    }

    /** The far child of the sibling `w` is red: rotate at the parent and end. */
    method BorrowRight(x: RbNode, w: RbNode, ghost c: Ctx<RbNode>, ghost t: Tree<RbNode>)
      requires Linked() && shape == Plug(c, t) && x == Ref(t)
      requires c.In? && c.side.Right? && c.sib.Node? && c.sib.left.Node? && c.sib.elem == w && x.parent == c.elem
      modifies `root, `shape, nodes`red, nodes`left, nodes`right, nodes`parent
      ensures Linked() && Inorder(shape) == old(Inorder(shape))
      ensures shape == Plug(c.up,
        Node(c.red, Blacken(c.sib.left), w, Node(false, c.sib.right, c.elem, t)))
    {
      hide Linked, Inorder;
      ghost var b, d := c.sib.right, c.sib.left;
      ghost var cw := In(Left, c.red, c.elem, t, c.up);
      Local(c, t);
      Local(cw, c.sib);
      Paint(w, x.parent.red, cw, c.sib);
      ghost var s := Node(c.red, d, w, b);
      ghost var p := Node(c.red, s, c.elem, t);
      Local(c.up, p);
      Paint(x.parent, false, c.up, p);
      ghost var cd := In(Left, c.red, w, b, In(Left, false, c.elem, t, c.up));
      Local(cd.up, s);
      Local(cd, d);
      Paint(w.left, false, cd, d);
      RightRotate(x.parent, c.up, Node(false, Node(c.red, Blacken(d), w, b), c.elem, t));
    }

    /** One pass of the fix-up loop when `x` is a right child. */
    method DeleteStepRight(x: RbNode, ghost c0: Ctx<RbNode>, ghost t: Tree<RbNode>, ghost h: nat)
      returns (x': RbNode, ghost c': Ctx<RbNode>, ghost t': Tree<RbNode>, ghost h': nat)
      requires Linked() && shape == Plug(c0, t) && x == Ref(t) && OneShort(c0, t, h) && !IsRed(t)
      requires c0.In? && c0.side.Right? && x.parent == c0.elem
      modifies `root, `shape, nodes`red, nodes`left, nodes`right, nodes`parent
      ensures Linked() && Inorder(shape) == old(Inorder(shape))
      ensures shape == Plug(c', t') && x' == Ref(t') && OneShort(c', t', h')
      ensures c'.In? ==> x'.parent == c'.elem
      ensures FixupMeasure(c', t') < FixupMeasure(c0, t)
    {
      hide Linked, Inorder, OneShort, Balanced;
      ghost var c := c0;
      SiblingExists(c, t, h);
      Local(c, t);
      ghost var p := Node(c.red, c.sib, c.elem, t);
      Local(c.up, p);
      Local(In(Left, c.red, c.elem, t, c.up), c.sib);
      var w := x.parent.left;
      if w.red {
        PullSiblingRight(x, w, c, t);
        RedSiblingPulled(c, t, h);
        c := In(Right, true, c.elem, c.sib.right, In(Right, false, c.sib.elem, c.sib.left, c.up));
        p := Node(true, c.sib, c.elem, t);
        Local(c.up, p);
        Local(In(Left, c.red, c.elem, t, c.up), c.sib);
        w := x.parent.left;
      }
      ghost var cw := In(Left, c.red, c.elem, t, c.up);
      Nephews(cw, c.sib);
      if !w.left.red && !w.right.red {
        Paint(w, true, cw, c.sib);
        SiblingReddened(c, t, h);
        Local(c.up, Node(c.red, c.sib.(red := true), c.elem, t));
        x' := x.parent;
        c', t', h' := c.up, Node(c.red, c.sib.(red := true), c.elem, t), if c.red then h else h + 1;
      } else {
        if !w.left.red {
          RaiseNephewRight(x, w, c, t);
          NephewRaised(c, t, h);
          ghost var n := c.sib.right;
          c := c.(sib := Node(false, Node(true, c.sib.left, c.sib.elem, n.left), n.elem, n.right));
          Local(c.up, Node(c.red, c.sib, c.elem, t));
          w := x.parent.left;
        }
        BorrowRight(x, w, c, t);
        Borrowed(c, t, h);
        Local(Top, shape);
        x' := root;
        c', t' := Top, shape;
        h' := WholeIsPaid(shape);
      }
    }

    /** `x->color = BLACK`, where `x` may be the sentinel. */
    method PaintBlack(x: RbNode, ghost c: Ctx<RbNode>, ghost t: Tree<RbNode>)
      requires Linked() && shape == Plug(c, t) && x == Ref(t)
      modifies `shape, x`red
      ensures Linked() && shape == Plug(c, Blacken(t))
      ensures Inorder(shape) == old(Inorder(shape))
    {
      ghost var m := Memory(nodes, nil);
      Focus(c, t);
      x.red := false;
      if t.Leaf? {
        assert Memory(nodes, nil) == m;
      } else {
        assert Memory(nodes, nil) == m[x := m[x].(red := false)];
        PaintedRep(m, Memory(nodes, nil), AsLink(root, nil), c, t, false);
        PlugKeeps(c, t, Blacken(t));
        Reshape(Plug(c, Blacken(t)));
      }
    }

    method DeleteFixup(x0: RbNode, ghost c0: Ctx<RbNode>, ghost t0: Tree<RbNode>, ghost h0: nat)
      requires Linked() && shape == Plug(c0, t0) && x0 == Ref(t0) && OneShort(c0, t0, h0)
      requires c0.In? ==> x0.parent == c0.elem
      modifies `root, `shape, nil`red, nodes`red, nodes`left, nodes`right, nodes`parent
      ensures Linked() && Inorder(shape) == old(Inorder(shape))
      ensures Balanced(shape)
    {
      hide Linked, Inorder, OneShort, Balanced, FixupMeasure;
      var x := x0;
      ghost var c, t, h := c0, t0, h0;
      Local(c, t);
      while x != root && !x.red
        invariant Linked() && shape == Plug(c, t) && Inorder(shape) == old(Inorder(shape))
        invariant x == Ref(t) && OneShort(c, t, h) && (c.In? ==> x.parent == c.elem)
        invariant nil !in nodes && !nil.red && NodeIs(t, if c.Top? then nil else c.elem)
        invariant c.Top? <==> x == root
        decreases FixupMeasure(c, t)
      {
        SiblingExists(c, t, h);
        Local(c, t);
        Local(c.up, Join(c.side, c.red, t, c.elem, c.sib));
        Local(In(Flip(c.side), c.red, c.elem, t, c.up), c.sib);
        if x == x.parent.left {
          x, c, t, h := DeleteStepLeft(x, c, t, h);
        } else {
          x, c, t, h := DeleteStepRight(x, c, t, h);
        }
        Local(c, t);
      }
      ShortPaid(c, t, h);
      PaintBlack(x, c, t);
    }

    /** The leftmost node below `x0`, or the sentinel when `x0` is that. */
    method Mini(x0: RbNode, ghost c0: Ctx<RbNode>, ghost t0: Tree<RbNode>)
      returns (x: RbNode, ghost c: Ctx<RbNode>, ghost t: Tree<RbNode>)
      requires Linked() && shape == Plug(c0, t0) && x0 == Ref(t0) && nil.left == nil
      ensures shape == Plug(c, t) && x == Ref(t)
      ensures t0.Node? <==> t.Node?
      ensures t.Node? ==> t.left.Leaf? && x in nodes
      ensures Before(c) == Before(c0)
      ensures t0.Node? ==> Inorder(t0) != [] && x == Inorder(t0)[0]
    {
      hide Linked;
      x := x0;
      c, t := c0, t0;
      Local(c, t);
      while x.left != nil
        invariant shape == Plug(c, t) && x == Ref(t) && (t0.Node? <==> t.Node?)
        invariant NodeIs(t, if c.Top? then nil else c.elem)
        invariant Before(c) == Before(c0) && (t.Node? ==> Inorder(t0)[0] == Inorder(t)[0])
        decreases t
      {
        Local(In(Left, t.red, t.elem, t.right, c), t.left);
        x := x.left;
        assert Inorder(t)[0] == Inorder(t.left)[0];
        c, t := In(Left, t.red, t.elem, t.right, c), t.left;
      }
      if t.Node? { Local(In(Left, t.red, t.elem, t.right, c), t.left); }
    }

    /** The next node in order, or the sentinel when `x0` is the last. */
    method Successor(x0: RbNode, ghost c0: Ctx<RbNode>, ghost t0: Tree<RbNode>)
      returns (y: RbNode, ghost c: Ctx<RbNode>, ghost t: Tree<RbNode>)
      requires Linked() && shape == Plug(c0, t0) && t0.Node? && t0.elem == x0 && nil.left == nil
      ensures var rest := Inorder(t0.right) + After(c0);
        y == if rest == [] then nil else rest[0]
      ensures shape == Plug(c, t) && y == Ref(t)
      ensures t0.right.Node? ==> t.Node? && t.left.Leaf? && Before(c) == Before(c0) + Inorder(t0.left) + [x0]
    {
      hide Linked;
      var x := x0;
      c, t := c0, t0;
      Local(c, t);
      y := x.parent;
      ghost var cr := In(Right, t.red, t.elem, t.left, c);
      Local(cr, t.right);
      if x.right != nil {
        y, c, t := Mini(x.right, cr, t.right);
        return;
      }
      assert Inorder(t0.right) + After(c0) == After(c0);
      while y != nil && x == y.right
        invariant shape == Plug(c, t) && t.Node? && t.elem == x
        invariant y == if c.Top? then nil else c.elem
        invariant After(c) == After(c0)
        decreases c
      {
        ghost var p := Join(c.side, c.red, t, c.elem, c.sib);
        Local(c, t);
        Local(c.up, p);
        x := y;
        y := y.parent;
        c, t := c.up, p;
      }
      Local(c, t);
      if c.Top? {
        c, t := HoleOf(t);
      } else {
        ghost var p := Join(c.side, c.red, t, c.elem, c.sib);
        Local(c.up, p);
        c, t := c.up, p;
      }
    }

    /** Link `x`, the only child of `y` or the sentinel, in the place of `y`. */
    method SpliceLinks(y: RbNode, x: RbNode, ghost p: RbNode)
      requires p == y.parent && x != y && y != p && (p != nil ==> x != p)
      modifies `root, x`parent
      modifies (if p == nil then {} else {p})`left, (if p == nil then {} else {p})`right
      ensures x.parent == p
      ensures root == if p == nil then x else old(root)
      ensures p != nil ==> p.left == if old(p.left) == y then x else old(p.left)
      ensures p != nil ==> p.right == if old(p.left) == y then old(p.right) else x
    {
      x.parent := y.parent;
      if y.parent == nil {
        root := x;
      } else if y == y.parent.left {
        y.parent.left := x;
      } else {
        y.parent.right := x;
      }
    }

    method SpliceCells(y: RbNode, x: RbNode, ghost c: Ctx<RbNode>, ghost t: Tree<RbNode>, ghost child: Tree<RbNode>)
      requires t.Node? && t.elem == y && x == Ref(child) && nil !in nodes
      requires NodeIs(t, if c.Top? then nil else c.elem) && NodeIs(child, y)
      requires child.Node? ==> x != y
      requires c.In? ==> c.elem in nodes && c.elem != y && c.elem != nil && To(c.elem) != LinkTo(child)
      requires c.In? ==> Memory(nodes, nil)[c.elem] == FrameCell(c, To(y)) && Ref(c.sib) != y
      modifies `root, `nodes, nil`parent, nodes`left, nodes`right, nodes`parent
      ensures nodes == old(nodes) - {y}
      ensures Spliced(old(Memory(nodes, nil)), Memory(nodes, nil), c, t, child)
      ensures root == if c.Top? then x else old(root)
      ensures x.parent == if c.Top? then nil else c.elem
    {
      ghost var m := Memory(nodes, nil);
      SpliceLinks(y, x, y.parent);
      nodes := nodes - {y};
      ghost var m' := Memory(nodes, nil);
      assert c.In? ==> m'[c.elem] == FrameCell(c, LinkTo(child));
      assert child.Node? ==> m'[child.elem] == m[child.elem].(parent := Above(c));
    }

    method Splice(y: RbNode, x: RbNode, ghost c: Ctx<RbNode>, ghost t: Tree<RbNode>, ghost child: Tree<RbNode>)
      requires Linked() && shape == Plug(c, t) && t.Node? && t.elem == y
      requires child == (if t.left.Leaf? then t.right else t.left) && (t.left.Leaf? || t.right.Leaf?)
      requires x == Ref(child)
      modifies `root, `shape, `nodes, nil`parent, nodes`left, nodes`right, nodes`parent
      ensures Linked() && nodes == old(nodes) - {y} && shape == Plug(c, child)
      ensures x.parent == if c.Top? then nil else c.elem
    {
      hide Linked, Rep, Elems, CtxElems, Spliced, Plug;
      ghost var m, r := Memory(nodes, nil), AsLink(root, nil);
      SpliceView(c, t, child);
      SpliceNodes(c, t, child);
      SpliceCells(y, x, c, t, child);
      SplicedRep(m, Memory(nodes, nil), r, AsLink(root, nil), c, t, child);
      Reshape(Plug(c, child));
    }

    lemma SpliceNodes(c: Ctx<RbNode>, t: Tree<RbNode>, child: Tree<RbNode>)
      requires Linked() && shape == Plug(c, t) && t.Node?
      requires child == (if t.left.Leaf? then t.right else t.left) && (t.left.Leaf? || t.right.Leaf?)
      ensures Elems(Plug(c, child)) == nodes - {t.elem}
    {
      hide Linked, Elems, CtxElems, Distinct, Plug;
      Focus(c, t);
      SpliceElems(c, t, child);
    }

    lemma SpliceView(c: Ctx<RbNode>, t: Tree<RbNode>, child: Tree<RbNode>)
      requires Linked() && shape == Plug(c, t) && t.Node?
      requires child == (if t.left.Leaf? then t.right else t.left) && (t.left.Leaf? || t.right.Leaf?)
      ensures nil !in nodes && !nil.red && Rep(Memory(nodes, nil), AsLink(root, nil), c, t)
      ensures NodeIs(t, if c.Top? then nil else c.elem) && NodeIs(child, t.elem)
      ensures c.In? ==> c.elem in nodes && c.elem != t.elem && To(c.elem) != LinkTo(child)
      ensures child.Node? ==> child.elem != t.elem
      ensures c.In? ==> Memory(nodes, nil)[c.elem] == FrameCell(c, To(t.elem)) && Ref(c.sib) != t.elem
    {
      hide Linked, Elems, CtxElems, Fits, FitsCtx;
      Focus(c, t);
      Local(c, t);
      if child == t.right {
        Local(In(Right, t.red, t.elem, t.left, c), child);
      } else {
        Local(In(Left, t.red, t.elem, t.right, c), child);
      }
      SpliceElems(c, t, child);
      if c.In? { FrameView(Memory(nodes, nil), AsLink(root, nil), c, t); }
    }

    /** The node that is unlinked when `z` is deleted: `z` itself, or the node after it. */
    method Victim(z: RbNode, ghost c: Ctx<RbNode>, ghost t: Tree<RbNode>)
      returns (y: RbNode, ghost cy: Ctx<RbNode>, ghost ty: Tree<RbNode>)
      requires Linked() && shape == Plug(c, t) && t.Node? && t.elem == z && nil.left == nil
      ensures shape == Plug(cy, ty) && ty.Node? && ty.elem == y && y in nodes && z in nodes
      ensures ty.left.Leaf? || ty.right.Leaf?
      ensures Rank(cy, ty) == if y == z then Rank(c, t) else Rank(c, t) + 1
    {
      hide Linked;
      Local(c, t);
      Local(In(Left, t.red, t.elem, t.right, c), t.left);
      Local(In(Right, t.red, t.elem, t.left, c), t.right);
      if z.left == nil || z.right == nil {
        y, cy, ty := z, c, t;
      } else {
        y, cy, ty := Successor(z, c, t);
        Local(cy, ty);
        NextIsOther(c, t);
      }
    }

    lemma NextIsOther(c: Ctx<RbNode>, t: Tree<RbNode>)
      requires Linked() && shape == Plug(c, t) && t.Node? && t.right.Node?
      ensures Inorder(t.right) != [] && (Inorder(t.right) + After(c))[0] != t.elem
    {
      Focus(c, t);
      ElemsInorder(t.right);
      assert Inorder(t.right)[0] in Inorder(t.right);
    }

    /** Every walk meets every node once. */
    lemma WalkOnce()
      requires Linked()
      ensures NoDuplicates(Inorder(shape)) && forall i :: 0 <= i < |Inorder(shape)| ==> Inorder(shape)[i] in nodes
    {
      DistinctInorder(shape);
      ElemsInorder(shape);
    }

    method CopyBinding(z: RbNode, y: RbNode)
      modifies z`key, z`value
      ensures z.key == y.key && z.value == y.value
    {
      z.key := y.key;
      z.value := y.value;
    }

    /**
     The first half of a deletion: unlink a node `y` with at most one child `x`, and move its
     binding to `z` if `y` is not `z`.
     */
    method Unlink(z: RbNode, ghost c: Ctx<RbNode>, ghost t: Tree<RbNode>)
      returns (y: RbNode, x: RbNode, ghost cx: Ctx<RbNode>, ghost tx: Tree<RbNode>, ghost h: nat, ghost out: nat)
      requires Linked() && Balanced(shape) && shape == Plug(c, t) && t.Node? && t.elem == z
      requires nil.left == nil
      modifies `root, `shape, `nodes, nil`parent
      modifies nodes`left, nodes`right, nodes`parent, z`key, z`value
      ensures Linked() && shape == Plug(cx, tx) && x == Ref(tx)
      ensures cx.In? ==> x.parent == cx.elem
      ensures if y.red then Balanced(shape) else OneShort(cx, tx, h)
      ensures y in old(nodes) && nodes == old(nodes) - {y}
      ensures z in old(nodes) && out == if y == z then Rank(c, t) else Rank(c, t) + 1
      ensures var s := old(Inorder(shape));
        && out < |s| && s[out] == y
        && Inorder(shape) == s[..out] + s[out + 1..]
      ensures if y == z then z.key == old(z.key) && z.value == old(z.value)
        else z.key == old(y.key) && z.value == old(y.value)
    {
      hide Linked, Inorder, Balanced, OneShort, Rank;
      ghost var cy, ty;
      y, cy, ty := Victim(z, c, t);
      out := Rank(cy, ty);
      RankInWalk(cy, ty);
      Local(cy, ty);
      Local(In(Left, ty.red, ty.elem, ty.right, cy), ty.left);
      Local(In(Right, ty.red, ty.elem, ty.left, cy), ty.right);
      x := nil;
      if y.left != nil {
        x := y.left;
      } else if y.right != nil {
        x := y.right;
      }
      cx, tx := cy, if ty.left.Leaf? then ty.right else ty.left;
      WalkWithout(cy, ty, tx);
      h := SplicedColours(cy, ty, tx);
      Splice(y, x, cy, ty, tx);
      if y != z {
        CopyBinding(z, y);
      }
    }

    /**
     Delete the binding held by `z`. The node returned is the one taken out of the tree;
     when it is not `z`, its binding has moved to `z`.
     */
    method Delete(z: RbNode, ghost c: Ctx<RbNode>, ghost t: Tree<RbNode>) returns (y: RbNode, ghost at: nat)
      requires InOrder() && Balanced(shape) && shape == Plug(c, t) && t.Node? && t.elem == z
      requires nil.left == nil
      modifies `root, `shape, `nodes, nil`red, nil`parent, nodes
      ensures InOrder() && Balanced(shape)
      ensures y in old(nodes) && nodes == old(nodes) - {y}
      ensures at < |old(Inorder(shape))| && old(Inorder(shape))[at] == z
      ensures var was := old(BindingsOf(Inorder(shape)));
        BindingsOf(Inorder(shape)) == was[..at] + was[at + 1..]
    {
      hide Linked, Inorder, Ordered, Balanced, OneShort, NoDuplicates, Rank, BindingsOf, SortedByKey;
      ghost var s, was := Inorder(shape), BindingsOf(Inorder(shape));
      at := Rank(c, t);
      RankInWalk(c, t);
      WalkOnce();
      SortedBindings(nodes, s);
      var x; ghost var cx, tx, h, out;
      y, x, cx, tx, h, out := Unlink(z, c, t);
      BindingsWithout(s, was, at, out);
      if !y.red {
        DeleteFixup(x, cx, tx, h);
      }
      SortedWithout(was, at);
      WalkOnce();
      SortedBindings(nodes, Inorder(shape));
    }

    // ---------- the engine's interface ----------

    ghost predicate Valid()
      reads this, nil, nodes
    {
      && InOrder()
      && Balanced(shape)
      && nbElements == Size(shape)
      && nil.left == nil && nil.value == []
    }

    /** The bindings in key order. */
    ghost function Contents(): seq<Binding>
      requires Linked()
      reads `root, `nil, `shape, `nodes, nil`red, nodes
    {
      WalkOnce();
      BindingsOf(Inorder(shape))
    }

    ghost function Map(): map<CString, CString>
      requires Linked()
      reads `root, `nil, `shape, `nodes, nil`red, nodes
    {
      AsMap(Contents())
    }

    /** The walk is sorted, so each node is the one binding of its key. */
    lemma MapFacts()
      requires Valid()
      ensures nil !in nodes && nil.value == []
      ensures DistinctKeys(Contents()) && |Contents()| == |Inorder(shape)|
      ensures forall n :: n in nodes ==> n.key in Map() && Map()[n.key] == n.value
      ensures forall k :: k in Map() ==> exists n :: n in nodes && n.key == k
      ensures |Map()| == nbElements
    {
      hide Linked, Ordered, Balanced, SortedByKey, DistinctKeys, AsMap;
      Local(Top, shape);
      WalkOnce();
      SortedBindings(nodes, Inorder(shape));
      SortedIsDistinct(Contents());
      AsMapSize(Contents());
      SizeIsLength(shape);
      NodesOfWalk();
      KeyedNodes(Inorder(shape));
    }

    lemma ContentsAre()
      requires Linked()
      ensures |Contents()| == |Inorder(shape)| == Size(shape)
      ensures forall i :: 0 <= i < |Contents()| ==>
        Contents()[i] == Binding(Inorder(shape)[i].key, Inorder(shape)[i].value)
    {
      SizeIsLength(shape);
    }

    lemma NodesOfWalk()
      requires Linked()
      ensures nodes == set n | n in Inorder(shape)
    {
      ElemsInorder(shape);
    }

    constructor ()
      ensures Valid() && fresh(nil) && nodes == {} && Map() == map[] && nbElements == 0
    {
      var sentinel := new RbNode.Sentinel();
      nil, root := sentinel, sentinel;
      nbElements := 0;
      shape, nodes := Leaf, {};
      new;
      assert RB(shape, 0);
      assert Contents() == [];
    }

    /** Search, in terms of the map. */
    method Lookup(key: CString) returns (node: RbNode, ghost c: Ctx<RbNode>, ghost t: Tree<RbNode>)
      requires Valid()
      ensures shape == Plug(c, t) && node == Ref(t) && (node != nil ==> t.Node?)
      ensures node != nil <==> key in Map()
      ensures node != nil ==> node in nodes && node.key == key && Map()[key] == node.value
      ensures node == nil ==> forall n :: n in nodes ==> n.key != key
      ensures nil !in nodes && nil.value == [] && DistinctKeys(Contents())
    {
      hide Linked, Inorder, Ordered, Balanced, AsMap, BindingsOf, DistinctKeys;
      MapFacts();
      ghost var steps;
      node, c, t, steps := Search(key);
      Local(c, t);
    }

    method Put(key: CharPtr, value: CharPtr) returns (r: int)
      requires Valid()
      requires key.Ptr? ==> KeyFits(key.s)
      requires value.Ptr? ==> ValueFits(value.s)
      modifies this, nodes
      ensures Valid() && nil == old(nil) && fresh(nodes - old(nodes))
      ensures r == if key.Null? || value.Null? then -1 else if key.s in old(Map()) then 1 else 0
      ensures Map() == if r == 0 then old(Map())[key.s := value.s] else old(Map())
    {
      hide Linked, Inorder, Ordered, Balanced, AsMap, BindingsOf, DistinctKeys;
      if key.Null? || value.Null? {
        return -1;
      }
      var node;
      ghost var c, t;
      node, c, t := Lookup(key.s);
      if node != nil {
        return 1;
      }
      node := new RbNode(key.s, value.s, nil);
      ghost var was, s := Contents(), Inorder(shape);
      ContentsAre();
      WalkOnce();
      ghost var at, steps;
      at, steps := Insert(node);
      nbElements := nbElements + 1;
      r := 0;
      Inserted(s, was, node, at);
    }

    ghost method Inserted(s: seq<RbNode>, was: seq<Binding>, node: RbNode, at: nat)
      requires InOrder() && Balanced(shape) && nbElements == |s| + 1
      requires nil.left == nil && nil.value == []
      requires at <= |s| && Inorder(shape) == s[..at] + [node] + s[at..] && |was| == |s|
      requires forall i :: 0 <= i < |s| ==> was[i] == Binding(s[i].key, s[i].value)
      ensures Valid() && Map() == AsMap(was)[node.key := node.value]
    {
      hide Linked, Inorder, Ordered, Balanced, AsMap, DistinctKeys, BindingsOf;
      ContentsAre();
      MapFacts();
      var b, now := Binding(node.key, node.value), Contents();
      forall i | 0 <= i < |now| ensures now[i] == (was[..at] + [b] + was[at..])[i] { }
      assert now == was[..at] + [b] + was[at..];
      AsMapInsert(was, at, b);
    }

    method Get(key: CharPtr) returns (value: CharPtr)
      requires Valid()
      ensures value ==
        if key.Null? then Null else Ptr(if key.s in Map() then Map()[key.s] else [])
    {
      hide Linked, Inorder, Ordered, Balanced, AsMap, BindingsOf, DistinctKeys;
      if key.Null? {
        return Null;
      }
      var node;
      ghost var c, t;
      node, c, t := Lookup(key.s);
      value := Ptr(node.value);
    }

    method Count() returns (n: int)
      requires Valid()
      ensures n == |Map()|
    {
      MapFacts();
      n := nbElements;
    }

    method Exist(key: CharPtr) returns (r: int)
      requires Valid()
      ensures r == if key.Null? then -1 else if key.s in Map() then 1 else 0
    {
      hide Linked, Inorder, Ordered, Balanced, AsMap, BindingsOf, DistinctKeys;
      if key.Null? {
        return -1;
      }
      var node;
      ghost var c, t;
      node, c, t := Lookup(key.s);
      if node != nil {
        return 1;
      }
      r := 0;
    }

    method DeleteKey(key: CharPtr) returns (r: int)
      requires Valid()
      modifies this, nil, nodes
      ensures Valid() && nil == old(nil) && nodes <= old(nodes)
      ensures r == if key.Null? then -1 else if key.s in old(Map()) then 0 else 1
      ensures Map() == if r == 0 then old(Map()) - {key.s} else old(Map())
    {
      hide Linked, Inorder, Ordered, Balanced, AsMap, BindingsOf, DistinctKeys;
      if key.Null? {
        return -1;
      }
      var node;
      ghost var c, t;
      node, c, t := Lookup(key.s);
      if node == nil {
        return 1;
      }
      ghost var was, at := Contents(), 0;
      ContentsAre();
      var out;
      out, at := Delete(node, c, t);
      nbElements := nbElements - 1;
      r := 0;
      AsMapRemove(was, at);
      ContentsAre();
    }

    lemma EmptyTree()
      requires Linked() && root == nil
      ensures nodes == {}
    {
      Local(Top, shape);
    }

    /** Frees every node of the tree, each one once, the least key first. */
    method Destroy() returns (ghost freed: seq<RbNode>)
      requires Valid()
      modifies this, nil, nodes
      ensures root == nil && nodes == {} && NoDuplicates(freed)
      ensures forall n :: n in old(nodes) <==> n in freed
    {
      hide Linked, Inorder, Ordered, Balanced, AsMap, BindingsOf;
      freed := [];
      var node := root;
      Local(Top, shape);
      while node != nil
        invariant Linked() && InOrder() && Balanced(shape) && nil == old(nil) && nil.left == nil
        invariant nodes <= old(nodes) && NoDuplicates(freed)
        invariant forall n :: n in freed <==> n in old(nodes) && n !in nodes
        invariant node == nil ==> root == nil
        decreases |nodes|, node != nil
      {
        Local(Top, shape);
        ghost var c, t, at;
        node, c, t := Mini(root, Top, shape);
        if node == nil {
          break;
        }
        node, at := Delete(node, c, t);
        freed := freed + [node];
      }
      EmptyTree();
    }
  }

  ghost function BindingsOf(s: seq<RbNode>): (bs: seq<Binding>)
    reads s`key, s`value
    ensures |bs| == |s|
    ensures forall i :: 0 <= i < |s| ==> bs[i] == Binding(s[i].key, s[i].value)
  {
    if s == [] then [] else [Binding(s[0].key, s[0].value)] + BindingsOf(s[1..])
  }

  lemma KeyedNodes(s: seq<RbNode>)
    requires DistinctKeys(BindingsOf(s))
    ensures forall n :: n in s ==> n.key in AsMap(BindingsOf(s)) && AsMap(BindingsOf(s))[n.key] == n.value
    ensures forall k :: k in AsMap(BindingsOf(s)) ==> exists n :: n in s && n.key == k
  {
    var bs := BindingsOf(s);
    forall n | n in s ensures n.key in AsMap(bs) && AsMap(bs)[n.key] == n.value {
      var i :| 0 <= i < |s| && s[i] == n;
      FirstAt(bs, i);
    }
    forall k | k in AsMap(bs) ensures exists n :: n in s && n.key == k {
      var i :| 0 <= i < |bs| && bs[i].key == k;
      assert s[i] in s && s[i].key == k;
    }
  }

  lemma SortedBindings(nodes: set<RbNode>, s: seq<RbNode>)
    requires forall i :: 0 <= i < |s| ==> s[i] in nodes
    ensures Ordered(Strcmp, KeyMap(nodes), s) <==> SortedByKey(BindingsOf(s))
  {
    var bs, key := BindingsOf(s), KeyMap(nodes);
    assert forall i :: 0 <= i < |s| ==> bs[i].key == key[s[i]];
  }

  /**
   `was` are the bindings along `s` before the deletion at `at`. Node `out` has left the
   walk, and if it is not the node at `at`, that node now has the binding of `out`.
   */
  lemma BindingsWithout(s: seq<RbNode>, was: seq<Binding>, at: nat, out: nat)
    requires NoDuplicates(s) && |was| == |s| && at <= out <= at + 1 && out < |s|
    requires forall i :: 0 <= i < |s| && i != at ==> was[i] == Binding(s[i].key, s[i].value)
    requires out == at + 1 ==> was[out] == Binding(s[at].key, s[at].value)
    ensures BindingsOf(s[..out] + s[out + 1..]) == was[..at] + was[at + 1..]
  {
    var s', bs := s[..out] + s[out + 1..], was[..at] + was[at + 1..];
    forall i | 0 <= i < |s'| ensures BindingsOf(s')[i] == bs[i] {
      assert s'[i] == s[if i < out then i else i + 1];
    }
  }

  lemma SortedWithout(bs: seq<Binding>, i: nat)
    requires SortedByKey(bs) && i < |bs|
    ensures SortedByKey(bs[..i] + bs[i + 1..])
  {
    var rest := bs[..i] + bs[i + 1..];
    forall j, k | 0 <= j < k < |rest| ensures Strcmp(rest[j].key, rest[k].key) < 0 {
      assert rest[j] == bs[if j < i then j else j + 1];
      assert rest[k] == bs[if k < i then k else k + 1];
    }
  }
}
