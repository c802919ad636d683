/**
 The intrusive red-black tree that the RB_* macros of NtyCo/core/nty_tree.h generate. Leaves
 are null pointers, and a removal relinks nodes instead of copying keys. The colour, shape
 and ordering facts are those of RedBlack, Links and Search; `cmp` is any total order.
 */
module NtyTree {
  import opened Sequences
  import opened RedBlack
  import opened Links
  import opened Search
  import opened Strings

  class Elm<K> {
    var red: bool
    var left: Elm?<K>
    var right: Elm?<K>
    var parent: Elm?<K>
    var key: K

    constructor (key: K)
      ensures this.key == key
    {
      this.key := key;
      red, left, right, parent := false, null, null, null;
    }
  }

  ghost function AsLink<K>(n: Elm?<K>): Link<Elm<K>> {
    if n == null then Nil else (var e: Elm<K> := n; To(e))
  }

  ghost function Ref<K>(t: Tree<Elm<K>>): Elm?<K> {
    if t.Leaf? then null else t.elem
  }

  ghost function ParentRef<K>(c: Ctx<Elm<K>>): Elm?<K> {
    if c.Top? then null else c.elem
  }

  ghost function Memory<K>(nodes: set<Elm<K>>): Cells<Elm<K>>
    reads nodes`red, nodes`left, nodes`right, nodes`parent
  {
    map n | n in nodes :: Cell(n.red, AsLink(n.left), AsLink(n.right), AsLink(n.parent))
  }

  ghost function KeyMap<K>(nodes: set<Elm<K>>): map<Elm<K>, K>
    reads nodes`key
  {
    map n | n in nodes :: n.key
  }

  predicate Black<K>(n: Elm?<K>)
    reads if n == null then {} else {n}
  {
    n == null || !n.red
  }

  class Head<K(!new, ==)> {
    const cmp: (K, K) -> int
    var root: Elm?<K>
    ghost var shape: Tree<Elm<K>>
    ghost var nodes: set<Elm<K>>

    ghost predicate Linked()
      reads `root, `shape, `nodes, nodes`red, nodes`left, nodes`right, nodes`parent
    {
      && nodes == Elems(shape)
      && Rep(Memory(nodes), AsLink(root), Top, shape)
    }

    ghost predicate InOrder()
      reads `root, `shape, `nodes, nodes
    {
      Linked() && Ordered(cmp, KeyMap(nodes), Inorder(shape))
    }

    /** Between operations: a balanced search tree. */
    ghost predicate Valid()
      reads `root, `shape, `nodes, nodes
    {
      TotalOrder(cmp) && InOrder() && Balanced(shape)
    }

    constructor (cmp: (K, K) -> int)
      requires TotalOrder(cmp)
      ensures Valid() && this.cmp == cmp && nodes == {} && Inorder(shape) == []
    {
      this.cmp := cmp;
      root, shape, nodes := null, Leaf, {};
      new;
      assert RB(shape, 0);
    }

    lemma Focus(c: Ctx<Elm<K>>, t: Tree<Elm<K>>)
      requires Linked() && shape == Plug(c, t)
      ensures Rep(Memory(nodes), AsLink(root), c, t)
      ensures nodes == Elems(shape) == CtxElems(c) + Elems(t)
    {
      Refocus(Memory(nodes), AsLink(root), shape, c, t);
      ApartPlug(c, t);
    }

    /** What the fields of the root of `t` hold when its parent is `p`. */
    ghost predicate NodeIs(t: Tree<Elm<K>>, p: Elm?<K>)
      reads `nodes, Roots(t)
    {
      t.Node? ==>
        && t.elem in nodes
        && t.elem.red == t.red
        && t.elem.left == Ref(t.left)
        && t.elem.right == Ref(t.right)
        && t.elem.parent == p
    }

    lemma Local(c: Ctx<Elm<K>>, t: Tree<Elm<K>>)
      requires Linked() && shape == Plug(c, t)
      ensures NodeIs(t, ParentRef(c))
      ensures c.Top? ==> root == Ref(t)
      ensures c.In? ==> c.elem in nodes && c.elem.red == c.red && root != Ref(t)
      ensures c.In? && t.Node? ==> Ref(c.sib) != t.elem
    {
      Focus(c, t);
      assert c.In? && c.sib.Node? ==> c.sib.elem in CtxElems(c);
    }

    ghost method Reshape(T: Tree<Elm<K>>)
      requires nodes == Elems(T) && Rep(Memory(nodes), AsLink(root), Top, T)
      modifies `shape
      ensures Linked() && shape == T
    {
      ghost var m := Memory(nodes);
      shape := T;
      assert Memory(nodes) == m;
    }

    /** RB_ROTATE_LEFT: y replaces elm, b changes sides. */
    method RotateLeftLinks(elm: Elm<K>, ghost y: Elm<K>, ghost b: Elm?<K>, ghost p: Elm?<K>)
      requires y == elm.right && b == y.left && p == elm.parent
      requires elm != y && elm != p && y != b && y != p
      requires b != null ==> b != elm && b != p
      modifies `root, elm`right, elm`parent, y`left, y`parent
      modifies (if b == null then {} else {b})`parent
      modifies (if p == null then {} else {p})`left, (if p == null then {} else {p})`right
      ensures elm.right == b && elm.parent == y && y.left == elm && y.parent == p
      ensures b != null ==> b.parent == elm
      ensures root == if p == null then y else old(root)
      ensures p != null ==> p.left == if old(p.left) == elm then y else old(p.left)
      ensures p != null ==> p.right == if old(p.left) == elm then old(p.right) else y
    {
      var tmp := elm.right;
      elm.right := tmp.left;
      if elm.right != null {
        tmp.left.parent := elm;
      }
      tmp.parent := elm.parent;
      if tmp.parent != null {
        if elm == elm.parent.left {
          elm.parent.left := tmp;
        } else {
          elm.parent.right := tmp;
        }
      } else {
        root := tmp;
      }
      tmp.left := elm;
      elm.parent := tmp;
    }

    method RotateLeftCells(elm: Elm<K>, ghost c: Ctx<Elm<K>>, ghost t: Tree<Elm<K>>)
      requires LeftRotatable(Memory(nodes), c, t) && t.elem == elm
      modifies `root, nodes`left, nodes`right, nodes`parent
      ensures LeftRotated(old(Memory(nodes)), Memory(nodes), c, t)
      ensures root == if c.Top? then t.right.elem else old(root)
    {
      ghost var m := Memory(nodes);
      ghost var y, p := t.right.elem, elm.parent;
      ghost var b := y.left;
      assert m[elm].right == AsLink(elm.right) && m[elm].parent == AsLink(elm.parent);
      assert m[y].left == AsLink(y.left);
      RotateLeftLinks(elm, y, b, p);
      ghost var m' := Memory(nodes);
      assert m'[elm] == Cell(t.red, LinkTo(t.left), LinkTo(t.right.left), To(y));
      assert m'[y] == Cell(t.right.red, To(elm), LinkTo(t.right.right), Above(c));
      assert t.right.left.Node? ==> m'[b] == m[b].(parent := To(elm));
      assert c.In? ==> p == c.elem && m'[p] == FrameCell(c, To(y));
    }

    method RotateLeft(elm: Elm<K>, ghost c: Ctx<Elm<K>>, ghost t: Tree<Elm<K>>)
      requires Linked() && shape == Plug(c, t)
      requires t.Node? && t.elem == elm && t.right.Node?
      modifies `root, `shape, nodes`left, nodes`right, nodes`parent
      ensures Linked() && shape == Plug(c, RotatedLeft(t))
      ensures Inorder(shape) == old(Inorder(shape))
    {
      ghost var m := Memory(nodes);
      ghost var r := AsLink(root);
      Focus(c, t);
      LeftRotateView(m, r, c, t);
      RotateLeftCells(elm, c, t);
      LeftRotatedRep(m, Memory(nodes), r, AsLink(root), c, t);
      RotatedLeftInorder(t);
      PlugKeeps(c, t, RotatedLeft(t));
      Reshape(Plug(c, RotatedLeft(t)));
    }

    /** RB_ROTATE_RIGHT: y replaces elm, b changes sides. */
    method RotateRightLinks(elm: Elm<K>, ghost y: Elm<K>, ghost b: Elm?<K>, ghost p: Elm?<K>)
      requires y == elm.left && b == y.right && p == elm.parent
      requires elm != y && elm != p && y != b && y != p
      requires b != null ==> b != elm && b != p
      modifies `root, elm`left, elm`parent, y`right, y`parent
      modifies (if b == null then {} else {b})`parent
      modifies (if p == null then {} else {p})`left, (if p == null then {} else {p})`right
      ensures elm.left == b && elm.parent == y && y.right == elm && y.parent == p
      ensures b != null ==> b.parent == elm
      ensures root == if p == null then y else old(root)
      ensures p != null ==> p.left == if old(p.left) == elm then y else old(p.left)
      ensures p != null ==> p.right == if old(p.left) == elm then old(p.right) else y
    {
      var tmp := elm.left;
      elm.left := tmp.right;
      if elm.left != null {
        tmp.right.parent := elm;
      }
      tmp.parent := elm.parent;
      if tmp.parent != null {
        if elm == elm.parent.left {
          elm.parent.left := tmp;
        } else {
          elm.parent.right := tmp;
        }
      } else {
        root := tmp;
      }
      tmp.right := elm;
      elm.parent := tmp;
    }

    method RotateRightCells(elm: Elm<K>, ghost c: Ctx<Elm<K>>, ghost t: Tree<Elm<K>>)
      requires RightRotatable(Memory(nodes), c, t) && t.elem == elm
      modifies `root, nodes`left, nodes`right, nodes`parent
      ensures RightRotated(old(Memory(nodes)), Memory(nodes), c, t)
      ensures root == if c.Top? then t.left.elem else old(root)
    {
      ghost var m := Memory(nodes);
      ghost var y, p := t.left.elem, elm.parent;
      ghost var b := y.right;
      assert m[elm].left == AsLink(elm.left) && m[elm].parent == AsLink(elm.parent);
      assert m[y].right == AsLink(y.right);
      RotateRightLinks(elm, y, b, p);
      ghost var m' := Memory(nodes);
      assert m'[elm] == Cell(t.red, LinkTo(t.left.right), LinkTo(t.right), To(y));
      assert m'[y] == Cell(t.left.red, LinkTo(t.left.left), To(elm), Above(c));
      assert t.left.right.Node? ==> m'[b] == m[b].(parent := To(elm));
      assert c.In? ==> p == c.elem && m'[p] == FrameCell(c, To(y));
    }

    method RotateRight(elm: Elm<K>, ghost c: Ctx<Elm<K>>, ghost t: Tree<Elm<K>>)
      requires Linked() && shape == Plug(c, t)
      requires t.Node? && t.elem == elm && t.left.Node?
      modifies `root, `shape, nodes`left, nodes`right, nodes`parent
      ensures Linked() && shape == Plug(c, RotatedRight(t))
      ensures Inorder(shape) == old(Inorder(shape))
    {
      ghost var m := Memory(nodes);
      ghost var r := AsLink(root);
      Focus(c, t);
      RightRotateView(m, r, c, t);
      RotateRightCells(elm, c, t);
      RightRotatedRep(m, Memory(nodes), r, AsLink(root), c, t);
      RotatedRightInorder(t);
      PlugKeeps(c, t, RotatedRight(t));
      Reshape(Plug(c, RotatedRight(t)));
    }

    /** RB_COLOR(n) = red. */
    method Paint(n: Elm<K>, red: bool, ghost c: Ctx<Elm<K>>, ghost t: Tree<Elm<K>>)
      requires Linked() && shape == Plug(c, t) && t.Node? && t.elem == n
      modifies `shape, n`red
      ensures Linked() && shape == Plug(c, t.(red := red))
      ensures Inorder(shape) == old(Inorder(shape))
    {
      ghost var m := Memory(nodes);
      Focus(c, t);
      n.red := red;
      assert Memory(nodes) == m[n := m[n].(red := red)];
      PaintedRep(m, Memory(nodes), AsLink(root), c, t, red);
      assert Inorder(t.(red := red)) == Inorder(t);
      PlugKeeps(c, t, t.(red := red));
      Reshape(Plug(c, t.(red := red)));
    }

    // ---------- RB_INSERT_COLOR ----------

    /** One pass of the loop of RB_INSERT_COLOR when `parent` is a left child. */
    method InsertStepLeft(elm: Elm<K>, parent: Elm<K>, gparent: Elm<K>, ghost c: Ctx<Elm<K>>, ghost t: Tree<Elm<K>>, ghost h: nat)
      returns (elm': Elm<K>, ghost c': Ctx<Elm<K>>, ghost t': Tree<Elm<K>>, ghost h': nat)
      requires Linked() && shape == Plug(c, t) && OneRedRed(c, t, h) && t.elem == elm
      requires c.In? && c.red && c.up.In? && c.up.side.Left? && c.elem == parent && c.up.elem == gparent
      modifies `root, `shape, nodes`red, nodes`left, nodes`right, nodes`parent
      ensures Linked() && shape == Plug(c', t') && Inorder(shape) == old(Inorder(shape))
      ensures OneRedRed(c', t', h') && t'.elem == elm'
      ensures Depth(c') < Depth(c)
    {
      hide Linked, Inorder, OneRedRed, Depth;
      ghost var up, p := c.up, Join(c.side, c.red, t, c.elem, c.sib);
      RedParent(c, t, h);
      Local(c, t);
      Local(up, p);
      Local(up.up, Node(up.red, p, gparent, up.sib));
      ghost var cy := In(Right, up.red, gparent, p, up.up);
      Local(cy, up.sib);
      var tmp := gparent.right;
      if tmp != null && tmp.red {
        Paint(tmp, false, cy, up.sib);
        ghost var u := Blacken(up.sib);
        Paint(parent, false, In(Left, up.red, gparent, u, up.up), p);
        p := Join(c.side, false, t, c.elem, c.sib);
        Paint(gparent, true, up.up, Node(up.red, p, gparent, u));
        PushedBlackness(c, t, h);
        elm', c', t', h' := gparent, up.up, Node(true, p, gparent, u), h + 1;
      } else {
        var parent' := parent;
        elm', c', t', h' := elm, c, t, h;
        if parent.right == elm {
          RotateLeft(parent, up, p);
          StraightenedElbow(c, t, h);
          parent', elm' := elm, parent;
          c', t' := In(Left, true, t.elem, t.right, up), Node(true, c.sib, parent, t.left);
        }
        p := Node(true, t', parent', c'.sib);
        Paint(parent', false, up, p);
        p := p.(red := false);
        ghost var g := Node(up.red, p, gparent, up.sib);
        Paint(gparent, true, up.up, g);
        RotateRight(gparent, up.up, g.(red := true));
        RaisedParent(c', t', h);
        c' := In(Left, false, parent', Node(true, c'.sib, gparent, up.sib), up.up);
      }
    }

    /** One pass of the loop of RB_INSERT_COLOR when `parent` is a right child. */
    method InsertStepRight(elm: Elm<K>, parent: Elm<K>, gparent: Elm<K>, ghost c: Ctx<Elm<K>>, ghost t: Tree<Elm<K>>, ghost h: nat)
      returns (elm': Elm<K>, ghost c': Ctx<Elm<K>>, ghost t': Tree<Elm<K>>, ghost h': nat)
      requires Linked() && shape == Plug(c, t) && OneRedRed(c, t, h) && t.elem == elm
      requires c.In? && c.red && c.up.In? && c.up.side.Right? && c.elem == parent && c.up.elem == gparent
      modifies `root, `shape, nodes`red, nodes`left, nodes`right, nodes`parent
      ensures Linked() && shape == Plug(c', t') && Inorder(shape) == old(Inorder(shape))
      ensures OneRedRed(c', t', h') && t'.elem == elm'
      ensures Depth(c') < Depth(c)
    {
      hide Linked, Inorder, OneRedRed, Depth;
      ghost var up, p := c.up, Join(c.side, c.red, t, c.elem, c.sib);
      RedParent(c, t, h);
      Local(c, t);
      Local(up, p);
      Local(up.up, Node(up.red, up.sib, gparent, p));
      ghost var cy := In(Left, up.red, gparent, p, up.up);
      Local(cy, up.sib);
      var tmp := gparent.left;
      if tmp != null && tmp.red {
        Paint(tmp, false, cy, up.sib);
        ghost var u := Blacken(up.sib);
        Paint(parent, false, In(Right, up.red, gparent, u, up.up), p);
        p := Join(c.side, false, t, c.elem, c.sib);
        Paint(gparent, true, up.up, Node(up.red, u, gparent, p));
        PushedBlackness(c, t, h);
        elm', c', t', h' := gparent, up.up, Node(true, u, gparent, p), h + 1;
      } else {
        var parent' := parent;
        elm', c', t', h' := elm, c, t, h;
        if parent.left == elm {
          RotateRight(parent, up, p);
          StraightenedElbow(c, t, h);
          parent', elm' := elm, parent;
          c', t' := In(Right, true, t.elem, t.left, up), Node(true, t.right, parent, c.sib);
        }
        p := Node(true, c'.sib, parent', t');
        Paint(parent', false, up, p);
        p := p.(red := false);
        ghost var g := Node(up.red, up.sib, gparent, p);
        Paint(gparent, true, up.up, g);
        RotateLeft(gparent, up.up, g.(red := true));
        RaisedParent(c', t', h);
        c' := In(Right, false, parent', Node(true, up.sib, gparent, c'.sib), up.up);
      }
    }

    method InsertColor(elm0: Elm<K>, ghost c0: Ctx<Elm<K>>, ghost t0: Tree<Elm<K>>, ghost h0: nat)
      requires Linked() && shape == Plug(c0, t0) && OneRedRed(c0, t0, h0) && t0.elem == elm0
      modifies `root, `shape, nodes`red, nodes`left, nodes`right, nodes`parent
      ensures Linked() && Inorder(shape) == old(Inorder(shape))
      ensures Balanced(shape)
    {
      hide Linked, Inorder, OneRedRed, Depth, Balanced;
      var elm := elm0;
      ghost var c, t, h := c0, t0, h0;
      RedParent(c, t, h);
      Local(c, t);
      var parent := elm.parent;
      while parent != null && parent.red
        invariant Linked() && shape == Plug(c, t) && Inorder(shape) == old(Inorder(shape))
        invariant OneRedRed(c, t, h) && t.Node? && t.elem == elm
        invariant parent == ParentRef(c) && (c.In? ==> parent.red == c.red)
        decreases Depth(c)
      {
        ghost var p := Join(c.side, c.red, t, c.elem, c.sib);
        RedParent(c, t, h);
        Local(c, t);
        Local(c.up, p);
        Local(c.up.up, Join(c.up.side, c.up.red, p, c.up.elem, c.up.sib));
        var gparent := parent.parent;
        if parent == gparent.left {
          elm, c, t, h := InsertStepLeft(elm, parent, gparent, c, t, h);
        } else {
          elm, c, t, h := InsertStepRight(elm, parent, gparent, c, t, h);
        }
        RedParent(c, t, h);
        Local(c, t);
        parent := elm.parent;
      }
      RootIsBlackenable(c, t, h);
      Local(Top, shape);
      Paint(root, false, Top, shape);
    }

    // ---------- searching ----------

    /** RB_FIND, with the place where the search ended and how often its loop ran. */
    method Find(key: K) returns (tmp: Elm?<K>, ghost c: Ctx<Elm<K>>, ghost t: Tree<Elm<K>>, ghost steps: nat)
      requires Valid()
      ensures shape == Plug(c, t) && tmp == Ref(t)
      ensures tmp != null ==> tmp in nodes && tmp.key == key
      ensures tmp == null ==> forall n :: n in nodes ==> n.key != key
      ensures Pow2(steps) <= (Size(shape) + 1) * (Size(shape) + 1)
    {
      hide Linked, Inorder, Ordered, Around, Balanced;
      tmp := root;
      c, t, steps := Top, shape, 0;
      AroundTop(cmp, KeyMap(nodes), key);
      Local(c, t);
      while tmp != null
        invariant shape == Plug(c, t) && tmp == Ref(t)
        invariant NodeIs(t, ParentRef(c))
        invariant Around(cmp, KeyMap(nodes), c, key)
        invariant steps == Depth(c)
        decreases t
      {
        var comp := cmp(key, tmp.key);
        if comp < 0 {
          DescendLeft(cmp, KeyMap(nodes), c, t, key);
          tmp := tmp.left;
          c, t := In(Left, t.red, t.elem, t.right, c), t.left;
        } else if comp > 0 {
          DescendRight(cmp, KeyMap(nodes), c, t, key);
          tmp := tmp.right;
          c, t := In(Right, t.red, t.elem, t.left, c), t.right;
        } else {
          steps := steps + 1;
          StepsBound(c, t, steps);
          return;
        }
        steps := steps + 1;
        Local(c, t);
      }
      Absent(c, key);
      StepsBound(c, t, steps);
    }

    lemma Absent(c: Ctx<Elm<K>>, key: K)
      requires Linked() && shape == Plug(c, Leaf) && TotalOrder(cmp) && Around(cmp, KeyMap(nodes), c, key)
      ensures forall n :: n in nodes ==> n.key != key
    {
      Missed(cmp, KeyMap(nodes), c, key);
      ElemsInorder(shape);
    }

    lemma StepsBound(c: Ctx<Elm<K>>, t: Tree<Elm<K>>, steps: nat)
      requires shape == Plug(c, t) && Balanced(shape)
      requires steps == if t.Leaf? then Depth(c) else Depth(c) + 1
      ensures Pow2(steps) <= (Size(shape) + 1) * (Size(shape) + 1)
    {
      DepthBelowHeight(c, t);
      Pow2Monotone(steps, Height(shape));
      LogarithmicHeight(shape);
    }

    /** RB_MINMAX: the first node of the walk for a negative `val`, otherwise the last. */
    method MinMax(val: int) returns (parent: Elm?<K>, ghost c: Ctx<Elm<K>>, ghost t: Tree<Elm<K>>)
      requires Valid()
      ensures parent == null <==> nodes == {}
      ensures parent == null <==> Inorder(shape) == []
      ensures parent != null ==>
        && parent in nodes
        && parent == Inorder(shape)[if val < 0 then 0 else |Inorder(shape)| - 1]
        && shape == Plug(c, t) && t.Node? && t.elem == parent
    {
      hide Linked;
      var tmp := root;
      parent := null;
      c, t := Top, shape;
      ghost var d, u := Top, shape;
      Local(d, u);
      NodesOfWalk();
      while tmp != null
        invariant shape == Plug(d, u) && tmp == Ref(u) && NodeIs(u, ParentRef(d))
        invariant parent == ParentRef(d)
        invariant val < 0 ==> Before(d) == []
        invariant val >= 0 ==> After(d) == []
        invariant d.In? ==> shape == Plug(c, t) && t.Node? && t.elem == parent && parent in nodes
        invariant d.In? ==> c == d.up && u == if val < 0 then t.left else t.right
        decreases u
      {
        parent := tmp;
        c, t := d, u;
        if val < 0 {
          tmp := tmp.left;
          d, u := In(Left, u.red, u.elem, u.right, d), u.left;
        } else {
          tmp := tmp.right;
          d, u := In(Right, u.red, u.elem, u.left, d), u.right;
        }
        Local(d, u);
      }
      InorderPlug(c, t);
    }

    lemma NodesOfWalk()
      requires Linked()
      ensures nodes == set n | n in Inorder(shape)
      ensures NoDuplicates(Inorder(shape))
    {
      ElemsInorder(shape);
      DistinctInorder(shape);
    }

    // ---------- inserting ----------

    /** RB_SET and the link from the parent. */
    method AttachLinks(elm: Elm<K>, parent: Elm?<K>, comp: int)
      requires elm != parent
      modifies `root, elm`red, elm`left, elm`right, elm`parent
      modifies (if parent == null then {} else {parent})`left, (if parent == null then {} else {parent})`right
      ensures elm.red && elm.left == null && elm.right == null && elm.parent == parent
      ensures root == if parent == null then elm else old(root)
      ensures parent != null ==> parent.left == if comp < 0 then elm else old(parent.left)
      ensures parent != null ==> parent.right == if comp < 0 then old(parent.right) else elm
    {
      elm.parent := parent;
      elm.left, elm.right := null, null;
      elm.red := true;
      if parent != null {
        if comp < 0 {
          parent.left := elm;
        } else {
          parent.right := elm;
        }
      } else {
        root := elm;
      }
    }

    method Attach(elm: Elm<K>, parent: Elm?<K>, comp: int, ghost c: Ctx<Elm<K>>)
      requires Linked() && shape == Plug(c, Leaf) && elm !in nodes
      requires parent == ParentRef(c) && (c.In? ==> (c.side.Left? <==> comp < 0))
      modifies `root, `shape, `nodes, elm`red, elm`left, elm`right, elm`parent, nodes`left, nodes`right
      ensures Linked() && nodes == old(nodes) + {elm}
      ensures shape == Plug(c, Node(true, Leaf, elm, Leaf))
    {
      hide Linked, Rep, Plug, Elems, CtxElems;
      ghost var m, r := Memory(nodes), AsLink(root);
      HoleView(c);
      AttachLinks(elm, parent, comp);
      nodes := nodes + {elm};
      AttachRep(m, r, elm, c);
    }

    lemma HoleView(c: Ctx<Elm<K>>)
      requires Linked() && shape == Plug(c, Leaf)
      ensures Rep(Memory(nodes), AsLink(root), c, Leaf)
      ensures nodes == Elems(Plug(c, Leaf)) == CtxElems(c)
      ensures c.In? ==> c.elem in nodes && Memory(nodes)[c.elem] == FrameCell(c, Nil)
    {
      Focus(c, Leaf);
    }

    ghost method AttachRep(m: Cells<Elm<K>>, r: Link<Elm<K>>, elm: Elm<K>, c: Ctx<Elm<K>>)
      requires Rep(m, r, c, Leaf) && elm in nodes
      requires nodes == Elems(Plug(c, Leaf)) + {elm} && elm !in CtxElems(c)
      requires elm.red && elm.left == null && elm.right == null && AsLink(elm.parent) == Above(c)
      requires c.In? ==> c.elem in nodes && Memory(nodes)[c.elem] == FrameCell(c, To(elm))
      requires AsLink(root) == if c.Top? then To(elm) else r
      requires Agree(m, Memory(nodes), if c.Top? then {} else CtxElems(c) - {c.elem})
      modifies `shape
      ensures Linked() && shape == Plug(c, Node(true, Leaf, elm, Leaf))
    {
      var t' := Node(true, Leaf, elm, Leaf);
      Replace(m, Memory(nodes), r, AsLink(root), c, Leaf, t');
      ApartPlug(c, Leaf);
      ApartPlug(c, t');
      Reshape(Plug(c, t'));
    }

    /** RB_INSERT: the element already there with an equal key, or null once `elm` is linked in. */
    method Insert(elm: Elm<K>) returns (tmp: Elm?<K>, ghost at: nat)
      requires Valid() && elm !in nodes
      modifies `root, `shape, `nodes, elm`red, elm`left, elm`right, elm`parent
      modifies nodes`red, nodes`left, nodes`right, nodes`parent
      ensures Valid()
      ensures tmp != null ==>
        tmp in old(nodes) && tmp.key == elm.key && nodes == old(nodes) && shape == old(shape)
      ensures tmp == null ==>
        && nodes == old(nodes) + {elm}
        && (forall n :: n in old(nodes) ==> n.key != elm.key)
        && at <= |old(Inorder(shape))|
        && Inorder(shape) == old(Inorder(shape))[..at] + [elm] + old(Inorder(shape))[at..]
    {
      hide Linked, Inorder, Ordered, Around, Balanced;
      var parent: Elm?<K> := null;
      var comp := 0;
      tmp := root;
      at := 0;
      ghost var c, t := Top, shape;
      AroundTop(cmp, KeyMap(nodes), elm.key);
      Local(c, t);
      while tmp != null
        invariant shape == Plug(c, t) && tmp == Ref(t)
        invariant parent == ParentRef(c) && NodeIs(t, parent)
        invariant c.In? ==> (c.side.Left? <==> comp < 0)
        invariant Around(cmp, KeyMap(nodes), c, elm.key)
        decreases t
        modifies {}
      {
        parent := tmp;
        comp := cmp(elm.key, parent.key);
        if comp < 0 {
          DescendLeft(cmp, KeyMap(nodes), c, t, elm.key);
          tmp := tmp.left;
          c, t := In(Left, t.red, t.elem, t.right, c), t.left;
        } else if comp > 0 {
          DescendRight(cmp, KeyMap(nodes), c, t, elm.key);
          tmp := tmp.right;
          c, t := In(Right, t.red, t.elem, t.left, c), t.right;
        } else {
          return;
        }
        Local(c, t);
      }
      Absent(c, elm.key);
      at := |Before(c)|;
      InorderOfGraft(c, elm);
      ghost var h := LeafHeight(c);
      ghost var keys := KeyMap(nodes + {elm});
      KeysGrow(c, elm);
      Attach(elm, parent, comp, c);
      InsertColor(elm, c, Node(true, Leaf, elm, Leaf), h);
      assert KeyMap(nodes) == keys;
    }

    lemma KeysGrow(c: Ctx<Elm<K>>, elm: Elm<K>)
      requires InOrder() && shape == Plug(c, Leaf) && TotalOrder(cmp) && Around(cmp, KeyMap(nodes), c, elm.key)
      ensures Ordered(cmp, KeyMap(nodes + {elm}), Inorder(Plug(c, Node(true, Leaf, elm, Leaf))))
    {
      hide Linked, TotalOrder, Plug, Around, Before, After;
      InorderOfGraft(c, elm);
      InorderPlug(c, Leaf);
      assert Before(c) + [] + After(c) == Before(c) + After(c);
      AroundGrows(cmp, KeyMap(nodes), KeyMap(nodes + {elm}), c, elm.key);
      OrderedInsert(cmp, KeyMap(nodes + {elm}), Before(c), elm, After(c));
    }

    // ---------- RB_REMOVE_COLOR ----------

    lemma Nephews(c: Ctx<Elm<K>>, t: Tree<Elm<K>>)
      requires Linked() && shape == Plug(c, t) && t.Node?
      ensures t.elem in nodes
      ensures Black(t.elem.left) == !IsRed(t.left) && Black(t.elem.right) == !IsRed(t.right)
    {
      Local(c, t);
      Local(In(Left, t.red, t.elem, t.right, c), t.left);
      Local(In(Right, t.red, t.elem, t.left, c), t.right);
    }

    /** RB_REMOVE_COLOR, hole on the left: a red sibling `tmp` is rotated above the parent. */
    method PullSiblingLeft(parent: Elm<K>, tmp: Elm<K>, ghost c: Ctx<Elm<K>>, ghost t: Tree<Elm<K>>)
      requires Linked() && shape == Plug(c, t)
      requires c.In? && c.side.Left? && c.sib.Node? && c.sib.elem == tmp && parent == c.elem
      modifies `root, `shape, nodes`red, nodes`left, nodes`right, nodes`parent
      ensures Linked() && Inorder(shape) == old(Inorder(shape))
      ensures shape == Plug(In(Left, true, c.elem, c.sib.left, In(Left, false, c.sib.elem, c.sib.right, c.up)), t)
    {
      hide Linked, Inorder;
      ghost var cw := In(Right, c.red, parent, t, c.up);
      ghost var sib := c.sib.(red := false);
      Local(c, t);
      Local(cw, c.sib);
      Paint(tmp, false, cw, c.sib);
      Paint(parent, true, c.up, Node(c.red, t, parent, sib));
      RotateLeft(parent, c.up, Node(true, t, parent, sib));
    }

    /** The near child of the sibling is red and takes the sibling's place. */
    method RaiseNephewLeft(tmp: Elm<K>, ghost c: Ctx<Elm<K>>, ghost t: Tree<Elm<K>>)
      requires Linked() && shape == Plug(c, t)
      requires c.In? && c.side.Left? && c.sib.Node? && c.sib.left.Node? && c.sib.elem == tmp
      modifies `root, `shape, nodes`red, nodes`left, nodes`right, nodes`parent
      ensures Linked() && Inorder(shape) == old(Inorder(shape))
      ensures var n := c.sib.left;
        shape == Plug(c.(sib := Node(false, n.left, n.elem, Node(true, n.right, tmp, c.sib.right))), t)
    {
      hide Linked, Inorder;
      ghost var n, d := c.sib.left, c.sib.right;
      ghost var cw := In(Right, c.red, c.elem, t, c.up);
      Local(cw, c.sib);
      ghost var cn := In(Left, c.sib.red, tmp, d, cw);
      Local(cn, n);
      var nephew := tmp.left;
      if nephew != null {
        Paint(nephew, false, cn, n);
      }
      ghost var s := Node(c.sib.red, n.(red := false), tmp, d);
      Paint(tmp, true, cw, s);
      RotateRight(tmp, cw, s.(red := true));
    }

    /** The far child of the sibling is red: rotate at the parent and end. */
    method BorrowLeft(parent: Elm<K>, tmp: Elm<K>, ghost c: Ctx<Elm<K>>, ghost t: Tree<Elm<K>>)
      requires Linked() && shape == Plug(c, t)
      requires c.In? && c.side.Left? && c.sib.Node? && c.sib.right.Node? && c.sib.elem == tmp && parent == c.elem
      modifies `root, `shape, nodes`red, nodes`left, nodes`right, nodes`parent
      ensures Linked() && Inorder(shape) == old(Inorder(shape))
      ensures shape == Plug(c.up,
        Node(c.red, Node(false, t, parent, c.sib.left), tmp, Blacken(c.sib.right)))
    {
      hide Linked, Inorder;
      ghost var b, d := c.sib.left, c.sib.right;
      ghost var cw := In(Right, c.red, parent, t, c.up);
      Local(c, t);
      Local(cw, c.sib);
      Paint(tmp, parent.red, cw, c.sib);
      ghost var s := Node(c.red, b, tmp, d);
      ghost var p := Node(c.red, t, parent, s);
      Local(c.up, p);
      Paint(parent, false, c.up, p);
      ghost var cd := In(Right, c.red, tmp, b, In(Right, false, parent, t, c.up));
      Local(cd.up, s);
      Local(cd, d);
      if tmp.right != null {
        Paint(tmp.right, false, cd, d);
      }
      RotateLeft(parent, c.up, Node(false, t, parent, Node(c.red, b, tmp, Blacken(d))));
    }

    /** One pass of the loop of RB_REMOVE_COLOR when `elm` is the left child; `done` is its break. */
    method RemoveStepLeft(parent: Elm<K>, elm: Elm?<K>, ghost c0: Ctx<Elm<K>>, ghost t: Tree<Elm<K>>, ghost h: nat)
      returns (parent': Elm?<K>, elm': Elm?<K>, done: bool, ghost c': Ctx<Elm<K>>, ghost t': Tree<Elm<K>>, ghost h': nat)
      requires Linked() && shape == Plug(c0, t) && elm == Ref(t) && OneShort(c0, t, h) && !IsRed(t)
      requires c0.In? && c0.side.Left? && parent == c0.elem
      modifies `root, `shape, nodes`red, nodes`left, nodes`right, nodes`parent
      ensures Linked() && Inorder(shape) == old(Inorder(shape))
      ensures shape == Plug(c', t') && elm' == Ref(t') && OneShort(c', t', h')
      ensures if done then c'.Top? else parent' == ParentRef(c')
      ensures FixupMeasure(c', t') < FixupMeasure(c0, t)
    {
      hide Linked, Inorder, OneShort, Balanced;
      ghost var c := c0;
      SiblingExists(c, t, h);
      Local(c, t);
      Local(c.up, Node(c.red, t, c.elem, c.sib));
      Local(In(Right, c.red, c.elem, t, c.up), c.sib);
      var tmp := parent.right;
      if tmp.red {
        PullSiblingLeft(parent, tmp, c, t);
        RedSiblingPulled(c, t, h);
        c := In(Left, true, c.elem, c.sib.left, In(Left, false, c.sib.elem, c.sib.right, c.up));
        Local(c.up, Node(true, t, c.elem, c.sib));
        Local(In(Right, c.red, c.elem, t, c.up), c.sib);
        tmp := parent.right;
      }
      ghost var cw := In(Right, c.red, c.elem, t, c.up);
      Nephews(cw, c.sib);
      if Black(tmp.left) && Black(tmp.right) {
        Paint(tmp, true, cw, c.sib);
        SiblingReddened(c, t, h);
        t' := Node(c.red, t, c.elem, c.sib.(red := true));
        Local(c.up, t');
        elm', done := parent, false;
        parent' := elm'.parent;
        c', h' := c.up, if c.red then h else h + 1;
      } else {
        if Black(tmp.right) {
          RaiseNephewLeft(tmp, c, t);
          NephewRaised(c, t, h);
          ghost var n := c.sib.left;
          c := c.(sib := Node(false, n.left, n.elem, Node(true, n.right, c.sib.elem, c.sib.right)));
          Local(c.up, Node(c.red, t, c.elem, c.sib));
          tmp := parent.right;
        }
        BorrowLeft(parent, tmp, c, t);
        Borrowed(c, t, h);
        Local(Top, shape);
        parent', elm', done := parent, root, true;
        c', t' := Top, shape;
        h' := WholeIsPaid(shape);
      }
    }

    /** RB_REMOVE_COLOR, hole on the right: a red sibling `tmp` is rotated above the parent. */
    method PullSiblingRight(parent: Elm<K>, tmp: Elm<K>, ghost c: Ctx<Elm<K>>, ghost t: Tree<Elm<K>>)
      requires Linked() && shape == Plug(c, t)
      requires c.In? && c.side.Right? && c.sib.Node? && c.sib.elem == tmp && parent == c.elem
      modifies `root, `shape, nodes`red, nodes`left, nodes`right, nodes`parent
      ensures Linked() && Inorder(shape) == old(Inorder(shape))
      ensures shape == Plug(In(Right, true, c.elem, c.sib.right, In(Right, false, c.sib.elem, c.sib.left, c.up)), t)
    {
      hide Linked, Inorder;
      ghost var cw := In(Left, c.red, parent, t, c.up);
      ghost var sib := c.sib.(red := false);
      Local(c, t);
      Local(cw, c.sib);
      Paint(tmp, false, cw, c.sib);
      Paint(parent, true, c.up, Node(c.red, sib, parent, t));
      RotateRight(parent, c.up, Node(true, sib, parent, t));
    }

    /** The near child of the sibling is red and takes the sibling's place. */
    method RaiseNephewRight(tmp: Elm<K>, ghost c: Ctx<Elm<K>>, ghost t: Tree<Elm<K>>)
      requires Linked() && shape == Plug(c, t)
      requires c.In? && c.side.Right? && c.sib.Node? && c.sib.right.Node? && c.sib.elem == tmp
      modifies `root, `shape, nodes`red, nodes`left, nodes`right, nodes`parent
      ensures Linked() && Inorder(shape) == old(Inorder(shape))
      ensures var n := c.sib.right;
        shape == Plug(c.(sib := Node(false, Node(true, c.sib.left, tmp, n.left), n.elem, n.right)), t)
    {
      hide Linked, Inorder;
      ghost var n, d := c.sib.right, c.sib.left;
      ghost var cw := In(Left, c.red, c.elem, t, c.up);
      Local(cw, c.sib);
      ghost var cn := In(Right, c.sib.red, tmp, d, cw);
      Local(cn, n);
      var nephew := tmp.right;
      if nephew != null {
        Paint(nephew, false, cn, n);
      }
      ghost var s := Node(c.sib.red, d, tmp, n.(red := false));
      Paint(tmp, true, cw, s);
      RotateLeft(tmp, cw, s.(red := true));
    }

    /** The far child of the sibling is red: rotate at the parent and end. */
    method BorrowRight(parent: Elm<K>, tmp: Elm<K>, ghost c: Ctx<Elm<K>>, ghost t: Tree<Elm<K>>)
      requires Linked() && shape == Plug(c, t)
      requires c.In? && c.side.Right? && c.sib.Node? && c.sib.left.Node? && c.sib.elem == tmp && parent == c.elem
      modifies `root, `shape, nodes`red, nodes`left, nodes`right, nodes`parent
      ensures Linked() && Inorder(shape) == old(Inorder(shape))
      ensures shape == Plug(c.up,
        Node(c.red, Blacken(c.sib.left), tmp, Node(false, c.sib.right, parent, t)))
    {
      hide Linked, Inorder;
      ghost var b, d := c.sib.right, c.sib.left;
      ghost var cw := In(Left, c.red, parent, t, c.up);
      Local(c, t);
      Local(cw, c.sib);
      Paint(tmp, parent.red, cw, c.sib);
      ghost var s := Node(c.red, d, tmp, b);
      ghost var p := Node(c.red, s, parent, t);
      Local(c.up, p);
      Paint(parent, false, c.up, p);
      ghost var cd := In(Left, c.red, tmp, b, In(Left, false, parent, t, c.up));
      Local(cd.up, s);
      Local(cd, d);
      if tmp.left != null {
        Paint(tmp.left, false, cd, d);
      }
      RotateRight(parent, c.up, Node(false, Node(c.red, Blacken(d), tmp, b), parent, t));
    }

    /** One pass of the loop of RB_REMOVE_COLOR when `elm` is the right child; `done` is its break. */
    method RemoveStepRight(parent: Elm<K>, elm: Elm?<K>, ghost c0: Ctx<Elm<K>>, ghost t: Tree<Elm<K>>, ghost h: nat)
      returns (parent': Elm?<K>, elm': Elm?<K>, done: bool, ghost c': Ctx<Elm<K>>, ghost t': Tree<Elm<K>>, ghost h': nat)
      requires Linked() && shape == Plug(c0, t) && elm == Ref(t) && OneShort(c0, t, h) && !IsRed(t)
      requires c0.In? && c0.side.Right? && parent == c0.elem
      modifies `root, `shape, nodes`red, nodes`left, nodes`right, nodes`parent
      ensures Linked() && Inorder(shape) == old(Inorder(shape))
      ensures shape == Plug(c', t') && elm' == Ref(t') && OneShort(c', t', h')
      ensures if done then c'.Top? else parent' == ParentRef(c')
      ensures FixupMeasure(c', t') < FixupMeasure(c0, t)
    {
      hide Linked, Inorder, OneShort, Balanced;
      ghost var c := c0;
      SiblingExists(c, t, h);
      Local(c, t);
      Local(c.up, Node(c.red, c.sib, c.elem, t));
      Local(In(Left, c.red, c.elem, t, c.up), c.sib);
      var tmp := parent.left;
      if tmp.red {
        PullSiblingRight(parent, tmp, c, t);
        RedSiblingPulled(c, t, h);
        c := In(Right, true, c.elem, c.sib.right, In(Right, false, c.sib.elem, c.sib.left, c.up));
        Local(c.up, Node(true, c.sib, c.elem, t));
        Local(In(Left, c.red, c.elem, t, c.up), c.sib);
        tmp := parent.left;
      }
      ghost var cw := In(Left, c.red, c.elem, t, c.up);
      Nephews(cw, c.sib);
      if Black(tmp.left) && Black(tmp.right) {
        Paint(tmp, true, cw, c.sib);
        SiblingReddened(c, t, h);
        t' := Node(c.red, c.sib.(red := true), c.elem, t);
        Local(c.up, t');
        elm', done := parent, false;
        parent' := elm'.parent;
        c', h' := c.up, if c.red then h else h + 1;
      } else {
        if Black(tmp.left) {
          RaiseNephewRight(tmp, c, t);
          NephewRaised(c, t, h);
          ghost var n := c.sib.right;
          c := c.(sib := Node(false, Node(true, c.sib.left, c.sib.elem, n.left), n.elem, n.right));
          Local(c.up, Node(c.red, c.sib, c.elem, t));
          tmp := parent.left;
        }
        BorrowRight(parent, tmp, c, t);
        Borrowed(c, t, h);
        Local(Top, shape);
        parent', elm', done := parent, root, true;
        c', t' := Top, shape;
        h' := WholeIsPaid(shape);
      }
    }

    method RemoveColor(parent0: Elm?<K>, elm0: Elm?<K>, ghost c0: Ctx<Elm<K>>, ghost t0: Tree<Elm<K>>, ghost h0: nat)
      requires Linked() && shape == Plug(c0, t0) && elm0 == Ref(t0) && OneShort(c0, t0, h0)
      requires parent0 == ParentRef(c0)
      modifies `root, `shape, nodes`red, nodes`left, nodes`right, nodes`parent
      ensures Linked() && Inorder(shape) == old(Inorder(shape))
      ensures Balanced(shape)
    {
      hide Linked, Inorder, OneShort, Balanced, FixupMeasure;
      var parent, elm, done := parent0, elm0, false;
      ghost var c, t, h := c0, t0, h0;
      Local(c, t);
      while !done && Black(elm) && elm != root
        invariant Linked() && shape == Plug(c, t) && Inorder(shape) == old(Inorder(shape))
        invariant elm == Ref(t) && OneShort(c, t, h) && NodeIs(t, ParentRef(c))
        invariant if done then c.Top? else parent == ParentRef(c)
        invariant c.Top? <==> elm == root
        decreases FixupMeasure(c, t)
      {
        SiblingExists(c, t, h);
        Local(c, t);
        Local(c.up, Join(c.side, c.red, t, c.elem, c.sib));
        Local(In(Flip(c.side), c.red, c.elem, t, c.up), c.sib);
        if parent.left == elm {
          parent, elm, done, c, t, h := RemoveStepLeft(parent, elm, c, t, h);
        } else {
          parent, elm, done, c, t, h := RemoveStepRight(parent, elm, c, t, h);
        }
        Local(c, t);
      }
      ShortPaid(c, t, h);
      if elm != null {
        Paint(elm, false, c, t);
      }
    }

    // ---------- RB_REMOVE ----------

    /** Link `child`, null or the only child of `elm`, in the place of `elm`. */
    method SpliceLinks(elm: Elm<K>, child: Elm?<K>, parent: Elm?<K>)
      requires parent == elm.parent && child != elm && elm != parent && (child != null ==> child != parent)
      modifies `root, (if child == null then {} else {child})`parent
      modifies (if parent == null then {} else {parent})`left, (if parent == null then {} else {parent})`right
      ensures child != null ==> child.parent == parent
      ensures root == if parent == null then child else old(root)
      ensures parent != null ==> parent.left == if old(parent.left) == elm then child else old(parent.left)
      ensures parent != null ==> parent.right == if old(parent.left) == elm then old(parent.right) else child
    {
      if child != null {
        child.parent := parent;
      }
      if parent != null {
        if parent.left == elm {
          parent.left := child;
        } else {
          parent.right := child;
        }
      } else {
        root := child;
      }
    }

    method SpliceCells(elm: Elm<K>, child: Elm?<K>, ghost c: Ctx<Elm<K>>, ghost t: Tree<Elm<K>>, ghost u: Tree<Elm<K>>)
      requires t.Node? && t.elem == elm && child == Ref(u)
      requires NodeIs(t, ParentRef(c)) && NodeIs(u, elm) && (u.Node? ==> child != elm)
      requires c.In? ==> c.elem in nodes && c.elem != elm && To(c.elem) != LinkTo(u)
      requires c.In? ==> Memory(nodes)[c.elem] == FrameCell(c, To(elm)) && Ref(c.sib) != elm
      modifies `root, `nodes, nodes`left, nodes`right, nodes`parent
      ensures nodes == old(nodes) - {elm}
      ensures Spliced(old(Memory(nodes)), Memory(nodes), c, t, u)
      ensures root == if c.Top? then child else old(root)
      ensures elm.parent == old(elm.parent)
    {
      ghost var m := Memory(nodes);
      SpliceLinks(elm, child, elm.parent);
      nodes := nodes - {elm};
      ghost var m' := Memory(nodes);
      assert c.In? ==> m'[c.elem] == FrameCell(c, LinkTo(u));
      assert u.Node? ==> m'[u.elem] == m[u.elem].(parent := Above(c));
    }

    /** `elm`, at the root of `t`, leaves the tree; its only child, the root of `u`, moves up. */
    method Splice(elm: Elm<K>, child: Elm?<K>, ghost c: Ctx<Elm<K>>, ghost t: Tree<Elm<K>>, ghost u: Tree<Elm<K>>)
      requires Linked() && shape == Plug(c, t) && t.Node? && t.elem == elm
      requires u == (if t.left.Leaf? then t.right else t.left) && (t.left.Leaf? || t.right.Leaf?)
      requires child == Ref(u)
      modifies `root, `shape, `nodes, nodes`left, nodes`right, nodes`parent
      ensures Linked() && nodes == old(nodes) - {elm} && shape == Plug(c, u)
      ensures elm.parent == old(elm.parent)
    {
      hide Linked, Rep, Elems, CtxElems, Spliced, Plug;
      ghost var m, r := Memory(nodes), AsLink(root);
      SpliceView(c, t, u);
      SpliceNodes(c, t, u);
      SpliceCells(elm, child, c, t, u);
      SplicedRep(m, Memory(nodes), r, AsLink(root), c, t, u);
      Reshape(Plug(c, u));
    }

    lemma SpliceNodes(c: Ctx<Elm<K>>, t: Tree<Elm<K>>, u: Tree<Elm<K>>)
      requires Linked() && shape == Plug(c, t) && t.Node?
      requires u == (if t.left.Leaf? then t.right else t.left) && (t.left.Leaf? || t.right.Leaf?)
      ensures Elems(Plug(c, u)) == nodes - {t.elem}
    {
      hide Linked, Elems, CtxElems, Distinct, Plug;
      Focus(c, t);
      SpliceElems(c, t, u);
    }

    lemma SpliceView(c: Ctx<Elm<K>>, t: Tree<Elm<K>>, u: Tree<Elm<K>>)
      requires Linked() && shape == Plug(c, t) && t.Node?
      requires u == (if t.left.Leaf? then t.right else t.left) && (t.left.Leaf? || t.right.Leaf?)
      ensures Rep(Memory(nodes), AsLink(root), c, t)
      ensures NodeIs(t, ParentRef(c)) && NodeIs(u, t.elem)
      ensures c.In? ==> c.elem in nodes && c.elem != t.elem && To(c.elem) != LinkTo(u)
      ensures u.Node? ==> u.elem != t.elem
      ensures c.In? ==> Memory(nodes)[c.elem] == FrameCell(c, To(t.elem)) && Ref(c.sib) != t.elem
    {
      hide Linked, Elems, CtxElems, Fits, FitsCtx;
      Focus(c, t);
      Local(c, t);
      if u == t.right {
        Local(In(Right, t.red, t.elem, t.left, c), u);
      } else {
        Local(In(Left, t.red, t.elem, t.right, c), u);
      }
      SpliceElems(c, t, u);
      if c.In? { FrameView(Memory(nodes), AsLink(root), c, t); }
    }

    /** `elm` takes over the links and the colour of `old`, and the links to `old`. */
    method SubstituteLinks(elm: Elm<K>, victim: Elm<K>, ghost l: Elm<K>, ghost r: Elm?<K>, ghost p: Elm?<K>)
      requires l == victim.left && r == victim.right && p == victim.parent
      requires elm != victim && elm != l && elm != r && elm != p && l != r && l != p && (r != null ==> r != p)
      requires victim != l && victim != r && victim != p
      modifies `root, elm`red, elm`left, elm`right, elm`parent, l`parent
      modifies (if r == null then {} else {r})`parent
      modifies (if p == null then {} else {p})`left, (if p == null then {} else {p})`right
      ensures elm.red == victim.red && elm.left == l && elm.right == r && elm.parent == p
      ensures l.parent == elm && (r != null ==> r.parent == elm)
      ensures root == if p == null then elm else old(root)
      ensures p != null ==> p.left == if old(p.left) == victim then elm else old(p.left)
      ensures p != null ==> p.right == if old(p.left) == victim then old(p.right) else elm
    {
      elm.left, elm.right, elm.parent, elm.red := victim.left, victim.right, victim.parent, victim.red;
      if victim.parent != null {
        if victim.parent.left == victim {
          victim.parent.left := elm;
        } else {
          victim.parent.right := elm;
        }
      } else {
        root := elm;
      }
      victim.left.parent := elm;
      if victim.right != null {
        victim.right.parent := elm;
      }
    }

    method SubstituteCells(elm: Elm<K>, victim: Elm<K>, ghost c: Ctx<Elm<K>>, ghost t: Tree<Elm<K>>)
      requires t.Node? && t.elem == victim && t.left.Node? && elm !in nodes
      requires NodeIs(t, ParentRef(c)) && NodeIs(t.left, victim) && NodeIs(t.right, victim)
      requires t.left.elem != victim && Ref(t.right) != victim && t.left.elem != Ref(t.right)
      requires c.In? ==> c.elem in nodes && c.elem != victim && c.elem != t.left.elem && c.elem != Ref(t.right)
      requires c.In? ==> Memory(nodes)[c.elem] == FrameCell(c, To(victim)) && Ref(c.sib) != victim
      modifies `root, `nodes, nodes`left, nodes`right, nodes`parent, elm`red, elm`left, elm`right, elm`parent
      ensures nodes == old(nodes) - {victim} + {elm}
      ensures Substituted(old(Memory(nodes)), Memory(nodes), c, t, elm)
      ensures root == if c.Top? then elm else old(root)
    {
      ghost var m := Memory(nodes);
      SubstituteLinks(elm, victim, t.left.elem, victim.right, victim.parent);
      nodes := nodes - {victim} + {elm};
      ghost var m' := Memory(nodes);
      assert m'[elm] == Cell(t.red, LinkTo(t.left), LinkTo(t.right), Above(c));
      assert m'[t.left.elem] == m[t.left.elem].(parent := To(elm));
      assert t.right.Node? ==> m'[t.right.elem] == m[t.right.elem].(parent := To(elm));
      assert c.In? ==> m'[c.elem] == FrameCell(c, To(elm));
    }

    method Substitute(elm: Elm<K>, victim: Elm<K>, ghost c: Ctx<Elm<K>>, ghost t: Tree<Elm<K>>)
      requires Linked() && shape == Plug(c, t) && t.Node? && t.elem == victim && t.left.Node? && elm !in nodes
      modifies `root, `shape, `nodes, nodes`left, nodes`right, nodes`parent
      modifies elm`red, elm`left, elm`right, elm`parent
      ensures Linked() && nodes == old(nodes) - {victim} + {elm}
      ensures shape == Plug(c, t.(elem := elm))
    {
      hide Linked, Rep, Elems, CtxElems, Substituted, Plug;
      ghost var m, r := Memory(nodes), AsLink(root);
      Focus(c, t);
      SubstituteView(c, t);
      SubstituteCells(elm, victim, c, t);
      SubstitutedRep(m, Memory(nodes), r, AsLink(root), c, t, elm);
      Reshape(Plug(c, t.(elem := elm)));
    }

    lemma SubstituteView(c: Ctx<Elm<K>>, t: Tree<Elm<K>>)
      requires Linked() && shape == Plug(c, t) && t.Node? && t.left.Node?
      ensures NodeIs(t, ParentRef(c)) && NodeIs(t.left, t.elem) && NodeIs(t.right, t.elem)
      ensures t.left.elem != t.elem && Ref(t.right) != t.elem && t.left.elem != Ref(t.right)
      ensures c.In? ==> c.elem in nodes && c.elem != t.elem && c.elem != t.left.elem && c.elem != Ref(t.right)
      ensures c.In? ==> Memory(nodes)[c.elem] == FrameCell(c, To(t.elem)) && Ref(c.sib) != t.elem
    {
      hide Linked, Fits, FitsCtx;
      Focus(c, t);
      Local(c, t);
      Local(In(Left, t.red, t.elem, t.right, c), t.left);
      Local(In(Right, t.red, t.elem, t.left, c), t.right);
      assert t.left.elem in Elems(t.left) && t.left.elem in Elems(t);
      assert t.right.Node? ==> t.right.elem in Elems(t.right) && t.right.elem in Elems(t);
      if c.In? { FrameView(Memory(nodes), AsLink(root), c, t); }
    }

    /** The descent from `right` to the leftmost element below it. */
    method Leftmost(right: Elm<K>, ghost c: Ctx<Elm<K>>, ghost t: Tree<Elm<K>>)
      returns (elm: Elm<K>, ghost path: Ctx<Elm<K>>, ghost u: Tree<Elm<K>>)
      requires Linked() && shape == Plug(c, t) && t.Node? && t.elem == right
      ensures t == Plug(path, u) && u.Node? && u.left.Leaf? && u.elem == elm && Before(path) == []
    {
      hide Linked;
      elm, path, u := right, Top, t;
      Local(c, t);
      AppendPlug(path, c, u);
      var left := elm.left;
      while left != null
        invariant t == Plug(path, u) && u.Node? && u.elem == elm && Before(path) == []
        invariant NodeIs(u, ParentRef(Append(path, c))) && left == elm.left
        decreases u
      {
        elm := left;
        path, u := In(Left, u.red, u.elem, u.right, path), u.left;
        AppendPlug(path, c, u);
        Local(Append(path, c), u);
        left := elm.left;
      }
    }

    /**
     RB_REMOVE of a linked element: exactly that object leaves the walk, every other one stays
     with its key, and the tree is balanced again.
     */
    method Remove(elm: Elm<K>, ghost c: Ctx<Elm<K>>, ghost t: Tree<Elm<K>>) returns (victim: Elm<K>, ghost at: nat)
      requires Valid() && shape == Plug(c, t) && t.Node? && t.elem == elm
      modifies `root, `shape, `nodes, nodes`red, nodes`left, nodes`right, nodes`parent
      ensures Valid() && victim == elm && nodes == old(nodes) - {elm} && elm in old(nodes)
      ensures at < |old(Inorder(shape))| && old(Inorder(shape))[at] == elm
      ensures Inorder(shape) == old(Inorder(shape))[..at] + old(Inorder(shape))[at + 1..]
    {
      hide Linked, Inorder, Ordered, Balanced, OneShort, TotalOrder;
      victim := elm;
      at := Rank(c, t);
      ghost var s, keys := Inorder(shape), KeyMap(nodes);
      ghost var cx, tx, h;
      Local(c, t);
      Local(In(Left, t.red, t.elem, t.right, c), t.left);
      Local(In(Right, t.red, t.elem, t.left, c), t.right);
      RankInWalk(c, t);
      var child, parent, red;
      if elm.left == null || elm.right == null {
        child := if elm.left == null then elm.right else elm.left;
        parent := elm.parent;
        red := elm.red;
        cx, tx := c, if t.left.Leaf? then t.right else t.left;
        h := SplicedColours(c, t, tx);
        WalkWithout(c, t, tx);
        Splice(elm, child, c, t, tx);
      } else {
        child, parent, red, cx, tx, h := RemoveInner(elm, c, t);
      }
      if !red {
        RemoveColor(parent, child, cx, tx, h);
      }
      assert s == s[..at] + [elm] + s[at + 1..];
      OrderedRemove(cmp, keys, s[..at], elm, s[at + 1..]);
      KeysShrink(keys, elm);
    }

    /** The case of two children: the next element is spliced out and takes the place of `victim`. */
    method RemoveInner(victim: Elm<K>, ghost c: Ctx<Elm<K>>, ghost t: Tree<Elm<K>>)
      returns (child: Elm?<K>, parent: Elm?<K>, red: bool, ghost cx: Ctx<Elm<K>>, ghost tx: Tree<Elm<K>>, ghost h: nat)
      requires Linked() && Balanced(shape) && shape == Plug(c, t) && t.Node? && t.elem == victim
      requires t.left.Node? && t.right.Node?
      modifies `root, `shape, `nodes, nodes`red, nodes`left, nodes`right, nodes`parent
      ensures Linked() && shape == Plug(cx, tx) && child == Ref(tx) && parent == ParentRef(cx)
      ensures nodes == old(nodes) - {victim} && victim in old(nodes)
      ensures if red then Balanced(shape) else OneShort(cx, tx, h)
      ensures Rank(c, t) < |old(Inorder(shape))|
      ensures Inorder(shape) == old(Inorder(shape))[..Rank(c, t)] + old(Inorder(shape))[Rank(c, t) + 1..]
    {
      hide Linked, Inorder, Balanced, OneShort, Rank;
      ghost var path, u;
      Local(c, t);
      ghost var down := In(Right, t.red, victim, t.left, c);
      Local(down, t.right);
      var elm;
      elm, path, u := Leftmost(victim.right, down, t.right);
      AppendPlug(path, down, u);
      Local(Append(path, down), u);
      LeftRightDiffer(c, t, path, u);
      Local(In(Right, u.red, u.elem, u.left, Append(path, down)), u.right);
      child, parent, red := elm.right, elm.parent, elm.red;
      Splice(elm, child, Append(path, down), u, u.right);
      AppendPlug(path, down, u.right);
      if elm.parent == victim {
        parent := elm;
      }
      ghost var t1 := Node(t.red, t.left, victim, Plug(path, u.right));
      Substitute(elm, victim, c, t1);
      cx, tx := Append(path, In(Right, t.red, elm, t.left, c)), u.right;
      AppendPlug(path, In(Right, t.red, elm, t.left, c), tx);
      RenamedBalance(path, In(Right, t.red, victim, t.left, c), elm, u);
      h := SplicedColours(cx, u, tx);
      WalkWithoutInner(c, t, path, u);
    }

    lemma LeftRightDiffer(c: Ctx<Elm<K>>, t: Tree<Elm<K>>, path: Ctx<Elm<K>>, u: Tree<Elm<K>>)
      requires Linked() && shape == Plug(c, t) && t.Node? && t.right == Plug(path, u) && u.Node?
      ensures u.elem != t.elem && (path.In? ==> path.elem != t.elem)
    {
      Focus(c, t);
      ApartPlug(path, u);
    }

    lemma KeysShrink(keys: map<Elm<K>, K>, elm: Elm<K>)
      requires Linked() && Ordered(cmp, keys, Inorder(shape))
      requires forall n :: n in nodes ==> n in keys && keys[n] == n.key
      ensures Ordered(cmp, KeyMap(nodes), Inorder(shape))
    {
      NodesOfWalk();
    }
  }
}
