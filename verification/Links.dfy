/**
 Linked trees with parent links, seen as a finite memory of cells. A missing neighbour is
 `Nil`, which is the shared sentinel in rbtree.c and a null pointer in nty_tree.h; the
 lemmas here serve both.
 */
module Links {
  import opened RedBlack

  datatype Link<E> = Nil | To(e: E)
  datatype Cell<E> = Cell(red: bool, left: Link<E>, right: Link<E>, parent: Link<E>)
  type Cells<E> = map<E, Cell<E>>

  function LinkTo<E>(t: Tree<E>): Link<E> {
    if t.Leaf? then Nil else To(t.elem)
  }

  /** The parent link of whatever fills the hole of `c`. */
  function Above<E>(c: Ctx<E>): Link<E> {
    if c.Top? then Nil else To(c.elem)
  }

  /** The root link of `c` with its hole link being `hole`. */
  function RootLink<E>(c: Ctx<E>, hole: Link<E>): Link<E>
    decreases c
  {
    if c.Top? then hole else RootLink(c.up, To(c.elem))
  }

  /** The cells reached through a link from `parent` form exactly the tree `t`. */
  ghost predicate Fits<E>(m: Cells<E>, t: Tree<E>, parent: Link<E>)
    decreases t
  {
    t.Node? ==>
      && t.elem in m
      && m[t.elem] == Cell(t.red, LinkTo(t.left), LinkTo(t.right), parent)
      && Fits(m, t.left, To(t.elem))
      && Fits(m, t.right, To(t.elem))
  }

  /** The cells around the hole form exactly `c`; the link at the hole is `hole`. */
  ghost predicate FitsCtx<E>(m: Cells<E>, c: Ctx<E>, hole: Link<E>)
    decreases c
  {
    c.In? ==>
      && c.elem in m
      && m[c.elem] == FrameCell(c, hole)
      && Fits(m, c.sib, To(c.elem))
      && FitsCtx(m, c.up, To(c.elem))
  }

  function FrameCell<E>(c: Ctx<E>, hole: Link<E>): Cell<E>
    requires c.In?
  {
    if c.side.Left? then Cell(c.red, hole, LinkTo(c.sib), Above(c.up))
    else Cell(c.red, LinkTo(c.sib), hole, Above(c.up))
  }

  /** The linked structure entered at `root` is `t` plugged into `c`. */
  ghost predicate Rep<E>(m: Cells<E>, root: Link<E>, c: Ctx<E>, t: Tree<E>) {
    && Apart(c, t)
    && root == RootLink(c, LinkTo(t))
    && Fits(m, t, Above(c))
    && FitsCtx(m, c, LinkTo(t))
  }

  // ---------- moving the focus ----------

  lemma ApartUp<E>(c: Ctx<E>, t: Tree<E>)
    requires c.In?
    ensures Apart(c, t) <==> Apart(c.up, Join(c.side, c.red, t, c.elem, c.sib))
  {
    assert Elems(Join(c.side, c.red, t, c.elem, c.sib)) == Elems(t) + {c.elem} + Elems(c.sib);
  }

  lemma RepUp<E>(m: Cells<E>, root: Link<E>, c: Ctx<E>, t: Tree<E>)
    requires c.In?
    ensures Rep(m, root, c, t) <==> Rep(m, root, c.up, Join(c.side, c.red, t, c.elem, c.sib))
  {
    ApartUp(c, t);
  }

  lemma {:induction false} RepTop<E>(m: Cells<E>, root: Link<E>, c: Ctx<E>, t: Tree<E>)
    ensures Rep(m, root, c, t) <==> Rep(m, root, Top, Plug(c, t))
    decreases c
  {
    if c.In? {
      RepUp(m, root, c, t);
      RepTop(m, root, c.up, Join(c.side, c.red, t, c.elem, c.sib));
    }
  }

  /** The same tree seen from two places. */
  lemma Refocus<E>(m: Cells<E>, root: Link<E>, T: Tree<E>, c: Ctx<E>, t: Tree<E>)
    requires Rep(m, root, Top, T) && T == Plug(c, t)
    ensures Rep(m, root, c, t)
  {
    RepTop(m, root, c, t);
  }

  // ---------- replacing the subtree in focus ----------

  /** `m` and `m'` hold the same cells for all of `s`. */
  ghost predicate Agree<E>(m: Cells<E>, m': Cells<E>, s: set<E>) {
    forall e :: e in s && e in m ==> e in m' && m'[e] == m[e]
  }

  lemma {:induction false} FitsFrame<E>(m: Cells<E>, m': Cells<E>, t: Tree<E>, parent: Link<E>)
    requires Fits(m, t, parent) && Agree(m, m', Elems(t))
    ensures Fits(m', t, parent)
    decreases t
  {
    if t.Node? {
      FitsFrame(m, m', t.left, To(t.elem));
      FitsFrame(m, m', t.right, To(t.elem));
    }
  }

  lemma {:induction false} FitsCtxFrame<E>(m: Cells<E>, m': Cells<E>, c: Ctx<E>, hole: Link<E>)
    requires FitsCtx(m, c, hole) && Agree(m, m', CtxElems(c))
    ensures FitsCtx(m', c, hole)
    decreases c
  {
    if c.In? {
      FitsFrame(m, m', c.sib, To(c.elem));
      FitsCtxFrame(m, m', c.up, To(c.elem));
    }
  }

  /** Only the parent link of the root of a subtree changes. */
  lemma FitsReparent<E>(m: Cells<E>, m': Cells<E>, t: Tree<E>, parent: Link<E>, parent': Link<E>)
    requires Fits(m, t, parent) && Distinct(t)
    requires t.Node? ==>
      && t.elem in m' && m'[t.elem] == m[t.elem].(parent := parent')
      && Agree(m, m', Elems(t) - {t.elem})
    ensures Fits(m', t, parent')
  {
    if t.Node? {
      FitsFrame(m, m', t.left, To(t.elem));
      FitsFrame(m, m', t.right, To(t.elem));
    }
  }

  /** Put `t'` where `t` was: outside it, only the link at the hole is redirected. */
  lemma Replace<E>(m: Cells<E>, m': Cells<E>, root: Link<E>, root': Link<E>,
                   c: Ctx<E>, t: Tree<E>, t': Tree<E>)
    requires Rep(m, root, c, t)
    requires Apart(c, t') && Fits(m', t', Above(c))
    requires c.Top? ==> root' == LinkTo(t')
    requires c.In? ==> root' == root && c.elem in m' && m'[c.elem] == FrameCell(c, LinkTo(t'))
    requires Agree(m, m', if c.Top? then {} else CtxElems(c) - {c.elem})
    ensures Rep(m', root', c, t')
    ensures Rep(m', root', Top, Plug(c, t'))
  {
    if c.In? {
      FitsFrame(m, m', c.sib, To(c.elem));
      FitsCtxFrame(m, m', c.up, To(c.elem));
    }
    RepTop(m', root', c, t');
  }

  // ---------- the elementary updates ----------

  /** The cells rewritten by a left rotation at `t.elem`. */
  ghost predicate LeftRotated<E>(m: Cells<E>, m': Cells<E>, c: Ctx<E>, t: Tree<E>)
    requires t.Node? && t.right.Node?
  {
    var x, y, b := t.elem, t.right.elem, t.right.left;
    && x in m' && m'[x] == Cell(t.red, LinkTo(t.left), LinkTo(b), To(y))
    && y in m' && m'[y] == Cell(t.right.red, To(x), LinkTo(t.right.right), Above(c))
    && (b.Node? ==> b.elem in m && b.elem in m' && m'[b.elem] == m[b.elem].(parent := To(x)))
    && (c.In? ==> c.elem in m' && m'[c.elem] == FrameCell(c, To(y)))
    && Agree(m, m', m.Keys - {x, y} - Roots(b) - Frame(c))
  }

  ghost predicate RightRotated<E>(m: Cells<E>, m': Cells<E>, c: Ctx<E>, t: Tree<E>)
    requires t.Node? && t.left.Node?
  {
    var y, x, b := t.elem, t.left.elem, t.left.right;
    && y in m' && m'[y] == Cell(t.red, LinkTo(b), LinkTo(t.right), To(x))
    && x in m' && m'[x] == Cell(t.left.red, LinkTo(t.left.left), To(y), Above(c))
    && (b.Node? ==> b.elem in m && b.elem in m' && m'[b.elem] == m[b.elem].(parent := To(y)))
    && (c.In? ==> c.elem in m' && m'[c.elem] == FrameCell(c, To(x)))
    && Agree(m, m', m.Keys - {x, y} - Roots(b) - Frame(c))
  }

  ghost function Roots<E>(t: Tree<E>): set<E> {
    if t.Leaf? then {} else {t.elem}
  }

  ghost function Frame<E>(c: Ctx<E>): set<E> {
    if c.Top? then {} else {c.elem}
  }

  /** The cells a rotation touches, and that they are different cells. */
  ghost predicate Neighbourhood<E>(m: Cells<E>, c: Ctx<E>, x: E, y: E, b: Tree<E>, hole: Link<E>) {
    && x in m && y in m && x != y && m[x].parent == Above(c) && m[y].parent == To(x)
    && (b.Node? ==> b.elem in m && b.elem != x && b.elem != y && m[b.elem].parent == To(y))
    && (c.In? ==>
        && c.elem in m && c.elem != x && c.elem != y && To(c.elem) != LinkTo(b)
        && m[c.elem] == FrameCell(c, hole) && To(c.elem) != m[c.elem].parent
        && m[c.elem].left != m[c.elem].right)
  }

  ghost predicate LeftRotatable<E>(m: Cells<E>, c: Ctx<E>, t: Tree<E>) {
    && t.Node? && t.right.Node?
    && Neighbourhood(m, c, t.elem, t.right.elem, t.right.left, To(t.elem))
    && m[t.elem] == Cell(t.red, LinkTo(t.left), To(t.right.elem), Above(c))
    && m[t.right.elem] == Cell(t.right.red, LinkTo(t.right.left), LinkTo(t.right.right), To(t.elem))
  }

  ghost predicate RightRotatable<E>(m: Cells<E>, c: Ctx<E>, t: Tree<E>) {
    && t.Node? && t.left.Node?
    && Neighbourhood(m, c, t.elem, t.left.elem, t.left.right, To(t.elem))
    && m[t.elem] == Cell(t.red, To(t.left.elem), LinkTo(t.right), Above(c))
    && m[t.left.elem] == Cell(t.left.red, LinkTo(t.left.left), LinkTo(t.left.right), To(t.elem))
  }

  lemma FrameView<E>(m: Cells<E>, root: Link<E>, c: Ctx<E>, t: Tree<E>)
    requires Rep(m, root, c, t) && c.In? && t.Node?
    ensures c.elem in m && m[c.elem] == FrameCell(c, To(t.elem)) && c.elem != t.elem
    ensures m[c.elem].left != m[c.elem].right && m[c.elem].parent != To(c.elem)
  {
    assert t.elem in Elems(t) && c.elem in CtxElems(c);
    assert c.sib.Node? ==> c.sib.elem in CtxElems(c);
    assert c.up.In? ==> c.up.elem in CtxElems(c.up);
  }

  lemma LeftRotateView<E>(m: Cells<E>, root: Link<E>, c: Ctx<E>, t: Tree<E>)
    requires Rep(m, root, c, t) && t.Node? && t.right.Node?
    ensures LeftRotatable(m, c, t)
  {
    assert Fits(m, t.right, To(t.elem)) && Distinct(t.right);
    assert Elems(t.right) == Elems(t.right.left) + {t.right.elem} + Elems(t.right.right);
    assert Fits(m, t.right.left, To(t.right.elem));
    if c.In? { FrameView(m, root, c, t); }
  }

  lemma RightRotateView<E>(m: Cells<E>, root: Link<E>, c: Ctx<E>, t: Tree<E>)
    requires Rep(m, root, c, t) && t.Node? && t.left.Node?
    ensures RightRotatable(m, c, t)
  {
    assert Fits(m, t.left, To(t.elem)) && Distinct(t.left);
    assert Elems(t.left) == Elems(t.left.left) + {t.left.elem} + Elems(t.left.right);
    assert Fits(m, t.left.right, To(t.left.elem));
    if c.In? { FrameView(m, root, c, t); }
  }

  lemma LeftRotatedFits<E>(m: Cells<E>, m': Cells<E>, c: Ctx<E>, t: Tree<E>)
    requires Fits(m, t, Above(c)) && Apart(c, t)
    requires t.Node? && t.right.Node? && LeftRotated(m, m', c, t)
    ensures Fits(m', RotatedLeft(t), Above(c))
  {
    assert Fits(m, t.right, To(t.elem)) && Distinct(t.right);
    assert Elems(t.right) == Elems(t.right.left) + {t.right.elem} + Elems(t.right.right);
    FitsFrame(m, m', t.left, To(t.elem));
    FitsFrame(m, m', t.right.right, To(t.right.elem));
    FitsReparent(m, m', t.right.left, To(t.right.elem), To(t.elem));
  }

  lemma LeftRotatedRep<E>(m: Cells<E>, m': Cells<E>, root: Link<E>, root': Link<E>, c: Ctx<E>, t: Tree<E>)
    requires Rep(m, root, c, t)
    requires t.Node? && t.right.Node? && LeftRotated(m, m', c, t)
    requires root' == if c.Top? then To(t.right.elem) else root
    ensures Rep(m', root', Top, Plug(c, RotatedLeft(t)))
  {
    LeftRotatedFits(m, m', c, t);
    RotatedLeftElems(t);
    RotatedLeftDistinct(t);
    assert t.elem in Elems(t) && t.right.elem in Elems(t) && Roots(t.right.left) <= Elems(t);
    Replace(m, m', root, root', c, t, RotatedLeft(t));
  }

  lemma RightRotatedFits<E>(m: Cells<E>, m': Cells<E>, c: Ctx<E>, t: Tree<E>)
    requires Fits(m, t, Above(c)) && Apart(c, t)
    requires t.Node? && t.left.Node? && RightRotated(m, m', c, t)
    ensures Fits(m', RotatedRight(t), Above(c))
  {
    assert Fits(m, t.left, To(t.elem)) && Distinct(t.left);
    assert Elems(t.left) == Elems(t.left.left) + {t.left.elem} + Elems(t.left.right);
    FitsFrame(m, m', t.right, To(t.elem));
    FitsFrame(m, m', t.left.left, To(t.left.elem));
    FitsReparent(m, m', t.left.right, To(t.left.elem), To(t.elem));
  }

  lemma RightRotatedRep<E>(m: Cells<E>, m': Cells<E>, root: Link<E>, root': Link<E>, c: Ctx<E>, t: Tree<E>)
    requires Rep(m, root, c, t)
    requires t.Node? && t.left.Node? && RightRotated(m, m', c, t)
    requires root' == if c.Top? then To(t.left.elem) else root
    ensures Rep(m', root', Top, Plug(c, RotatedRight(t)))
  {
    RightRotatedFits(m, m', c, t);
    RotatedRightElems(t);
    RotatedRightDistinct(t);
    assert t.elem in Elems(t) && t.left.elem in Elems(t) && Roots(t.left.right) <= Elems(t);
    Replace(m, m', root, root', c, t, RotatedRight(t));
  }

  lemma PaintedRep<E>(m: Cells<E>, m': Cells<E>, root: Link<E>, c: Ctx<E>, t: Tree<E>, red: bool)
    requires Rep(m, root, c, t) && t.Node?
    requires m' == m[t.elem := m[t.elem].(red := red)]
    ensures Rep(m', root, Top, Plug(c, t.(red := red)))
  {
    FitsFrame(m, m', t.left, To(t.elem));
    FitsFrame(m, m', t.right, To(t.elem));
    Replace(m, m', root, root, c, t, t.(red := red));
  }

  /** The cells rewritten when `t.elem`, which has no child but `child`, is unlinked. */
  ghost predicate Spliced<E>(m: Cells<E>, m': Cells<E>, c: Ctx<E>, t: Tree<E>, child: Tree<E>)
    requires t.Node?
  {
    && (child.Node? ==>
        child.elem in m && child.elem in m' && m'[child.elem] == m[child.elem].(parent := Above(c)))
    && (c.In? ==> c.elem in m' && m'[c.elem] == FrameCell(c, LinkTo(child)))
    && Agree(m, m', m.Keys - {t.elem} - Roots(child) - Frame(c))
  }

  lemma SplicedRep<E>(m: Cells<E>, m': Cells<E>, root: Link<E>, root': Link<E>,
                      c: Ctx<E>, t: Tree<E>, child: Tree<E>)
    requires Rep(m, root, c, t) && t.Node? && (child == t.left || child == t.right)
    requires Spliced(m, m', c, t, child)
    requires root' == if c.Top? then LinkTo(child) else root
    ensures Rep(m', root', Top, Plug(c, child))
  {
    FitsReparent(m, m', child, To(t.elem), Above(c));
    assert Roots(child) <= Elems(child) <= Elems(t);
    Replace(m, m', root, root', c, t, child);
  }

  /** The cells rewritten when the node object `e` takes the place of `t.elem`. */
  ghost predicate Substituted<E>(m: Cells<E>, m': Cells<E>, c: Ctx<E>, t: Tree<E>, e: E)
    requires t.Node?
  {
    && e in m' && m'[e] == Cell(t.red, LinkTo(t.left), LinkTo(t.right), Above(c))
    && (t.left.Node? ==>
        && t.left.elem in m && t.left.elem in m'
        && m'[t.left.elem] == m[t.left.elem].(parent := To(e)))
    && (t.right.Node? ==>
        && t.right.elem in m && t.right.elem in m'
        && m'[t.right.elem] == m[t.right.elem].(parent := To(e)))
    && (c.In? ==> c.elem in m' && m'[c.elem] == FrameCell(c, To(e)))
    && Agree(m, m', m.Keys - {t.elem} - Roots(t.left) - Roots(t.right) - Frame(c))
  }

  lemma SubstitutedRep<E>(m: Cells<E>, m': Cells<E>, root: Link<E>, root': Link<E>, c: Ctx<E>, t: Tree<E>, e: E)
    requires Rep(m, root, c, t) && t.Node? && e !in Elems(Plug(c, t))
    requires Substituted(m, m', c, t, e)
    requires root' == if c.Top? then To(e) else root
    ensures Rep(m', root', Top, Plug(c, t.(elem := e)))
    ensures Elems(Plug(c, t.(elem := e))) == Elems(Plug(c, t)) - {t.elem} + {e}
  {
    ApartPlug(c, t);
    ApartPlug(c, t.(elem := e));
    assert Roots(t.left) <= Elems(t.left) && Roots(t.right) <= Elems(t.right);
    SubstitutedFits(m, m', c, t, e);
    Replace(m, m', root, root', c, t, t.(elem := e));
  }

  lemma SubstitutedFits<E>(m: Cells<E>, m': Cells<E>, c: Ctx<E>, t: Tree<E>, e: E)
    requires Fits(m, t, Above(c)) && Apart(c, t) && t.Node?
    requires Substituted(m, m', c, t, e)
    ensures Fits(m', t.(elem := e), Above(c))
  {
    assert Roots(t.left) <= Elems(t.left) && Roots(t.right) <= Elems(t.right);
    FitsReparent(m, m', t.left, To(t.elem), To(e));
    FitsReparent(m, m', t.right, To(t.elem), To(e));
  }
}
