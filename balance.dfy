/** The red-black invariants, stated on the functional tree and on zippers, and
    the case analysis of the insertion and deletion fix-up loops: each lemma says
    that one case of the loop turns a tree that satisfies the loop's invariant into
    one that satisfies it again (or the final red-black property), without changing
    the in-order sequence. */
module Balance {
  import opened RedBlack

  function Blk(c: Color): nat {
    if c == Black then 1 else 0
  }

  /** Black height along the leftmost path, not counting the sentinel. */
  function BH<V>(t: Tree<V>): nat {
    match t
    case Leaf => 0
    case Node(c, l, _, _, _, _) => BH(l) + Blk(c)
  }

  /** Every path from a node down to the sentinel crosses the same number of black
      nodes. */
  ghost predicate Balanced<V>(t: Tree<V>) {
    match t
    case Leaf => true
    case Node(_, l, _, _, _, r) => Balanced(l) && Balanced(r) && BH(l) == BH(r)
  }

  /** No red node has a red child. */
  ghost predicate RedOk<V>(t: Tree<V>) {
    match t
    case Leaf => true
    case Node(c, l, _, _, _, r) =>
      RedOk(l) && RedOk(r) && (c == Red ==> ColorOf(l) == Black && ColorOf(r) == Black)
  }

  /** The red-black properties: equal black heights, no red-red edge, black root. */
  ghost predicate IsRB<V>(t: Tree<V>) {
    Balanced(t) && RedOk(t) && ColorOf(t) == Black
  }

  /** The other subtrees along the path are balanced, each with the black height that
      the focus has at that level; h is the height wanted beside the focus. */
  ghost predicate BalancedCtx<V>(ctx: Path<V>, h: nat)
    decreases |ctx|
  {
    ctx == [] ||
    (Balanced(Sibling(ctx[0])) && BH(Sibling(ctx[0])) == h &&
     BalancedCtx(ctx[1..], h + Blk(ctx[0].c)))
  }

  /** No red-red edge along the path, when the focus's root has colour below. */
  ghost predicate RedOkPath<V>(ctx: Path<V>, below: Color)
    decreases |ctx|
  {
    ctx == [] ||
    (RedOk(Sibling(ctx[0])) &&
     (ctx[0].c == Red ==> ColorOf(Sibling(ctx[0])) == Black && below == Black) &&
     RedOkPath(ctx[1..], ctx[0].c))
  }

  ghost predicate RootBlack<V>(ctx: Path<V>) {
    ctx == [] || ctx[|ctx| - 1].c == Black
  }

  function BlackCount<V>(ctx: Path<V>): nat
    decreases |ctx|
  {
    if ctx == [] then 0 else Blk(ctx[0].c) + BlackCount(ctx[1..])
  }

  /** The colour of the whole tree's root when the focus's root has colour below. */
  function TopColor<V>(ctx: Path<V>, below: Color): Color {
    if ctx == [] then below else ctx[|ctx| - 1].c
  }

  // ---------------------------------------------------------------------------
  // The invariants through a zipper
  // ---------------------------------------------------------------------------

  lemma BalancedFill<V>(f: Frame<V>, t: Tree<V>)
    ensures Balanced(Fill(f, t)) <==> Balanced(t) && Balanced(Sibling(f)) && BH(Sibling(f)) == BH(t)
    ensures Balanced(Fill(f, t)) ==> BH(Fill(f, t)) == BH(t) + Blk(f.c)
  {
  }

  lemma {:induction false} PlugBalanced<V>(ctx: Path<V>, t: Tree<V>)
    ensures Balanced(Plug(ctx, t)) <==> Balanced(t) && BalancedCtx(ctx, BH(t))
    ensures Balanced(Plug(ctx, t)) ==> BH(Plug(ctx, t)) == BH(t) + BlackCount(ctx)
    decreases |ctx|
  {
    if ctx != [] {
      BalancedFill(ctx[0], t);
      PlugBalanced(ctx[1..], Fill(ctx[0], t));
    }
  }

  lemma RedOkFill<V>(f: Frame<V>, t: Tree<V>)
    ensures RedOk(Fill(f, t)) <==>
      RedOk(t) && RedOk(Sibling(f)) && (f.c == Red ==> ColorOf(t) == Black && ColorOf(Sibling(f)) == Black)
    ensures ColorOf(Fill(f, t)) == f.c
  {
  }

  lemma {:induction false} PlugRedOk<V>(ctx: Path<V>, t: Tree<V>)
    ensures RedOk(Plug(ctx, t)) <==> RedOk(t) && RedOkPath(ctx, ColorOf(t))
    ensures ColorOf(Plug(ctx, t)) == TopColor(ctx, ColorOf(t))
    decreases |ctx|
  {
    if ctx != [] {
      RedOkFill(ctx[0], t);
      PlugRedOk(ctx[1..], Fill(ctx[0], t));
    }
  }

  lemma {:induction false} BalancedCtxConcat<V>(a: Path<V>, b: Path<V>, h: nat)
    ensures BalancedCtx(a + b, h) <==> BalancedCtx(a, h) && BalancedCtx(b, h + BlackCount(a))
    decreases |a|
  {
    if a == [] {
      assert a + b == b;
    } else {
      assert (a + b)[1..] == a[1..] + b;
      assert (a + b)[0] == a[0];
      BalancedCtxConcat(a[1..], b, h + Blk(a[0].c));
    }
  }

  lemma {:induction false} RedOkPathConcat<V>(a: Path<V>, b: Path<V>, below: Color)
    ensures RedOkPath(a + b, below) <==> RedOkPath(a, below) && RedOkPath(b, TopColor(a, below))
    decreases |a|
  {
    if a == [] {
      assert a + b == b;
    } else {
      assert (a + b)[1..] == a[1..] + b;
      assert (a + b)[0] == a[0];
      RedOkPathConcat(a[1..], b, a[0].c);
    }
  }

  /** A black focus is never the lower end of a red-red edge. */
  lemma RedOkPathBlack<V>(ctx: Path<V>, below: Color)
    requires RedOkPath(ctx, below)
    ensures RedOkPath(ctx, Black)
  {
  }

  lemma Regroup2<T>(a: seq<T>, b: seq<T>, c: seq<T>, d: seq<T>, e: seq<T>)
    ensures (a + b + c) + d + e == a + b + (c + d + e)
  {
  }

  lemma BlackenKeeps<V>(t: Tree<V>)
    ensures Balanced(t) ==> Balanced(Blacken(t))
    ensures RedOk(t) ==> RedOk(Blacken(t))
    ensures Inorder(Blacken(t)) == Inorder(t)
    ensures IdSet(Blacken(t)) == IdSet(t)
    ensures Distinct(Blacken(t)) <==> Distinct(t)
    ensures BH(Blacken(t)) == BH(t) + (if ColorOf(t) == Red then 1 else 0)
    ensures ColorOf(Blacken(t)) == Black
  {
  }

  /** A black node has black height at least one, so a zero black height in a black
      subtree means the sentinel. */
  lemma BlackHeightZero<V>(t: Tree<V>)
    requires BH(t) == 0 && ColorOf(t) == Black
    ensures t.Leaf?
  {
  }

  // ---------------------------------------------------------------------------
  // insertFixup
  // ---------------------------------------------------------------------------

  /** Loop invariant of the insertion fix-up: the focus z is a red node whose subtree
      is a valid red-black tree apart from its root colour, the black heights along
      the path are right for it, and the only red-red edge allowed is the one between
      z and its parent. */
  ghost predicate InsertInv<V>(ctx: Path<V>, t: Tree<V>) {
    t.Node? && t.color == Red && RedOk(t) && Balanced(t) &&
    BalancedCtx(ctx, BH(t)) && RedOkPath(ctx, Black) && RootBlack(ctx)
  }

  /** A fresh red node in place of a sentinel establishes the invariant. */
  lemma InsertStart<V>(ctx: Path<V>, id: nat, k: int, v: V)
    requires IsRB(Plug(ctx, Leaf))
    ensures InsertInv(ctx, Node(Red, Leaf, id, k, v, Leaf))
  {
    PlugBalanced(ctx, Leaf);
    PlugRedOk(ctx, Leaf);
  }

  /** A red parent is never the root, so z has a black grandparent. */
  lemma InsertGrandparent<V>(ctx: Path<V>, t: Tree<V>)
    requires InsertInv(ctx, t) && ctx != [] && ctx[0].c == Red
    ensures |ctx| >= 2 && ctx[1].c == Black
  {
    assert |ctx| >= 2;
    assert ctx[1..][0] == ctx[1];
    assert RedOkPath(ctx[1..], Red);
  }

  /** When the parent is black, or z is the root, painting the root black leaves a
      red-black tree. */
  lemma InsertDone<V>(ctx: Path<V>, t: Tree<V>)
    requires InsertInv(ctx, t) && (ctx == [] || ctx[0].c == Black)
    ensures IsRB(Blacken(Plug(ctx, t)))
    ensures Inorder(Blacken(Plug(ctx, t))) == Inorder(Plug(ctx, t))
  {
    PlugBalanced(ctx, t);
    PlugRedOk(ctx, t);
    BlackenKeeps(Plug(ctx, t));
  }

  /** The grandparent's subtree after case 1: parent and uncle painted black, the
      grandparent red. */
  function RecolorFocus<V>(ctx: Path<V>, t: Tree<V>): Tree<V>
    requires |ctx| >= 2
  {
    var g := ctx[1];
    Fill(WithSibling(g, Blacken(Sibling(g))).(c := Red), Fill(ctx[0].(c := Black), t))
  }

  lemma FrameRecolor<V>(f: Frame<V>, s: Tree<V>, c: Color, t: Tree<V>)
    requires Inorder(s) == Inorder(Sibling(f))
    ensures Inorder(Fill(WithSibling(f, s).(c := c), t)) == Inorder(Fill(f, t))
    ensures Sibling(WithSibling(f, s).(c := c)) == s
    ensures Sibling(f.(c := c)) == Sibling(f)
  {
  }

  /** Case 1 (the uncle is red, either side): the violation moves two levels up. */
  lemma InsertRecolor<V>(ctx: Path<V>, t: Tree<V>)
    requires InsertInv(ctx, t) && |ctx| >= 2 && ctx[0].c == Red && ColorOf(Sibling(ctx[1])) == Red
    ensures InsertInv(ctx[2..], RecolorFocus(ctx, t))
    ensures Inorder(Plug(ctx[2..], RecolorFocus(ctx, t))) == Inorder(Plug(ctx, t))
  {
    var p, g := ctx[0], ctx[1];
    var h := BH(t);
    var u := Sibling(g);
    assert ctx[1..][1..] == ctx[2..];
    assert ctx[1..][0] == g;
    InsertGrandparent(ctx, t);
    assert BalancedCtx(ctx[1..], h) && RedOkPath(ctx[1..], Red);
    assert BalancedCtx(ctx[1..][1..], h + 1) && RedOkPath(ctx[1..][1..], Black);
    assert Balanced(u) && BH(u) == h && RedOk(u) && u.Node?;
    assert Balanced(Sibling(p)) && BH(Sibling(p)) == h && RedOk(Sibling(p)) && ColorOf(Sibling(p)) == Black;
    var p' := p.(c := Black);
    FrameRecolor(p, Sibling(p), Black, t);
    assert WithSibling(p, Sibling(p)) == p;
    BalancedFill(p', t);
    RedOkFill(p', t);
    var pt := Fill(p', t);
    BlackenKeeps(u);
    var g' := WithSibling(g, Blacken(u)).(c := Red);
    FrameRecolor(g, Blacken(u), Red, pt);
    BalancedFill(g', pt);
    RedOkFill(g', pt);
    FrameRecolor(p, Sibling(p), Black, t);
    assert Inorder(RecolorFocus(ctx, t)) == Inorder(Fill(g, Fill(p, t))) by {
      FrameRecolor(g, Blacken(u), Red, Fill(p, t));
      InorderFill(g', pt);
      InorderFill(g', Fill(p, t));
    }
    InorderPlugSame(ctx[2..], RecolorFocus(ctx, t), Fill(g, Fill(p, t)));
  }

  /** Case 2, parent a left child: z is the right child, rotating the parent left
      makes the old parent the focus, now the left child of z (the outer case). */
  lemma InsertInnerLeft<V>(ctx: Path<V>, t: Tree<V>)
    requires InsertInv(ctx, t) && |ctx| >= 2 && ctx[0].InR? && ctx[0].c == Red
    requires ctx[1].InL? && ColorOf(ctx[1].r) == Black
    ensures var p := ctx[0];
      InsertInv([InL(Red, t.id, t.key, t.val, t.right)] + ctx[1..], Node(Red, p.l, p.p, p.k, p.v, t.left))
    ensures var p := ctx[0];
      Inorder(Plug([InL(Red, t.id, t.key, t.val, t.right)] + ctx[1..], Node(Red, p.l, p.p, p.k, p.v, t.left)))
      == Inorder(Plug(ctx, t))
  {
    InsertInnerLeftInv(ctx, t);
    InsertInnerLeftOrder(ctx, t);
  }

  lemma InsertInnerLeftInv<V>(ctx: Path<V>, t: Tree<V>)
    requires InsertInv(ctx, t) && |ctx| >= 2 && ctx[0].InR? && ctx[0].c == Red
    requires ctx[1].InL? && ColorOf(ctx[1].r) == Black
    ensures var p := ctx[0];
      InsertInv([InL(Red, t.id, t.key, t.val, t.right)] + ctx[1..], Node(Red, p.l, p.p, p.k, p.v, t.left))
  {
    InsertGrandparent(ctx, t);
    ConsParts(InL(Red, t.id, t.key, t.val, t.right), ctx[1..]);
  }

  lemma InsertInnerLeftOrder<V>(ctx: Path<V>, t: Tree<V>)
    requires ctx != [] && ctx[0].InR? && t.Node?
    ensures var p := ctx[0];
      Inorder(Plug([InL(Red, t.id, t.key, t.val, t.right)] + ctx[1..], Node(Red, p.l, p.p, p.k, p.v, t.left))) == Inorder(Plug(ctx, t))
  {
    var p := ctx[0];
    var f := InL(Red, t.id, t.key, t.val, t.right);
    var t' := Node(Red, p.l, p.p, p.k, p.v, t.left);
    ZipFill(f, ctx[1..], t');
    RotateLeftInorder(Fill(p, t));
    InorderPlugSame(ctx[1..], Fill(f, t'), Fill(p, t));
  }

  /** Case 2, mirror: parent a right child, z its left child; rotate right. */
  lemma InsertInnerRight<V>(ctx: Path<V>, t: Tree<V>)
    requires InsertInv(ctx, t) && |ctx| >= 2 && ctx[0].InL? && ctx[0].c == Red
    requires ctx[1].InR? && ColorOf(ctx[1].l) == Black
    ensures var p := ctx[0];
      InsertInv([InR(Red, t.left, t.id, t.key, t.val)] + ctx[1..], Node(Red, t.right, p.p, p.k, p.v, p.r))
    ensures var p := ctx[0];
      Inorder(Plug([InR(Red, t.left, t.id, t.key, t.val)] + ctx[1..], Node(Red, t.right, p.p, p.k, p.v, p.r)))
      == Inorder(Plug(ctx, t))
  {
    InsertInnerRightInv(ctx, t);
    InsertInnerRightOrder(ctx, t);
  }

  lemma InsertInnerRightInv<V>(ctx: Path<V>, t: Tree<V>)
    requires InsertInv(ctx, t) && |ctx| >= 2 && ctx[0].InL? && ctx[0].c == Red
    requires ctx[1].InR? && ColorOf(ctx[1].l) == Black
    ensures var p := ctx[0];
      InsertInv([InR(Red, t.left, t.id, t.key, t.val)] + ctx[1..], Node(Red, t.right, p.p, p.k, p.v, p.r))
  {
    InsertGrandparent(ctx, t);
    ConsParts(InR(Red, t.left, t.id, t.key, t.val), ctx[1..]);
  }

  lemma InsertInnerRightOrder<V>(ctx: Path<V>, t: Tree<V>)
    requires ctx != [] && ctx[0].InL? && t.Node?
    ensures var p := ctx[0];
      Inorder(Plug([InR(Red, t.left, t.id, t.key, t.val)] + ctx[1..], Node(Red, t.right, p.p, p.k, p.v, p.r))) == Inorder(Plug(ctx, t))
  {
    var p := ctx[0];
    var f := InR(Red, t.left, t.id, t.key, t.val);
    var t' := Node(Red, t.right, p.p, p.k, p.v, p.r);
    ZipFill(f, ctx[1..], t');
    RotateRightInorder(Fill(p, t));
    InorderPlugSame(ctx[1..], Fill(f, t'), Fill(p, t));
  }

  /** Case 3, parent a left child and z its left child: parent black, grandparent
      red, rotate the grandparent right. The parent, now black, takes the
      grandparent's place and the loop ends. */
  lemma InsertOuterLeft<V>(ctx: Path<V>, t: Tree<V>)
    requires InsertInv(ctx, t) && |ctx| >= 2 && ctx[0].InL? && ctx[0].c == Red
    requires ctx[1].InL? && ColorOf(ctx[1].r) == Black
    ensures var p, g := ctx[0], ctx[1];
      InsertInv([InL(Black, p.p, p.k, p.v, Node(Red, p.r, g.p, g.k, g.v, g.r))] + ctx[2..], t)
    ensures var p, g := ctx[0], ctx[1];
      Inorder(Plug([InL(Black, p.p, p.k, p.v, Node(Red, p.r, g.p, g.k, g.v, g.r))] + ctx[2..], t))
      == Inorder(Plug(ctx, t))
  {
    var p, g := ctx[0], ctx[1];
    var f := InL(Black, p.p, p.k, p.v, Node(Red, p.r, g.p, g.k, g.v, g.r));
    InsertGrandparent(ctx, t);
    assert ctx[1..][1..] == ctx[2..];
    assert ctx[1..][0] == g;
    assert ([f] + ctx[2..])[1..] == ctx[2..];
    assert BalancedCtx(ctx[1..], BH(t)) && RedOkPath(ctx[1..], Red);
    assert BalancedCtx(ctx[2..], BH(t) + 1) && RedOkPath(ctx[2..], Black);
    ZipFill(f, ctx[2..], t);
    var before := Node(Red, Node(Black, t, p.p, p.k, p.v, p.r), g.p, g.k, g.v, g.r);
    RotateRightInorder(before);
    assert Inorder(before) == Inorder(Fill(g, Fill(p, t)));
    InorderPlugSame(ctx[2..], Fill(f, t), Fill(g, Fill(p, t)));
  }

  /** Case 3, mirror. */
  lemma InsertOuterRight<V>(ctx: Path<V>, t: Tree<V>)
    requires InsertInv(ctx, t) && |ctx| >= 2 && ctx[0].InR? && ctx[0].c == Red
    requires ctx[1].InR? && ColorOf(ctx[1].l) == Black
    ensures var p, g := ctx[0], ctx[1];
      InsertInv([InR(Black, Node(Red, g.l, g.p, g.k, g.v, p.l), p.p, p.k, p.v)] + ctx[2..], t)
    ensures var p, g := ctx[0], ctx[1];
      Inorder(Plug([InR(Black, Node(Red, g.l, g.p, g.k, g.v, p.l), p.p, p.k, p.v)] + ctx[2..], t))
      == Inorder(Plug(ctx, t))
  {
    var p, g := ctx[0], ctx[1];
    var f := InR(Black, Node(Red, g.l, g.p, g.k, g.v, p.l), p.p, p.k, p.v);
    InsertGrandparent(ctx, t);
    assert ctx[1..][1..] == ctx[2..];
    assert ctx[1..][0] == g;
    assert ([f] + ctx[2..])[1..] == ctx[2..];
    assert BalancedCtx(ctx[1..], BH(t)) && RedOkPath(ctx[1..], Red);
    assert BalancedCtx(ctx[2..], BH(t) + 1) && RedOkPath(ctx[2..], Black);
    ZipFill(f, ctx[2..], t);
    var before := Node(Red, g.l, g.p, g.k, g.v, Node(Black, p.l, p.p, p.k, p.v, t));
    RotateLeftInorder(before);
    assert Inorder(before) == Inorder(Fill(g, Fill(p, t)));
    InorderPlugSame(ctx[2..], Fill(f, t), Fill(g, Fill(p, t)));
  }

  // ---------------------------------------------------------------------------
  // eraseFixup
  // ---------------------------------------------------------------------------

  /** Loop invariant of the deletion fix-up: the focus x carries an extra black. Its
      subtree is balanced, has no red-red edge once x is painted black, and every
      path through x is one black node short of the paths beside it. */
  ghost predicate EraseInv<V>(ctx: Path<V>, t: Tree<V>) {
    Balanced(t) && RedOk(Blacken(t)) &&
    BalancedCtx(ctx, BH(t) + 1) && RedOkPath(ctx, Black) && RootBlack(ctx)
  }

  /** What the loop's iterations decrease: the focus climbs, or turns red. */
  function EraseMeasure<V>(ctx: Path<V>, t: Tree<V>): nat {
    |ctx| + Blk(ColorOf(t))
  }

  /** The sibling of x is one black level taller than x, so it is never the sentinel. */
  lemma EraseSibling<V>(ctx: Path<V>, t: Tree<V>)
    requires EraseInv(ctx, t) && ctx != []
    ensures Sibling(ctx[0]).Node? && BH(Sibling(ctx[0])) == BH(t) + 1
  {
  }

  /** When x is red, or is the root, painting x black leaves a red-black tree. */
  lemma EraseDone<V>(ctx: Path<V>, t: Tree<V>)
    requires EraseInv(ctx, t) && (ctx == [] || ColorOf(t) == Red)
    ensures IsRB(Plug(ctx, Blacken(t)))
    ensures Inorder(Plug(ctx, Blacken(t))) == Inorder(Plug(ctx, t))
  {
    BlackenKeeps(t);
    PlugBalanced(ctx, Blacken(t));
    PlugRedOk(ctx, Blacken(t));
    InorderPlugSame(ctx, Blacken(t), t);
  }

  /** Case 1, x a left child, sibling w red: w black, parent red, rotate the parent
      left. The new sibling is w's old left child, which is black. */
  lemma EraseRedSiblingLeft<V>(ctx: Path<V>, t: Tree<V>)
    requires EraseInv(ctx, t) && ctx != [] && ColorOf(t) == Black
    requires ctx[0].InL? && ColorOf(ctx[0].r) == Red
    ensures var f, w := ctx[0], ctx[0].r;
      EraseInv([InL(Red, f.p, f.k, f.v, w.left), InL(Black, w.id, w.key, w.val, w.right)] + ctx[1..], t)
    ensures ColorOf(ctx[0].r.left) == Black
    ensures var f, w := ctx[0], ctx[0].r;
      Inorder(Plug([InL(Red, f.p, f.k, f.v, w.left), InL(Black, w.id, w.key, w.val, w.right)] + ctx[1..], t))
      == Inorder(Plug(ctx, t))
  {
    var f, w := ctx[0], ctx[0].r;
    var a := InL(Red, f.p, f.k, f.v, w.left);
    var b := InL(Black, w.id, w.key, w.val, w.right);
    var ctx' := [a, b] + ctx[1..];
    assert f.c == Black;
    assert ctx'[1..] == [b] + ctx[1..];
    assert ctx'[1..][1..] == ctx[1..];
    assert BalancedCtx(ctx[1..], BH(t) + 2);
    assert RedOkPath(ctx[1..], Black);
    PlugConcat([a, b], ctx[1..], t);
    assert [a, b][1..] == [b];
    ZipFill(a, [b], t);
    ZipFill(b, [], Fill(a, t));
    assert Plug([a, b], t) == Node(Black, Node(Red, t, f.p, f.k, f.v, w.left), w.id, w.key, w.val, w.right);
    RotateLeftInorder(Node(Red, t, f.p, f.k, f.v, Node(Black, w.left, w.id, w.key, w.val, w.right)));
    InorderPlugSame(ctx[1..], Plug([a, b], t), Fill(f, t));
  }

  /** Case 1, mirror. */
  lemma EraseRedSiblingRight<V>(ctx: Path<V>, t: Tree<V>)
    requires EraseInv(ctx, t) && ctx != [] && ColorOf(t) == Black
    requires ctx[0].InR? && ColorOf(ctx[0].l) == Red
    ensures var f, w := ctx[0], ctx[0].l;
      EraseInv([InR(Red, w.right, f.p, f.k, f.v), InR(Black, w.left, w.id, w.key, w.val)] + ctx[1..], t)
    ensures ColorOf(ctx[0].l.right) == Black
    ensures var f, w := ctx[0], ctx[0].l;
      Inorder(Plug([InR(Red, w.right, f.p, f.k, f.v), InR(Black, w.left, w.id, w.key, w.val)] + ctx[1..], t))
      == Inorder(Plug(ctx, t))
  {
    var f, w := ctx[0], ctx[0].l;
    var a := InR(Red, w.right, f.p, f.k, f.v);
    var b := InR(Black, w.left, w.id, w.key, w.val);
    var ctx' := [a, b] + ctx[1..];
    assert f.c == Black;
    assert ctx'[1..] == [b] + ctx[1..];
    assert ctx'[1..][1..] == ctx[1..];
    assert BalancedCtx(ctx[1..], BH(t) + 2);
    assert RedOkPath(ctx[1..], Black);
    PlugConcat([a, b], ctx[1..], t);
    assert [a, b][1..] == [b];
    ZipFill(a, [b], t);
    ZipFill(b, [], Fill(a, t));
    assert Plug([a, b], t) == Node(Black, w.left, w.id, w.key, w.val, Node(Red, w.right, f.p, f.k, f.v, t));
    RotateRightInorder(Node(Red, Node(Black, w.left, w.id, w.key, w.val, w.right), f.p, f.k, f.v, t));
    InorderPlugSame(ctx[1..], Plug([a, b], t), Fill(f, t));
  }

  /** Case 2 (either side): w black with two black children. w turns red and the
      extra black moves up to the parent. */
  lemma EraseRecolor<V>(ctx: Path<V>, t: Tree<V>)
    requires EraseInv(ctx, t) && ctx != [] && ColorOf(t) == Black && Sibling(ctx[0]).Node?
    requires ColorOf(Sibling(ctx[0])) == Black
    requires ColorOf(Sibling(ctx[0]).left) == Black && ColorOf(Sibling(ctx[0]).right) == Black
    ensures var f := ctx[0];
      EraseInv(ctx[1..], Fill(WithSibling(f, Sibling(f).(color := Red)), t))
    ensures var f := ctx[0];
      ColorOf(Fill(WithSibling(f, Sibling(f).(color := Red)), t)) == f.c
    ensures var f := ctx[0];
      Inorder(Plug(ctx[1..], Fill(WithSibling(f, Sibling(f).(color := Red)), t))) == Inorder(Plug(ctx, t))
  {
    var f := ctx[0];
    var w := Sibling(f);
    var f' := WithSibling(f, w.(color := Red));
    assert Sibling(f') == w.(color := Red);
    assert f'.c == f.c;
    BalancedFill(f', t);
    RedOkFill(f', t);
    BlackenKeeps(Fill(f', t));
    RedOkPathBlack(ctx[1..], f.c);
    assert Inorder(Fill(f', t)) == Inorder(Fill(f, t));
    InorderPlugSame(ctx[1..], Fill(f', t), Fill(f, t));
  }

  /** Case 3, x a left child: w black, w's right child black, w's left child red.
      Swap the colours of w and its left child and rotate w right; the new sibling
      is black with a red right child (case 4). */
  lemma EraseNearRedLeft<V>(ctx: Path<V>, t: Tree<V>)
    requires EraseInv(ctx, t) && ctx != [] && ColorOf(t) == Black && ctx[0].InL? && ctx[0].r.Node?
    requires ColorOf(ctx[0].r) == Black && ColorOf(ctx[0].r.right) == Black && ColorOf(ctx[0].r.left) == Red
    ensures var w := ctx[0].r; var a := w.left;
      EraseInv([ctx[0].(r := Node(Black, a.left, a.id, a.key, a.val, Node(Red, a.right, w.id, w.key, w.val, w.right)))]
               + ctx[1..], t)
    ensures var w := ctx[0].r; var a := w.left;
      Inorder(Plug([ctx[0].(r := Node(Black, a.left, a.id, a.key, a.val, Node(Red, a.right, w.id, w.key, w.val, w.right)))]
                   + ctx[1..], t))
      == Inorder(Plug(ctx, t))
  {
    assert Balanced(Sibling(ctx[0])) && BH(Sibling(ctx[0])) == BH(t) + 1 && RedOk(Sibling(ctx[0]));
    assert Blacken(t) == t;
    var f, w := ctx[0], ctx[0].r;
    var a := w.left;
    var w' := Node(Black, a.left, a.id, a.key, a.val, Node(Red, a.right, w.id, w.key, w.val, w.right));
    assert Sibling(f) == w && Balanced(w) && RedOk(w) && Balanced(a) && RedOk(a);
    assert BH(a.left) == BH(a.right) == BH(w.right) == BH(t);
    var f' := f.(r := w');
    assert ([f'] + ctx[1..])[1..] == ctx[1..];
    assert ([f'] + ctx[1..])[0] == f';
    assert BalancedCtx(ctx[1..], BH(t) + 1 + Blk(f.c)) && RedOkPath(ctx[1..], f.c);
    assert Sibling(f') == w' && f'.c == f.c;
    assert BH(w'.right) == BH(t);
    assert BH(w'.left) == BH(t);
    assert Balanced(w'.right);
    assert Balanced(w') && BH(w') == BH(t) + 1 && RedOk(w');
    RotateRightInorder(Node(Red, Node(Black, a.left, a.id, a.key, a.val, a.right), w.id, w.key, w.val, w.right));
    ZipFill(f', ctx[1..], t);
    assert Inorder(w') == Inorder(w);
    assert Inorder(Fill(f', t)) == Inorder(Fill(f, t));
    InorderPlugSame(ctx[1..], Fill(f', t), Fill(f, t));
  }

  /** Case 3, mirror. */
  lemma EraseNearRedRight<V>(ctx: Path<V>, t: Tree<V>)
    requires EraseInv(ctx, t) && ctx != [] && ColorOf(t) == Black && ctx[0].InR? && ctx[0].l.Node?
    requires ColorOf(ctx[0].l) == Black && ColorOf(ctx[0].l.left) == Black && ColorOf(ctx[0].l.right) == Red
    ensures var w := ctx[0].l; var a := w.right;
      EraseInv([ctx[0].(l := Node(Black, Node(Red, w.left, w.id, w.key, w.val, a.left), a.id, a.key, a.val, a.right))]
               + ctx[1..], t)
    ensures var w := ctx[0].l; var a := w.right;
      Inorder(Plug([ctx[0].(l := Node(Black, Node(Red, w.left, w.id, w.key, w.val, a.left), a.id, a.key, a.val, a.right))]
                   + ctx[1..], t))
      == Inorder(Plug(ctx, t))
  {
    assert Balanced(Sibling(ctx[0])) && BH(Sibling(ctx[0])) == BH(t) + 1 && RedOk(Sibling(ctx[0]));
    assert Blacken(t) == t;
    var f, w := ctx[0], ctx[0].l;
    var a := w.right;
    var w' := Node(Black, Node(Red, w.left, w.id, w.key, w.val, a.left), a.id, a.key, a.val, a.right);
    assert Sibling(f) == w && Balanced(w) && RedOk(w) && Balanced(a) && RedOk(a);
    assert BH(a.left) == BH(a.right) == BH(w.left) == BH(t);
    var f' := f.(l := w');
    assert ([f'] + ctx[1..])[1..] == ctx[1..];
    assert ([f'] + ctx[1..])[0] == f';
    assert BalancedCtx(ctx[1..], BH(t) + 1 + Blk(f.c)) && RedOkPath(ctx[1..], f.c);
    assert Sibling(f') == w' && f'.c == f.c;
    assert BH(w'.right) == BH(t);
    assert BH(w'.left) == BH(t);
    assert Balanced(w'.left);
    assert Balanced(w') && BH(w') == BH(t) + 1 && RedOk(w');
    RotateLeftInorder(Node(Red, w.left, w.id, w.key, w.val, Node(Black, a.left, a.id, a.key, a.val, a.right)));
    ZipFill(f', ctx[1..], t);
    assert Inorder(w') == Inorder(w);
    assert Inorder(Fill(f', t)) == Inorder(Fill(f, t));
    InorderPlugSame(ctx[1..], Fill(f', t), Fill(f, t));
  }

  /** Case 4, x a left child: w black with a red right child. w takes the parent's
      colour, the parent and w's right child turn black, and rotating the parent left
      absorbs the extra black: the whole tree is then balanced. */
  lemma EraseFarRedLeft<V>(ctx: Path<V>, t: Tree<V>)
    requires EraseInv(ctx, t) && ctx != [] && ColorOf(t) == Black && ctx[0].InL? && ctx[0].r.Node?
    requires ColorOf(ctx[0].r) == Black && ColorOf(ctx[0].r.right) == Red
    ensures var f, w := ctx[0], ctx[0].r;
      EraseInv([], Plug(ctx[1..], Node(f.c, Node(Black, t, f.p, f.k, f.v, w.left), w.id, w.key, w.val, Blacken(w.right))))
    ensures var f, w := ctx[0], ctx[0].r;
      Inorder(Plug(ctx[1..], Node(f.c, Node(Black, t, f.p, f.k, f.v, w.left), w.id, w.key, w.val, Blacken(w.right))))
      == Inorder(Plug(ctx, t))
  {
    FarRedLeftInv(ctx, t);
    FarRedLeftOrder(ctx, t);
  }

  /** Case 4 ends the fix-up with a red-black tree. */
  lemma FarRedLeftInv<V>(ctx: Path<V>, t: Tree<V>)
    requires EraseInv(ctx, t) && ctx != [] && ColorOf(t) == Black && ctx[0].InL? && ctx[0].r.Node?
    requires ColorOf(ctx[0].r) == Black && ColorOf(ctx[0].r.right) == Red
    ensures var f, w := ctx[0], ctx[0].r;
      EraseInv([], Plug(ctx[1..], Node(f.c, Node(Black, t, f.p, f.k, f.v, w.left), w.id, w.key, w.val, Blacken(w.right))))
  {
    assert Balanced(Sibling(ctx[0])) && BH(Sibling(ctx[0])) == BH(t) + 1 && RedOk(Sibling(ctx[0]));
    assert Blacken(t) == t;
    var f, w := ctx[0], ctx[0].r;
    var s := Node(f.c, Node(Black, t, f.p, f.k, f.v, w.left), w.id, w.key, w.val, Blacken(w.right));
    BlackenKeeps(w.right);
    assert Sibling(f) == w && Balanced(w) && RedOk(w);
    assert BH(w.left) == BH(w.right) == BH(t);
    assert RedOk(w.left) && RedOk(Blacken(w.right)) && RedOk(t);
    assert ColorOf(s.left) == Black && ColorOf(s.right) == Black;
    assert Balanced(s.left) && Balanced(s.right);
    assert BH(s.left) == BH(t) + 1 && BH(s.right) == BH(t) + 1;
    assert Balanced(s) && BH(s) == BH(t) + 1 + Blk(f.c);
    assert RedOk(s);
    PlugBalanced(ctx[1..], s);
    PlugRedOk(ctx[1..], s);
    RedOkPathBlack(ctx[1..], f.c);
    BlackenKeeps(Plug(ctx[1..], s));
  }

  /** Case 4 keeps the elements in order. */
  lemma FarRedLeftOrder<V>(ctx: Path<V>, t: Tree<V>)
    requires ctx != [] && ctx[0].InL? && ctx[0].r.Node?
    ensures var f, w := ctx[0], ctx[0].r;
      Inorder(Plug(ctx[1..], Node(f.c, Node(Black, t, f.p, f.k, f.v, w.left), w.id, w.key, w.val, Blacken(w.right))))
      == Inorder(Plug(ctx, t))
  {
    var f, w := ctx[0], ctx[0].r;
    var s := Node(f.c, Node(Black, t, f.p, f.k, f.v, w.left), w.id, w.key, w.val, Blacken(w.right));
    BlackenKeeps(w.right);
    Regroup2(Inorder(t), [Entry(f.p, f.k, f.v)], Inorder(w.left), [Entry(w.id, w.key, w.val)], Inorder(w.right));
    assert Inorder(s) == Inorder(Fill(f, t));
    InorderPlugSame(ctx[1..], s, Fill(f, t));
  }


  /** Case 4, mirror. */
  lemma EraseFarRedRight<V>(ctx: Path<V>, t: Tree<V>)
    requires EraseInv(ctx, t) && ctx != [] && ColorOf(t) == Black && ctx[0].InR? && ctx[0].l.Node?
    requires ColorOf(ctx[0].l) == Black && ColorOf(ctx[0].l.left) == Red
    ensures var f, w := ctx[0], ctx[0].l;
      EraseInv([], Plug(ctx[1..], Node(f.c, Blacken(w.left), w.id, w.key, w.val, Node(Black, w.right, f.p, f.k, f.v, t))))
    ensures var f, w := ctx[0], ctx[0].l;
      Inorder(Plug(ctx[1..], Node(f.c, Blacken(w.left), w.id, w.key, w.val, Node(Black, w.right, f.p, f.k, f.v, t))))
      == Inorder(Plug(ctx, t))
  {
    FarRedRightInv(ctx, t);
    FarRedRightOrder(ctx, t);
  }

  /** Case 4 ends the fix-up with a red-black tree. */
  lemma FarRedRightInv<V>(ctx: Path<V>, t: Tree<V>)
    requires EraseInv(ctx, t) && ctx != [] && ColorOf(t) == Black && ctx[0].InR? && ctx[0].l.Node?
    requires ColorOf(ctx[0].l) == Black && ColorOf(ctx[0].l.left) == Red
    ensures var f, w := ctx[0], ctx[0].l;
      EraseInv([], Plug(ctx[1..], Node(f.c, Blacken(w.left), w.id, w.key, w.val, Node(Black, w.right, f.p, f.k, f.v, t))))
  {
    assert Balanced(Sibling(ctx[0])) && BH(Sibling(ctx[0])) == BH(t) + 1 && RedOk(Sibling(ctx[0]));
    assert Blacken(t) == t;
    var f, w := ctx[0], ctx[0].l;
    var s := Node(f.c, Blacken(w.left), w.id, w.key, w.val, Node(Black, w.right, f.p, f.k, f.v, t));
    BlackenKeeps(w.left);
    assert Sibling(f) == w && Balanced(w) && RedOk(w);
    assert BH(w.left) == BH(w.right) == BH(t);
    assert RedOk(w.right) && RedOk(Blacken(w.left)) && RedOk(t);
    assert ColorOf(s.left) == Black && ColorOf(s.right) == Black;
    assert Balanced(s.left) && Balanced(s.right);
    assert BH(s.left) == BH(t) + 1 && BH(s.right) == BH(t) + 1;
    assert Balanced(s) && BH(s) == BH(t) + 1 + Blk(f.c);
    assert RedOk(s);
    PlugBalanced(ctx[1..], s);
    PlugRedOk(ctx[1..], s);
    RedOkPathBlack(ctx[1..], f.c);
    BlackenKeeps(Plug(ctx[1..], s));
  }

  /** Case 4 keeps the elements in order. */
  lemma FarRedRightOrder<V>(ctx: Path<V>, t: Tree<V>)
    requires ctx != [] && ctx[0].InR? && ctx[0].l.Node?
    ensures var f, w := ctx[0], ctx[0].l;
      Inorder(Plug(ctx[1..], Node(f.c, Blacken(w.left), w.id, w.key, w.val, Node(Black, w.right, f.p, f.k, f.v, t))))
      == Inorder(Plug(ctx, t))
  {
    var f, w := ctx[0], ctx[0].l;
    var s := Node(f.c, Blacken(w.left), w.id, w.key, w.val, Node(Black, w.right, f.p, f.k, f.v, t));
    BlackenKeeps(w.left);
    Regroup2(Inorder(w.left), [Entry(w.id, w.key, w.val)], Inorder(w.right), [Entry(f.p, f.k, f.v)], Inorder(t));
    assert Inorder(s) == Inorder(Fill(f, t));
    InorderPlugSame(ctx[1..], s, Fill(f, t));
  }


  // ---------------------------------------------------------------------------
  // erase: unlinking the node before the fix-up
  // ---------------------------------------------------------------------------

  /** z has only a right subtree (or none), which takes its place. If z was black the
      fix-up starts at that subtree with an extra black; if red, nothing is broken. */
  lemma SpliceLeftNil<V>(ctx: Path<V>, z: Tree<V>)
    requires IsRB(Plug(ctx, z)) && z.Node? && z.left.Leaf?
    ensures z.color == Black ==> EraseInv(ctx, z.right)
    ensures z.color == Red ==> IsRB(Plug(ctx, z.right))
  {
    PlugBalanced(ctx, z);
    PlugRedOk(ctx, z);
    RedOkPathBlack(ctx, z.color);
    if z.color == Red {
      BlackHeightZero(z.right);
      PlugBalanced(ctx, z.right);
      PlugRedOk(ctx, z.right);
    }
  }

  /** Mirror: z has only a left subtree. */
  lemma SpliceRightNil<V>(ctx: Path<V>, z: Tree<V>)
    requires IsRB(Plug(ctx, z)) && z.Node? && z.right.Leaf?
    ensures z.color == Black ==> EraseInv(ctx, z.left)
    ensures z.color == Red ==> IsRB(Plug(ctx, z.left))
  {
    PlugBalanced(ctx, z);
    PlugRedOk(ctx, z);
    RedOkPathBlack(ctx, z.color);
    if z.color == Red {
      BlackHeightZero(z.left);
      PlugBalanced(ctx, z.left);
      PlugRedOk(ctx, z.left);
    }
  }

  /** The path from the right subtree of the successor up to the root once the
      successor y has taken z's place and colour. */
  function SpliceCtx<V>(ctx: Path<V>, z: Tree<V>): Path<V>
    requires z.Node? && z.right.Node?
  {
    var y := MinNode(z.right);
    MinPath(z.right) + [InR(z.color, z.left, y.id, y.key, y.val)] + ctx
  }

  /** z has two children: its successor y (leftmost node of the right subtree) is
      unlinked, its right subtree takes its place, and y takes z's place and colour.
      If y was black the fix-up starts at y's old right subtree with an extra black;
      if y was red, nothing is broken. */
  lemma SpliceSuccessor<V>(ctx: Path<V>, z: Tree<V>)
    requires IsRB(Plug(ctx, z)) && z.Node? && z.left.Node? && z.right.Node?
    ensures MinNode(z.right).color == Black ==> EraseInv(SpliceCtx(ctx, z), MinNode(z.right).right)
    ensures MinNode(z.right).color == Red ==> IsRB(Plug(SpliceCtx(ctx, z), MinNode(z.right).right))
  {
    var y := MinNode(z.right);
    SplicePath(ctx, z);
    if y.color == Red {
      BlackHeightZero(y.right);
      PlugBalanced(SpliceCtx(ctx, z), y.right);
      PlugRedOk(SpliceCtx(ctx, z), y.right);
    }
  }

  /** The path from y's old right subtree up to the root once y has replaced z. */
  lemma SplicePath<V>(ctx: Path<V>, z: Tree<V>)
    requires IsRB(Plug(ctx, z)) && z.Node? && z.left.Node? && z.right.Node?
    ensures var y, c := MinNode(z.right), SpliceCtx(ctx, z);
      Balanced(y.right) && RedOk(y.right) && RedOk(Blacken(y.right)) && BH(y.right) == 0 &&
      (y.color == Red ==> ColorOf(y.right) == Black) &&
      BalancedCtx(c, Blk(y.color)) && RedOkPath(c, Black) && RootBlack(c)
  {
    var y := MinNode(z.right);
    var cy := MinPath(z.right);
    var fz := InR(z.color, z.left, y.id, y.key, y.val);
    var up := [fz] + ctx;
    AppendAssoc(cy, [fz], ctx);
    MinZip(z.right);
    PlugBalanced(ctx, z);
    PlugRedOk(ctx, z);
    PlugBalanced(cy, y);
    PlugRedOk(cy, y);
    assert BH(y.right) == 0;
    var h := BH(y.right) + Blk(y.color);
    assert BalancedCtx(cy, h);
    assert BH(z.left) == h + BlackCount(cy);
    BalancedCons(fz, ctx, h + BlackCount(cy));
    BalancedCtxConcat(cy, up, h);
    RedOkPathBlack(cy, y.color);
    assert TopColor(cy, Black) == Black || TopColor(cy, Black) == ColorOf(z.right);
    assert RedOkPath(up, TopColor(cy, Black));
    RedOkPathConcat(cy, up, Black);
    assert RootBlack(cy + up) by {
      LastOfConcat(cy, up);
      if ctx == [] {
        assert up[|up| - 1] == fz;
      } else {
        assert up[|up| - 1] == ctx[|ctx| - 1];
      }
    }
  }

  lemma BalancedCons<V>(f: Frame<V>, ctx: Path<V>, h: nat)
    requires Balanced(Sibling(f)) && BH(Sibling(f)) == h && BalancedCtx(ctx, h + Blk(f.c))
    ensures BalancedCtx([f] + ctx, h)
  {
    ConsParts(f, ctx);
  }

  lemma LastOfConcat<T>(a: seq<T>, b: seq<T>)
    requires b != []
    ensures (a + b)[|a + b| - 1] == b[|b| - 1]
  {
  }

  /** The subtree at z's position once the successor y has replaced z: y's id, key and
      value with z's colour and left subtree, and z's right subtree without y. */
  function SpliceTop<V>(z: Tree<V>): Tree<V>
    requires z.Node? && z.right.Node?
  {
    var y := MinNode(z.right);
    Node(z.color, z.left, y.id, y.key, y.val, Plug(MinPath(z.right), y.right))
  }

  /** Focusing the spliced tree at y's old right subtree. */
  lemma SplicePlug<V>(ctx: Path<V>, z: Tree<V>)
    requires z.Node? && z.right.Node?
    ensures var y := MinNode(z.right);
      Plug(SpliceCtx(ctx, z), y.right) == Plug(ctx, SpliceTop(z)) &&
      Plug([InR(z.color, z.left, y.id, y.key, y.val)] + ctx, Plug(MinPath(z.right), y.right)) == Plug(ctx, SpliceTop(z))
  {
    var y := MinNode(z.right);
    var fz := InR(z.color, z.left, y.id, y.key, y.val);
    assert SpliceCtx(ctx, z) == MinPath(z.right) + ([fz] + ctx);
    PlugConcat(MinPath(z.right), [fz] + ctx, y.right);
    ZipFill(fz, ctx, Plug(MinPath(z.right), y.right));
  }

  /** Without z, z's subtree holds its left subtree's elements followed by its right
      subtree's. */
  lemma SpliceTopInorder<V>(z: Tree<V>)
    requires z.Node? && z.right.Node?
    ensures Inorder(SpliceTop(z)) == Inorder(z.left) + Inorder(z.right)
  {
    var y := MinNode(z.right);
    var ey := Entry(y.id, y.key, y.val);
    MinSplit(z.right);
    AppendAssoc(Inorder(z.left), [ey], Inorder(Plug(MinPath(z.right), y.right)));
  }

  /** The spliced tree holds exactly z's subtree without z, in the same order. */
  lemma SpliceInorder<V>(ctx: Path<V>, z: Tree<V>)
    requires z.Node? && z.right.Node?
    ensures Inorder(Plug(SpliceCtx(ctx, z), MinNode(z.right).right)) ==
      (LeftOf(ctx) + Inorder(z.left)) + (Inorder(z.right) + RightOf(ctx))
  {
    SplicePlug(ctx, z);
    SpliceTopInorder(z);
    InorderPlug(ctx, SpliceTop(z));
  }

  /** The spliced subtree keeps distinct ids, all of them ids of z's subtree other than
      z; y is no longer in z's old right subtree. */
  lemma SpliceIds<V>(ctx: Path<V>, z: Tree<V>)
    requires DistinctZ(ctx, z) && z.Node? && z.right.Node?
    ensures var y := MinNode(z.right); var r := Plug(MinPath(z.right), y.right);
      DistinctZ(ctx, SpliceTop(z)) && z.id !in IdSet(SpliceTop(z)) && y.id !in IdSet(r) &&
      y.id != z.id && y.id !in IdSet(z.left) && y.id !in CtxIds(ctx) &&
      IdSet(SpliceTop(z)) <= IdSet(z) && IdSet(r) <= IdSet(z.right)
  {
    MinOutIds(z.right);
  }

  /** Unlinking the minimum y of a tree with distinct ids leaves distinct ids: those of
      the tree without y. */
  lemma MinOutIds<V>(t: Tree<V>)
    requires Distinct(t) && t.Node?
    ensures var y := MinNode(t); var r := Plug(MinPath(t), y.right);
      Distinct(r) && y.id in IdSet(t) && y.id !in IdSet(r) && IdSet(r) <= IdSet(t)
  {
    var y := MinNode(t);
    var mp := MinPath(t);
    MinZip(t);
    PlugIds(mp, y);
    PlugIds(mp, y.right);
    assert IdSet(y) == {y.id} + IdSet(y.right);
  }

  /** A renumbered tree has the colours and shape of the original, so it is a
      red-black tree exactly when the original is. */
  lemma {:induction false} RenumberRB<V>(t: Tree<V>, n: nat)
    ensures BH(Renumber(t, n)) == BH(t) && ColorOf(Renumber(t, n)) == ColorOf(t)
    ensures Balanced(Renumber(t, n)) == Balanced(t) && RedOk(Renumber(t, n)) == RedOk(t)
    ensures IsRB(Renumber(t, n)) == IsRB(t)
  {
    match t
    case Leaf =>
    case Node(c, l, _, k, v, r) =>
      RenumberRB(l, n + 1);
      RenumberRB(r, n + 1 + |Inorder(l)|);
  }
}
