/** The pointer structure of `sjtu::map`: every `Node` is a record in an arena indexed
    by node id, and the sentinel `nil` is record 0. `Linked` says that the records
    reached from a root id are exactly the nodes of a functional tree, with every
    child's `parent` field pointing back; `Shaped` says the same of a zipper, which
    names one position (possibly the sentinel) of the tree. */
module Arena {
  import opened RedBlack

  /** One `Node`: its key/value pair, its three links and its colour. */
  datatype NodeRec<V> = NodeRec(key: int, val: V, left: nat, right: nat, parent: nat, color: Color)

  /** The id of the sentinel. */
  const Nil: nat := 0

  /** Every link stays inside the arena, and the sentinel is BLACK with itself as both
      children. Its parent field is free: the deletion code writes it. */
  ghost predicate ArenaOk<V>(nodes: seq<NodeRec<V>>) {
    |nodes| > 0 && nodes[Nil].left == Nil && nodes[Nil].right == Nil && nodes[Nil].color == Black &&
    forall i | 0 <= i < |nodes| :: nodes[i].left < |nodes| && nodes[i].right < |nodes| && nodes[i].parent < |nodes|
  }

  /** The records below id RootId(t) form exactly the tree t, whose root's parent is p. */
  ghost predicate Linked<V>(nodes: seq<NodeRec<V>>, t: Tree<V>, p: nat) {
    match t
    case Leaf => true
    case Node(c, l, id, k, v, r) =>
      0 < id < |nodes| && nodes[id] == NodeRec(k, v, RootId(l), RootId(r), p, c) &&
      Linked(nodes, l, id) && Linked(nodes, r, id)
  }

  /** The record that the parent named by frame f holds when its child on the focus side
      has id child and its own parent is parent. */
  function FrameRec<V>(f: Frame<V>, child: nat, parent: nat): NodeRec<V> {
    match f
    case InL(c, _, k, v, r) => NodeRec(k, v, child, RootId(r), parent, c)
    case InR(c, l, _, k, v) => NodeRec(k, v, RootId(l), child, parent, c)
  }

  /** The records along the path up from a focus whose root has id child. */
  ghost predicate LinkedCtx<V>(nodes: seq<NodeRec<V>>, ctx: Path<V>, child: nat)
    decreases |ctx|
  {
    ctx == [] ||
    (0 < ctx[0].p < |nodes| && nodes[ctx[0].p] == FrameRec(ctx[0], child, ParentId(ctx[1..])) &&
     Linked(nodes, Sibling(ctx[0]), ctx[0].p) && LinkedCtx(nodes, ctx[1..], ctx[0].p))
  }

  /** The arena with root pointer root holds the tree Plug(ctx, t), focused at t. */
  ghost predicate Shaped<V>(nodes: seq<NodeRec<V>>, root: nat, ctx: Path<V>, t: Tree<V>) {
    ArenaOk(nodes) && LinkedCtx(nodes, ctx, RootId(t)) && Linked(nodes, t, ParentId(ctx)) &&
    DistinctZ(ctx, t) && root == TopId(ctx, RootId(t))
  }

  /** Two arenas hold the same records at the ids in s. */
  ghost predicate Agree<V>(n1: seq<NodeRec<V>>, n2: seq<NodeRec<V>>, s: set<nat>) {
    forall i | i in s && i < |n1| :: i < |n2| && n2[i] == n1[i]
  }

  // ---------------------------------------------------------------------------
  // Frame lemmas
  // ---------------------------------------------------------------------------

  lemma {:induction false} LinkedIds<V>(nodes: seq<NodeRec<V>>, t: Tree<V>, p: nat)
    requires Linked(nodes, t, p)
    ensures forall i | i in IdSet(t) :: 0 < i < |nodes|
  {
    match t
    case Leaf =>
    case Node(_, l, _, _, _, r) =>
      LinkedIds(nodes, l, t.id);
      LinkedIds(nodes, r, t.id);
  }

  lemma {:induction false} LinkedCtxIds<V>(nodes: seq<NodeRec<V>>, ctx: Path<V>, child: nat)
    requires LinkedCtx(nodes, ctx, child)
    ensures forall i | i in CtxIds(ctx) :: 0 < i < |nodes|
    decreases |ctx|
  {
    if ctx != [] {
      LinkedIds(nodes, Sibling(ctx[0]), ctx[0].p);
      LinkedCtxIds(nodes, ctx[1..], ctx[0].p);
    }
  }

  /** Linked only looks at the records of the tree's own nodes. */
  lemma {:induction false} LinkedFrame<V>(n1: seq<NodeRec<V>>, n2: seq<NodeRec<V>>, t: Tree<V>, p: nat)
    requires Linked(n1, t, p) && Agree(n1, n2, IdSet(t))
    ensures Linked(n2, t, p)
  {
    match t
    case Leaf =>
    case Node(_, l, id, _, _, r) =>
      assert id in IdSet(t);
      LinkedFrame(n1, n2, l, id);
      LinkedFrame(n1, n2, r, id);
  }

  lemma {:induction false} LinkedCtxFrame<V>(n1: seq<NodeRec<V>>, n2: seq<NodeRec<V>>, ctx: Path<V>, child: nat)
    requires LinkedCtx(n1, ctx, child) && Agree(n1, n2, CtxIds(ctx))
    ensures LinkedCtx(n2, ctx, child)
    decreases |ctx|
  {
    if ctx != [] {
      assert ctx[0].p in CtxIds(ctx);
      LinkedFrame(n1, n2, Sibling(ctx[0]), ctx[0].p);
      LinkedCtxFrame(n1, n2, ctx[1..], ctx[0].p);
    }
  }

  /** A zipper with its nodes' records untouched and the same root is still in place. */
  lemma ShapedFrame<V>(n1: seq<NodeRec<V>>, n2: seq<NodeRec<V>>, root: nat, ctx: Path<V>, t: Tree<V>)
    requires Shaped(n1, root, ctx, t) && ArenaOk(n2) && Agree(n1, n2, CtxIds(ctx) + IdSet(t))
    ensures Shaped(n2, root, ctx, t)
  {
    LinkedFrame(n1, n2, t, ParentId(ctx));
    LinkedCtxFrame(n1, n2, ctx, RootId(t));
  }

  // ---------------------------------------------------------------------------
  // Moving the focus
  // ---------------------------------------------------------------------------

  /** Moving the focus one level up or down keeps the same arena picture. */
  lemma ZipUp<V>(nodes: seq<NodeRec<V>>, root: nat, f: Frame<V>, ctx: Path<V>, t: Tree<V>)
    ensures Shaped(nodes, root, [f] + ctx, t) <==> Shaped(nodes, root, ctx, Fill(f, t))
  {
    var c := [f] + ctx;
    assert c[1..] == ctx && c[0] == f;
    ZipIds(f, ctx, t);
    assert TopId(c, RootId(t)) == TopId(ctx, f.p);
  }

  lemma {:induction false} ShapedConcat<V>(nodes: seq<NodeRec<V>>, root: nat, a: Path<V>, b: Path<V>, t: Tree<V>)
    ensures Shaped(nodes, root, a + b, t) <==> Shaped(nodes, root, b, Plug(a, t))
    decreases |a|
  {
    if a == [] {
      assert a + b == b;
    } else {
      assert a + b == [a[0]] + (a[1..] + b);
      ZipUp(nodes, root, a[0], a[1..] + b, t);
      ShapedConcat(nodes, root, a[1..], b, Fill(a[0], t));
    }
  }

  lemma ShapedPlug<V>(nodes: seq<NodeRec<V>>, root: nat, ctx: Path<V>, t: Tree<V>)
    ensures Shaped(nodes, root, ctx, t) <==> Shaped(nodes, root, [], Plug(ctx, t))
  {
    assert ctx + [] == ctx;
    ShapedConcat(nodes, root, ctx, [], t);
  }

  /** The focus is the whole tree exactly when it is at the root. */
  lemma AtRoot<V>(nodes: seq<NodeRec<V>>, root: nat, ctx: Path<V>, t: Tree<V>)
    requires Shaped(nodes, root, ctx, t)
    ensures root == RootId(t) <==> ctx == []
  {
    if ctx != [] {
      LinkedCtxIds(nodes, ctx, RootId(t));
      assert root in CtxIds(ctx) by { LastFrameId(ctx); }
      RootIdIn(t);
    }
  }

  lemma {:induction false} LastFrameId<V>(ctx: Path<V>)
    requires ctx != []
    ensures ctx[|ctx| - 1].p in CtxIds(ctx)
    decreases |ctx|
  {
    if |ctx| > 1 {
      LastFrameId(ctx[1..]);
      assert ctx[1..][|ctx[1..]| - 1] == ctx[|ctx| - 1];
    }
  }

  /** The parent's left link names the focus exactly when the focus is a left child,
      as long as the focus and its sibling are not both the sentinel. */
  lemma ChildSide<V>(nodes: seq<NodeRec<V>>, root: nat, ctx: Path<V>, t: Tree<V>)
    requires Shaped(nodes, root, ctx, t) && ctx != [] && (t.Node? || Sibling(ctx[0]).Node?)
    ensures nodes[ctx[0].p].left == RootId(t) <==> ctx[0].InL?
    ensures nodes[ctx[0].p].right == RootId(t) <==> ctx[0].InR?
  {
    RootIdIn(t);
    RootIdIn(Sibling(ctx[0]));
    LinkedIds(nodes, t, ctx[0].p);
    LinkedIds(nodes, Sibling(ctx[0]), ctx[0].p);
  }

  /** The colour stored for the focus's root, with the sentinel reading BLACK. */
  lemma FocusColor<V>(nodes: seq<NodeRec<V>>, root: nat, ctx: Path<V>, t: Tree<V>)
    requires Shaped(nodes, root, ctx, t)
    ensures nodes[RootId(t)].color == ColorOf(t)
    ensures ctx != [] ==> nodes[ParentId(ctx)].color == ctx[0].c
    ensures ctx == [] ==> nodes[ParentId(ctx)].color == Black
  {
  }

  // ---------------------------------------------------------------------------
  // Painting
  // ---------------------------------------------------------------------------

  ghost function Paint<V>(nodes: seq<NodeRec<V>>, id: nat, c: Color): seq<NodeRec<V>>
    requires id < |nodes|
  {
    nodes[id := nodes[id].(color := c)]
  }

  /** Recolouring the record of the focus's root recolours the focus in the picture. */
  lemma PaintFocus<V>(nodes: seq<NodeRec<V>>, root: nat, ctx: Path<V>, t: Tree<V>, c: Color)
    requires Shaped(nodes, root, ctx, t) && t.Node?
    ensures t.id < |nodes| && Shaped(Paint(nodes, t.id, c), root, ctx, t.(color := c))
    ensures Paint(nodes, t.id, c)[Nil] == nodes[Nil]
  {
    var n2 := Paint(nodes, t.id, c);
    var t2 := t.(color := c);
    assert Agree(nodes, n2, IdSet(t.left));
    assert Agree(nodes, n2, IdSet(t.right));
    assert Agree(nodes, n2, CtxIds(ctx));
    LinkedFrame(nodes, n2, t.left, t.id);
    LinkedFrame(nodes, n2, t.right, t.id);
    LinkedCtxFrame(nodes, n2, ctx, t.id);
    assert IdSet(t2) == IdSet(t);
  }

  /** The frame seen from the sibling's side: Fill(Flip(f, t), Sibling(f)) == Fill(f, t). */
  function Flip<V>(f: Frame<V>, t: Tree<V>): Frame<V> {
    match f
    case InL(c, p, k, v, _) => InR(c, t, p, k, v)
    case InR(c, _, p, k, v) => InL(c, p, k, v, t)
  }

  lemma FlipFill<V>(f: Frame<V>, t: Tree<V>)
    ensures Fill(Flip(f, t), Sibling(f)) == Fill(f, t)
    ensures Sibling(Flip(f, t)) == t
  {
  }

  // ---------------------------------------------------------------------------
  // Local rewrites
  // ---------------------------------------------------------------------------

  /** n1 is n0, possibly extended, with only the records at ids in s rewritten. */
  ghost predicate Except<V>(n0: seq<NodeRec<V>>, n1: seq<NodeRec<V>>, s: set<nat>) {
    |n0| <= |n1| && forall i | 0 <= i < |n0| && i !in s :: n1[i] == n0[i]
  }

  lemma ExceptMono<V>(n0: seq<NodeRec<V>>, n1: seq<NodeRec<V>>, s: set<nat>, s': set<nat>)
    requires Except(n0, n1, s) && s <= s'
    ensures Except(n0, n1, s')
  {
  }

  /** The ids of a tree below its root. */
  function ChildIds<V>(t: Tree<V>): set<nat> {
    if t.Leaf? then {} else IdSet(t.left) + IdSet(t.right)
  }

  /** Writing one record keeps every link inside the arena, provided the sentinel keeps
      its two self-links and its colour. */
  lemma ArenaWrite<V>(n: seq<NodeRec<V>>, i: nat, rec: NodeRec<V>)
    requires ArenaOk(n) && i < |n|
    requires rec.left < |n| && rec.right < |n| && rec.parent < |n|
    requires i == Nil ==> rec.left == Nil && rec.right == Nil && rec.color == Black
    ensures ArenaOk(n[i := rec])
  {
  }

  lemma ArenaAppend<V>(n: seq<NodeRec<V>>, rec: NodeRec<V>)
    requires ArenaOk(n)
    requires rec.left <= |n| && rec.right <= |n| && rec.parent <= |n|
    ensures ArenaOk(n + [rec])
  {
    var n1 := n + [rec];
    forall i | 0 <= i < |n1|
      ensures n1[i].left < |n1| && n1[i].right < |n1| && n1[i].parent < |n1|
    {
      if i < |n| { assert n1[i] == n[i]; }
    }
  }

  lemma LinkedAway<V>(n0: seq<NodeRec<V>>, n1: seq<NodeRec<V>>, t: Tree<V>, p: nat, s: set<nat>)
    requires Linked(n0, t, p) && Except(n0, n1, s) && IdSet(t) !! s
    ensures Linked(n1, t, p)
  {
    LinkedIds(n0, t, p);
    LinkedFrame(n0, n1, t, p);
  }

  lemma LinkedCtxAway<V>(n0: seq<NodeRec<V>>, n1: seq<NodeRec<V>>, ctx: Path<V>, c: nat, s: set<nat>)
    requires LinkedCtx(n0, ctx, c) && Except(n0, n1, s) && CtxIds(ctx) !! s
    ensures LinkedCtx(n1, ctx, c)
  {
    LinkedCtxIds(n0, ctx, c);
    LinkedCtxFrame(n0, n1, ctx, c);
  }

  /** A subtree whose root record only had its parent link rewritten hangs below the
      new parent. */
  lemma LinkedReparent<V>(n0: seq<NodeRec<V>>, n1: seq<NodeRec<V>>, t: Tree<V>, p0: nat, p1: nat, s: set<nat>)
    requires Linked(n0, t, p0) && Except(n0, n1, s) && ChildIds(t) !! s
    requires t.Node? ==> n1[t.id] == n0[t.id].(parent := p1)
    ensures Linked(n1, t, p1)
  {
    if t.Node? {
      LinkedAway(n0, n1, t.left, t.id, s);
      LinkedAway(n0, n1, t.right, t.id, s);
    }
  }

  /** A path whose lowest record only had its link to the focus rewritten leads to the
      new focus. */
  lemma LinkedCtxMove<V>(n0: seq<NodeRec<V>>, n1: seq<NodeRec<V>>, ctx: Path<V>, c0: nat, c1: nat, s: set<nat>)
    requires LinkedCtx(n0, ctx, c0) && Except(n0, n1, s)
    requires ctx != [] ==> n1[ctx[0].p] == FrameRec(ctx[0], c1, ParentId(ctx[1..]))
    requires ctx != [] ==> (IdSet(Sibling(ctx[0])) + CtxIds(ctx[1..])) !! s
    ensures LinkedCtx(n1, ctx, c1)
  {
    if ctx != [] {
      LinkedAway(n0, n1, Sibling(ctx[0]), ctx[0].p, s);
      LinkedCtxAway(n0, n1, ctx[1..], ctx[0].p, s);
    }
  }

  /** Every id of a zipper names a real record, never the sentinel. */
  lemma ShapedIds<V>(nodes: seq<NodeRec<V>>, root: nat, ctx: Path<V>, t: Tree<V>)
    requires Shaped(nodes, root, ctx, t)
    ensures forall i | i in IdSet(t) :: 0 < i < |nodes|
    ensures forall i | i in CtxIds(ctx) :: 0 < i < |nodes|
    ensures ctx != [] ==> 0 < ctx[0].p < |nodes| && ctx[0].p in CtxIds(ctx)
  {
    LinkedIds(nodes, t, ParentId(ctx));
    LinkedCtxIds(nodes, ctx, RootId(t));
  }

  /** Recolouring the focus's parent. */
  lemma PaintParent<V>(nodes: seq<NodeRec<V>>, root: nat, ctx: Path<V>, t: Tree<V>, c: Color)
    requires Shaped(nodes, root, ctx, t) && ctx != []
    ensures ctx[0].p < |nodes| && Shaped(Paint(nodes, ctx[0].p, c), root, [ctx[0].(c := c)] + ctx[1..], t)
    ensures Paint(nodes, ctx[0].p, c)[Nil] == nodes[Nil]
  {
    var f := ctx[0];
    assert ctx == [f] + ctx[1..];
    ZipUp(nodes, root, f, ctx[1..], t);
    PaintFocus(nodes, root, ctx[1..], Fill(f, t), c);
    assert Fill(f, t).(color := c) == Fill(f.(c := c), t);
    ZipUp(Paint(nodes, f.p, c), root, f.(c := c), ctx[1..], t);
  }

  /** Recolouring the focus's sibling, which is not the sentinel. */
  lemma PaintSibling<V>(nodes: seq<NodeRec<V>>, root: nat, ctx: Path<V>, t: Tree<V>, c: Color)
    requires Shaped(nodes, root, ctx, t) && ctx != [] && Sibling(ctx[0]).Node?
    ensures Sibling(ctx[0]).id < |nodes|
    ensures Shaped(Paint(nodes, Sibling(ctx[0]).id, c), root,
                   [WithSibling(ctx[0], Sibling(ctx[0]).(color := c))] + ctx[1..], t)
    ensures Paint(nodes, Sibling(ctx[0]).id, c)[Nil] == nodes[Nil]
  {
    var f := ctx[0];
    var w := Sibling(f);
    var g := Flip(f, t);
    var n2 := Paint(nodes, w.id, c);
    var f2 := WithSibling(f, w.(color := c));
    assert ctx == [f] + ctx[1..];
    ZipUp(nodes, root, f, ctx[1..], t);
    FlipFill(f, t);
    ZipUp(nodes, root, g, ctx[1..], w);
    PaintFocus(nodes, root, [g] + ctx[1..], w, c);
    ZipUp(n2, root, g, ctx[1..], w.(color := c));
    assert Fill(g, w.(color := c)) == Fill(f2, t);
    ZipUp(n2, root, f2, ctx[1..], t);
  }

  /** The links from a node up to its grandparent, and the grandparent's other
      child (z's uncle). */
  lemma Grandparent<V>(nodes: seq<NodeRec<V>>, root: nat, ctx: Path<V>, t: Tree<V>)
    requires Shaped(nodes, root, ctx, t) && t.Node? && |ctx| >= 2
    ensures nodes[t.id].parent == ctx[0].p && ctx[0].p < |nodes| && nodes[ctx[0].p].parent == ctx[1].p
    ensures ctx[1].p < |nodes| && Linked(nodes, Sibling(ctx[1]), ctx[1].p)
    ensures ctx[1].InL? ==> nodes[ctx[1].p].right == RootId(Sibling(ctx[1]))
    ensures ctx[1].InR? ==> nodes[ctx[1].p].left == RootId(Sibling(ctx[1]))
  {
    assert ctx[1..][0] == ctx[1];
    assert LinkedCtx(nodes, ctx[1..], ctx[0].p);
  }

  /** Recolouring a child of the focus. */
  lemma PaintChild<V>(nodes: seq<NodeRec<V>>, root: nat, ctx: Path<V>, t: Tree<V>, left: bool, c: Color)
    requires Shaped(nodes, root, ctx, t) && t.Node? && (if left then t.left else t.right).Node?
    ensures var k := if left then t.left else t.right;
      k.id < |nodes| && Paint(nodes, k.id, c)[Nil] == nodes[Nil] &&
      Shaped(Paint(nodes, k.id, c), root, ctx,
             if left then t.(left := k.(color := c)) else t.(right := k.(color := c)))
  {
    var f := if left then InL(t.color, t.id, t.key, t.val, t.right) else InR(t.color, t.left, t.id, t.key, t.val);
    var k := if left then t.left else t.right;
    assert Fill(f, k) == t;
    ZipUp(nodes, root, f, ctx, k);
    PaintFocus(nodes, root, [f] + ctx, k, c);
    ZipUp(Paint(nodes, k.id, c), root, f, ctx, k.(color := c));
  }

  /** What the fix-up loops read about the focus's sibling w: its id in the parent's
      record, its colour, and the ids and colours of its children. */
  lemma SiblingKids<V>(nodes: seq<NodeRec<V>>, root: nat, ctx: Path<V>, t: Tree<V>)
    requires Shaped(nodes, root, ctx, t) && ctx != [] && Sibling(ctx[0]).Node?
    ensures var f, w := ctx[0], Sibling(ctx[0]);
      f.p < |nodes| && nodes[f.p].color == f.c &&
      (f.InL? ==> nodes[f.p].right == w.id) && (f.InR? ==> nodes[f.p].left == w.id) &&
      0 < w.id < |nodes| && nodes[w.id].color == w.color &&
      nodes[w.id].left == RootId(w.left) && nodes[w.id].right == RootId(w.right) &&
      RootId(w.left) < |nodes| && nodes[RootId(w.left)].color == ColorOf(w.left) &&
      RootId(w.right) < |nodes| && nodes[RootId(w.right)].color == ColorOf(w.right)
  {
    var w := Sibling(ctx[0]);
    assert Linked(nodes, w, ctx[0].p);
    TreeColor(nodes, w.left, w.id);
    TreeColor(nodes, w.right, w.id);
  }

  /** The colour stored for the root of any linked subtree. */
  lemma TreeColor<V>(nodes: seq<NodeRec<V>>, t: Tree<V>, p: nat)
    requires ArenaOk(nodes) && Linked(nodes, t, p)
    ensures RootId(t) < |nodes| && nodes[RootId(t)].color == ColorOf(t)
  {
  }

  // ---------------------------------------------------------------------------
  // Rotations, transplant and the successor relink, record by record
  // ---------------------------------------------------------------------------

  /** The records after `leftRotate(x)`, written in the order the code writes them. */
  ghost function LeftRotated<V>(n: seq<NodeRec<V>>, x: nat): seq<NodeRec<V>>
    requires ArenaOk(n) && x < |n|
  {
    var y := n[x].right;
    var c := n[y].left;
    var n1 := n[x := n[x].(right := c)];
    var n2 := if c != Nil then n1[c := n1[c].(parent := x)] else n1;
    var p := n2[x].parent;
    var n3 := n2[y := n2[y].(parent := p)];
    var n4 := if p == Nil then n3
              else if x == n3[p].left then n3[p := n3[p].(left := y)]
              else n3[p := n3[p].(right := y)];
    var n5 := n4[y := n4[y].(left := x)];
    n5[x := n5[x].(parent := y)]
  }

  /** The records after `rightRotate(y)`. */
  ghost function RightRotated<V>(n: seq<NodeRec<V>>, y: nat): seq<NodeRec<V>>
    requires ArenaOk(n) && y < |n|
  {
    var x := n[y].left;
    var c := n[x].right;
    var n1 := n[y := n[y].(left := c)];
    var n2 := if c != Nil then n1[c := n1[c].(parent := y)] else n1;
    var p := n2[y].parent;
    var n3 := n2[x := n2[x].(parent := p)];
    var n4 := if p == Nil then n3
              else if y == n3[p].left then n3[p := n3[p].(left := x)]
              else n3[p := n3[p].(right := x)];
    var n5 := n4[x := n4[x].(right := y)];
    n5[y := n5[y].(parent := x)]
  }

  /** Record by record, for distinct x, y, c and p. */
  lemma LeftRotatedRecs<V>(n: seq<NodeRec<V>>, x: nat)
    requires ArenaOk(n) && 0 < x < |n|
    requires var y, p := n[x].right, n[x].parent; var c := n[y].left;
      y != Nil && y != x && c != x && c != y && p != x && p != y && (p != Nil ==> p != c)
    ensures var y, p := n[x].right, n[x].parent; var c := n[y].left; var n1 := LeftRotated(n, x);
      |n1| == |n| && n1[Nil] == n[Nil] && ArenaOk(n1) && Except(n, n1, {x, y, c, p}) &&
      n1[x] == n[x].(right := c, parent := y) && n1[y] == n[y].(parent := p, left := x) &&
      (c != Nil ==> n1[c] == n[c].(parent := x)) &&
      (p != Nil ==> n1[p] == if n[p].left == x then n[p].(left := y) else n[p].(right := y))
  {
    var y, p := n[x].right, n[x].parent;
    var c := n[y].left;
    var n1 := LeftRotated(n, x);
    LeftRotatedAt(n, x);
    forall i | 0 <= i < |n1| ensures n1[i].left < |n1| && n1[i].right < |n1| && n1[i].parent < |n1| {
      if i !in {x, y, c, p} {
        assert n1[i] == n[i];
      }
    }
  }

  lemma LeftRotatedAt<V>(n: seq<NodeRec<V>>, x: nat)
    requires ArenaOk(n) && 0 < x < |n|
    requires var y, p := n[x].right, n[x].parent; var c := n[y].left;
      y != Nil && y != x && c != x && c != y && p != x && p != y && (p != Nil ==> p != c)
    ensures var y, p := n[x].right, n[x].parent; var c := n[y].left; var n1 := LeftRotated(n, x);
      |n1| == |n| && n1[Nil] == n[Nil] && Except(n, n1, {x, y, c, p}) &&
      n1[x] == n[x].(right := c, parent := y) && n1[y] == n[y].(parent := p, left := x) &&
      (c != Nil ==> n1[c] == n[c].(parent := x)) &&
      (p != Nil ==> n1[p] == if n[p].left == x then n[p].(left := y) else n[p].(right := y))
  {
  }

  lemma RightRotatedRecs<V>(n: seq<NodeRec<V>>, y: nat)
    requires ArenaOk(n) && 0 < y < |n|
    requires var x, p := n[y].left, n[y].parent; var c := n[x].right;
      x != Nil && x != y && c != x && c != y && p != x && p != y && (p != Nil ==> p != c)
    ensures var x, p := n[y].left, n[y].parent; var c := n[x].right; var n1 := RightRotated(n, y);
      |n1| == |n| && n1[Nil] == n[Nil] && ArenaOk(n1) && Except(n, n1, {x, y, c, p}) &&
      n1[y] == n[y].(left := c, parent := x) && n1[x] == n[x].(parent := p, right := y) &&
      (c != Nil ==> n1[c] == n[c].(parent := y)) &&
      (p != Nil ==> n1[p] == if n[p].left == y then n[p].(left := x) else n[p].(right := x))
  {
    var x, p := n[y].left, n[y].parent;
    var c := n[x].right;
    var n1 := RightRotated(n, y);
    RightRotatedAt(n, y);
    forall i | 0 <= i < |n1| ensures n1[i].left < |n1| && n1[i].right < |n1| && n1[i].parent < |n1| {
      if i !in {x, y, c, p} {
        assert n1[i] == n[i];
      }
    }
  }

  lemma RightRotatedAt<V>(n: seq<NodeRec<V>>, y: nat)
    requires ArenaOk(n) && 0 < y < |n|
    requires var x, p := n[y].left, n[y].parent; var c := n[x].right;
      x != Nil && x != y && c != x && c != y && p != x && p != y && (p != Nil ==> p != c)
    ensures var x, p := n[y].left, n[y].parent; var c := n[x].right; var n1 := RightRotated(n, y);
      |n1| == |n| && n1[Nil] == n[Nil] && Except(n, n1, {x, y, c, p}) &&
      n1[y] == n[y].(left := c, parent := x) && n1[x] == n[x].(parent := p, right := y) &&
      (c != Nil ==> n1[c] == n[c].(parent := y)) &&
      (p != Nil ==> n1[p] == if n[p].left == y then n[p].(left := x) else n[p].(right := x))
  {
  }

  /** `leftRotate` at the focus of a zipper rotates the focus in the picture. */
  lemma RotateLeftShaped<V>(n: seq<NodeRec<V>>, root: nat, ctx: Path<V>, t: Tree<V>)
    requires Shaped(n, root, ctx, t) && t.Node? && t.right.Node?
    ensures t.id < |n| && n[t.id].right == t.right.id && n[t.id].parent == ParentId(ctx)
    ensures Shaped(LeftRotated(n, t.id), if ctx == [] then t.right.id else root, ctx, RotateLeft(t))
    ensures Except(n, LeftRotated(n, t.id), {t.id, t.right.id, RootId(t.right.left), ParentId(ctx)})
    ensures |LeftRotated(n, t.id)| == |n| && LeftRotated(n, t.id)[Nil] == n[Nil]
  {
    var x, y := t.id, t.right.id;
    ShapedIds(n, root, ctx, t);
    assert Linked(n, t.right, x) && Linked(n, t.right.left, y);
    assert t.right.left.Node? ==> t.right.left.id in IdSet(t.right.left) && IdSet(t.right.left) <= IdSet(t.right) <= IdSet(t);
    assert x != y;
    LeftRotatedRecs(n, x);
    if ctx != [] {
      ChildSide(n, root, ctx, t);
    }
    RotateLeftLinks(n, LeftRotated(n, x), root, if ctx == [] then y else root, ctx, t);
  }

  lemma RotateRightShaped<V>(n: seq<NodeRec<V>>, root: nat, ctx: Path<V>, t: Tree<V>)
    requires Shaped(n, root, ctx, t) && t.Node? && t.left.Node?
    ensures t.id < |n| && n[t.id].left == t.left.id && n[t.id].parent == ParentId(ctx)
    ensures Shaped(RightRotated(n, t.id), if ctx == [] then t.left.id else root, ctx, RotateRight(t))
    ensures Except(n, RightRotated(n, t.id), {t.id, t.left.id, RootId(t.left.right), ParentId(ctx)})
    ensures |RightRotated(n, t.id)| == |n| && RightRotated(n, t.id)[Nil] == n[Nil]
  {
    var y, x := t.id, t.left.id;
    ShapedIds(n, root, ctx, t);
    assert Linked(n, t.left, y) && Linked(n, t.left.right, x);
    assert t.left.right.Node? ==> t.left.right.id in IdSet(t.left.right) && IdSet(t.left.right) <= IdSet(t.left) <= IdSet(t);
    assert x != y;
    RightRotatedRecs(n, y);
    if ctx != [] {
      ChildSide(n, root, ctx, t);
    }
    RotateRightLinks(n, RightRotated(n, y), root, if ctx == [] then x else root, ctx, t);
  }

  /** The records that `leftRotate` rewrites: x and its right child y, y's left
      subtree, and x's parent (or the root pointer). */
  lemma RotateLeftLinks<V>(n0: seq<NodeRec<V>>, n1: seq<NodeRec<V>>, root0: nat, root1: nat, ctx: Path<V>, t: Tree<V>)
    requires Shaped(n0, root0, ctx, t) && t.Node? && t.right.Node? && ArenaOk(n1)
    requires Except(n0, n1, {t.id, t.right.id, RootId(t.right.left), ParentId(ctx)})
    requires n1[t.id] == NodeRec(t.key, t.val, RootId(t.left), RootId(t.right.left), t.right.id, t.color)
    requires n1[t.right.id] == NodeRec(t.right.key, t.right.val, t.id, RootId(t.right.right), ParentId(ctx), t.right.color)
    requires t.right.left.Node? ==> t.right.left.id < |n0| && n1[t.right.left.id] == n0[t.right.left.id].(parent := t.id)
    requires ctx != [] ==> n1[ctx[0].p] == FrameRec(ctx[0], t.right.id, ParentId(ctx[1..]))
    requires root1 == TopId(ctx, t.right.id)
    ensures Shaped(n1, root1, ctx, RotateLeft(t))
  {
    var y := t.right;
    var s := {t.id, y.id, RootId(y.left), ParentId(ctx)};
    ShapedIds(n0, root0, ctx, t);
    assert Linked(n0, y, t.id);
    RotateLeftApart(ctx, t);
    LinkedAway(n0, n1, t.left, t.id, s);
    LinkedReparent(n0, n1, y.left, y.id, t.id, s);
    LinkedAway(n0, n1, y.right, y.id, s);
    LinkedCtxMove(n0, n1, ctx, t.id, y.id, s);
    RotateLeftIds(t);
  }

  /** The mirror image, for `rightRotate`. */
  lemma RotateRightLinks<V>(n0: seq<NodeRec<V>>, n1: seq<NodeRec<V>>, root0: nat, root1: nat, ctx: Path<V>, t: Tree<V>)
    requires Shaped(n0, root0, ctx, t) && t.Node? && t.left.Node? && ArenaOk(n1)
    requires Except(n0, n1, {t.id, t.left.id, RootId(t.left.right), ParentId(ctx)})
    requires n1[t.id] == NodeRec(t.key, t.val, RootId(t.left.right), RootId(t.right), t.left.id, t.color)
    requires n1[t.left.id] == NodeRec(t.left.key, t.left.val, RootId(t.left.left), t.id, ParentId(ctx), t.left.color)
    requires t.left.right.Node? ==> t.left.right.id < |n0| && n1[t.left.right.id] == n0[t.left.right.id].(parent := t.id)
    requires ctx != [] ==> n1[ctx[0].p] == FrameRec(ctx[0], t.left.id, ParentId(ctx[1..]))
    requires root1 == TopId(ctx, t.left.id)
    ensures Shaped(n1, root1, ctx, RotateRight(t))
  {
    var x := t.left;
    var s := {t.id, x.id, RootId(x.right), ParentId(ctx)};
    ShapedIds(n0, root0, ctx, t);
    assert Linked(n0, x, t.id);
    RotateRightApart(ctx, t);
    LinkedAway(n0, n1, t.right, t.id, s);
    LinkedReparent(n0, n1, x.right, x.id, t.id, s);
    LinkedAway(n0, n1, x.left, x.id, s);
    LinkedCtxMove(n0, n1, ctx, t.id, x.id, s);
    RotateRightIds(t);
  }

  /** The ids that a left rotation relinks lie outside the subtrees it moves and the
      rest of the path. */
  lemma RotateLeftApart<V>(ctx: Path<V>, t: Tree<V>)
    requires DistinctZ(ctx, t) && t.Node? && t.right.Node? && Nil !in IdSet(t) && Nil !in CtxIds(ctx)
    ensures var y, s := t.right, {t.id, t.right.id, RootId(t.right.left), ParentId(ctx)};
      IdSet(t.left) !! s && ChildIds(y.left) !! s && IdSet(y.right) !! s &&
      (ctx != [] ==> (IdSet(Sibling(ctx[0])) + CtxIds(ctx[1..])) !! s)
  {
    var y := t.right;
    assert Distinct(y) && Distinct(y.left);
    assert IdSet(t) == IdSet(t.left) + {t.id} + IdSet(y.left) + {y.id} + IdSet(y.right);
    assert y.left.Node? ==> y.left.id in IdSet(y.left);
  }

  /** The mirror image, for a right rotation. */
  lemma RotateRightApart<V>(ctx: Path<V>, t: Tree<V>)
    requires DistinctZ(ctx, t) && t.Node? && t.left.Node? && Nil !in IdSet(t) && Nil !in CtxIds(ctx)
    ensures var x, s := t.left, {t.id, t.left.id, RootId(t.left.right), ParentId(ctx)};
      IdSet(t.right) !! s && ChildIds(x.right) !! s && IdSet(x.left) !! s &&
      (ctx != [] ==> (IdSet(Sibling(ctx[0])) + CtxIds(ctx[1..])) !! s)
  {
    var x := t.left;
    assert Distinct(x) && Distinct(x.right);
    assert IdSet(t) == IdSet(x.left) + {x.id} + IdSet(x.right) + {t.id} + IdSet(t.right);
    assert x.right.Node? ==> x.right.id in IdSet(x.right);
  }

  /** The records after `transplant(u, v)`: u's parent p (unless u is the root)
      links to v in place of u, and v's parent becomes p. */
  ghost function Transplanted<V>(n: seq<NodeRec<V>>, u: nat, v: nat): seq<NodeRec<V>>
    requires ArenaOk(n) && u < |n| && v < |n|
  {
    var p := n[u].parent;
    var n1 := if p == Nil then n
              else if n[p].left == u then n[p := n[p].(left := v)]
              else n[p := n[p].(right := v)];
    n1[v := n1[v].(parent := p)]
  }

  /** Record by record, for v other than u's parent (unless both are the sentinel). */
  lemma TransplantedRecs<V>(n: seq<NodeRec<V>>, u: nat, v: nat)
    requires ArenaOk(n) && u < |n| && v < |n| && (v == n[u].parent ==> v == Nil)
    ensures var p, n1 := n[u].parent, Transplanted(n, u, v);
      |n1| == |n| && ArenaOk(n1) && Except(n, n1, {v, p}) && n1[v] == n[v].(parent := p) &&
      (p != Nil ==> n1[p] == if n[p].left == u then n[p].(left := v) else n[p].(right := v))
  {
    var p, n1 := n[u].parent, Transplanted(n, u, v);
    forall i | 0 <= i < |n1| ensures n1[i].left < |n1| && n1[i].right < |n1| && n1[i].parent < |n1| {
      if i !in {v, p} {
        assert n1[i] == n[i];
      }
    }
  }

  /** `transplant(u, v)` where v is u's only child subtree: u drops out of the tree. */
  lemma SpliceOutLinks<V>(n0: seq<NodeRec<V>>, n1: seq<NodeRec<V>>, root0: nat, root1: nat, ctx: Path<V>, u: Tree<V>, v: Tree<V>)
    requires Shaped(n0, root0, ctx, u) && u.Node? && ArenaOk(n1)
    requires (u.left.Leaf? && v == u.right) || (u.right.Leaf? && v == u.left)
    requires Except(n0, n1, {RootId(v), ParentId(ctx)})
    requires v.Node? ==> n1[v.id] == n0[v.id].(parent := ParentId(ctx))
    requires ctx != [] ==> n1[ctx[0].p] == FrameRec(ctx[0], RootId(v), ParentId(ctx[1..]))
    requires root1 == TopId(ctx, RootId(v))
    ensures Shaped(n1, root1, ctx, v)
  {
    var s := {RootId(v), ParentId(ctx)};
    ShapedIds(n0, root0, ctx, u);
    assert Distinct(u) && Distinct(v);
    LinkedReparent(n0, n1, v, u.id, ParentId(ctx), s);
    LinkedCtxMove(n0, n1, ctx, u.id, RootId(v), s);
  }

  /** `transplant(u, v)` on the arena, where v is u's only child subtree (possibly the
      sentinel): the arena then holds the tree with v in u's place, and v's record,
      the sentinel's included, names u's old parent. */
  lemma TransplantOut<V>(n0: seq<NodeRec<V>>, root0: nat, ctx: Path<V>, u: Tree<V>, v: Tree<V>)
    requires Shaped(n0, root0, ctx, u) && u.Node?
    requires (u.left.Leaf? && v == u.right) || (u.right.Leaf? && v == u.left)
    ensures var n1 := Transplanted(n0, u.id, RootId(v));
      |n1| == |n0| && ArenaOk(n1) && n1[RootId(v)].parent == ParentId(ctx) &&
      Shaped(n1, if n0[u.id].parent == Nil then RootId(v) else root0, ctx, v)
  {
    var x := RootId(v);
    var n1 := Transplanted(n0, u.id, x);
    ShapedIds(n0, root0, ctx, u);
    RootIdIn(v);
    assert x != Nil ==> x in IdSet(u);
    if ctx != [] {
      ChildSide(n0, root0, ctx, u);
    }
    TransplantedRecs(n0, u.id, x);
    SpliceOutLinks(n0, n1, root0, if n0[u.id].parent == Nil then x else root0, ctx, u, v);
  }

  /** The last step of erasing a node z with two children: the successor t.id takes
      z's place, colour and children, keeping its own id, key and value; z's record is
      left behind. The right subtree hangs below q before the relink. */
  lemma ReplaceLinks<V>(n0: seq<NodeRec<V>>, n1: seq<NodeRec<V>>, root1: nat, ctx: Path<V>, z: nat, t: Tree<V>, q: nat)
    requires t.Node? && LinkedCtx(n0, ctx, z) && Linked(n0, t.left, z) && Linked(n0, t.right, q) && ArenaOk(n1)
    requires DistinctZ(ctx, t) && 0 < t.id < |n1|
    requires Except(n0, n1, {t.id, RootId(t.left), RootId(t.right), ParentId(ctx)})
    requires n1[t.id] == NodeRec(t.key, t.val, RootId(t.left), RootId(t.right), ParentId(ctx), t.color)
    requires t.left.Node? ==> n1[t.left.id] == n0[t.left.id].(parent := t.id)
    requires t.right.Node? ==> n1[t.right.id] == n0[t.right.id].(parent := t.id)
    requires ctx != [] ==> n1[ctx[0].p] == FrameRec(ctx[0], t.id, ParentId(ctx[1..]))
    requires root1 == TopId(ctx, t.id)
    ensures Shaped(n1, root1, ctx, t)
  {
    var s := {t.id, RootId(t.left), RootId(t.right), ParentId(ctx)};
    LinkedIds(n0, t.left, z);
    LinkedIds(n0, t.right, q);
    LinkedCtxIds(n0, ctx, z);
    assert Distinct(t.left) && Distinct(t.right);
    LinkedReparent(n0, n1, t.left, z, t.id, s);
    LinkedReparent(n0, n1, t.right, q, t.id, s);
    LinkedCtxMove(n0, n1, ctx, z, t.id, s);
  }
  /** The records after the tail of `erase` for a node z with two children:
      `transplant(z, y)`, then y takes z's left child and z's colour. */
  ghost function Replaced<V>(n: seq<NodeRec<V>>, z: nat, y: nat): seq<NodeRec<V>>
    requires ArenaOk(n) && z < |n| && y < |n|
  {
    var n1 := Transplanted(n, z, y);
    var l := n1[z].left;
    var n2 := n1[y := n1[y].(left := l)];
    var n3 := n2[l := n2[l].(parent := y)];
    n3[y := n3[y].(color := n3[z].color)]
  }

  /** Record by record, for distinct z, y, z's left child l and z's parent p. */
  lemma ReplacedRecs<V>(n: seq<NodeRec<V>>, z: nat, y: nat)
    requires ArenaOk(n) && 0 < z < |n| && 0 < y < |n|
    requires var p, l := n[z].parent, n[z].left;
      y != z && l != Nil && l != z && l != y && p != z && p != y && p != l
    ensures var p, l := n[z].parent, n[z].left; var n1 := Replaced(n, z, y);
      |n1| == |n| && n1[Nil] == n[Nil] && ArenaOk(n1) && Except(n, n1, {y, l, p}) &&
      n1[y] == n[y].(parent := p, left := l, color := n[z].color) && n1[l] == n[l].(parent := y) &&
      (p != Nil ==> n1[p] == if n[p].left == z then n[p].(left := y) else n[p].(right := y))
  {
    var n1 := Replaced(n, z, y);
    forall i | 0 <= i < |n1| ensures n1[i].left < |n1| && n1[i].right < |n1| && n1[i].parent < |n1| {
      assert n[i].left < |n| && n[i].right < |n| && n[i].parent < |n|;
    }
  }

  /** The successor t.id, with z's old right subtree (without t.id) already hung below
      it, takes z's place: the arena then holds t in z's position. */
  lemma ReplaceShaped<V>(n: seq<NodeRec<V>>, root: nat, ctx: Path<V>, z: nat, t: Tree<V>)
    requires ArenaOk(n) && t.Node? && t.left.Node? && DistinctZ(ctx, t)
    requires LinkedCtx(n, ctx, z) && Linked(n, t.left, z) && Linked(n, t.right, t.id)
    requires 0 < z < |n| && z !in IdSet(t) && z !in CtxIds(ctx) && 0 < t.id < |n|
    requires n[z].left == t.left.id && n[z].color == t.color && n[z].parent == ParentId(ctx)
    requires n[t.id].key == t.key && n[t.id].val == t.val && n[t.id].right == RootId(t.right)
    requires root == TopId(ctx, z)
    ensures var n1 := Replaced(n, z, t.id);
      |n1| == |n| && n1[Nil] == n[Nil] && Shaped(n1, if n[z].parent == Nil then t.id else root, ctx, t)
  {
    var y, l := t.id, t.left.id;
    var p := ParentId(ctx);
    LinkedIds(n, t.left, z);
    LinkedIds(n, t.right, y);
    LinkedCtxIds(n, ctx, z);
    RootIdIn(t.right);
    assert l in IdSet(t) && y in IdSet(t) && RootId(t.right) != Nil ==> RootId(t.right) in IdSet(t);
    assert p != y && p != l && l != y;
    if ctx != [] {
      assert p in CtxIds(ctx);
      RootIdIn(Sibling(ctx[0]));
      assert n[p].left == z <==> ctx[0].InL?;
    }
    var n1 := Replaced(n, z, y);
    ReplacedRecs(n, z, y);
    ExceptMono(n, n1, {y, l, p}, {y, l, RootId(t.right), p});
    ReplaceLinks(n, n1, if n[z].parent == Nil then y else root, ctx, z, t, y);
  }

  /** A fresh record appended at id |n0| and hung where the zipper (ctx, Leaf) names
      the sentinel: the arena then holds the tree with the new leaf node there. */
  lemma AttachLinks<V>(n0: seq<NodeRec<V>>, n1: seq<NodeRec<V>>, root0: nat, root1: nat, ctx: Path<V>, t: Tree<V>)
    requires Shaped(n0, root0, ctx, Leaf) && ArenaOk(n1)
    requires t.Node? && t.left.Leaf? && t.right.Leaf? && t.id == |n0| < |n1|
    requires n1[t.id] == NodeRec(t.key, t.val, Nil, Nil, ParentId(ctx), t.color)
    requires Except(n0, n1, {ParentId(ctx)})
    requires ctx != [] ==> n1[ctx[0].p] == FrameRec(ctx[0], t.id, ParentId(ctx[1..]))
    requires root1 == TopId(ctx, t.id)
    ensures Shaped(n1, root1, ctx, t)
  {
    ShapedIds(n0, root0, ctx, Leaf);
    LinkedCtxIds(n0, ctx, Nil);
    LinkedCtxMove(n0, n1, ctx, Nil, t.id, {ParentId(ctx)});
    assert IdSet(t) == {t.id};
  }
  /** Each element of a linked tree is stored in the record of its node. */
  lemma {:induction false} LinkedEntry<V>(nodes: seq<NodeRec<V>>, t: Tree<V>, p: nat, i: nat)
    requires Linked(nodes, t, p) && i < |Inorder(t)|
    ensures var e := Inorder(t)[i]; e.id < |nodes| && nodes[e.id].key == e.key && nodes[e.id].val == e.val
  {
    match t
    case Node(_, l, id, k, v, r) =>
      if i < |Inorder(l)| {
        LinkedEntry(nodes, l, id, i);
      } else if i > |Inorder(l)| {
        LinkedEntry(nodes, r, id, i - |Inorder(l)| - 1);
      }
  }
}
