/** `sjtu::map<Key, T>` with `int` keys ordered by `<`: a red-black tree whose nodes
    live in an arena of records, record 0 being the sentinel `nil`. The ghost field
    `tree` is the functional picture of the arena; `Valid` ties the two together and
    states the red-black and search-tree invariants the operations keep. */
module SjtuMap {
  import opened RedBlack
  import opened Balance
  import opened Arena

  /** The two exceptions the container throws. */
  datatype MapError = InvalidIterator | IndexOutOfBound

  datatype Option<T> = None | Some(value: T)

  datatype Result<T> = Ok(value: T) | Err(error: MapError)

  /** An iterator: the node it stands on (the sentinel for `end()`) and the container
      it belongs to. */
  datatype Iterator<V> = Iterator(node: nat, owner: RBMap<V>)

  /** The arena holds the red-black search tree t of n elements, rooted at root. */
  ghost predicate Good<V>(nodes: seq<NodeRec<V>>, root: nat, t: Tree<V>, n: nat) {
    Shaped(nodes, root, [], t) && IsRB(t) && Sorted(Inorder(t)) && n == |Inorder(t)|
  }

  class RBMap<V> {
    /** The arena: `nodes[id]` is the node with that id, `nodes[Nil]` the sentinel.
        Records of erased nodes stay in the arena, unreachable. */
    var nodes: seq<NodeRec<V>>
    var root: nat
    var size: nat
    ghost var tree: Tree<V>
    /** The value `T()` gives: the sentinel's payload and what `operator[]` inserts. */
    const dflt: V

    ghost predicate Valid()
      reads this
    {
      Good(nodes, root, tree, size)
    }

    /** The elements in key order, each with the id of the node holding it. */
    ghost function Elements(): seq<Entry<V>>
      reads this
    {
      Inorder(tree)
    }

    ghost function Contents(): map<int, V>
      reads this
    {
      MapOf(Inorder(tree))
    }

    /** The ids of the nodes currently in the tree. */
    ghost function Ids(): set<nat>
      reads this
    {
      IdSet(tree)
    }

    constructor(dflt: V)
      ensures Valid() && Elements() == [] && Contents() == map[]
      ensures this.dflt == dflt && fresh(this)
    {
      this.dflt := dflt;
      nodes := [NodeRec(0, dflt, Nil, Nil, Nil, Black)];
      root := Nil;
      size := 0;
      tree := Leaf;
    }

    // -------------------------------------------------------------------------
    // Rotations and transplant
    // -------------------------------------------------------------------------

    /** `leftRotate(x)`: x's right child y takes x's place and x becomes y's left
        child. The arena then holds the rotated tree; only x, y, y's old left child
        and x's parent are rewritten, and the sentinel is untouched. */
    method LeftRotate(x: nat, ghost ctx: Path<V>, ghost t: Tree<V>)
      requires Shaped(nodes, root, ctx, t) && t.Node? && t.right.Node? && x == t.id
      modifies this`nodes, this`root
      ensures Shaped(nodes, root, ctx, RotateLeft(t))
      ensures Except(old(nodes), nodes, {t.id, t.right.id, RootId(t.right.left), ParentId(ctx)})
      ensures |nodes| == old(|nodes|) && nodes[Nil] == old(nodes[Nil])
    {
      RotateLeftShaped(nodes, root, ctx, t);
      var y := nodes[x].right;
      var c := nodes[y].left;
      nodes := nodes[x := nodes[x].(right := c)];
      if c != Nil {
        nodes := nodes[c := nodes[c].(parent := x)];
      }
      var p := nodes[x].parent;
      nodes := nodes[y := nodes[y].(parent := p)];
      if p == Nil {
        root := y;
      } else if x == nodes[p].left {
        nodes := nodes[p := nodes[p].(left := y)];
      } else {
        nodes := nodes[p := nodes[p].(right := y)];
      }
      nodes := nodes[y := nodes[y].(left := x)];
      nodes := nodes[x := nodes[x].(parent := y)];
    }

    /** `rightRotate(y)`: the mirror image of `LeftRotate`. */
    method RightRotate(y: nat, ghost ctx: Path<V>, ghost t: Tree<V>)
      requires Shaped(nodes, root, ctx, t) && t.Node? && t.left.Node? && y == t.id
      modifies this`nodes, this`root
      ensures Shaped(nodes, root, ctx, RotateRight(t))
      ensures Except(old(nodes), nodes, {t.id, t.left.id, RootId(t.left.right), ParentId(ctx)})
      ensures |nodes| == old(|nodes|) && nodes[Nil] == old(nodes[Nil])
    {
      RotateRightShaped(nodes, root, ctx, t);
      var x := nodes[y].left;
      var c := nodes[x].right;
      nodes := nodes[y := nodes[y].(left := c)];
      if c != Nil {
        nodes := nodes[c := nodes[c].(parent := y)];
      }
      var p := nodes[y].parent;
      nodes := nodes[x := nodes[x].(parent := p)];
      if p == Nil {
        root := x;
      } else if y == nodes[p].left {
        nodes := nodes[p := nodes[p].(left := x)];
      } else {
        nodes := nodes[p := nodes[p].(right := x)];
      }
      nodes := nodes[x := nodes[x].(right := y)];
      nodes := nodes[y := nodes[y].(parent := x)];
    }

    /** `transplant(u, v)`: v takes u's place below u's parent (or as the root), and
        v's parent link, the sentinel's included, is set to u's parent. */
    method Transplant(u: nat, v: nat)
      requires ArenaOk(nodes) && 0 < u < |nodes| && v < |nodes|
      modifies this`nodes, this`root
      ensures ArenaOk(nodes)
      ensures nodes == Transplanted(old(nodes), u, v)
      ensures root == if old(nodes[u].parent) == Nil then v else old(root)
    {
      var p := nodes[u].parent;
      if p == Nil {
        root := v;
      } else if u == nodes[p].left {
        nodes := nodes[p := nodes[p].(left := v)];
      } else {
        nodes := nodes[p := nodes[p].(right := v)];
      }
      nodes := nodes[v := nodes[v].(parent := p)];
    }

    // -------------------------------------------------------------------------
    // insertFixup
    // -------------------------------------------------------------------------

    /** `insertFixup(z)`: z is a fresh red node, or a node the loop has moved up to.
        While z's parent is red the three cases of the loop body restore the
        invariants two levels at a time; the root is painted black at the end. The
        resulting tree is a red-black tree with the same elements in the same order. */
    method InsertFixup(z: nat, ghost ctx: Path<V>, ghost t: Tree<V>) returns (ghost t': Tree<V>)
      requires Shaped(nodes, root, ctx, t) && InsertInv(ctx, t) && z == t.id
      modifies this`nodes, this`root
      ensures Shaped(nodes, root, [], t') && IsRB(t') && Inorder(t') == Inorder(Plug(ctx, t))
      ensures |nodes| == old(|nodes|)
    {
      var x := z;
      ghost var c, s := ctx, t;
      FocusColor(nodes, root, c, s);
      while nodes[nodes[x].parent].color == Red
        invariant Shaped(nodes, root, c, s) && InsertInv(c, s) && x == s.id
        invariant Inorder(Plug(c, s)) == Inorder(Plug(ctx, t)) && |nodes| == old(|nodes|)
        invariant nodes[nodes[x].parent].color == if c == [] then Black else c[0].c
        decreases |c|
      {
        FixupSide(nodes, root, c, s);
        var xp := nodes[x].parent;
        var xg := nodes[xp].parent;
        if xp == nodes[xg].left {
          x, c, s := InsertFixupLeft(x, c, s);
        } else {
          x, c, s := InsertFixupRight(x, c, s);
        }
        FocusColor(nodes, root, c, s);
      }
      InsertDone(c, s);
      InsertBlacken(nodes, root, c, s);
      nodes := nodes[root := nodes[root].(color := Black)];
      t' := Plug(c, s).(color := Black);
    }

    /** One pass of the loop body when z's parent is a left child. */
    method InsertFixupLeft(z: nat, ghost ctx: Path<V>, ghost t: Tree<V>)
      returns (z': nat, ghost ctx': Path<V>, ghost t': Tree<V>)
      requires Shaped(nodes, root, ctx, t) && InsertInv(ctx, t) && z == t.id
      requires |ctx| >= 2 && ctx[0].c == Red && ctx[1].InL?
      modifies this`nodes, this`root
      ensures Shaped(nodes, root, ctx', t') && InsertInv(ctx', t') && z' == t'.id && |ctx'| < |ctx|
      ensures Inorder(Plug(ctx', t')) == Inorder(Plug(ctx, t)) && |nodes| == old(|nodes|)
    {
      var zp := nodes[z].parent;
      var zg := nodes[zp].parent;
      Grandparent(nodes, root, ctx, t);
      var y := nodes[zg].right;
      TreeColor(nodes, Sibling(ctx[1]), zg);
      if nodes[y].color == Red {
        InsertRecolorShaped(nodes, root, ctx, t);
        nodes := nodes[zp := nodes[zp].(color := Black)];
        nodes := nodes[y := nodes[y].(color := Black)];
        nodes := nodes[zg := nodes[zg].(color := Red)];
        InsertRecolor(ctx, t);
        z', ctx', t' := zg, ctx[2..], RecolorFocus(ctx, t);
      } else {
        z', ctx', t' := z, ctx, t;
        ChildSide(nodes, root, ctx, t);
        if z == nodes[zp].right {
          ghost var p := ctx[0];
          InsertInnerLeft(ctx, t);
          assert ctx == [p] + ctx[1..];
          ZipUp(nodes, root, p, ctx[1..], t);
          z' := zp;
          LeftRotate(z', ctx[1..], Fill(p, t));
          ctx', t' := [InL(Red, t.id, t.key, t.val, t.right)] + ctx[1..], Node(Red, p.l, p.p, p.k, p.v, t.left);
          ZipUp(nodes, root, ctx'[0], ctx[1..], t');
          assert ctx'[1..] == ctx[1..];
        }
        z', ctx', t' := InsertOuter(z', ctx', t', true);
      }
    }

    /** One pass of the loop body when z's parent is a right child: the mirror image. */
    method InsertFixupRight(z: nat, ghost ctx: Path<V>, ghost t: Tree<V>)
      returns (z': nat, ghost ctx': Path<V>, ghost t': Tree<V>)
      requires Shaped(nodes, root, ctx, t) && InsertInv(ctx, t) && z == t.id
      requires |ctx| >= 2 && ctx[0].c == Red && ctx[1].InR?
      modifies this`nodes, this`root
      ensures Shaped(nodes, root, ctx', t') && InsertInv(ctx', t') && z' == t'.id && |ctx'| < |ctx|
      ensures Inorder(Plug(ctx', t')) == Inorder(Plug(ctx, t)) && |nodes| == old(|nodes|)
    {
      var zp := nodes[z].parent;
      var zg := nodes[zp].parent;
      Grandparent(nodes, root, ctx, t);
      var y := nodes[zg].left;
      TreeColor(nodes, Sibling(ctx[1]), zg);
      if nodes[y].color == Red {
        InsertRecolorShaped(nodes, root, ctx, t);
        nodes := nodes[zp := nodes[zp].(color := Black)];
        nodes := nodes[y := nodes[y].(color := Black)];
        nodes := nodes[zg := nodes[zg].(color := Red)];
        InsertRecolor(ctx, t);
        z', ctx', t' := zg, ctx[2..], RecolorFocus(ctx, t);
      } else {
        z', ctx', t' := z, ctx, t;
        ChildSide(nodes, root, ctx, t);
        if z == nodes[zp].left {
          ghost var p := ctx[0];
          InsertInnerRight(ctx, t);
          assert ctx == [p] + ctx[1..];
          ZipUp(nodes, root, p, ctx[1..], t);
          z' := zp;
          RightRotate(z', ctx[1..], Fill(p, t));
          ctx', t' := [InR(Red, t.left, t.id, t.key, t.val)] + ctx[1..], Node(Red, t.right, p.p, p.k, p.v, p.r);
          ZipUp(nodes, root, ctx'[0], ctx[1..], t');
          assert ctx'[1..] == ctx[1..];
        }
        z', ctx', t' := InsertOuter(z', ctx', t', false);
      }
    }

    /** Case 3: z is an outer grandchild (a left child of a left child when left is
        true, a right child of a right child otherwise) and the uncle is black. The
        parent turns black, the grandparent red, and the grandparent is rotated
        away from z. */
    method InsertOuter(z: nat, ghost ctx: Path<V>, ghost t: Tree<V>, left: bool)
      returns (z': nat, ghost ctx': Path<V>, ghost t': Tree<V>)
      requires Shaped(nodes, root, ctx, t) && InsertInv(ctx, t) && z == t.id
      requires |ctx| >= 2 && ctx[0].c == Red && ColorOf(Sibling(ctx[1])) == Black
      requires if left then ctx[0].InL? && ctx[1].InL? else ctx[0].InR? && ctx[1].InR?
      modifies this`nodes, this`root
      ensures Shaped(nodes, root, ctx', t') && InsertInv(ctx', t') && z' == t'.id && |ctx'| < |ctx|
      ensures Inorder(Plug(ctx', t')) == Inorder(Plug(ctx, t)) && |nodes| == old(|nodes|)
    {
      ghost var p, g := ctx[0], ctx[1];
      var zp := nodes[z].parent;
      PaintParent(nodes, root, ctx, t, Black);
      nodes := nodes[zp := nodes[zp].(color := Black)];
      ghost var p' := p.(c := Black);
      var zg := nodes[zp].parent;
      ZipUp(nodes, root, p', ctx[1..], t);
      assert ctx[1..] == [g] + ctx[2..];
      PaintParent(nodes, root, ctx[1..], Fill(p', t), Red);
      nodes := nodes[zg := nodes[zg].(color := Red)];
      ghost var g' := g.(c := Red);
      ZipUp(nodes, root, g', ctx[2..], Fill(p', t));
      z' := z;
      if left {
        RightRotate(zg, ctx[2..], Fill(g', Fill(p', t)));
        InsertOuterLeft(ctx, t);
        ctx' := [InL(Black, p.p, p.k, p.v, Node(Red, p.r, g.p, g.k, g.v, g.r))] + ctx[2..];
      } else {
        LeftRotate(zg, ctx[2..], Fill(g', Fill(p', t)));
        InsertOuterRight(ctx, t);
        ctx' := [InR(Black, Node(Red, g.l, g.p, g.k, g.v, p.l), p.p, p.k, p.v)] + ctx[2..];
      }
      t' := t;
      ZipUp(nodes, root, ctx'[0], ctx[2..], t);
      assert ctx'[1..] == ctx[2..];
    }

    // -------------------------------------------------------------------------
    // eraseFixup
    // -------------------------------------------------------------------------

    /** `eraseFixup(x)`: x, possibly the sentinel, carries an extra black after a
        black node was unlinked above it. While x is a black non-root node the four
        cases of the loop body either move the extra black up or absorb it; x is
        painted black at the end. The sentinel's parent link, which the unlinking
        wrote, is what the loop reads when x is the sentinel. */
    method EraseFixup(x: nat, ghost ctx: Path<V>, ghost t: Tree<V>) returns (ghost t': Tree<V>)
      requires Shaped(nodes, root, ctx, t) && EraseInv(ctx, t)
      requires x == RootId(t) && x < |nodes| && nodes[x].parent == ParentId(ctx)
      modifies this`nodes, this`root
      ensures Shaped(nodes, root, [], t') && IsRB(t') && Inorder(t') == Inorder(Plug(ctx, t))
      ensures |nodes| == old(|nodes|)
    {
      var y := x;
      ghost var c, s := ctx, t;
      AtRoot(nodes, root, c, s);
      FocusColor(nodes, root, c, s);
      while y != root && nodes[y].color == Black
        invariant Shaped(nodes, root, c, s) && EraseInv(c, s) && y == RootId(s) && y < |nodes|
        invariant nodes[y].parent == ParentId(c)
        invariant Inorder(Plug(c, s)) == Inorder(Plug(ctx, t)) && |nodes| == old(|nodes|)
        invariant y != root <==> c != []
        invariant nodes[y].color == ColorOf(s)
        decreases EraseMeasure(c, s)
      {
        EraseSibling(c, s);
        y, c, s := EraseFixupStep(y, c, s);
        AtRoot(nodes, root, c, s);
        FocusColor(nodes, root, c, s);
      }
      EraseDone(c, s);
      EraseBlacken(nodes, root, c, s);
      nodes := nodes[y := nodes[y].(color := Black)];
      t' := Plug(c, Blacken(s));
    }

    /** One pass of the loop body of `eraseFixup`, on the side of the parent that x
        hangs on. */
    method EraseFixupStep(x: nat, ghost ctx: Path<V>, ghost t: Tree<V>)
      returns (x': nat, ghost ctx': Path<V>, ghost t': Tree<V>)
      requires Shaped(nodes, root, ctx, t) && EraseInv(ctx, t) && ctx != [] && ColorOf(t) == Black
      requires x == RootId(t) && x < |nodes| && nodes[x].parent == ParentId(ctx)
      modifies this`nodes, this`root
      ensures Shaped(nodes, root, ctx', t') && EraseInv(ctx', t') && x' == RootId(t') && x' < |nodes|
      ensures nodes[x'].parent == ParentId(ctx') && EraseMeasure(ctx', t') < EraseMeasure(ctx, t)
      ensures Inorder(Plug(ctx', t')) == Inorder(Plug(ctx, t)) && |nodes| == old(|nodes|)
    {
      EraseSibling(ctx, t);
      var xp := nodes[x].parent;
      ChildSide(nodes, root, ctx, t);
      SiblingKids(nodes, root, ctx, t);
      ghost var c := ctx;
      if x == nodes[xp].left {
        var w := nodes[xp].right;
        if nodes[w].color == Red {
          c := EraseRedSibling(x, ctx, t, true);
        }
        x', ctx', t' := EraseBlackSibling(x, c, t, true);
        MeasureStep(ctx, t, c, ctx', t');
      } else {
        var w := nodes[xp].left;
        if nodes[w].color == Red {
          c := EraseRedSibling(x, ctx, t, false);
        }
        x', ctx', t' := EraseBlackSibling(x, c, t, false);
        MeasureStep(ctx, t, c, ctx', t');
      }
    }

    /** Case 1: the sibling w is red (on the right of x when left is true, on its
        left otherwise). w turns black, the parent red, and the parent is rotated
        towards x; x's new sibling is black. */
    method EraseRedSibling(x: nat, ghost ctx: Path<V>, ghost t: Tree<V>, left: bool) returns (ghost ctx': Path<V>)
      requires Shaped(nodes, root, ctx, t) && EraseInv(ctx, t) && ctx != [] && ColorOf(t) == Black
      requires x == RootId(t) && x < |nodes| && nodes[x].parent == ParentId(ctx)
      requires if left then ctx[0].InL? && ColorOf(ctx[0].r) == Red else ctx[0].InR? && ColorOf(ctx[0].l) == Red
      modifies this`nodes, this`root
      ensures Shaped(nodes, root, ctx', t) && EraseInv(ctx', t) && |ctx'| == |ctx| + 1 && ctx'[0].c == Red
      ensures (if left then ctx'[0].InL? else ctx'[0].InR?)
      ensures Sibling(ctx'[0]).Node? && ColorOf(Sibling(ctx'[0])) == Black
      ensures nodes[x].parent == ParentId(ctx') && x < |nodes|
      ensures Inorder(Plug(ctx', t)) == Inorder(Plug(ctx, t)) && |nodes| == old(|nodes|)
    {
      ghost var f, wt := ctx[0], Sibling(ctx[0]);
      ghost var old0 := nodes[Nil];
      var xp := nodes[x].parent;
      SiblingKids(nodes, root, ctx, t);
      var w := if left then nodes[xp].right else nodes[xp].left;
      EraseRedSiblingShaped(nodes, root, ctx, t);
      nodes := nodes[w := nodes[w].(color := Black)];
      nodes := nodes[xp := nodes[xp].(color := Red)];
      ghost var top := Fill(WithSibling(f, wt.(color := Black)).(c := Red), t);
      ghost var a, b;
      if left {
        LeftRotate(xp, ctx[1..], top);
        EraseRedSiblingLeft(ctx, t);
        a, b := InL(Red, f.p, f.k, f.v, wt.left), InL(Black, wt.id, wt.key, wt.val, wt.right);
      } else {
        RightRotate(xp, ctx[1..], top);
        EraseRedSiblingRight(ctx, t);
        a, b := InR(Red, wt.right, f.p, f.k, f.v), InR(Black, wt.left, wt.id, wt.key, wt.val);
      }
      ZipUp(nodes, root, b, ctx[1..], Fill(a, t));
      ZipUp(nodes, root, a, [b] + ctx[1..], t);
      ctx' := [a, b] + ctx[1..];
      Cons2(a, b, ctx[1..]);
      EraseSibling(ctx', t);
    }

    /** Cases 2 to 4: the sibling w is black. With two black children w turns red
        and the extra black moves up to the parent (case 2); otherwise cases 3 and 4
        end the loop. */
    method EraseBlackSibling(x: nat, ghost ctx: Path<V>, ghost t: Tree<V>, left: bool)
      returns (x': nat, ghost ctx': Path<V>, ghost t': Tree<V>)
      requires Shaped(nodes, root, ctx, t) && EraseInv(ctx, t) && ctx != [] && ColorOf(t) == Black
      requires x == RootId(t) && x < |nodes| && nodes[x].parent == ParentId(ctx)
      requires if left then ctx[0].InL? else ctx[0].InR?
      requires Sibling(ctx[0]).Node? && ColorOf(Sibling(ctx[0])) == Black
      modifies this`nodes, this`root
      ensures Shaped(nodes, root, ctx', t') && EraseInv(ctx', t') && x' == RootId(t') && x' < |nodes|
      ensures nodes[x'].parent == ParentId(ctx')
      ensures ctx' == [] || EraseMeasure(ctx', t') < |ctx| + Blk(ctx[0].c)
      ensures Inorder(Plug(ctx', t')) == Inorder(Plug(ctx, t)) && |nodes| == old(|nodes|)
    {
      ghost var f, wt := ctx[0], Sibling(ctx[0]);
      var xp := nodes[x].parent;
      SiblingKids(nodes, root, ctx, t);
      var w := if left then nodes[xp].right else nodes[xp].left;
      if nodes[nodes[w].left].color == Black && nodes[nodes[w].right].color == Black {
        PaintSibling(nodes, root, ctx, t, Red);
        nodes := nodes[w := nodes[w].(color := Red)];
        EraseRecolor(ctx, t);
        ghost var f' := WithSibling(f, wt.(color := Red));
        ZipUp(nodes, root, f', ctx[1..], t);
        x', ctx', t' := xp, ctx[1..], Fill(f', t);
      } else if left {
        x', t' := EraseRotateLeft(x, ctx, t);
        ctx' := [];
      } else {
        x', t' := EraseRotateRight(x, ctx, t);
        ctx' := [];
      }
    }

    /** Cases 3 and 4, x a left child: if w's right child is black, w and its red
        left child swap colours and w is rotated right (case 3); then w takes the
        parent's colour, the parent and w's right child turn black, the parent is
        rotated left, and x becomes the root (case 4). */
    method EraseRotateLeft(x: nat, ghost ctx: Path<V>, ghost t: Tree<V>) returns (x': nat, ghost t': Tree<V>)
      requires Shaped(nodes, root, ctx, t) && EraseInv(ctx, t) && ctx != [] && ColorOf(t) == Black
      requires x == RootId(t) && x < |nodes| && nodes[x].parent == ParentId(ctx)
      requires ctx[0].InL? && ctx[0].r.Node? && ColorOf(ctx[0].r) == Black
      requires !(ColorOf(ctx[0].r.left) == Black && ColorOf(ctx[0].r.right) == Black)
      modifies this`nodes, this`root
      ensures Shaped(nodes, root, [], t') && EraseInv([], t') && x' == RootId(t') && x' < |nodes|
      ensures nodes[x'].parent == Nil
      ensures Inorder(t') == Inorder(Plug(ctx, t)) && |nodes| == old(|nodes|)
    {
      ghost var c := ctx;
      var xp := nodes[x].parent;
      SiblingKids(nodes, root, ctx, t);
      var w := nodes[xp].right;
      if nodes[nodes[w].right].color == Black {
        ghost var f, wt := ctx[0], ctx[0].r;
        ghost var a := wt.left;
        EraseNearRedLeft(ctx, t);
        NearRedShapedLeft(nodes, root, ctx, t);
        var wl := nodes[w].left;
        nodes := nodes[wl := nodes[wl].(color := Black)];
        nodes := nodes[w := nodes[w].(color := Red)];
        RightRotate(w, [Flip(f, t)] + ctx[1..], Node(Red, Blacken(a), wt.id, wt.key, wt.val, wt.right));
        ghost var w' := Node(Black, a.left, a.id, a.key, a.val, Node(Red, a.right, wt.id, wt.key, wt.val, wt.right));
        ZipUp(nodes, root, Flip(f, t), ctx[1..], w');
        ghost var f' := InL(f.c, f.p, f.k, f.v, w');
        assert Fill(Flip(f, t), w') == Fill(f', t);
        ZipUp(nodes, root, f', ctx[1..], t);
        c := [f'] + ctx[1..];
        assert c[1..] == ctx[1..];
        SiblingKids(nodes, root, c, t);
        w := nodes[xp].right;
      }
      x', t' := EraseFarLeft(xp, w, c, t);
    }

    /** Case 4: the sibling w of x is black with a red right child. */
    method EraseFarLeft(xp: nat, w: nat, ghost c: Path<V>, ghost t: Tree<V>) returns (x': nat, ghost t': Tree<V>)
      requires Shaped(nodes, root, c, t) && EraseInv(c, t) && c != [] && ColorOf(t) == Black
      requires c[0].InL? && c[0].r.Node? && ColorOf(c[0].r) == Black && ColorOf(c[0].r.right) == Red
      requires xp == c[0].p && w == c[0].r.id
      modifies this`nodes, this`root
      ensures Shaped(nodes, root, [], t') && EraseInv([], t') && x' == RootId(t') && x' < |nodes|
      ensures nodes[x'].parent == Nil
      ensures Inorder(t') == Inorder(Plug(c, t)) && |nodes| == old(|nodes|)
    {
      ghost var f, wt := c[0], c[0].r;
      EraseFarRedLeft(c, t);
      FarRedShapedLeft(nodes, root, c, t);
      var wr := nodes[w].right;
      nodes := nodes[w := nodes[w].(color := nodes[xp].color)];
      nodes := nodes[xp := nodes[xp].(color := Black)];
      nodes := nodes[wr := nodes[wr].(color := Black)];
      LeftRotate(xp, c[1..], Node(Black, t, f.p, f.k, f.v, Node(f.c, wt.left, wt.id, wt.key, wt.val, Blacken(wt.right))));
      ghost var top := Node(f.c, Node(Black, t, f.p, f.k, f.v, wt.left), wt.id, wt.key, wt.val, Blacken(wt.right));
      ShapedPlug(nodes, root, c[1..], top);
      t' := Plug(c[1..], top);
      PlugIds(c[1..], top);
      RootIdIn(top);
      AtRoot(nodes, root, [], t');
      x' := root;
    }

    /** Cases 3 and 4, mirror: x a right child. */
    method EraseRotateRight(x: nat, ghost ctx: Path<V>, ghost t: Tree<V>) returns (x': nat, ghost t': Tree<V>)
      requires Shaped(nodes, root, ctx, t) && EraseInv(ctx, t) && ctx != [] && ColorOf(t) == Black
      requires x == RootId(t) && x < |nodes| && nodes[x].parent == ParentId(ctx)
      requires ctx[0].InR? && ctx[0].l.Node? && ColorOf(ctx[0].l) == Black
      requires !(ColorOf(ctx[0].l.right) == Black && ColorOf(ctx[0].l.left) == Black)
      modifies this`nodes, this`root
      ensures Shaped(nodes, root, [], t') && EraseInv([], t') && x' == RootId(t') && x' < |nodes|
      ensures nodes[x'].parent == Nil
      ensures Inorder(t') == Inorder(Plug(ctx, t)) && |nodes| == old(|nodes|)
    {
      ghost var c := ctx;
      var xp := nodes[x].parent;
      SiblingKids(nodes, root, ctx, t);
      var w := nodes[xp].left;
      if nodes[nodes[w].left].color == Black {
        ghost var f, wt := ctx[0], ctx[0].l;
        ghost var a := wt.right;
        EraseNearRedRight(ctx, t);
        NearRedShapedRight(nodes, root, ctx, t);
        var wr := nodes[w].right;
        nodes := nodes[wr := nodes[wr].(color := Black)];
        nodes := nodes[w := nodes[w].(color := Red)];
        LeftRotate(w, [Flip(f, t)] + ctx[1..], Node(Red, wt.left, wt.id, wt.key, wt.val, Blacken(a)));
        ghost var w' := Node(Black, Node(Red, wt.left, wt.id, wt.key, wt.val, a.left), a.id, a.key, a.val, a.right);
        ZipUp(nodes, root, Flip(f, t), ctx[1..], w');
        ghost var f' := InR(f.c, w', f.p, f.k, f.v);
        assert Fill(Flip(f, t), w') == Fill(f', t);
        ZipUp(nodes, root, f', ctx[1..], t);
        c := [f'] + ctx[1..];
        assert c[1..] == ctx[1..];
        SiblingKids(nodes, root, c, t);
        w := nodes[xp].left;
      }
      x', t' := EraseFarRight(xp, w, c, t);
    }

    /** Case 4, mirror: the sibling w of x is black with a red left child. */
    method EraseFarRight(xp: nat, w: nat, ghost c: Path<V>, ghost t: Tree<V>) returns (x': nat, ghost t': Tree<V>)
      requires Shaped(nodes, root, c, t) && EraseInv(c, t) && c != [] && ColorOf(t) == Black
      requires c[0].InR? && c[0].l.Node? && ColorOf(c[0].l) == Black && ColorOf(c[0].l.left) == Red
      requires xp == c[0].p && w == c[0].l.id
      modifies this`nodes, this`root
      ensures Shaped(nodes, root, [], t') && EraseInv([], t') && x' == RootId(t') && x' < |nodes|
      ensures nodes[x'].parent == Nil
      ensures Inorder(t') == Inorder(Plug(c, t)) && |nodes| == old(|nodes|)
    {
      ghost var f, wt := c[0], c[0].l;
      EraseFarRedRight(c, t);
      FarRedShapedRight(nodes, root, c, t);
      var wl := nodes[w].left;
      nodes := nodes[w := nodes[w].(color := nodes[xp].color)];
      nodes := nodes[xp := nodes[xp].(color := Black)];
      nodes := nodes[wl := nodes[wl].(color := Black)];
      RightRotate(xp, c[1..], Node(Black, Node(f.c, Blacken(wt.left), wt.id, wt.key, wt.val, wt.right), f.p, f.k, f.v, t));
      ghost var top := Node(f.c, Blacken(wt.left), wt.id, wt.key, wt.val, Node(Black, wt.right, f.p, f.k, f.v, t));
      ShapedPlug(nodes, root, c[1..], top);
      t' := Plug(c[1..], top);
      PlugIds(c[1..], top);
      RootIdIn(top);
      AtRoot(nodes, root, [], t');
      x' := root;
    }

    // -------------------------------------------------------------------------
    // Lookup
    // -------------------------------------------------------------------------

    /** `minimum(x)`: the leftmost node below x. */
    method Minimum(x: nat, ghost t: Tree<V>, ghost p: nat) returns (m: nat)
      requires ArenaOk(nodes) && Linked(nodes, t, p) && t.Node? && x == t.id
      ensures m == MinNode(t).id
    {
      m := x;
      ghost var s, q := t, p;
      while nodes[m].left != Nil
        invariant Linked(nodes, s, q) && s.Node? && m == s.id && MinNode(s) == MinNode(t)
        decreases s
      {
        assert s.left.Node? ==> Linked(nodes, s.left, s.id);
        q := m;
        m := nodes[m].left;
        s := s.left;
      }
    }

    /** `findHelper(key)`: binary search from the root; the node holding key, or the
        sentinel when no element has it. */
    method FindHelper(key: int) returns (n: nat)
      requires Valid()
      ensures n == NodeOf(Elements(), key)
      ensures n == Nil <==> key !in Contents()
      ensures n != Nil ==> n < |nodes| && nodes[n].key == key && nodes[n].val == Contents()[key]
    {
      var cur := root;
      ghost var ctx: Path<V> := [];
      ghost var sub := tree;
      MapOfKeys(Elements(), key);
      while cur != Nil
        invariant Shaped(nodes, root, ctx, sub) && Plug(ctx, sub) == tree && cur == RootId(sub)
        invariant AllBelow(LeftOf(ctx), key) && AllAbove(RightOf(ctx), key)
        decreases sub
      {
        ShapedIds(nodes, root, ctx, sub);
        if key < nodes[cur].key {
          DescendLeft(ctx, sub, key);
          assert Linked(nodes, sub.left, sub.id);
          ZipUp(nodes, root, InL(sub.color, sub.id, sub.key, sub.val, sub.right), ctx, sub.left);
          ctx, sub := [InL(sub.color, sub.id, sub.key, sub.val, sub.right)] + ctx, sub.left;
          cur := nodes[cur].left;
        } else if nodes[cur].key < key {
          DescendRight(ctx, sub, key);
          assert Linked(nodes, sub.right, sub.id);
          ZipUp(nodes, root, InR(sub.color, sub.left, sub.id, sub.key, sub.val), ctx, sub.right);
          ctx, sub := [InR(sub.color, sub.left, sub.id, sub.key, sub.val)] + ctx, sub.right;
          cur := nodes[cur].right;
        } else {
          SearchHit(ctx, sub);
          return cur;
        }
      }
      SearchMiss(ctx, key);
      return Nil;
    }

    /** `at(key)`: the value mapped to key, or `index_out_of_bound`. */
    method At(key: int) returns (r: Result<V>)
      requires Valid()
      ensures key in Contents() ==> r == Ok(Contents()[key])
      ensures key !in Contents() ==> r == Err(IndexOutOfBound)
    {
      var n := FindHelper(key);
      if n == Nil {
        return Err(IndexOutOfBound);
      }
      return Ok(nodes[n].val);
    }

    /** `count(key)`: 1 when an element has the key, 0 otherwise. */
    method Count(key: int) returns (c: nat)
      requires Valid()
      ensures c == if key in Contents() then 1 else 0
    {
      var n := FindHelper(key);
      c := if n != Nil then 1 else 0;
    }

    /** `find(key)`: an iterator to the element with the key, `end()` when none. */
    method Find(key: int) returns (it: Iterator<V>)
      requires Valid()
      ensures it.owner == this
      ensures it.node == NodeOf(Elements(), key)
      ensures key in Contents() ==> it.node in Ids()
      ensures key !in Contents() ==> it.node == Nil
    {
      var n := FindHelper(key);
      MapOfKeys(Elements(), key);
      if n != Nil {
        InorderIds(tree, KeyIndex(Elements(), key));
      }
      return Iterator(n, this);
    }

    /** `begin()`: an iterator to the first element, `end()` for an empty map. */
    method Begin() returns (it: Iterator<V>)
      requires Valid()
      ensures it.owner == this
      ensures Elements() == [] ==> it.node == Nil
      ensures Elements() != [] ==> it.node == Elements()[0].id
    {
      if root == Nil {
        return Iterator(Nil, this);
      }
      var m := Minimum(root, tree, Nil);
      MinZip(tree);
      return Iterator(m, this);
    }

    /** `end()`: the past-the-end iterator, which stands on the sentinel; no element
        is ever held by the sentinel. */
    method End() returns (it: Iterator<V>)
      requires Valid()
      ensures it == Iterator(Nil, this)
      ensures forall i | 0 <= i < |Elements()| :: Elements()[i].id != it.node
    {
      forall i | 0 <= i < |Elements()| ensures Elements()[i].id != Nil {
        InorderIds(tree, i);
        ShapedIds(nodes, root, [], tree);
      }
      return Iterator(Nil, this);
    }

    /** `size()`: the number of elements. */
    function Size(): (n: nat)
      requires Valid()
      reads this
      ensures n == |Elements()| && n == |Contents()|
    {
      SizeIsCount(Elements());
      size
    }

    /** `empty()`. */
    function Empty(): (e: bool)
      requires Valid()
      reads this
      ensures e <==> Contents() == map[]
    {
      MapOfEmpty(Elements());
      size == 0
    }

    /** `clear()`: the map becomes empty. The old nodes' records stay in the arena,
        unreachable; freeing them is not modelled. */
    method Clear()
      requires Valid()
      modifies this
      ensures Valid() && Elements() == [] && Contents() == map[]
      ensures nodes == old(nodes)
    {
      ShapedIds(nodes, root, [], tree);
      root := Nil;
      size := 0;
      tree := Leaf;
    }

    /** `copyHelper(node, parent)`: appends a copy of the subtree of `src` below node,
        parent before children, hung below parent, and returns the copy's root id. The
        recursion stops at the source's sentinel. The records already in the arena are
        kept, and the copy is t renumbered from the old arena size. */
    method CopyHelper(src: RBMap<V>, x: nat, parent: nat, ghost t: Tree<V>, ghost sp: nat) returns (y: nat)
      requires src != this && ArenaOk(src.nodes) && Linked(src.nodes, t, sp) && x == RootId(t)
      requires ArenaOk(nodes) && parent < |nodes|
      modifies this`nodes
      ensures |nodes| == old(|nodes|) + |Inorder(t)| && Except(old(nodes), nodes, {})
      ensures ArenaOk(nodes) && Linked(nodes, Renumber(t, old(|nodes|)), parent)
      ensures y == RootId(Renumber(t, old(|nodes|)))
      decreases t
    {
      if x == Nil {
        return Nil;
      }
      ghost var n0 := nodes;
      y := |nodes|;
      var rec := src.nodes[x];
      ArenaAppend(nodes, NodeRec(rec.key, rec.val, Nil, Nil, parent, rec.color));
      nodes := nodes + [NodeRec(rec.key, rec.val, Nil, Nil, parent, rec.color)];
      ghost var n1 := nodes;
      var l := CopyHelper(src, rec.left, y, t.left, x);
      ghost var n2 := nodes;
      ArenaWrite(nodes, y, nodes[y].(left := l));
      nodes := nodes[y := nodes[y].(left := l)];
      ghost var n3 := nodes;
      var r := CopyHelper(src, rec.right, y, t.right, x);
      ghost var n4 := nodes;
      ArenaWrite(nodes, y, nodes[y].(right := r));
      nodes := nodes[y := nodes[y].(right := r)];
      CopyLinked(n1, n2, n3, n4, nodes, t, y, parent, l, r);
    }

    /** The copy constructor: a fresh sentinel, then `copyHelper` from the other
        map's root. The copy holds the same elements in the same order, in new nodes,
        with the same colours, so it is again a valid red-black tree. */
    constructor Copy(other: RBMap<V>)
      requires other.Valid()
      ensures Valid() && SameElements(Elements(), other.Elements()) && Contents() == other.Contents()
      ensures size == other.size && dflt == other.dflt && fresh(this)
      ensures tree == Renumber(other.tree, 1)
    {
      dflt := other.dflt;
      nodes := [NodeRec(0, other.dflt, Nil, Nil, Nil, Black)];
      root := Nil;
      size := other.size;
      tree := Leaf;
      new;
      root := CopyHelper(other, other.root, Nil, other.tree, Nil);
      tree := Renumber(other.tree, 1);
      CopyValid(other.tree);
    }

    /** `operator=`: assigning a map to itself changes nothing; otherwise the map is
        cleared, gets a fresh sentinel and becomes a copy of the other map. */
    method Assign(other: RBMap<V>)
      requires Valid() && other.Valid()
      modifies this
      ensures Valid() && SameElements(Elements(), old(other.Elements())) && Contents() == old(other.Contents())
      ensures size == old(other.size)
      ensures other == this ==> nodes == old(nodes) && root == old(root) && tree == old(tree)
      ensures other != this ==> tree == Renumber(old(other.tree), 1)
    {
      if this != other {
        Clear();
        nodes := [NodeRec(0, dflt, Nil, Nil, Nil, Black)];
        root := CopyHelper(other, other.root, Nil, other.tree, Nil);
        tree := Renumber(other.tree, 1);
        size := other.size;
        CopyValid(other.tree);
      }
    }

    // -------------------------------------------------------------------------
    // Insertion
    // -------------------------------------------------------------------------

    /** `insert(value)`: the search for the key either meets a node with that key,
        which is returned with false and nothing changes, or ends at a sentinel under
        the last node visited, where a fresh red node is hung; `insertFixup` then
        rebalances. The new element lands at the key's rank, every other element
        keeps its node, and the map gains exactly the new key. */
    method Insert(key: int, val: V) returns (it: Iterator<V>, inserted: bool)
      requires Valid()
      modifies this
      ensures Valid() && it.owner == this
      ensures inserted <==> key !in old(Contents())
      ensures !inserted ==> it.node == old(NodeOf(Elements(), key)) && it.node in Ids()
      ensures !inserted ==> nodes == old(nodes) && root == old(root) && tree == old(tree) && size == old(size)
      ensures inserted ==> it.node == old(|nodes|) && |nodes| == old(|nodes|) + 1 && it.node in Ids()
      ensures inserted ==> Contents() == old(Contents())[key := val] && size == old(size) + 1
      ensures inserted ==> var r := old(Rank(Elements(), key));
        Elements() == old(Elements()[..r]) + [Entry(it.node, key, val)] + old(Elements()[r..])
    {
      var x, y;
      ghost var ctx, sub;
      x, y, ctx, sub := InsertSearch(key);
      if x != Nil {
        SearchHit(ctx, sub);
        MapOfKeys(Elements(), key);
        RootIdIn(sub);
        PlugIds(ctx, sub);
        return Iterator(x, this), false;
      }
      ShapedIds(nodes, root, ctx, sub);
      RootIdIn(sub);
      assert sub == Leaf;
      ghost var s0, m0 := Elements(), Contents();
      ghost var t := Node(Red, Leaf, |nodes|, key, val, Leaf);
      InsertAt(ctx, t);
      ghost var r := Rank(s0, key);
      assert Inorder(Plug(ctx, t)) == s0[..r] + [Entry(t.id, key, val)] + s0[r..];
      assert MapOf(Inorder(Plug(ctx, t))) == m0[key := val];
      var z := Attach(key, val, y, ctx);
      InsertStart(ctx, z, key, val);
      ghost var t' := InsertFixup(z, ctx, t);
      assert Inorder(t')[r] == Entry(z, key, val);
      InorderIds(t', r);
      tree := t';
      size := size + 1;
      it, inserted := Iterator(z, this), true;
    }

    /** `operator[](key)`: the value mapped to key; a missing key is first inserted
        with dflt, the value of `T()`, standing for the default-initialised value. */
    method Index(key: int) returns (v: V)
      requires Valid()
      modifies this
      ensures Valid()
      ensures key in old(Contents()) ==> v == old(Contents())[key] && tree == old(tree) && nodes == old(nodes)
      ensures key !in old(Contents()) ==> v == dflt && Contents() == old(Contents())[key := dflt]
      ensures key !in old(Contents()) ==> size == old(size) + 1
    {
      var n := FindHelper(key);
      if n != Nil {
        return nodes[n].val;
      }
      ghost var r := Rank(Elements(), key);
      var it, ok := Insert(key, dflt);
      assert Elements()[r] == Entry(it.node, key, dflt);
      LinkedEntry(nodes, tree, Nil, r);
      return nodes[it.node].val;
    }

    /** The search loop of `insert`: it stops at a node holding the key, or at the
        sentinel where a node with the key belongs, y being the last node visited. */
    method InsertSearch(key: int) returns (x: nat, y: nat, ghost ctx: Path<V>, ghost sub: Tree<V>)
      requires Valid()
      ensures Shaped(nodes, root, ctx, sub) && Plug(ctx, sub) == tree && x == RootId(sub) && y == ParentId(ctx)
      ensures AllBelow(LeftOf(ctx), key) && AllAbove(RightOf(ctx), key)
      ensures ctx != [] ==> (ctx[0].InL? <==> key < ctx[0].k)
      ensures sub.Node? ==> sub.key == key
    {
      y := Nil;
      x := root;
      ctx, sub := [], tree;
      while x != Nil
        invariant Shaped(nodes, root, ctx, sub) && Plug(ctx, sub) == tree && x == RootId(sub) && y == ParentId(ctx)
        invariant AllBelow(LeftOf(ctx), key) && AllAbove(RightOf(ctx), key)
        invariant ctx != [] ==> (ctx[0].InL? <==> key < ctx[0].k)
        decreases sub
      {
        ShapedIds(nodes, root, ctx, sub);
        if key < nodes[x].key {
          DescendLeft(ctx, sub, key);
          assert Linked(nodes, sub.left, sub.id);
          ZipUp(nodes, root, InL(sub.color, sub.id, sub.key, sub.val, sub.right), ctx, sub.left);
          ctx, sub := [InL(sub.color, sub.id, sub.key, sub.val, sub.right)] + ctx, sub.left;
          y := x;
          x := nodes[x].left;
        } else if nodes[x].key < key {
          DescendRight(ctx, sub, key);
          assert Linked(nodes, sub.right, sub.id);
          ZipUp(nodes, root, InR(sub.color, sub.left, sub.id, sub.key, sub.val), ctx, sub.right);
          ctx, sub := [InR(sub.color, sub.left, sub.id, sub.key, sub.val)] + ctx, sub.right;
          y := x;
          x := nodes[x].right;
        } else {
          return;
        }
      }
    }

    /** `new Node(value, RED, y)` with sentinel children, linked as the root when y is
        the sentinel and otherwise as y's left or right child by the key order. */
    method Attach(key: int, val: V, y: nat, ghost ctx: Path<V>) returns (z: nat)
      requires Shaped(nodes, root, ctx, Leaf) && y == ParentId(ctx)
      requires ctx != [] ==> (ctx[0].InL? <==> key < ctx[0].k)
      modifies this`nodes, this`root
      ensures z == old(|nodes|) && |nodes| == old(|nodes|) + 1
      ensures Shaped(nodes, root, ctx, Node(Red, Leaf, z, key, val, Leaf))
    {
      ShapedIds(nodes, root, ctx, Leaf);
      ghost var n0 := nodes;
      z := |nodes|;
      var rec := NodeRec(key, val, Nil, Nil, y, Red);
      ArenaAppend(nodes, rec);
      nodes := nodes + [rec];
      if y == Nil {
        root := z;
      } else if key < nodes[y].key {
        ArenaWrite(nodes, y, nodes[y].(left := z));
        nodes := nodes[y := nodes[y].(left := z)];
      } else {
        ArenaWrite(nodes, y, nodes[y].(right := z));
        nodes := nodes[y := nodes[y].(right := z)];
      }
      AttachLinks(n0, nodes, old(root), root, ctx, Node(Red, Leaf, z, key, val, Leaf));
    }

    // -------------------------------------------------------------------------
    // Erasure
    // -------------------------------------------------------------------------

    /** `erase(pos)`: an iterator of another container or `end()` is refused with
        `invalid_iterator` and nothing changes. Otherwise the node is unlinked (its
        successor taking its place when it has two children), `eraseFixup` runs when
        the unlinked colour was black, and the map loses exactly that element. */
    method Erase(pos: Iterator<V>) returns (err: Option<MapError>)
      requires Valid()
      requires pos.owner == this && pos.node != Nil ==> pos.node in Ids()
      modifies this
      ensures Valid()
      ensures pos.owner != this || pos.node == Nil ==>
        err == Some(InvalidIterator) && nodes == old(nodes) && root == old(root) && tree == old(tree) && size == old(size)
      ensures pos.owner == this && pos.node != Nil ==> err == None && size == old(size) - 1
      ensures pos.owner == this && pos.node != Nil ==>
        var i := old(IndexOf(Elements(), pos.node));
        i < old(|Elements()|) && Elements() == old(Elements()[..i] + Elements()[i + 1..]) &&
        Contents() == old(Contents()) - {old(Elements()[i].key)}
    {
      if pos.owner != this || pos.node == Nil {
        return Some(InvalidIterator);
      }
      EraseNode(pos.node);
      err := None;
    }

    /** The body of `erase` for a node z of the tree. */
    method EraseNode(z: nat)
      requires Valid() && z in Ids()
      modifies this
      ensures Valid() && size == old(size) - 1
      ensures var i := old(IndexOf(Elements(), z));
        i < old(|Elements()|) && Elements() == old(Elements()[..i] + Elements()[i + 1..]) &&
        Contents() == old(Contents()) - {old(Elements()[i].key)}
    {
      var n := size;
      ghost var t' := Detach(z);
      tree := t';
      size := n - 1;
    }

    /** Removing the node z of the tree: the arena then holds a red-black search tree
        of the elements without z's, in the same order. */
    method Detach(z: nat) returns (ghost t': Tree<V>)
      requires Valid() && z in Ids()
      modifies this`nodes, this`root
      ensures var s0, i := Inorder(tree), IndexOf(Inorder(tree), z);
        i < |s0| && Good(nodes, root, t', size - 1) && Inorder(t') == s0[..i] + s0[i + 1..] &&
        MapOf(Inorder(t')) == MapOf(s0) - {s0[i].key}
    {
      ghost var s0 := Elements();
      ghost var ctx, zt, i := Locate(nodes, root, tree, z);
      t' := Unhook(z, ctx, zt);
      EraseValid(nodes, root, t', s0, i);
    }

    /** `erase` proper once z is found: unlinking z and, when a black node left its
        position, `eraseFixup`. */
    method Unhook(z: nat, ghost ctx: Path<V>, ghost zt: Tree<V>) returns (ghost t': Tree<V>)
      requires Shaped(nodes, root, ctx, zt) && zt.Node? && z == zt.id && IsRB(Plug(ctx, zt))
      modifies this`nodes, this`root
      ensures Shaped(nodes, root, [], t') && IsRB(t')
      ensures Inorder(t') == (LeftOf(ctx) + Inorder(zt.left)) + (Inorder(zt.right) + RightOf(ctx))
    {
      var x, yColor;
      ghost var c, s;
      x, yColor, c, s := Unlink(z, ctx, zt);
      if yColor == Black {
        t' := EraseFixup(x, c, s);
      } else {
        ShapedPlug(nodes, root, c, s);
        t' := Plug(c, s);
      }
    }

    /** The unlinking part of `erase`: z leaves the tree. x is where the fix-up starts
        (possibly the sentinel, whose parent link is then set), and yColor is the
        colour of the node that left its position, z itself or z's successor. */
    method Unlink(z: nat, ghost ctx: Path<V>, ghost zt: Tree<V>)
      returns (x: nat, yColor: Color, ghost c: Path<V>, ghost s: Tree<V>)
      requires Shaped(nodes, root, ctx, zt) && zt.Node? && z == zt.id && IsRB(Plug(ctx, zt))
      modifies this`nodes, this`root
      ensures Shaped(nodes, root, c, s) && x == RootId(s) && x < |nodes| && nodes[x].parent == ParentId(c)
      ensures yColor == Black ==> EraseInv(c, s)
      ensures yColor == Red ==> IsRB(Plug(c, s))
      ensures Inorder(Plug(c, s)) == (LeftOf(ctx) + Inorder(zt.left)) + (Inorder(zt.right) + RightOf(ctx))
      ensures |nodes| == old(|nodes|)
    {
      ShapedIds(nodes, root, ctx, zt);
      RootIdIn(zt.left);
      RootIdIn(zt.right);
      yColor := nodes[z].color;
      if nodes[z].left == Nil {
        assert zt.left == Leaf;
        x := SpliceOut(z, ctx, zt, false);
        c, s := ctx, zt.right;
        SpliceOneChild(ctx, zt, false);
      } else if nodes[z].right == Nil {
        assert zt.right == Leaf;
        x := SpliceOut(z, ctx, zt, true);
        c, s := ctx, zt.left;
        SpliceOneChild(ctx, zt, true);
      } else {
        x, yColor := UnlinkSuccessor(z, ctx, zt);
        c, s := SpliceCtx(ctx, zt), MinNode(zt.right).right;
        SpliceSuccessor(ctx, zt);
        SpliceInorder(ctx, zt);
      }
    }

    /** `transplant(z, z->right)` when z has no left child (left false), or
        `transplant(z, z->left)` when it has no right child (left true). */
    method SpliceOut(z: nat, ghost ctx: Path<V>, ghost zt: Tree<V>, left: bool) returns (x: nat)
      requires Shaped(nodes, root, ctx, zt) && zt.Node? && z == zt.id
      requires if left then zt.right.Leaf? else zt.left.Leaf?
      modifies this`nodes, this`root
      ensures var v := if left then zt.left else zt.right;
        Shaped(nodes, root, ctx, v) && x == RootId(v) && x < |nodes| && nodes[x].parent == ParentId(ctx)
      ensures |nodes| == old(|nodes|)
    {
      x := if left then nodes[z].left else nodes[z].right;
      TransplantOut(nodes, root, ctx, zt, if left then zt.left else zt.right);
      Transplant(z, x);
    }

    /** z has two children: its successor y, the minimum of its right subtree, is
        unlinked from its own position (unless it is z's right child) and then takes
        z's place, z's left child and z's colour. */
    method UnlinkSuccessor(z: nat, ghost ctx: Path<V>, ghost zt: Tree<V>) returns (x: nat, yColor: Color)
      requires Shaped(nodes, root, ctx, zt) && zt.Node? && zt.left.Node? && zt.right.Node? && z == zt.id
      modifies this`nodes, this`root
      ensures Shaped(nodes, root, SpliceCtx(ctx, zt), MinNode(zt.right).right)
      ensures yColor == MinNode(zt.right).color
      ensures x == RootId(MinNode(zt.right).right) && x < |nodes| && nodes[x].parent == ParentId(SpliceCtx(ctx, zt))
      ensures |nodes| == old(|nodes|)
    {
      SuccessorRec(nodes, root, ctx, zt);
      var y := Minimum(nodes[z].right, zt.right, z);
      yColor := nodes[y].color;
      x := nodes[y].right;
      if nodes[y].parent == z {
        ReattachRight(z, y, x, ctx, zt);
      } else {
        ReattachDeep(z, y, x, ctx, zt);
      }
      TakePlace(z, y, x, ctx, zt);
    }

    /** The tail of `erase` for a node with two children: the successor y, with z's
        right subtree below it, takes z's place, left child and colour. */
    method TakePlace(z: nat, y: nat, x: nat, ghost ctx: Path<V>, ghost zt: Tree<V>)
      requires zt.Node? && zt.left.Node? && zt.right.Node? && SuccessorHung(ctx, zt) && DistinctZ(ctx, zt)
      requires z == zt.id && y == MinNode(zt.right).id && x == RootId(MinNode(zt.right).right)
      requires 0 < z && 0 < y
      modifies this`nodes, this`root
      ensures Shaped(nodes, root, SpliceCtx(ctx, zt), MinNode(zt.right).right)
      ensures x < |nodes| && nodes[x].parent == ParentId(SpliceCtx(ctx, zt))
      ensures |nodes| == old(|nodes|)
    {
      SpliceIds(ctx, zt);
      ReplaceBy(z, y, ctx, SpliceTop(zt));
      SplicedShaped(nodes, root, ctx, zt);
    }

    /** Between the two phases of unlinking z's successor y: y's old right subtree
        stands in y's old place, and that whole right subtree of z hangs below y. */
    ghost predicate SuccessorHung(ctx: Path<V>, zt: Tree<V>)
      requires zt.Node? && zt.right.Node?
      reads this
    {
      Hung(nodes, root, ctx, zt)
    }

    /** `x->parent = y` when the successor y is z's right child: x, possibly the
        sentinel, already hangs below y. */
    method ReattachRight(z: nat, y: nat, x: nat, ghost ctx: Path<V>, ghost zt: Tree<V>)
      requires Shaped(nodes, root, ctx, zt) && zt.Node? && zt.left.Node? && zt.right.Node? && z == zt.id
      requires MinPath(zt.right) == [] && y == zt.right.id && x == RootId(zt.right.right)
      modifies this`nodes
      ensures SuccessorHung(ctx, zt) && |nodes| == old(|nodes|)
    {
      ghost var n0 := nodes;
      ghost var zr := zt.right;
      ShapedIds(nodes, root, ctx, zt);
      assert Linked(nodes, zr, z) && Linked(nodes, zr.right, y);
      LinkedIds(nodes, zr.right, y);
      RootIdIn(zr.right);
      assert Distinct(zt) && Distinct(zr) && Distinct(zr.right);
      ArenaWrite(nodes, x, nodes[x].(parent := y));
      nodes := nodes[x := nodes[x].(parent := y)];
      LinkedCtxAway(n0, nodes, ctx, z, {x});
      LinkedAway(n0, nodes, zt.left, z, {x});
      LinkedReparent(n0, nodes, zr.right, y, y, {x});
      assert MinNode(zr) == zr;
    }

    /** `transplant(y, y->right)` when the successor y lies deeper in z's right
        subtree: y's right subtree, possibly the sentinel, takes y's place. */
    method SpliceOutSuccessor(y: nat, x: nat, ghost ctx: Path<V>, ghost zt: Tree<V>)
      requires Shaped(nodes, root, ctx, zt) && zt.Node? && zt.right.Node?
      requires MinPath(zt.right) != [] && y == MinNode(zt.right).id && x == RootId(MinNode(zt.right).right)
      modifies this`nodes, this`root
      ensures var ym := MinNode(zt.right);
        Shaped(nodes, root, ctx, Node(zt.color, zt.left, zt.id, zt.key, zt.val, Plug(MinPath(zt.right), ym.right))) &&
        x < |nodes| && y < |nodes| && nodes[x].parent == ParentId(SpliceCtx(ctx, zt)) && nodes[y].key == ym.key && nodes[y].val == ym.val
      ensures |nodes| == old(|nodes|) && root == old(root)
    {
      ghost var zr, ym, mp := zt.right, MinNode(zt.right), MinPath(zt.right);
      ghost var fz := InR(zt.color, zt.left, zt.id, zt.key, zt.val);
      ghost var fy := InR(zt.color, zt.left, ym.id, ym.key, ym.val);
      ghost var c1 := mp + ([fz] + ctx);
      MinZip(zr);
      assert Fill(fz, zr) == zt;
      ZipUp(nodes, root, fz, ctx, zr);
      ShapedConcat(nodes, root, mp, [fz] + ctx, ym);
      ShapedIds(nodes, root, c1, ym);
      assert c1[0] == mp[0] && (mp + ([fy] + ctx))[0] == mp[0];
      assert SpliceCtx(ctx, zt) == mp + ([fy] + ctx);
      TransplantOut(nodes, root, c1, ym, ym.right);
      RootIdIn(ym.right);
      Transplant(y, x);
      ShapedConcat(nodes, root, mp, [fz] + ctx, ym.right);
      ZipUp(nodes, root, fz, ctx, Plug(mp, ym.right));
    }

    /** `y->right = z->right; y->right->parent = y` once y is spliced out: z's right
        subtree now hangs below y. */
    method ReattachDeep(z: nat, y: nat, x: nat, ghost ctx: Path<V>, ghost zt: Tree<V>)
      requires Shaped(nodes, root, ctx, zt) && zt.Node? && zt.left.Node? && zt.right.Node? && z == zt.id
      requires MinPath(zt.right) != [] && y == MinNode(zt.right).id && x == RootId(MinNode(zt.right).right)
      modifies this`nodes, this`root
      ensures SuccessorHung(ctx, zt) && |nodes| == old(|nodes|)
    {
      ShapedIds(nodes, root, ctx, zt);
      MinOutIds(zt.right);
      SpliceOutSuccessor(y, x, ctx, zt);
      ReattachHung(nodes, root, ctx, zt, x);
      var r := nodes[z].right;
      nodes := nodes[y := nodes[y].(right := r)];
      nodes := nodes[r := nodes[r].(parent := y)];
    }

    /** `transplant(z, y); y->left = z->left; y->left->parent = y; y->color = z->color`. */
    method ReplaceBy(z: nat, y: nat, ghost ctx: Path<V>, ghost t: Tree<V>)
      requires ArenaOk(nodes) && t.Node? && t.left.Node? && DistinctZ(ctx, t) && y == t.id
      requires LinkedCtx(nodes, ctx, z) && Linked(nodes, t.left, z) && Linked(nodes, t.right, t.id)
      requires 0 < z < |nodes| && z !in IdSet(t) && z !in CtxIds(ctx) && 0 < t.id < |nodes|
      requires nodes[z].left == t.left.id && nodes[z].color == t.color && nodes[z].parent == ParentId(ctx)
      requires nodes[y].key == t.key && nodes[y].val == t.val && nodes[y].right == RootId(t.right)
      requires root == TopId(ctx, z)
      modifies this`nodes, this`root
      ensures Shaped(nodes, root, ctx, t) && |nodes| == old(|nodes|) && nodes[Nil] == old(nodes[Nil])
    {
      ReplaceShaped(nodes, root, ctx, z, t);
      Transplant(z, y);
      var l := nodes[z].left;
      nodes := nodes[y := nodes[y].(left := l)];
      nodes := nodes[l := nodes[l].(parent := y)];
      nodes := nodes[y := nodes[y].(color := nodes[z].color)];
    }
  }

  /** The zipper focused at the node z of a valid tree, and the index of z's
      element in the in-order sequence. */
  lemma Focus<V>(nodes: seq<NodeRec<V>>, root: nat, tree: Tree<V>, z: nat)
    returns (ctx: Path<V>, zt: Tree<V>, i: nat)
    requires Shaped(nodes, root, [], tree) && z in IdSet(tree)
    ensures Shaped(nodes, root, ctx, zt) && zt.Node? && zt.id == z && Plug(ctx, zt) == tree
    ensures i == IndexOf(Inorder(tree), z) && i < |Inorder(tree)| && i == |LeftOf(ctx) + Inorder(zt.left)|
  {
    ctx, zt := FocusOn(tree, z).0, FocusOn(tree, z).1;
    ShapedPlug(nodes, root, ctx, zt);
    ZipSplit(ctx, zt);
    InorderDistinct(tree);
    i := |LeftOf(ctx) + Inorder(zt.left)|;
    ElementAt(LeftOf(ctx) + Inorder(zt.left), Entry(z, zt.key, zt.val), Inorder(zt.right) + RightOf(ctx), Inorder(tree));
    IndexOfUnique(Inorder(tree), i);
  }

  /** As Focus, with the in-order sequence once z's element is taken out. */
  lemma Locate<V>(nodes: seq<NodeRec<V>>, root: nat, tree: Tree<V>, z: nat)
    returns (ctx: Path<V>, zt: Tree<V>, i: nat)
    requires Shaped(nodes, root, [], tree) && z in IdSet(tree)
    ensures Shaped(nodes, root, ctx, zt) && zt.Node? && zt.id == z && Plug(ctx, zt) == tree
    ensures i == IndexOf(Inorder(tree), z) && i < |Inorder(tree)| && i == |LeftOf(ctx) + Inorder(zt.left)|
    ensures var s := Inorder(tree);
      s[..i] + s[i + 1..] == (LeftOf(ctx) + Inorder(zt.left)) + (Inorder(zt.right) + RightOf(ctx))
  {
    ctx, zt, i := Focus(nodes, root, tree, z);
    ZipSplit(ctx, zt);
    ElementAt(LeftOf(ctx) + Inorder(zt.left), Entry(z, zt.key, zt.val), Inorder(zt.right) + RightOf(ctx), Inorder(tree));
  }

  lemma ElementAt<T>(a: seq<T>, x: T, b: seq<T>, s: seq<T>)
    requires s == a + [x] + b
    ensures |a| < |s| && s[|a|] == x && s[..|a|] + s[|a| + 1..] == a + b
  {
    assert s[..|a|] == a;
    assert s[|a| + 1..] == b;
  }

  /** z with at most one child v: v in z's place is a red-black tree if z was red,
      and carries z's extra black otherwise; either way the elements are z's subtree's
      without z. */
  lemma SpliceOneChild<V>(ctx: Path<V>, zt: Tree<V>, left: bool)
    requires IsRB(Plug(ctx, zt)) && zt.Node? && (if left then zt.right.Leaf? else zt.left.Leaf?)
    ensures var v := if left then zt.left else zt.right;
      (zt.color == Black ==> EraseInv(ctx, v)) && (zt.color == Red ==> IsRB(Plug(ctx, v))) &&
      Inorder(Plug(ctx, v)) == (LeftOf(ctx) + Inorder(zt.left)) + (Inorder(zt.right) + RightOf(ctx))
  {
    var v := if left then zt.left else zt.right;
    var a, b := LeftOf(ctx), RightOf(ctx);
    InorderPlug(ctx, v);
    if left {
      SpliceRightNil(ctx, zt);
      DropEmpty(a, Inorder(v), b, Inorder(zt.right));
    } else {
      SpliceLeftNil(ctx, zt);
      DropEmpty(a, Inorder(v), b, Inorder(zt.left));
    }
  }

  /** What `minimum(z->right)` and the reads after it see: the successor's colour,
      its right link, and whether it is z's own right child. */
  lemma SuccessorRec<V>(n: seq<NodeRec<V>>, root: nat, ctx: Path<V>, zt: Tree<V>)
    requires Shaped(n, root, ctx, zt) && zt.Node? && zt.right.Node?
    ensures var ym := MinNode(zt.right);
      ArenaOk(n) && Linked(n, zt.right, zt.id) && zt.id < |n| && n[zt.id].right == zt.right.id &&
      0 < ym.id < |n| && n[ym.id].color == ym.color && n[ym.id].right == RootId(ym.right) &&
      (n[ym.id].parent == zt.id <==> MinPath(zt.right) == [])
  {
    var zr, ym, mp := zt.right, MinNode(zt.right), MinPath(zt.right);
    var fz := InR(zt.color, zt.left, zt.id, zt.key, zt.val);
    MinZip(zr);
    assert Fill(fz, zr) == zt;
    ZipUp(n, root, fz, ctx, zr);
    ShapedConcat(n, root, mp, [fz] + ctx, ym);
    ShapedIds(n, root, ctx, zt);
    PlugIds(mp, ym);
    if mp != [] {
      assert (mp + ([fz] + ctx))[0] == mp[0];
      assert mp[0].p in CtxIds(mp);
    }
  }

  /** `y->right = z->right; y->right->parent = y` for a node y outside the tree:
      z's right subtree then hangs below y, and z, its left subtree and the path above
      it are untouched. */
  lemma ReattachShaped<V>(n: seq<NodeRec<V>>, root: nat, ctx: Path<V>, t: Tree<V>, y: nat)
    requires Shaped(n, root, ctx, t) && t.Node? && t.right.Node?
    requires 0 < y < |n| && y !in IdSet(t) && y !in CtxIds(ctx)
    ensures var r := t.right.id;
      var n2 := n[y := n[y].(right := r)];
      var n3 := n2[r := n2[r].(parent := y)];
      ArenaOk(n3) && |n3| == |n| && LinkedCtx(n3, ctx, t.id) && Linked(n3, t.left, t.id) && Linked(n3, t.right, y) &&
      n3[t.id] == n[t.id] && n3[Nil] == n[Nil] && n3[y] == n[y].(right := r)
  {
    var r := t.right.id;
    var n2 := n[y := n[y].(right := r)];
    var n3 := n2[r := n2[r].(parent := y)];
    ShapedIds(n, root, ctx, t);
    assert Linked(n, t.right, t.id) && Linked(n, t.left, t.id);
    assert Distinct(t) && Distinct(t.right);
    ArenaWrite(n, y, n[y].(right := r));
    ArenaWrite(n2, r, n2[r].(parent := y));
    assert Except(n, n3, {y, r});
    LinkedCtxAway(n, n3, ctx, t.id, {y, r});
    LinkedAway(n, n3, t.left, t.id, {y, r});
    LinkedReparent(n, n3, t.right, t.id, y, {y, r});
  }

  /** Case 1 of the insertion fix-up on the arena: the parent and the uncle painted
      black and the grandparent red give the recoloured grandparent subtree. */
  lemma InsertRecolorShaped<V>(n: seq<NodeRec<V>>, root: nat, ctx: Path<V>, t: Tree<V>)
    requires Shaped(n, root, ctx, t) && |ctx| >= 2 && Sibling(ctx[1]).Node?
    ensures ctx[0].p < |n| && Sibling(ctx[1]).id < |n| && ctx[1].p < |n|
    ensures var n1 := Paint(n, ctx[0].p, Black);
      var n2 := Paint(n1, Sibling(ctx[1]).id, Black);
      Shaped(Paint(n2, ctx[1].p, Red), root, ctx[2..], RecolorFocus(ctx, t))
  {
    var p, g := ctx[0], ctx[1];
    var u := Sibling(g);
    var p' := p.(c := Black);
    PaintParent(n, root, ctx, t, Black);
    var n1 := Paint(n, p.p, Black);
    ZipUp(n1, root, p', ctx[1..], t);
    assert ctx[1..][0] == g && ctx[1..][1..] == ctx[2..];
    PaintSibling(n1, root, ctx[1..], Fill(p', t), Black);
    var n2 := Paint(n1, u.id, Black);
    var g2 := WithSibling(g, u.(color := Black));
    PaintParent(n2, root, [g2] + ctx[2..], Fill(p', t), Red);
    assert ([g2] + ctx[2..])[1..] == ctx[2..];
    ZipUp(Paint(n2, g.p, Red), root, g2.(c := Red), ctx[2..], Fill(p', t));
    assert Blacken(u) == u.(color := Black);
    LinkedCtxIds(n, ctx, RootId(t));
  }

  /** Case 1 of the deletion fix-up on the arena: the sibling w painted black and the
      parent red. */
  lemma EraseRedSiblingShaped<V>(n: seq<NodeRec<V>>, root: nat, ctx: Path<V>, t: Tree<V>)
    requires Shaped(n, root, ctx, t) && ctx != [] && Sibling(ctx[0]).Node?
    ensures Sibling(ctx[0]).id < |n| && ctx[0].p < |n|
    ensures var f, w := ctx[0], Sibling(ctx[0]);
      var n2 := Paint(Paint(n, w.id, Black), f.p, Red);
      n2[Nil] == n[Nil] && Shaped(n2, root, ctx[1..], Fill(WithSibling(f, w.(color := Black)).(c := Red), t))
  {
    var f, w := ctx[0], Sibling(ctx[0]);
    var rest := ctx[1..];
    PaintSibling(n, root, ctx, t, Black);
    var n1 := Paint(n, w.id, Black);
    var f1 := WithSibling(f, w.(color := Black));
    assert ([f1] + rest)[0] == f1 && ([f1] + rest)[1..] == rest;
    PaintParent(n1, root, [f1] + rest, t, Red);
    ZipUp(Paint(n1, f.p, Red), root, f1.(c := Red), rest, t);
  }

  /** Case 3, x a left child, on the arena: w's left child painted black and w red,
      the focus moved onto w. */
  lemma NearRedShapedLeft<V>(n: seq<NodeRec<V>>, root: nat, ctx: Path<V>, t: Tree<V>)
    requires Shaped(n, root, ctx, t) && ctx != [] && ctx[0].InL? && ctx[0].r.Node? && ctx[0].r.left.Node?
    ensures ctx[0].r.left.id < |n| && ctx[0].r.id < |n|
    ensures var f, w := ctx[0], ctx[0].r;
      var n2 := Paint(Paint(n, w.left.id, Black), w.id, Red);
      n2[Nil] == n[Nil] &&
      Shaped(n2, root, [Flip(f, t)] + ctx[1..], Node(Red, Blacken(w.left), w.id, w.key, w.val, w.right))
  {
    var f, w := ctx[0], ctx[0].r;
    var g := Flip(f, t);
    var rest := ctx[1..];
    assert ctx == [f] + rest;
    ZipUp(n, root, f, rest, t);
    FlipFill(f, t);
    ZipUp(n, root, g, rest, w);
    PaintChild(n, root, [g] + rest, w, true, Black);
    var w1 := w.(left := w.left.(color := Black));
    PaintFocus(Paint(n, w.left.id, Black), root, [g] + rest, w1, Red);
  }

  /** Case 3, mirror. */
  lemma NearRedShapedRight<V>(n: seq<NodeRec<V>>, root: nat, ctx: Path<V>, t: Tree<V>)
    requires Shaped(n, root, ctx, t) && ctx != [] && ctx[0].InR? && ctx[0].l.Node? && ctx[0].l.right.Node?
    ensures ctx[0].l.right.id < |n| && ctx[0].l.id < |n|
    ensures var f, w := ctx[0], ctx[0].l;
      var n2 := Paint(Paint(n, w.right.id, Black), w.id, Red);
      n2[Nil] == n[Nil] &&
      Shaped(n2, root, [Flip(f, t)] + ctx[1..], Node(Red, w.left, w.id, w.key, w.val, Blacken(w.right)))
  {
    var f, w := ctx[0], ctx[0].l;
    var g := Flip(f, t);
    var rest := ctx[1..];
    assert ctx == [f] + rest;
    ZipUp(n, root, f, rest, t);
    FlipFill(f, t);
    ZipUp(n, root, g, rest, w);
    PaintChild(n, root, [g] + rest, w, false, Black);
    var w1 := w.(right := w.right.(color := Black));
    PaintFocus(Paint(n, w.right.id, Black), root, [g] + rest, w1, Red);
  }

  /** Case 4, x a left child, on the arena: w takes the parent's colour, the parent
      and w's right child turn black. */
  lemma FarRedShapedLeft<V>(n: seq<NodeRec<V>>, root: nat, ctx: Path<V>, t: Tree<V>)
    requires Shaped(n, root, ctx, t) && ctx != [] && ctx[0].InL? && ctx[0].r.Node? && ctx[0].r.right.Node?
    ensures ctx[0].r.id < |n| && ctx[0].p < |n| && ctx[0].r.right.id < |n|
    ensures var f, w := ctx[0], ctx[0].r;
      var n3 := Paint(Paint(Paint(n, w.id, f.c), f.p, Black), w.right.id, Black);
      n3[Nil] == n[Nil] &&
      Shaped(n3, root, ctx[1..], Node(Black, t, f.p, f.k, f.v, Node(f.c, w.left, w.id, w.key, w.val, Blacken(w.right))))
  {
    var f, w := ctx[0], ctx[0].r;
    var rest := ctx[1..];
    PaintSibling(n, root, ctx, t, f.c);
    var n1 := Paint(n, w.id, f.c);
    var w1 := w.(color := f.c);
    var f1 := WithSibling(f, w1);
    assert ([f1] + rest)[0] == f1 && ([f1] + rest)[1..] == rest;
    PaintParent(n1, root, [f1] + rest, t, Black);
    var n2 := Paint(n1, f.p, Black);
    var f2 := InL(Black, f.p, f.k, f.v, w1);
    var g := Flip(f2, t);
    ZipUp(n2, root, f2, rest, t);
    FlipFill(f2, t);
    ZipUp(n2, root, g, rest, w1);
    PaintChild(n2, root, [g] + rest, w1, false, Black);
    var w2 := w1.(right := w.right.(color := Black));
    ZipUp(Paint(n2, w.right.id, Black), root, g, rest, w2);
  }

  /** Case 4, mirror. */
  lemma FarRedShapedRight<V>(n: seq<NodeRec<V>>, root: nat, ctx: Path<V>, t: Tree<V>)
    requires Shaped(n, root, ctx, t) && ctx != [] && ctx[0].InR? && ctx[0].l.Node? && ctx[0].l.left.Node?
    ensures ctx[0].l.id < |n| && ctx[0].p < |n| && ctx[0].l.left.id < |n|
    ensures var f, w := ctx[0], ctx[0].l;
      var n3 := Paint(Paint(Paint(n, w.id, f.c), f.p, Black), w.left.id, Black);
      n3[Nil] == n[Nil] &&
      Shaped(n3, root, ctx[1..], Node(Black, Node(f.c, Blacken(w.left), w.id, w.key, w.val, w.right), f.p, f.k, f.v, t))
  {
    var f, w := ctx[0], ctx[0].l;
    var rest := ctx[1..];
    PaintSibling(n, root, ctx, t, f.c);
    var n1 := Paint(n, w.id, f.c);
    var w1 := w.(color := f.c);
    var f1 := WithSibling(f, w1);
    assert ([f1] + rest)[0] == f1 && ([f1] + rest)[1..] == rest;
    PaintParent(n1, root, [f1] + rest, t, Black);
    var n2 := Paint(n1, f.p, Black);
    var f2 := InR(Black, w1, f.p, f.k, f.v);
    var g := Flip(f2, t);
    ZipUp(n2, root, f2, rest, t);
    FlipFill(f2, t);
    ZipUp(n2, root, g, rest, w1);
    PaintChild(n2, root, [g] + rest, w1, true, Black);
    var w2 := w1.(left := w.left.(color := Black));
    ZipUp(Paint(n2, w.left.id, Black), root, g, rest, w2);
  }

  /** A sorted sequence holds as many distinct keys as elements. */
  lemma {:induction false} SizeIsCount<V>(s: seq<Entry<V>>)
    requires Sorted(s)
    ensures |MapOf(s)| == |s|
    decreases |s|
  {
    if s != [] {
      assert Sorted(s[1..]);
      SizeIsCount(s[1..]);
      assert forall j | 0 <= j < |s[1..]| :: s[1..][j].key != s[0].key;
      MapOfAbsent(s[1..], s[0].key);
    }
  }

  /** The arenas one `copyHelper` call goes through: n1 with the new record y
      appended, n2 after the left subtree is copied, n3 with y's left link set, n4
      after the right subtree is copied, n5 with y's right link set. */
  lemma CopyLinked<V>(n1: seq<NodeRec<V>>, n2: seq<NodeRec<V>>, n3: seq<NodeRec<V>>,
                      n4: seq<NodeRec<V>>, n5: seq<NodeRec<V>>, t: Tree<V>, y: nat, parent: nat,
                      l: nat, r: nat)
    requires t.Node? && 0 < y && |n1| == y + 1
    requires n1[y] == NodeRec(t.key, t.val, Nil, Nil, parent, t.color)
    requires |n2| == |n1| + |Inorder(t.left)| && Except(n1, n2, {})
    requires Linked(n2, Renumber(t.left, |n1|), y) && l == RootId(Renumber(t.left, |n1|))
    requires n3 == n2[y := n2[y].(left := l)]
    requires |n4| == |n3| + |Inorder(t.right)| && Except(n3, n4, {})
    requires Linked(n4, Renumber(t.right, |n3|), y) && r == RootId(Renumber(t.right, |n3|))
    requires n5 == n4[y := n4[y].(right := r)]
    ensures |n5| == y + |Inorder(t)| && Except(n1[..y], n5, {})
    ensures Linked(n5, Renumber(t, y), parent)
  {
    var lt, rt := Renumber(t.left, |n1|), Renumber(t.right, |n3|);
    assert |n3| == y + 1 + |Inorder(t.left)|;
    RenumberIds(t.left, |n1|);
    RenumberIds(t.right, |n3|);
    LinkedAway(n2, n3, lt, y, {y});
    LinkedAway(n3, n4, lt, y, {});
    LinkedAway(n4, n5, lt, y, {y});
    LinkedAway(n4, n5, rt, y, {y});
    assert n5[y] == NodeRec(t.key, t.val, RootId(lt), RootId(rt), parent, t.color);
    assert Renumber(t, y) == Node(t.color, lt, y, t.key, t.val, rt);
  }

  /** A copy of a valid tree, renumbered from 1 and linked below the sentinel of a
      fresh arena, is a valid tree with the same elements. */
  lemma CopyValid<V>(t: Tree<V>)
    requires IsRB(t) && Sorted(Inorder(t))
    ensures Distinct(Renumber(t, 1)) && Nil !in IdSet(Renumber(t, 1))
    ensures IsRB(Renumber(t, 1)) && Sorted(Inorder(Renumber(t, 1)))
    ensures SameElements(Inorder(Renumber(t, 1)), Inorder(t))
    ensures MapOf(Inorder(Renumber(t, 1))) == MapOf(Inorder(t))
  {
    RenumberIds(t, 1);
    RenumberRB(t, 1);
    RenumberElements(t, 1);
    SameSorted(Inorder(Renumber(t, 1)), Inorder(t));
    SameMapOf(Inorder(Renumber(t, 1)), Inorder(t));
  }

  /** The tree left by `erase` holds the elements of s0 without the one at i: still
      ascending, and the map without that key. */
  lemma EraseValid<V>(nodes: seq<NodeRec<V>>, root: nat, t: Tree<V>, s0: seq<Entry<V>>, i: nat)
    requires Sorted(s0) && i < |s0| && Inorder(t) == s0[..i] + s0[i + 1..]
    ensures Sorted(Inorder(t)) && |Inorder(t)| == |s0| - 1
    ensures MapOf(Inorder(t)) == MapOf(s0) - {s0[i].key}
  {
    SortedRemove(s0, i);
    MapOfRemove(s0, i);
  }

  /** Between the two phases of unlinking z's successor y: y's old right subtree
      stands in y's old place, and that whole right subtree of z hangs below y. */
  ghost predicate Hung<V>(nodes: seq<NodeRec<V>>, root: nat, ctx: Path<V>, zt: Tree<V>)
    requires zt.Node? && zt.right.Node?
  {
    var ym := MinNode(zt.right);
    var r' := Plug(MinPath(zt.right), ym.right);
    ArenaOk(nodes) && LinkedCtx(nodes, ctx, zt.id) && Linked(nodes, zt.left, zt.id) && Linked(nodes, r', ym.id) &&
    zt.id < |nodes| && ym.id < |nodes| &&
    nodes[zt.id].left == RootId(zt.left) && nodes[zt.id].color == zt.color && nodes[zt.id].parent == ParentId(ctx) &&
    nodes[ym.id].key == ym.key && nodes[ym.id].val == ym.val && nodes[ym.id].right == RootId(r') &&
    root == TopId(ctx, zt.id) &&
    (ym.right.Leaf? ==> nodes[Nil].parent == ParentId(SpliceCtx(ctx, zt)))
  }

  /** Once the successor y is spliced out, hanging z's right subtree below y
      establishes Hung. */
  lemma ReattachHung<V>(n: seq<NodeRec<V>>, root: nat, ctx: Path<V>, zt: Tree<V>, x: nat)
    requires zt.Node? && zt.left.Node? && zt.right.Node? && MinPath(zt.right) != [] && DistinctZ(ctx, zt)
    requires 0 < MinNode(zt.right).id
    requires var ym := MinNode(zt.right);
      Shaped(n, root, ctx, Node(zt.color, zt.left, zt.id, zt.key, zt.val, Plug(MinPath(zt.right), ym.right))) &&
      x == RootId(ym.right) && x < |n| && ym.id < |n| && n[x].parent == ParentId(SpliceCtx(ctx, zt)) &&
      n[ym.id].key == ym.key && n[ym.id].val == ym.val
    ensures zt.id < |n| && n[zt.id].right == RootId(Plug(MinPath(zt.right), MinNode(zt.right).right)) < |n|
    ensures var y, r := MinNode(zt.right).id, RootId(Plug(MinPath(zt.right), MinNode(zt.right).right));
      var n2 := n[y := n[y].(right := r)];
      Hung(n2[r := n2[r].(parent := y)], root, ctx, zt)
  {
    var ym, mp := MinNode(zt.right), MinPath(zt.right);
    var r' := Plug(mp, ym.right);
    var t1 := Node(zt.color, zt.left, zt.id, zt.key, zt.val, r');
    SpliceIds(ctx, zt);
    MinZip(zt.right);
    TopIdPlug(mp, ym.right);
    RootIdIn(r');
    PlugNode(mp, ym.right);
    assert IdSet(t1) == IdSet(zt.left) + {zt.id} + IdSet(r');
    ReattachShaped(n, root, ctx, t1, ym.id);
  }

  /** With y in z's place, the focus moves down to the subtree that took y's old place. */
  lemma SplicedShaped<V>(nodes: seq<NodeRec<V>>, root: nat, ctx: Path<V>, zt: Tree<V>)
    requires zt.Node? && zt.right.Node? && Shaped(nodes, root, ctx, SpliceTop(zt))
    ensures Shaped(nodes, root, SpliceCtx(ctx, zt), MinNode(zt.right).right)
    ensures RootId(MinNode(zt.right).right) < |nodes|
    ensures MinNode(zt.right).right.Node? ==>
      nodes[RootId(MinNode(zt.right).right)].parent == ParentId(SpliceCtx(ctx, zt))
  {
    SplicedFocus(nodes, root, ctx, zt);
    ShapedIds(nodes, root, SpliceCtx(ctx, zt), MinNode(zt.right).right);
    RootIdIn(MinNode(zt.right).right);
  }

  lemma SplicedFocus<V>(nodes: seq<NodeRec<V>>, root: nat, ctx: Path<V>, zt: Tree<V>)
    requires zt.Node? && zt.right.Node? && Shaped(nodes, root, ctx, SpliceTop(zt))
    ensures Shaped(nodes, root, SpliceCtx(ctx, zt), MinNode(zt.right).right)
  {
    var ym, mp := MinNode(zt.right), MinPath(zt.right);
    var fy := InR(zt.color, zt.left, ym.id, ym.key, ym.val);
    assert Fill(fy, Plug(mp, ym.right)) == SpliceTop(zt);
    ZipUp(nodes, root, fy, ctx, Plug(mp, ym.right));
    ShapedConcat(nodes, root, mp, [fy] + ctx, ym.right);
    AppendAssoc(mp, [fy], ctx);
  }

  /** In the `insertFixup` loop, a red parent has a black parent in turn, and which
      child of it the parent is decides the case. */
  lemma FixupSide<V>(nodes: seq<NodeRec<V>>, root: nat, c: Path<V>, s: Tree<V>)
    requires Shaped(nodes, root, c, s) && InsertInv(c, s) && c != [] && c[0].c == Red
    ensures |c| >= 2 && c[1].c == Black
    ensures s.id < |nodes| && nodes[s.id].parent == c[0].p
    ensures c[0].p < |nodes| && nodes[c[0].p].parent == c[1].p && c[1].p < |nodes|
    ensures nodes[c[1].p].left == c[0].p <==> c[1].InL?
  {
    InsertGrandparent(c, s);
    ConsSplit(c);
    ZipUp(nodes, root, c[0], c[1..], s);
    ChildSide(nodes, root, c[1..], Fill(c[0], s));
  }

  /** `root->color = BLACK` at the end of `insertFixup`. */
  lemma InsertBlacken<V>(nodes: seq<NodeRec<V>>, root: nat, c: Path<V>, s: Tree<V>)
    requires Shaped(nodes, root, c, s) && s.Node?
    ensures Plug(c, s).Node? && root < |nodes|
    ensures Shaped(Paint(nodes, root, Black), root, [], Plug(c, s).(color := Black))
  {
    PlugNode(c, s);
    ShapedPlug(nodes, root, c, s);
    PlugIds(c, s);
    RootIdIn(s);
    PaintFocus(nodes, root, [], Plug(c, s), Black);
  }

  /** `x->color = BLACK` at the end of `eraseFixup`; the sentinel is black already. */
  lemma EraseBlacken<V>(nodes: seq<NodeRec<V>>, root: nat, c: Path<V>, s: Tree<V>)
    requires Shaped(nodes, root, c, s)
    ensures RootId(s) < |nodes| && Shaped(Paint(nodes, RootId(s), Black), root, [], Plug(c, Blacken(s)))
  {
    if s.Node? {
      PaintFocus(nodes, root, c, s, Black);
    } else {
      assert Paint(nodes, Nil, Black) == nodes;
    }
    ShapedPlug(Paint(nodes, RootId(s), Black), root, c, Blacken(s));
  }

  /** One pass of `eraseFixup` decreases the measure, whether or not case 1 ran first. */
  lemma MeasureStep<V>(ctx: Path<V>, t: Tree<V>, c: Path<V>, ctx': Path<V>, t': Tree<V>)
    requires ctx != [] && ColorOf(t) == Black && c != []
    requires c == ctx || (|c| == |ctx| + 1 && c[0].c == Red)
    requires ctx' == [] || EraseMeasure(ctx', t') < |c| + Blk(c[0].c)
    ensures EraseMeasure(ctx', t') < EraseMeasure(ctx, t)
  {
  }

  lemma DropEmpty<T>(a: seq<T>, x: seq<T>, b: seq<T>, e: seq<T>)
    requires e == []
    ensures a + x + b == (a + x) + (e + b) && a + x + b == (a + e) + (x + b)
  {
  }
}
