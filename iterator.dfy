/** `sjtu::map::iterator`: a node of the container, or its sentinel for `end()`.
    Stepping follows the tree links: `++` goes to the leftmost node of the right
    subtree or climbs while it comes from a right child, `--` the mirror image. */
module MapIterator {
  import opened RedBlack
  import opened Arena
  import opened SjtuMap

  /** The iterator is one the container can step: it names the sentinel or a node
      of the container's tree. */
  ghost predicate Usable<V>(it: Iterator<V>)
    reads it.owner
  {
    it.owner.Valid() && (it.node != Nil ==> it.node in it.owner.Ids())
  }

  /** `++it`: past-the-end cannot advance and is left as it is; otherwise the
      iterator moves to the next element in key order, or to `end()` after the last
      one. */
  method Next<V>(it: Iterator<V>) returns (next: Iterator<V>, err: Option<MapError>)
    requires Usable(it)
    ensures it.node == Nil ==> next == it && err == Some(InvalidIterator)
    ensures it.node != Nil ==> var e := it.owner.Elements();
      IndexOf(e, it.node) < |e| && next == Iterator(After(e, it.node), it.owner) && err == None
  {
    var m := it.owner;
    if it.node == Nil {
      return it, Some(InvalidIterator);
    }
    ghost var e := m.Elements();
    ghost var ctx, zt, i := Focus(m.nodes, m.root, m.tree, it.node);
    Neighbours(ctx, zt, e, i);
    ShapedIds(m.nodes, m.root, ctx, zt);
    var cur := it.node;
    if m.nodes[cur].right != Nil {
      assert Linked(m.nodes, zt.right, cur);
      var n := m.Minimum(m.nodes[cur].right, zt.right, cur);
      MinZip(zt.right);
      return Iterator(n, m), None;
    }
    assert zt.right == Leaf;
    var n := ClimbRight(m.nodes, m.root, cur, ctx, zt, e, i);
    return Iterator(n, m), None;
  }

  /** The climb of `++it` from a node without right child: up while coming from a
      right child; the parent reached is the next node, the sentinel if none. */
  method ClimbRight<V>(nodes: seq<NodeRec<V>>, root: nat, z: nat, ghost ctx: Path<V>, ghost zt: Tree<V>, ghost e: seq<Entry<V>>, ghost i: nat)
    returns (n: nat)
    requires Shaped(nodes, root, ctx, zt) && zt.Node? && z == zt.id && i < |e|
    requires LeftOf(ctx) + Inorder(zt) == e[..i + 1] && RightOf(ctx) == e[i + 1..]
    ensures n == if i + 1 < |e| then e[i + 1].id else Nil
  {
    var cur := z;
    LinkedParent(nodes, root, ctx, zt);
    var parent := nodes[cur].parent;
    ghost var c, s := ctx, zt;
    while parent != Nil && cur == nodes[parent].right
      invariant Shaped(nodes, root, c, s) && s.Node? && cur == s.id && parent == ParentId(c)
      invariant LeftOf(c) + Inorder(s) == e[..i + 1] && RightOf(c) == e[i + 1..]
      decreases |c|
    {
      StepUpRight(nodes, root, c, s, e, i);
      cur := parent;
      parent := nodes[parent].parent;
      c, s := c[1..], Fill(c[0], s);
    }
    StopRight(nodes, root, c, s, e, i);
    n := parent;
  }

  /** `--it`: from `end()` the last element, an error (the iterator unmoved) when
      there is none; otherwise the previous element in key order. Stepping back from
      the first element moves the iterator to `end()` and then reports the error. */
  method Prev<V>(it: Iterator<V>) returns (next: Iterator<V>, err: Option<MapError>)
    requires Usable(it)
    ensures var e := it.owner.Elements(); var b := Before(e, it.node);
      (it.node != Nil ==> IndexOf(e, it.node) < |e|) &&
      next == Iterator(b, it.owner) && err == (if b == Nil then Some(InvalidIterator) else None)
  {
    var m := it.owner;
    ghost var e := m.Elements();
    if it.node == Nil {
      if m.root == Nil {
        assert m.tree == Leaf;
        return it, Some(InvalidIterator);
      }
      var n := Rightmost(m.nodes, m.root, m.tree, Nil);
      InorderIds(m.tree, |e| - 1);
      ShapedIds(m.nodes, m.root, [], m.tree);
      return Iterator(n, m), None;
    }
    var n := Predecessor(m.nodes, m.root, m.tree, it.node);
    next := Iterator(n, m);
    err := if n == Nil then Some(InvalidIterator) else None;
  }

  /** `--it` from a node z: the rightmost node of z's left subtree, or else the
      parent reached by climbing out of left children; the sentinel when z holds the
      first element. */
  method Predecessor<V>(nodes: seq<NodeRec<V>>, root: nat, ghost tree: Tree<V>, z: nat) returns (n: nat)
    requires Shaped(nodes, root, [], tree) && z in IdSet(tree)
    ensures var e := Inorder(tree); var i := IndexOf(e, z);
      i < |e| && n == (if i == 0 then Nil else e[i - 1].id) && (i > 0 ==> n != Nil)
  {
    ghost var e := Inorder(tree);
    ghost var ctx, zt, i := Focus(nodes, root, tree, z);
    if i > 0 {
      EntryNotNil(nodes, root, tree, i - 1);
    }
    Neighbours(ctx, zt, e, i);
    assert Linked(nodes, zt.left, z) && nodes[z].left == RootId(zt.left);
    if nodes[z].left != Nil {
      n := Rightmost(nodes, nodes[z].left, zt.left, z);
    } else {
      n := ClimbLeft(nodes, root, z, ctx, zt, e, i);
    }
  }

  /** The climb of `--it` from a node without left child: up while coming from a
      left child; the parent reached is the previous node, the sentinel if none. */
  method ClimbLeft<V>(nodes: seq<NodeRec<V>>, root: nat, z: nat, ghost ctx: Path<V>, ghost zt: Tree<V>, ghost e: seq<Entry<V>>, ghost i: nat)
    returns (n: nat)
    requires Shaped(nodes, root, ctx, zt) && zt.Node? && z == zt.id && i < |e|
    requires LeftOf(ctx) == e[..i] && Inorder(zt) + RightOf(ctx) == e[i..]
    ensures n == if i == 0 then Nil else e[i - 1].id
  {
    var cur := z;
    LinkedParent(nodes, root, ctx, zt);
    var parent := nodes[cur].parent;
    ghost var c, s := ctx, zt;
    while parent != Nil && cur == nodes[parent].left
      invariant Shaped(nodes, root, c, s) && s.Node? && cur == s.id && parent == ParentId(c)
      invariant LeftOf(c) == e[..i] && Inorder(s) + RightOf(c) == e[i..]
      decreases |c|
    {
      StepUpLeft(nodes, root, c, s, e, i);
      cur := parent;
      parent := nodes[parent].parent;
      c, s := c[1..], Fill(c[0], s);
    }
    StopLeft(nodes, root, c, s, e, i);
    n := parent;
  }

  /** The descent `while (current->right != nil) current = current->right`: the node
      holding the last element of the subtree t below x. */
  method Rightmost<V>(nodes: seq<NodeRec<V>>, x: nat, ghost t: Tree<V>, ghost p: nat) returns (n: nat)
    requires ArenaOk(nodes) && Linked(nodes, t, p) && t.Node? && x == t.id
    ensures n == Inorder(t)[|Inorder(t)| - 1].id
  {
    n := x;
    ghost var s, q := t, p;
    while nodes[n].right != Nil
      invariant Linked(nodes, s, q) && s.Node? && n == s.id
      invariant Inorder(s)[|Inorder(s)| - 1] == Inorder(t)[|Inorder(t)| - 1]
      decreases s
    {
      assert s.right.Node? ==> Linked(nodes, s.right, s.id);
      assert Inorder(s)[|Inorder(s)| - 1] == Inorder(s.right)[|Inorder(s.right)| - 1];
      q := n;
      n := nodes[n].right;
      s := s.right;
    }
    assert Inorder(s)[|Inorder(s)| - 1] == Entry(s.id, s.key, s.val);
  }

  /** `*it`: the element the iterator stands on; `end()` has none. */
  function Deref<V>(it: Iterator<V>): (r: Result<(int, V)>)
    requires Usable(it)
    reads it.owner
    ensures it.node == Nil <==> r.Err?
    ensures r.Err? ==> r.error == InvalidIterator
    ensures r.Ok? ==> var e := it.owner.Elements(); var i := IndexOf(e, it.node);
      i < |e| && r.value == (e[i].key, e[i].val) &&
      r.value.0 in it.owner.Contents() && it.owner.Contents()[r.value.0] == r.value.1
  {
    var m := it.owner;
    if it.node == Nil then Err(InvalidIterator)
    else
      var e := m.Elements();
      var i := LocateIndex(m, it.node);
      LinkedEntry(m.nodes, m.tree, Nil, i);
      MapOfSorted(e);
      assert e[i] == Entry(it.node, m.nodes[it.node].key, m.nodes[it.node].val);
      assert m.Contents()[e[i].key] == e[i].val;
      Ok((m.nodes[it.node].key, m.nodes[it.node].val))
  }

  /** The position of the element of node z. */
  ghost function LocateIndex<V>(m: RBMap<V>, z: nat): (i: nat)
    requires m.Valid() && z in m.Ids()
    reads m
    ensures i == IndexOf(m.Elements(), z) && i < |m.Elements()| && m.Elements()[i].id == z
  {
    var f := FocusOn(m.tree, z);
    ZipSplit(f.0, f.1);
    InorderDistinct(m.tree);
    var i := |LeftOf(f.0) + Inorder(f.1.left)|;
    IndexOfUnique(m.Elements(), i);
    i
  }

  /** `it == rhs`: the same node of the same container. */
  function Equal<V>(a: Iterator<V>, b: Iterator<V>): (eq: bool)
    ensures eq <==> a == b
  {
    a.node == b.node && a.owner == b.owner
  }

  /** `it != rhs`. */
  function NotEqual<V>(a: Iterator<V>, b: Iterator<V>): (ne: bool)
    ensures ne <==> a != b
  {
    !Equal(a, b)
  }

  // ---------------------------------------------------------------------------
  // Stepping through the elements
  // ---------------------------------------------------------------------------

  /** The node after node n in the element sequence e, the sentinel after the last. */
  ghost function After<V>(e: seq<Entry<V>>, n: nat): nat {
    var i := IndexOf(e, n);
    if i + 1 < |e| then e[i + 1].id else Nil
  }

  /** The node before node n in e: from the sentinel, the last node; the sentinel
      when there is none. */
  ghost function Before<V>(e: seq<Entry<V>>, n: nat): nat {
    if n == Nil then (if e == [] then Nil else e[|e| - 1].id)
    else
      var i := IndexOf(e, n);
      if 0 < i < |e| then e[i - 1].id else Nil
  }

  /** Every node of the sequence is reached from `end()` by stepping back, one step
      per element, and each step back is undone by a step forward and vice versa. */
  lemma StepInverse<V>(e: seq<Entry<V>>, i: nat)
    requires UniqueIds(e) && (forall j | 0 <= j < |e| :: e[j].id != Nil) && i < |e|
    ensures Before(e, After(e, e[i].id)) == e[i].id
    ensures After(e, Before(e, e[i].id)) == (if i == 0 then After(e, Nil) else e[i].id)
    ensures i == |e| - 1 ==> Before(e, Nil) == e[i].id && After(e, e[i].id) == Nil
  {
    IndexOfUnique(e, i);
    if i + 1 < |e| {
      IndexOfUnique(e, i + 1);
    }
    if i > 0 {
      IndexOfUnique(e, i - 1);
    }
  }

  // ---------------------------------------------------------------------------
  // Climbing the zipper
  // ---------------------------------------------------------------------------

  /** Climbing out of a right child keeps the elements up to the focus's last one
      on the left, and those after it on the right. */
  lemma UpFromRight<V>(c: Path<V>, s: Tree<V>)
    requires c != [] && c[0].InR?
    ensures LeftOf(c[1..]) + Inorder(Fill(c[0], s)) == LeftOf(c) + Inorder(s)
    ensures RightOf(c[1..]) == RightOf(c)
  {
    InorderFill(c[0], s);
  }

  /** Climbing out of a left child: the mirror image. */
  lemma UpFromLeft<V>(c: Path<V>, s: Tree<V>)
    requires c != [] && c[0].InL?
    ensures Inorder(Fill(c[0], s)) + RightOf(c[1..]) == Inorder(s) + RightOf(c)
    ensures LeftOf(c[1..]) == LeftOf(c)
  {
    var f := c[0];
    var a, b, d := Inorder(s), FrameRight(f), RightOf(c[1..]);
    InorderFill(f, s);
    assert Inorder(Fill(f, s)) == a + b;
    assert RightOf(c) == b + d;
    AppendAssoc(a, b, d);
  }

  lemma LinkedParent<V>(nodes: seq<NodeRec<V>>, root: nat, c: Path<V>, s: Tree<V>)
    requires Shaped(nodes, root, c, s) && s.Node?
    ensures s.id < |nodes| && nodes[s.id].parent == ParentId(c)
  {
  }

  /** One step of the climb of `++it`: from a right child to its parent. */
  lemma StepUpRight<V>(nodes: seq<NodeRec<V>>, root: nat, c: Path<V>, s: Tree<V>, e: seq<Entry<V>>, i: nat)
    requires Shaped(nodes, root, c, s) && s.Node? && ParentId(c) != Nil && s.id == nodes[ParentId(c)].right
    requires i < |e| && LeftOf(c) + Inorder(s) == e[..i + 1] && RightOf(c) == e[i + 1..]
    ensures c != [] && Shaped(nodes, root, c[1..], Fill(c[0], s)) && Fill(c[0], s).id == ParentId(c)
    ensures nodes[ParentId(c)].parent == ParentId(c[1..])
    ensures LeftOf(c[1..]) + Inorder(Fill(c[0], s)) == e[..i + 1] && RightOf(c[1..]) == e[i + 1..]
  {
    ChildSide(nodes, root, c, s);
    assert c == [c[0]] + c[1..];
    ZipUp(nodes, root, c[0], c[1..], s);
    UpFromRight(c, s);
  }

  /** The climb of `++it` has stopped: the parent reached holds the next element. */
  lemma StopRight<V>(nodes: seq<NodeRec<V>>, root: nat, c: Path<V>, s: Tree<V>, e: seq<Entry<V>>, i: nat)
    requires Shaped(nodes, root, c, s) && s.Node? && i < |e|
    requires !(ParentId(c) != Nil && s.id == nodes[ParentId(c)].right)
    requires LeftOf(c) + Inorder(s) == e[..i + 1] && RightOf(c) == e[i + 1..]
    ensures ParentId(c) == if i + 1 < |e| then e[i + 1].id else Nil
  {
    if c != [] {
      ChildSide(nodes, root, c, s);
      var f := c[0];
      FirstOf(Entry(f.p, f.k, f.v), Inorder(f.r), RightOf(c[1..]), RightOf(c), e, i + 1);
    }
  }

  /** One step of the climb of `--it`: from a left child to its parent. */
  lemma StepUpLeft<V>(nodes: seq<NodeRec<V>>, root: nat, c: Path<V>, s: Tree<V>, e: seq<Entry<V>>, i: nat)
    requires Shaped(nodes, root, c, s) && s.Node? && ParentId(c) != Nil && s.id == nodes[ParentId(c)].left
    requires i < |e| && LeftOf(c) == e[..i] && Inorder(s) + RightOf(c) == e[i..]
    ensures c != [] && Shaped(nodes, root, c[1..], Fill(c[0], s)) && Fill(c[0], s).id == ParentId(c)
    ensures nodes[ParentId(c)].parent == ParentId(c[1..])
    ensures LeftOf(c[1..]) == e[..i] && Inorder(Fill(c[0], s)) + RightOf(c[1..]) == e[i..]
  {
    ChildSide(nodes, root, c, s);
    assert c == [c[0]] + c[1..];
    ZipUp(nodes, root, c[0], c[1..], s);
    UpFromLeft(c, s);
  }

  /** The climb of `--it` has stopped: the parent reached holds the previous element. */
  lemma StopLeft<V>(nodes: seq<NodeRec<V>>, root: nat, c: Path<V>, s: Tree<V>, e: seq<Entry<V>>, i: nat)
    requires Shaped(nodes, root, c, s) && s.Node? && i < |e|
    requires !(ParentId(c) != Nil && s.id == nodes[ParentId(c)].left)
    requires LeftOf(c) == e[..i] && Inorder(s) + RightOf(c) == e[i..]
    ensures ParentId(c) == if i == 0 then Nil else e[i - 1].id
  {
    if c != [] {
      ChildSide(nodes, root, c, s);
      var f := c[0];
      LastOf(LeftOf(c[1..]), Inorder(f.l), Entry(f.p, f.k, f.v), LeftOf(c), e, i);
    }
  }


  lemma LastOf<T>(a: seq<T>, b: seq<T>, x: T, w: seq<T>, e: seq<T>, i: nat)
    requires w == a + (b + [x]) && i <= |e| && w == e[..i]
    ensures i > 0 && e[i - 1] == x
  {
    assert w[|w| - 1] == x;
  }

  lemma FirstOf<T>(x: T, b: seq<T>, d: seq<T>, w: seq<T>, e: seq<T>, i: nat)
    requires w == ([x] + b) + d && i <= |e| && w == e[i..]
    ensures i < |e| && e[i] == x
  {
    assert w[0] == x;
  }

  /** The elements next to a focused node: the last of its left subtree or, without
      one, those of the path; the first of its right subtree or, without one, those
      of the path. */
  lemma Neighbours<V>(ctx: Path<V>, zt: Tree<V>, e: seq<Entry<V>>, i: nat)
    requires zt.Node? && e == Inorder(Plug(ctx, zt)) && i == |LeftOf(ctx) + Inorder(zt.left)|
    ensures i < |e|
    ensures zt.left.Node? ==> 0 < i && e[i - 1] == Inorder(zt.left)[|Inorder(zt.left)| - 1]
    ensures zt.left.Leaf? ==> LeftOf(ctx) == e[..i] && Inorder(zt) + RightOf(ctx) == e[i..]
    ensures zt.right.Node? ==> i + 1 < |e| && e[i + 1] == Inorder(zt.right)[0]
    ensures zt.right.Leaf? ==> LeftOf(ctx) + Inorder(zt) == e[..i + 1] && RightOf(ctx) == e[i + 1..]
  {
    ZipSplit(ctx, zt);
    SplitAt(LeftOf(ctx), Inorder(zt.left), Entry(zt.id, zt.key, zt.val), Inorder(zt.right), RightOf(ctx),
            Inorder(zt), e, i);
  }

  lemma SplitAt<T>(a: seq<T>, b: seq<T>, x: T, c: seq<T>, d: seq<T>, z: seq<T>, e: seq<T>, i: nat)
    requires e == (a + b) + [x] + (c + d) && i == |a + b| && z == b + [x] + c
    ensures i < |e| && e[i] == x
    ensures b != [] ==> 0 < i && e[i - 1] == b[|b| - 1]
    ensures b == [] ==> a == e[..i] && z + d == e[i..]
    ensures c != [] ==> i + 1 < |e| && e[i + 1] == c[0]
    ensures c == [] ==> a + z == e[..i + 1] && d == e[i + 1..]
  {
    assert e[..i] == a + b;
    assert e[i + 1..] == c + d;
  }

  /** No element of a valid tree sits at the sentinel. */
  lemma EntryNotNil<V>(nodes: seq<NodeRec<V>>, root: nat, t: Tree<V>, j: nat)
    requires Shaped(nodes, root, [], t) && j < |Inorder(t)|
    ensures Inorder(t)[j].id != Nil
  {
    InorderIds(t, j);
    ShapedIds(nodes, root, [], t);
  }
}
