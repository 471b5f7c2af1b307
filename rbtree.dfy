/** The functional picture of the red-black tree behind `sjtu::map`: the tree shape
    with each node's colour, arena id, key and value; the in-order sequence that the
    map represents; the red-black invariants; and a zipper (a focused subtree plus the
    path back to the root) that names a position inside a tree. */
module RedBlack {

  datatype Color = Red | Black

  /** One element of the in-order sequence: the arena id of the node holding it,
      its key and its value. */
  datatype Entry<V> = Entry(id: nat, key: int, val: V)

  datatype Tree<V> =
    | Leaf
    | Node(color: Color, left: Tree<V>, id: nat, key: int, val: V, right: Tree<V>)

  /** One step of the path from a focused subtree up to the root: the parent node
      (colour c, id p, key k, value v) and the parent's other subtree. InL: the focus
      is the parent's left child and r is its right subtree; InR: the mirror. */
  datatype Frame<V> =
    | InL(c: Color, p: nat, k: int, v: V, r: Tree<V>)
    | InR(c: Color, l: Tree<V>, p: nat, k: int, v: V)

  /** Innermost frame first: ctx[0] holds the focus's parent. */
  type Path<V> = seq<Frame<V>>

  // ---------------------------------------------------------------------------
  // Shape
  // ---------------------------------------------------------------------------

  /** The sentinel, which stands for every empty subtree, is BLACK. */
  function ColorOf<V>(t: Tree<V>): Color {
    if t.Leaf? then Black else t.color
  }

  /** The arena id of the subtree's root; 0 is the sentinel. */
  function RootId<V>(t: Tree<V>): nat {
    if t.Leaf? then 0 else t.id
  }

  function Blacken<V>(t: Tree<V>): Tree<V> {
    if t.Leaf? then Leaf else t.(color := Black)
  }

  function Sibling<V>(f: Frame<V>): Tree<V> {
    match f
    case InL(_, _, _, _, r) => r
    case InR(_, l, _, _, _) => l
  }

  /** The frame with its other subtree replaced. */
  function WithSibling<V>(f: Frame<V>, s: Tree<V>): Frame<V> {
    match f
    case InL(c, p, k, v, _) => InL(c, p, k, v, s)
    case InR(c, _, p, k, v) => InR(c, s, p, k, v)
  }

  function Fill<V>(f: Frame<V>, t: Tree<V>): Tree<V> {
    match f
    case InL(c, p, k, v, r) => Node(c, t, p, k, v, r)
    case InR(c, l, p, k, v) => Node(c, l, p, k, v, t)
  }

  /** The whole tree that the zipper (ctx, t) denotes. */
  function Plug<V>(ctx: Path<V>, t: Tree<V>): Tree<V>
    decreases |ctx|
  {
    if ctx == [] then t else Plug(ctx[1..], Fill(ctx[0], t))
  }

  /** The id of the focus's parent, the sentinel at the root. */
  function ParentId<V>(ctx: Path<V>): nat {
    if ctx == [] then 0 else ctx[0].p
  }

  /** The id of the whole tree's root when the focus's root has id x. */
  function TopId<V>(ctx: Path<V>, x: nat): nat {
    if ctx == [] then x else ctx[|ctx| - 1].p
  }

  function RotateLeft<V>(t: Tree<V>): Tree<V>
    requires t.Node? && t.right.Node?
  {
    var y := t.right;
    Node(y.color, Node(t.color, t.left, t.id, t.key, t.val, y.left), y.id, y.key, y.val, y.right)
  }

  function RotateRight<V>(t: Tree<V>): Tree<V>
    requires t.Node? && t.left.Node?
  {
    var x := t.left;
    Node(x.color, x.left, x.id, x.key, x.val, Node(t.color, x.right, t.id, t.key, t.val, t.right))
  }

  lemma ZipFill<V>(f: Frame<V>, ctx: Path<V>, t: Tree<V>)
    ensures Plug([f] + ctx, t) == Plug(ctx, Fill(f, t))
  {
    assert ([f] + ctx)[1..] == ctx;
  }

  lemma {:induction false} PlugConcat<V>(a: Path<V>, b: Path<V>, t: Tree<V>)
    ensures Plug(a + b, t) == Plug(b, Plug(a, t))
    decreases |a|
  {
    if a != [] {
      assert (a + b)[1..] == a[1..] + b;
      PlugConcat(a[1..], b, Fill(a[0], t));
    } else {
      assert a + b == b;
    }
  }

  /** A tree with a frame around it is a node. */
  lemma {:induction false} PlugNode<V>(ctx: Path<V>, t: Tree<V>)
    requires t.Node? || ctx != []
    ensures Plug(ctx, t).Node?
    decreases |ctx|
  {
    if ctx != [] {
      PlugNode(ctx[1..], Fill(ctx[0], t));
    }
  }

  lemma {:induction false} TopIdPlug<V>(ctx: Path<V>, t: Tree<V>)
    ensures RootId(Plug(ctx, t)) == TopId(ctx, RootId(t))
    decreases |ctx|
  {
    if ctx != [] {
      TopIdPlug(ctx[1..], Fill(ctx[0], t));
    }
  }

  // ---------------------------------------------------------------------------
  // Node ids
  // ---------------------------------------------------------------------------

  function IdSet<V>(t: Tree<V>): set<nat> {
    match t
    case Leaf => {}
    case Node(_, l, id, _, _, r) => IdSet(l) + {id} + IdSet(r)
  }

  function CtxIds<V>(ctx: Path<V>): set<nat>
    decreases |ctx|
  {
    if ctx == [] then {} else {ctx[0].p} + IdSet(Sibling(ctx[0])) + CtxIds(ctx[1..])
  }

  /** No node id occurs twice in the tree. */
  ghost predicate Distinct<V>(t: Tree<V>) {
    match t
    case Leaf => true
    case Node(_, l, id, _, _, r) =>
      Distinct(l) && Distinct(r) && id !in IdSet(l) && id !in IdSet(r) && IdSet(l) !! IdSet(r)
  }

  ghost predicate DistinctCtx<V>(ctx: Path<V>)
    decreases |ctx|
  {
    ctx == [] ||
    (var s := Sibling(ctx[0]);
     Distinct(s) && ctx[0].p !in IdSet(s) && ctx[0].p !in CtxIds(ctx[1..]) &&
     IdSet(s) !! CtxIds(ctx[1..]) && DistinctCtx(ctx[1..]))
  }

  ghost predicate DistinctZ<V>(ctx: Path<V>, t: Tree<V>) {
    Distinct(t) && DistinctCtx(ctx) && IdSet(t) !! CtxIds(ctx)
  }

  lemma RootIdIn<V>(t: Tree<V>)
    ensures t.Node? ==> RootId(t) in IdSet(t)
    ensures t.Leaf? ==> RootId(t) == 0
  {
  }

  lemma ZipIds<V>(f: Frame<V>, ctx: Path<V>, t: Tree<V>)
    ensures CtxIds([f] + ctx) + IdSet(t) == CtxIds(ctx) + IdSet(Fill(f, t))
    ensures DistinctZ([f] + ctx, t) <==> DistinctZ(ctx, Fill(f, t))
  {
    assert ([f] + ctx)[1..] == ctx;
  }

  lemma {:induction false} PlugIds<V>(ctx: Path<V>, t: Tree<V>)
    ensures IdSet(Plug(ctx, t)) == CtxIds(ctx) + IdSet(t)
    ensures Distinct(Plug(ctx, t)) <==> DistinctZ(ctx, t)
    decreases |ctx|
  {
    if ctx != [] {
      ZipIds(ctx[0], ctx[1..], t);
      assert [ctx[0]] + ctx[1..] == ctx;
      PlugIds(ctx[1..], Fill(ctx[0], t));
    }
  }

  lemma RotateLeftIds<V>(t: Tree<V>)
    requires t.Node? && t.right.Node?
    ensures IdSet(RotateLeft(t)) == IdSet(t)
    ensures Distinct(RotateLeft(t)) <==> Distinct(t)
  {
  }

  lemma RotateRightIds<V>(t: Tree<V>)
    requires t.Node? && t.left.Node?
    ensures IdSet(RotateRight(t)) == IdSet(t)
    ensures Distinct(RotateRight(t)) <==> Distinct(t)
  {
  }

  // ---------------------------------------------------------------------------
  // In-order contents
  // ---------------------------------------------------------------------------

  /** The ascending sequence of elements that the tree represents. */
  function Inorder<V>(t: Tree<V>): seq<Entry<V>> {
    match t
    case Leaf => []
    case Node(_, l, id, k, v, r) => Inorder(l) + [Entry(id, k, v)] + Inorder(r)
  }

  function FrameLeft<V>(f: Frame<V>): seq<Entry<V>> {
    match f
    case InL(_, _, _, _, _) => []
    case InR(_, l, p, k, v) => Inorder(l) + [Entry(p, k, v)]
  }

  function FrameRight<V>(f: Frame<V>): seq<Entry<V>> {
    match f
    case InL(_, p, k, v, r) => [Entry(p, k, v)] + Inorder(r)
    case InR(_, _, _, _, _) => []
  }

  /** The elements that come before the focus in the in-order sequence. */
  function LeftOf<V>(ctx: Path<V>): seq<Entry<V>>
    decreases |ctx|
  {
    if ctx == [] then [] else LeftOf(ctx[1..]) + FrameLeft(ctx[0])
  }

  /** The elements that come after the focus in the in-order sequence. */
  function RightOf<V>(ctx: Path<V>): seq<Entry<V>>
    decreases |ctx|
  {
    if ctx == [] then [] else FrameRight(ctx[0]) + RightOf(ctx[1..])
  }

  lemma InorderFill<V>(f: Frame<V>, t: Tree<V>)
    ensures Inorder(Fill(f, t)) == FrameLeft(f) + Inorder(t) + FrameRight(f)
  {
  }

  lemma {:induction false} InorderPlug<V>(ctx: Path<V>, t: Tree<V>)
    ensures Inorder(Plug(ctx, t)) == LeftOf(ctx) + Inorder(t) + RightOf(ctx)
    decreases |ctx|
  {
    if ctx != [] {
      var f, rest := ctx[0], ctx[1..];
      InorderPlug(rest, Fill(f, t));
      InorderFill(f, t);
      Regroup(LeftOf(rest), FrameLeft(f), Inorder(t), FrameRight(f), RightOf(rest));
    }
  }

  lemma ConsSplit<T>(s: seq<T>)
    requires s != []
    ensures s == [s[0]] + s[1..]
  {
  }

  lemma ConsParts<T>(x: T, s: seq<T>)
    ensures ([x] + s)[0] == x && ([x] + s)[1..] == s
  {
  }

  lemma Cons2<T>(a: T, b: T, s: seq<T>)
    ensures [a] + ([b] + s) == [a, b] + s && ([a, b] + s)[0] == a && ([a, b] + s)[1..] == [b] + s
  {
  }

  lemma Regroup<T>(a: seq<T>, b: seq<T>, x: seq<T>, c: seq<T>, d: seq<T>)
    ensures a + (b + x + c) + d == (a + b) + x + (c + d)
  {
  }

  /** Two zippers with the same path denote trees with the same elements when their
      foci have the same elements. */
  lemma InorderPlugSame<V>(ctx: Path<V>, a: Tree<V>, b: Tree<V>)
    requires Inorder(a) == Inorder(b)
    ensures Inorder(Plug(ctx, a)) == Inorder(Plug(ctx, b))
  {
    InorderPlug(ctx, a);
    InorderPlug(ctx, b);
  }

  lemma RotateLeftInorder<V>(t: Tree<V>)
    requires t.Node? && t.right.Node?
    ensures Inorder(RotateLeft(t)) == Inorder(t)
  {
  }

  lemma RotateRightInorder<V>(t: Tree<V>)
    requires t.Node? && t.left.Node?
    ensures Inorder(RotateRight(t)) == Inorder(t)
  {
  }

  lemma AppendAssoc<T>(x: seq<T>, y: seq<T>, z: seq<T>)
    ensures (x + y) + z == x + (y + z)
  {
  }

  lemma {:induction false} LeftOfConcat<V>(a: Path<V>, b: Path<V>)
    ensures LeftOf(a + b) == LeftOf(b) + LeftOf(a)
    decreases |a|
  {
    if a == [] {
      assert a + b == b;
    } else {
      assert (a + b)[1..] == a[1..] + b;
      assert (a + b)[0] == a[0];
      LeftOfConcat(a[1..], b);
      var x, y, z := LeftOf(b), LeftOf(a[1..]), FrameLeft(a[0]);
      var w := LeftOf(a[1..] + b);
      assert w == x + y;
      assert LeftOf(a + b) == w + z;
      assert LeftOf(a) == y + z;
      AppendAssoc(x, y, z);
    }
  }

  lemma {:induction false} RightOfConcat<V>(a: Path<V>, b: Path<V>)
    ensures RightOf(a + b) == RightOf(a) + RightOf(b)
    decreases |a|
  {
    if a == [] {
      assert a + b == b;
    } else {
      assert (a + b)[1..] == a[1..] + b;
      assert (a + b)[0] == a[0];
      RightOfConcat(a[1..], b);
      calc {
        RightOf(a + b);
        FrameRight(a[0]) + RightOf(a[1..] + b);
        FrameRight(a[0]) + (RightOf(a[1..]) + RightOf(b));
      }
    }
  }

  /** Every id in the in-order sequence is a node of the tree. */
  lemma {:induction false} InorderIds<V>(t: Tree<V>, i: nat)
    requires i < |Inorder(t)|
    ensures Inorder(t)[i].id in IdSet(t)
  {
    match t
    case Node(_, l, id, k, v, r) =>
      if i < |Inorder(l)| {
        InorderIds(l, i);
      } else if i > |Inorder(l)| {
        InorderIds(r, i - |Inorder(l)| - 1);
      }
  }

  /** In a tree without repeated ids, no id occurs twice in the in-order sequence. */
  lemma {:induction false} InorderDistinct<V>(t: Tree<V>)
    requires Distinct(t)
    ensures UniqueIds(Inorder(t))
  {
    match t
    case Leaf =>
    case Node(_, l, id, k, v, r) =>
      InorderDistinct(l);
      InorderDistinct(r);
      var s := Inorder(t);
      var nl := |Inorder(l)|;
      forall i, j | 0 <= i < j < |s| ensures s[i].id != s[j].id {
        if j < nl {
          assert s[i] == Inorder(l)[i] && s[j] == Inorder(l)[j];
        } else if i > nl {
          assert s[i] == Inorder(r)[i - nl - 1] && s[j] == Inorder(r)[j - nl - 1];
        } else if i == nl {
          InorderIds(r, j - nl - 1);
          assert s[j] == Inorder(r)[j - nl - 1];
        } else if j == nl {
          InorderIds(l, i);
          assert s[i] == Inorder(l)[i];
        } else {
          InorderIds(l, i);
          InorderIds(r, j - nl - 1);
          assert s[i] == Inorder(l)[i] && s[j] == Inorder(r)[j - nl - 1];
        }
      }
  }

  // ---------------------------------------------------------------------------
  // Sequences of elements
  // ---------------------------------------------------------------------------

  /** Strictly ascending keys: the binary-search-tree order, read off in order. */
  ghost predicate Sorted<V>(s: seq<Entry<V>>) {
    forall i, j | 0 <= i < j < |s| :: s[i].key < s[j].key
  }

  ghost predicate UniqueIds<V>(s: seq<Entry<V>>) {
    forall i, j | 0 <= i < j < |s| :: s[i].id != s[j].id
  }

  ghost predicate AllBelow<V>(s: seq<Entry<V>>, k: int) {
    forall i | 0 <= i < |s| :: s[i].key < k
  }

  ghost predicate AllAbove<V>(s: seq<Entry<V>>, k: int) {
    forall i | 0 <= i < |s| :: k < s[i].key
  }

  /** A sequence with an element e in the middle is ascending exactly when both
      sides are and e separates them. */
  lemma SortedAround<V>(a: seq<Entry<V>>, e: Entry<V>, b: seq<Entry<V>>)
    ensures Sorted(a + [e] + b) <==> Sorted(a) && Sorted(b) && AllBelow(a, e.key) && AllAbove(b, e.key)
  {
    var s := a + [e] + b;
    if Sorted(s) {
      forall i, j | 0 <= i < j < |a| ensures a[i].key < a[j].key {
        assert s[i] == a[i] && s[j] == a[j];
      }
      forall i, j | 0 <= i < j < |b| ensures b[i].key < b[j].key {
        assert s[|a| + 1 + i] == b[i] && s[|a| + 1 + j] == b[j];
      }
      forall i | 0 <= i < |a| ensures a[i].key < e.key {
        assert s[i] == a[i] && s[|a|] == e;
      }
      forall i | 0 <= i < |b| ensures e.key < b[i].key {
        assert s[|a| + 1 + i] == b[i] && s[|a|] == e;
      }
    }
    if Sorted(a) && Sorted(b) && AllBelow(a, e.key) && AllAbove(b, e.key) {
      forall i, j | 0 <= i < j < |s| ensures s[i].key < s[j].key {
        if j < |a| {
          assert s[i] == a[i] && s[j] == a[j];
        } else if i > |a| {
          assert s[i] == b[i - |a| - 1] && s[j] == b[j - |a| - 1];
        } else if i == |a| {
          assert s[j] == b[j - |a| - 1];
        } else if j == |a| {
          assert s[i] == a[i];
        } else {
          assert s[i] == a[i] && s[j] == b[j - |a| - 1];
        }
      }
    }
  }

  lemma SortedSplit<V>(a: seq<Entry<V>>, b: seq<Entry<V>>, c: seq<Entry<V>>)
    requires Sorted(a + b + c)
    ensures Sorted(b)
  {
    var s := a + b + c;
    forall i, j | 0 <= i < j < |b| ensures b[i].key < b[j].key {
      assert s[|a| + i] == b[i] && s[|a| + j] == b[j];
    }
  }

  /** Sorted keys are distinct, so a sorted sequence never repeats a key. */
  lemma SortedRemove<V>(s: seq<Entry<V>>, i: nat)
    requires Sorted(s) && i < |s|
    ensures Sorted(s[..i] + s[i + 1..])
  {
    var r := s[..i] + s[i + 1..];
    forall a, b | 0 <= a < b < |r| ensures r[a].key < r[b].key {
      var a' := if a < i then a else a + 1;
      var b' := if b < i then b else b + 1;
      assert r[a] == s[a'] && r[b] == s[b'];
    }
  }

  /** The finite map from keys to values that a sequence of elements represents. */
  ghost function MapOf<V>(s: seq<Entry<V>>): map<int, V>
    decreases |s|
  {
    if s == [] then map[] else MapOf(s[1..])[s[0].key := s[0].val]
  }

  /** Index of the first element with key k, |s| when there is none. */
  ghost function KeyIndex<V>(s: seq<Entry<V>>, k: int): (i: nat)
    ensures i <= |s|
    ensures i < |s| ==> s[i].key == k
    ensures forall j | 0 <= j < i :: s[j].key != k
    decreases |s|
  {
    if s == [] then 0 else if s[0].key == k then 0 else 1 + KeyIndex(s[1..], k)
  }

  /** Index of the element held by node n, |s| when there is none. */
  ghost function IndexOf<V>(s: seq<Entry<V>>, n: nat): (i: nat)
    ensures i <= |s|
    ensures i < |s| ==> s[i].id == n
    ensures forall j | 0 <= j < i :: s[j].id != n
    decreases |s|
  {
    if s == [] then 0 else if s[0].id == n then 0 else 1 + IndexOf(s[1..], n)
  }

  lemma {:induction false} MapOfKeys<V>(s: seq<Entry<V>>, k: int)
    ensures k in MapOf(s) <==> KeyIndex(s, k) < |s|
    ensures k in MapOf(s) ==> MapOf(s)[k] == s[KeyIndex(s, k)].val
    decreases |s|
  {
    if s != [] {
      MapOfKeys(s[1..], k);
    }
  }

  /** In a sorted sequence the element with key k is the one at KeyIndex. */
  lemma KeyIndexSorted<V>(s: seq<Entry<V>>, i: nat)
    requires Sorted(s) && i < |s|
    ensures KeyIndex(s, s[i].key) == i
  {
  }

  lemma KeyIndexAbsent<V>(a: seq<Entry<V>>, b: seq<Entry<V>>, k: int)
    requires AllBelow(a, k) && AllAbove(b, k)
    ensures KeyIndex(a + b, k) == |a + b|
  {
    var s := a + b;
    forall j | 0 <= j < |s| ensures s[j].key != k {
      if j < |a| { assert s[j] == a[j]; } else { assert s[j] == b[j - |a|]; }
    }
  }

  lemma KeyIndexAt<V>(a: seq<Entry<V>>, e: Entry<V>, b: seq<Entry<V>>)
    requires AllBelow(a, e.key)
    ensures KeyIndex(a + [e] + b, e.key) == |a|
  {
    var s := a + [e] + b;
    assert s[|a|] == e;
    forall j | 0 <= j < |a| ensures s[j].key != e.key {
      assert s[j] == a[j];
    }
  }

  lemma IndexOfUnique<V>(s: seq<Entry<V>>, i: nat)
    requires UniqueIds(s) && i < |s|
    ensures IndexOf(s, s[i].id) == i
  {
  }

  /** The number of elements whose key is below k; in a sorted sequence, the index
      at which an element with key k belongs. */
  ghost function Rank<V>(s: seq<Entry<V>>, k: int): (i: nat)
    ensures i <= |s|
    decreases |s|
  {
    if s == [] then 0 else (if s[0].key < k then 1 else 0) + Rank(s[1..], k)
  }

  lemma {:induction false} RankSplit<V>(a: seq<Entry<V>>, b: seq<Entry<V>>, k: int)
    requires AllBelow(a, k)
    requires forall i | 0 <= i < |b| :: k <= b[i].key
    ensures Rank(a + b, k) == |a|
    decreases |a|
  {
    if a == [] {
      assert a + b == b;
      RankNone(b, k);
    } else {
      assert (a + b)[1..] == a[1..] + b;
      RankSplit(a[1..], b, k);
    }
  }

  lemma {:induction false} RankNone<V>(b: seq<Entry<V>>, k: int)
    requires forall i | 0 <= i < |b| :: k <= b[i].key
    ensures Rank(b, k) == 0
    decreases |b|
  {
    if b != [] {
      RankNone(b[1..], k);
    }
  }

  // ---------------------------------------------------------------------------
  // Leftmost node
  // ---------------------------------------------------------------------------

  /** The leftmost node of a non-empty tree, the one `minimum` stops at. */
  function MinNode<V>(t: Tree<V>): (m: Tree<V>)
    requires t.Node?
    ensures m.Node? && m.left.Leaf? && m.id in IdSet(t)
  {
    if t.left.Leaf? then t else MinNode(t.left)
  }

  /** The path from the leftmost node up to the root of t. */
  function MinPath<V>(t: Tree<V>): Path<V>
    requires t.Node?
  {
    if t.left.Leaf? then [] else MinPath(t.left) + [InL(t.color, t.id, t.key, t.val, t.right)]
  }

  /** The leftmost node sits at the end of a path of left steps, nothing precedes it,
      and it holds the first element of the in-order sequence. */
  lemma {:induction false} MinZip<V>(t: Tree<V>)
    requires t.Node?
    ensures Plug(MinPath(t), MinNode(t)) == t
    ensures LeftOf(MinPath(t)) == []
    ensures forall i | 0 <= i < |MinPath(t)| :: MinPath(t)[i].InL?
    ensures MinPath(t) != [] ==> MinPath(t)[|MinPath(t)| - 1].p == t.id
    ensures Inorder(t)[0] == Entry(MinNode(t).id, MinNode(t).key, MinNode(t).val)
  {
    if t.left.Node? {
      var f := InL(t.color, t.id, t.key, t.val, t.right);
      MinZip(t.left);
      PlugConcat(MinPath(t.left), [f], MinNode(t));
      LeftOfConcat(MinPath(t.left), [f]);
      assert [f][1..] == [];
    }
    InorderPlug(MinPath(t), MinNode(t));
  }
  /** The leftmost node's element comes first, followed by the elements of the tree
      with the leftmost node replaced by its right subtree. */
  lemma MinSplit<V>(t: Tree<V>)
    requires t.Node?
    ensures var y := MinNode(t);
      Inorder(t) == [Entry(y.id, y.key, y.val)] + Inorder(Plug(MinPath(t), y.right))
  {
    MinZip(t);
    FirstSplit(MinPath(t), MinNode(t));
  }

  lemma FirstSplit<V>(ctx: Path<V>, y: Tree<V>)
    requires y.Node? && y.left.Leaf? && LeftOf(ctx) == []
    ensures Inorder(Plug(ctx, y)) == [Entry(y.id, y.key, y.val)] + Inorder(Plug(ctx, y.right))
  {
    InorderPlug(ctx, y);
    InorderPlug(ctx, y.right);
    Unshift(LeftOf(ctx), Entry(y.id, y.key, y.val), Inorder(y.right), RightOf(ctx),
            Inorder(Plug(ctx, y)), Inorder(Plug(ctx, y.right)));
  }

  lemma Unshift<T>(l: seq<T>, e: T, ys: seq<T>, rs: seq<T>, whole: seq<T>, rest: seq<T>)
    requires l == [] && whole == l + ([] + [e] + ys) + rs && rest == l + ys + rs
    ensures whole == [e] + rest
  {
    assert whole == [e] + ys + rs;
  }




  // ---------------------------------------------------------------------------
  // Locating a node, and the map a sorted sequence represents
  // ---------------------------------------------------------------------------

  /** The zipper whose focus is the subtree rooted at node n. */
  ghost function FocusOn<V>(t: Tree<V>, n: nat): (z: (Path<V>, Tree<V>))
    requires n in IdSet(t)
    ensures z.1.Node? && z.1.id == n && Plug(z.0, z.1) == t
  {
    if t.id == n then ([], t)
    else if n in IdSet(t.left) then
      var (c, s) := FocusOn(t.left, n);
      var f := InL(t.color, t.id, t.key, t.val, t.right);
      PlugConcat(c, [f], s);
      assert [f][1..] == [];
      (c + [f], s)
    else
      var (c, s) := FocusOn(t.right, n);
      var f := InR(t.color, t.left, t.id, t.key, t.val);
      PlugConcat(c, [f], s);
      assert [f][1..] == [];
      (c + [f], s)
  }

  /** The id of the node holding key k, the sentinel when there is none. */
  ghost function NodeOf<V>(s: seq<Entry<V>>, k: int): nat {
    var i := KeyIndex(s, k);
    if i < |s| then s[i].id else 0
  }

  /** In a sorted sequence, the keys of the map are exactly the keys of the elements,
      and each maps to its element's value. */
  lemma MapOfSorted<V>(s: seq<Entry<V>>)
    requires Sorted(s)
    ensures forall k :: k in MapOf(s) <==> exists j | 0 <= j < |s| :: s[j].key == k
    ensures forall j | 0 <= j < |s| :: s[j].key in MapOf(s) && MapOf(s)[s[j].key] == s[j].val
  {
    forall k ensures k in MapOf(s) <==> exists j | 0 <= j < |s| :: s[j].key == k {
      MapOfKeys(s, k);
    }
    forall j | 0 <= j < |s| ensures s[j].key in MapOf(s) && MapOf(s)[s[j].key] == s[j].val {
      MapOfKeys(s, s[j].key);
      KeyIndexSorted(s, j);
    }
  }

  lemma MapOfEmpty<V>(s: seq<Entry<V>>)
    ensures MapOf(s) == map[] <==> s == []
  {
    if s != [] {
      assert s[0].key in MapOf(s);
    }
  }

  /** A key that no element carries is not in the map. */
  lemma MapOfAbsent<V>(s: seq<Entry<V>>, k: int)
    requires forall j | 0 <= j < |s| :: s[j].key != k
    ensures k !in MapOf(s)
  {
    MapOfKeys(s, k);
  }

  /** Removing the element at i removes exactly its key. */
  lemma {:induction false} MapOfRemove<V>(s: seq<Entry<V>>, i: nat)
    requires Sorted(s) && i < |s|
    ensures MapOf(s[..i] + s[i + 1..]) == MapOf(s) - {s[i].key}
    decreases i
  {
    var r := s[..i] + s[i + 1..];
    assert forall j | 0 < j < |s| :: s[j].key != s[0].key;
    MapOfAbsent(s[1..], s[0].key);
    if i == 0 {
      assert r == s[1..];
    } else {
      var t := s[1..];
      assert Sorted(t);
      MapOfRemove(t, i - 1);
      assert r == [s[0]] + (t[..i - 1] + t[i..]);
      assert r[1..] == t[..i - 1] + t[i..];
      assert t[i - 1] == s[i];
    }
  }

  /** Inserting an element with a new key adds exactly that key. */
  lemma MapOfInsert<V>(a: seq<Entry<V>>, e: Entry<V>, b: seq<Entry<V>>)
    requires Sorted(a + [e] + b)
    ensures MapOf(a + [e] + b) == MapOf(a + b)[e.key := e.val]
  {
    var s := a + [e] + b;
    assert s[..|a|] + s[|a| + 1..] == a + b;
    assert s[|a|] == e;
    MapOfRemove(s, |a|);
    MapOfSorted(s);
  }

  // ---------------------------------------------------------------------------
  // Binary search down a zipper
  // ---------------------------------------------------------------------------

  lemma ZipSplit<V>(ctx: Path<V>, t: Tree<V>)
    requires t.Node?
    ensures Inorder(Plug(ctx, t)) ==
      (LeftOf(ctx) + Inorder(t.left)) + [Entry(t.id, t.key, t.val)] + (Inorder(t.right) + RightOf(ctx))
  {
    InorderPlug(ctx, t);
  }

  /** The in-order sequence around a focused node, and the order it imposes. */
  lemma ZipSorted<V>(ctx: Path<V>, t: Tree<V>)
    requires t.Node? && Sorted(Inorder(Plug(ctx, t)))
    ensures Inorder(Plug(ctx, t)) ==
      (LeftOf(ctx) + Inorder(t.left)) + [Entry(t.id, t.key, t.val)] + (Inorder(t.right) + RightOf(ctx))
    ensures AllBelow(LeftOf(ctx) + Inorder(t.left), t.key)
    ensures AllAbove(Inorder(t.right) + RightOf(ctx), t.key)
    ensures Sorted(Inorder(t.right) + RightOf(ctx))
  {
    ZipSplit(ctx, t);
    SortedAround(LeftOf(ctx) + Inorder(t.left), Entry(t.id, t.key, t.val), Inorder(t.right) + RightOf(ctx));
  }

  /** Going left from a node whose key is above k keeps k between the two sides. */
  lemma DescendLeft<V>(ctx: Path<V>, t: Tree<V>, k: int)
    requires t.Node? && Sorted(Inorder(Plug(ctx, t))) && k < t.key
    requires AllBelow(LeftOf(ctx), k) && AllAbove(RightOf(ctx), k)
    ensures var c := [InL(t.color, t.id, t.key, t.val, t.right)] + ctx;
      Plug(c, t.left) == Plug(ctx, t) && AllBelow(LeftOf(c), k) && AllAbove(RightOf(c), k)
  {
    var f := InL(t.color, t.id, t.key, t.val, t.right);
    var c := [f] + ctx;
    var x := Entry(t.id, t.key, t.val);
    assert c[0] == f && c[1..] == ctx;
    ZipSorted(ctx, t);
    AboveFrom(Inorder(Plug(ctx, t)), LeftOf(ctx) + Inorder(t.left), x, Inorder(t.right), RightOf(ctx), k);
    assert LeftOf(c) == LeftOf(ctx) + [];
    assert RightOf(c) == ([x] + Inorder(t.right)) + RightOf(ctx);
  }

  lemma DescendRight<V>(ctx: Path<V>, t: Tree<V>, k: int)
    requires t.Node? && Sorted(Inorder(Plug(ctx, t))) && t.key < k
    requires AllBelow(LeftOf(ctx), k) && AllAbove(RightOf(ctx), k)
    ensures var c := [InR(t.color, t.left, t.id, t.key, t.val)] + ctx;
      Plug(c, t.right) == Plug(ctx, t) && AllBelow(LeftOf(c), k) && AllAbove(RightOf(c), k)
  {
    var f := InR(t.color, t.left, t.id, t.key, t.val);
    var c := [f] + ctx;
    var x := Entry(t.id, t.key, t.val);
    assert c[0] == f && c[1..] == ctx;
    ZipSorted(ctx, t);
    BelowFrom(Inorder(Plug(ctx, t)), LeftOf(ctx), Inorder(t.left), x, Inorder(t.right) + RightOf(ctx), k);
    assert RightOf(c) == [] + RightOf(ctx);
    assert LeftOf(c) == LeftOf(ctx) + (Inorder(t.left) + [x]);
  }

  /** In an ascending sequence, an element above k and all those after it are
      above k. */
  lemma AboveFrom<V>(w: seq<Entry<V>>, a: seq<Entry<V>>, x: Entry<V>, b: seq<Entry<V>>, d: seq<Entry<V>>, k: int)
    requires Sorted(w) && w == a + [x] + (b + d) && k < x.key && AllAbove(d, k)
    ensures AllAbove(([x] + b) + d, k)
  {
    var r := ([x] + b) + d;
    forall i | 0 <= i < |r| ensures k < r[i].key {
      assert r[i] == w[|a| + i];
      if i > 0 { assert w[|a|].key < w[|a| + i].key; }
    }
  }

  /** The mirror image: an element below k and all those before it are below k. */
  lemma BelowFrom<V>(w: seq<Entry<V>>, a: seq<Entry<V>>, b: seq<Entry<V>>, x: Entry<V>, d: seq<Entry<V>>, k: int)
    requires Sorted(w) && w == (a + b) + [x] + d && x.key < k && AllBelow(a, k)
    ensures AllBelow(a + (b + [x]), k)
  {
    var r := a + (b + [x]);
    forall i | 0 <= i < |r| ensures r[i].key < k {
      assert r[i] == w[i];
      if i < |a| + |b| { assert w[i].key < w[|a| + |b|].key; }
    }
  }

  /** The search stops at a node with key k: that node holds the key's element. */
  lemma SearchHit<V>(ctx: Path<V>, t: Tree<V>)
    requires t.Node? && Sorted(Inorder(Plug(ctx, t)))
    ensures KeyIndex(Inorder(Plug(ctx, t)), t.key) == |LeftOf(ctx) + Inorder(t.left)| < |Inorder(Plug(ctx, t))|
    ensures Inorder(Plug(ctx, t))[KeyIndex(Inorder(Plug(ctx, t)), t.key)] == Entry(t.id, t.key, t.val)
  {
    ZipSorted(ctx, t);
    KeyIndexAt(LeftOf(ctx) + Inorder(t.left), Entry(t.id, t.key, t.val), Inorder(t.right) + RightOf(ctx));
  }

  /** The search reaches the sentinel: no element has key k, and k belongs at the
      boundary between the two sides. */
  lemma SearchMiss<V>(ctx: Path<V>, k: int)
    requires AllBelow(LeftOf(ctx), k) && AllAbove(RightOf(ctx), k)
    ensures Inorder(Plug(ctx, Leaf)) == LeftOf(ctx) + RightOf(ctx)
    ensures KeyIndex(Inorder(Plug(ctx, Leaf)), k) == |Inorder(Plug(ctx, Leaf))|
    ensures Rank(Inorder(Plug(ctx, Leaf)), k) == |LeftOf(ctx)|
  {
    InorderPlug(ctx, Leaf);
    assert LeftOf(ctx) + Inorder(Leaf) + RightOf(ctx) == LeftOf(ctx) + RightOf(ctx);
    KeyIndexAbsent(LeftOf(ctx), RightOf(ctx), k);
    RankSplit(LeftOf(ctx), RightOf(ctx), k);
  }
  /** A new element put where the search for its key ended lands at the key's rank,
      keeps the keys ascending and adds exactly that key to the map. */
  lemma InsertAt<V>(ctx: Path<V>, t: Tree<V>)
    requires t.Node? && t.left.Leaf? && t.right.Leaf? && Sorted(Inorder(Plug(ctx, Leaf)))
    requires AllBelow(LeftOf(ctx), t.key) && AllAbove(RightOf(ctx), t.key)
    ensures var s := Inorder(Plug(ctx, Leaf)); var r := Rank(s, t.key);
      r <= |s| && Inorder(Plug(ctx, t)) == s[..r] + [Entry(t.id, t.key, t.val)] + s[r..]
    ensures Sorted(Inorder(Plug(ctx, t)))
    ensures t.key !in MapOf(Inorder(Plug(ctx, Leaf)))
    ensures MapOf(Inorder(Plug(ctx, t))) == MapOf(Inorder(Plug(ctx, Leaf)))[t.key := t.val]
  {
    var a, b := LeftOf(ctx), RightOf(ctx);
    var e := Entry(t.id, t.key, t.val);
    SearchMiss(ctx, t.key);
    var s := Inorder(Plug(ctx, Leaf));
    assert s[..|a|] == a && s[|a|..] == b;
    ZipSplit(ctx, t);
    assert Inorder(Plug(ctx, t)) == a + [e] + b;
    assert s == [] + a + b;
    SortedSplit([], a, b);
    assert s == a + b + [];
    SortedSplit(a, b, []);
    SortedAround(a, e, b);
    MapOfKeys(s, t.key);
    MapOfInsert(a, e, b);
  }

  // ---------------------------------------------------------------------------
  // Copies
  // ---------------------------------------------------------------------------

  /** The tree t with its nodes numbered in pre-order from n: the ids a copy gets
      when it appends one record per node, parent before children, to an arena that
      holds n records. */
  function Renumber<V>(t: Tree<V>, n: nat): Tree<V> {
    match t
    case Leaf => Leaf
    case Node(c, l, _, k, v, r) => Node(c, Renumber(l, n + 1), n, k, v, Renumber(r, n + 1 + |Inorder(l)|))
  }

  /** The same keys and values in the same order, whatever the ids. */
  ghost predicate SameElements<V>(a: seq<Entry<V>>, b: seq<Entry<V>>) {
    |a| == |b| && forall i | 0 <= i < |a| :: a[i].key == b[i].key && a[i].val == b[i].val
  }

  lemma SameConcat<V>(a1: seq<Entry<V>>, a2: seq<Entry<V>>, b1: seq<Entry<V>>, b2: seq<Entry<V>>)
    requires SameElements(a1, b1) && SameElements(a2, b2)
    ensures SameElements(a1 + a2, b1 + b2)
  {
    var a, b := a1 + a2, b1 + b2;
    forall i | 0 <= i < |a|
      ensures a[i].key == b[i].key && a[i].val == b[i].val
    {
      if i < |a1| {
        assert a[i] == a1[i] && b[i] == b1[i];
      } else {
        assert a[i] == a2[i - |a1|] && b[i] == b2[i - |a1|];
      }
    }
  }

  /** The renumbered tree has distinct ids, all in [n, n + its size). */
  lemma {:induction false} RenumberIds<V>(t: Tree<V>, n: nat)
    ensures Distinct(Renumber(t, n))
    ensures forall i | i in IdSet(Renumber(t, n)) :: n <= i < n + |Inorder(t)|
  {
    match t
    case Leaf =>
    case Node(c, l, _, k, v, r) =>
      var m := n + 1 + |Inorder(l)|;
      RenumberIds(l, n + 1);
      RenumberIds(r, m);
      var l', r' := Renumber(l, n + 1), Renumber(r, m);
      forall i | i in IdSet(l')
        ensures i !in IdSet(r')
      {
      }
  }

  /** Renumbering keeps the elements in order, keys and values. */
  lemma {:induction false} RenumberElements<V>(t: Tree<V>, n: nat)
    ensures SameElements(Inorder(Renumber(t, n)), Inorder(t))
  {
    match t
    case Leaf =>
    case Node(c, l, id, k, v, r) =>
      var m := n + 1 + |Inorder(l)|;
      RenumberElements(l, n + 1);
      RenumberElements(r, m);
      SameConcat(Inorder(Renumber(l, n + 1)), [Entry(n, k, v)], Inorder(l), [Entry(id, k, v)]);
      SameConcat(Inorder(Renumber(l, n + 1)) + [Entry(n, k, v)], Inorder(Renumber(r, m)),
                 Inorder(l) + [Entry(id, k, v)], Inorder(r));
  }

  lemma SameSorted<V>(a: seq<Entry<V>>, b: seq<Entry<V>>)
    requires SameElements(a, b)
    ensures Sorted(a) <==> Sorted(b)
  {
  }

  /** Sequences with the same keys and values represent the same map. */
  lemma {:induction false} SameMapOf<V>(a: seq<Entry<V>>, b: seq<Entry<V>>)
    requires SameElements(a, b)
    ensures MapOf(a) == MapOf(b)
    decreases |a|
  {
    if a != [] {
      SameMapOf(a[1..], b[1..]);
    }
  }
}
