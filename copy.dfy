/** The recursion of `copyHelper` as written, as the copy constructor and the
    assignment operator call it. They pass the other map's root, but the recursion
    ends only at a node equal to the sentinel of the map being built. The other
    map's subtrees end at the other map's own sentinel, a different node, so that
    test never succeeds. Only the recursion and its base-case test are kept: nothing
    is allocated and the copy is built over the source's own ids. */
module MapCopy {
  import opened RedBlack
  import opened Arena
  import opened SjtuMap

  /** The nested calls of `copyHelper(x, _)` on the arena src of the other map, as
      written. A node of src equals the sentinel of the map being built only when
      src is that map's own arena (sameMap) and the node is its sentinel. At most
      fuel calls nest; None means the recursion has not returned within them. */
  function CopyAsWritten<V>(src: seq<NodeRec<V>>, sameMap: bool, x: nat, fuel: nat): (r: Option<Tree<V>>)
    requires ArenaOk(src) && x < |src|
    decreases fuel
  {
    if fuel == 0 then None
    else if sameMap && x == Nil then Some(Leaf)
    else
      match (CopyAsWritten(src, sameMap, src[x].left, fuel - 1), CopyAsWritten(src, sameMap, src[x].right, fuel - 1))
      case (Some(l), Some(r)) => Some(Node(src[x].color, l, x, src[x].key, src[x].val, r))
      case _ => None
  }

  /** Copying from another map never returns, however deep the calls may nest: every
      node, the other map's sentinel included, has a left link to follow. */
  lemma {:induction false} CopyNeverStops<V>(src: seq<NodeRec<V>>, x: nat, fuel: nat)
    requires ArenaOk(src) && x < |src|
    ensures CopyAsWritten(src, false, x, fuel) == None
    decreases fuel
  {
    if fuel > 0 {
      CopyNeverStops(src, src[x].left, fuel - 1);
    }
  }

  /** Even an empty map, whose root is its sentinel, cannot be copied. */
  lemma EmptyCopyNeverStops<V>(other: RBMap<V>, fuel: nat)
    requires other.Valid() && other.Elements() == []
    ensures other.root == Nil && CopyAsWritten(other.nodes, false, other.root, fuel) == None
  {
    CopyNeverStops(other.nodes, other.root, fuel);
  }

  function Depth<V>(t: Tree<V>): nat {
    if t.Leaf? then 0 else 1 + (if Depth(t.left) < Depth(t.right) then Depth(t.right) else Depth(t.left))
  }

  /** Had the test named the sentinel that the subtrees end at, the same recursion
      would return the whole tree once it may nest one call deeper than the tree. */
  lemma {:induction false} CopyStopsAtOwnSentinel<V>(src: seq<NodeRec<V>>, t: Tree<V>, p: nat, fuel: nat)
    requires ArenaOk(src) && Linked(src, t, p) && fuel > Depth(t)
    ensures RootId(t) < |src| && CopyAsWritten(src, true, RootId(t), fuel) == Some(t)
    decreases t
  {
    if t.Node? {
      CopyStopsAtOwnSentinel(src, t.left, t.id, fuel - 1);
      CopyStopsAtOwnSentinel(src, t.right, t.id, fuel - 1);
    }
  }
}
