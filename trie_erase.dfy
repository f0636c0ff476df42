/**
 * The two steps of `erase` on the arena: clearing every child map of the
 * erased node, and (inc/MultiKeyMap.h only) removing the node from its
 * parent's map. Each step keeps the shape of the trie for a smaller view.
 */
module TrieErase {
  import opened Wrappers
  import opened TrieCore

  /** The live prefixes that survive erasing below `p`: every prefix that
      strictly extends `p` goes, and `p` itself too when `dropSelf`. */
  ghost function Kept<P(!new)>(nodeAt: map<seq<P>, nat>, p: seq<P>, dropSelf: bool): (r: map<seq<P>, nat>)
    ensures forall q :: q in r <==> q in nodeAt && !(IsPrefix(p, q) && (q != p || dropSelf))
    ensures forall q | q in r :: r[q] == nodeAt[q]
  {
    map q | q in nodeAt && !(IsPrefix(p, q) && (q != p || dropSelf)) :: nodeAt[q]
  }

  /** The stored pairs whose key is still live. */
  ghost function Restrict<P(!new), V>(contents: map<seq<P>, V>, nodeAt: map<seq<P>, nat>): (r: map<seq<P>, V>)
    ensures forall key :: key in r <==> key in contents && key in nodeAt
    ensures forall key | key in r :: r[key] == contents[key]
  {
    map key | key in contents && key in nodeAt :: contents[key]
  }

  /** The arena after every child map of node `n` is cleared. */
  function Cleared<P(==), V>(nodes: seq<Node<P, V>>, n: nat): (r: seq<Node<P, V>>)
    requires n < |nodes|
    ensures |r| == |nodes|
    ensures |r[n].children| == |nodes[n].children| && r[n].data == nodes[n].data && r[n].parent == nodes[n].parent
    ensures forall j | 0 <= j < |r[n].children| :: r[n].children[j] == map[]
    ensures forall i | 0 <= i < |nodes| && i != n :: r[i] == nodes[i]
  {
    nodes[n := nodes[n].(children := seq(|nodes[n].children|, _ => map[]))]
  }

  /** The arena after value `x` is removed from map `d` of node `n`. */
  function Unlinked<P(==), V>(nodes: seq<Node<P, V>>, n: nat, d: nat, x: P): (r: seq<Node<P, V>>)
    requires n < |nodes| && d < |nodes[n].children|
    ensures |r| == |nodes|
    ensures |r[n].children| == |nodes[n].children| && r[n].data == nodes[n].data && r[n].parent == nodes[n].parent
    ensures r[n].children[d] == nodes[n].children[d] - {x}
    ensures forall j | 0 <= j < |r[n].children| && j != d :: r[n].children[j] == nodes[n].children[j]
    ensures forall i | 0 <= i < |nodes| && i != n :: r[i] == nodes[i]
  {
    nodes[n := nodes[n].(children := nodes[n].children[d := nodes[n].children[d] - {x}])]
  }

  /** The fold over the key types in `erase` that clears the child map of
      each type, one per key part. */
  method ClearChildMaps<P(==), V>(nodes: seq<Node<P, V>>, n: nat) returns (nodes': seq<Node<P, V>>)
    requires n < |nodes|
    ensures nodes' == Cleared(nodes, n)
  {
    nodes' := nodes;
    var j := 0;
    while j < |nodes[n].children|
      invariant 0 <= j <= |nodes[n].children|
      invariant |nodes'| == |nodes| && |nodes'[n].children| == |nodes[n].children|
      invariant nodes'[n].data == nodes[n].data && nodes'[n].parent == nodes[n].parent
      invariant forall i | 0 <= i < j :: nodes'[n].children[i] == map[]
      invariant forall i | j <= i < |nodes[n].children| :: nodes'[n].children[i] == nodes[n].children[i]
      invariant forall i | 0 <= i < |nodes| && i != n :: nodes'[i] == nodes[i]
    {
      nodes' := nodes'[n := nodes'[n].(children := nodes'[n].children[j := map[]])];
      j := j + 1;
    }
    assert nodes'[n].children == Cleared(nodes, n)[n].children;
  }

  /** The view after erasing below `p`: only the kept prefixes are live and
      only the pairs at live keys are stored. */
  ghost function ErasedView<P(!new), V>(v: View<P, V>, p: seq<P>, dropSelf: bool): View<P, V>
  {
    var nodeAt' := Kept(v.nodeAt, p, dropSelf);
    View(v.k, nodeAt', Restrict(v.contents, nodeAt'))
  }

  lemma ClearedLinks<P(!new), V>(nodes: seq<Node<P, V>>, v: View<P, V>, p: seq<P>)
    requires Shape(nodes, v) && p in v.nodeAt
    ensures LinkedUp(Cleared(nodes, v.nodeAt[p]), ErasedView(v, p, false))
    ensures LinkedDown(Cleared(nodes, v.nodeAt[p]), ErasedView(v, p, false))
  {
    var nodes' := Cleared(nodes, v.nodeAt[p]);
    var v' := ErasedView(v, p, false);
    forall r, y | Extend(r, y) in v'.nodeAt
      ensures r in v'.nodeAt && y in ChildMap(nodes', v'.nodeAt[r], |r|)
              && ChildMap(nodes', v'.nodeAt[r], |r|)[y] == v'.nodeAt[Extend(r, y)]
    {
      assert r in v.nodeAt;
      if IsPrefix(p, r) {
        assert IsPrefix(r, Extend(r, y));
        PrefixTrans(p, r, Extend(r, y));
      }
    }
    forall r, y | r in v'.nodeAt && y in ChildMap(nodes', v'.nodeAt[r], |r|)
      ensures Extend(r, y) in v'.nodeAt
    {
      if r != p {
        assert ChildMap(nodes', v.nodeAt[r], |r|) == ChildMap(nodes, v.nodeAt[r], |r|);
        if IsPrefix(p, Extend(r, y)) && Extend(r, y) != p {
          PrefixOfExtension(p, r, y);
        }
      }
    }
  }

  /** Clearing the child maps of the node of `p` keeps the shape of the trie
      without the prefixes strictly below `p` and the pairs stored there. */
  lemma ClearedShape<P(!new), V>(nodes: seq<Node<P, V>>, v: View<P, V>, p: seq<P>)
    requires Shape(nodes, v) && p in v.nodeAt
    ensures Shape(Cleared(nodes, v.nodeAt[p]), ErasedView(v, p, false))
  {
    var n := v.nodeAt[p];
    var nodes' := Cleared(nodes, n);
    var v' := ErasedView(v, p, false);
    assert [] in v'.nodeAt by {
      if IsPrefix(p, []) {
        assert p == [];
      }
    }
    ClearedLinks(nodes, v, p);
    forall r, j | r in v'.nodeAt && j != |r|
      ensures ChildMap(nodes', v'.nodeAt[r], j) == map[]
    {
      if r != p {
        assert ChildMap(nodes', v.nodeAt[r], j) == ChildMap(nodes, v.nodeAt[r], j);
      }
    }
    forall r | r in v'.nodeAt
      ensures Reaches(nodes', v', r)
      ensures DataOf(nodes', v'.nodeAt[r]) == if r in v'.contents then Some((r, v'.contents[r])) else None
    {
      assert DataOf(nodes', v.nodeAt[r]) == DataOf(nodes, v.nodeAt[r]);
    }
  }

  /** Once no prefix strictly below `p` is live, removing `p` from its
      parent's map keeps the shape of the trie without `p`. */
  ghost function UnlinkedView<P(!new), V>(v: View<P, V>, p: seq<P>): View<P, V>
  {
    var nodeAt' := map q | q in v.nodeAt && q != p :: v.nodeAt[q];
    View(v.k, nodeAt', Restrict(v.contents, nodeAt'))
  }

  /** Every live prefix other than the unlinked one still hangs off its
      parent's node. */
  lemma UnlinkedLinkedUp<P(!new), V>(nodes: seq<Node<P, V>>, v: View<P, V>, q: seq<P>, x: P)
    requires Shape(nodes, v) && Extend(q, x) in v.nodeAt
    requires forall j :: ChildMap(nodes, v.nodeAt[Extend(q, x)], j) == map[]
    requires q in v.nodeAt && |q| < v.k && v.nodeAt[q] < |nodes| && |q| < |nodes[v.nodeAt[q]].children|
    ensures LinkedUp(Unlinked(nodes, v.nodeAt[q], |q|, x), UnlinkedView(v, Extend(q, x)))
  {
    var p := Extend(q, x);
    var nodes' := Unlinked(nodes, v.nodeAt[q], |q|, x);
    var v' := UnlinkedView(v, p);
    forall r, y | Extend(r, y) in v'.nodeAt
      ensures r in v'.nodeAt && y in ChildMap(nodes', v'.nodeAt[r], |r|)
              && ChildMap(nodes', v'.nodeAt[r], |r|)[y] == v'.nodeAt[Extend(r, y)]
    {
      assert r in v.nodeAt && y in ChildMap(nodes, v.nodeAt[r], |r|);
      if r == q {
        assert y != x;
      }
    }
  }

  /** The child maps left after unlinking lead only to live prefixes; the
      unlinked prefix had no children of its own. */
  lemma UnlinkedLinkedDown<P(!new), V>(nodes: seq<Node<P, V>>, v: View<P, V>, q: seq<P>, x: P)
    requires Shape(nodes, v) && Extend(q, x) in v.nodeAt
    requires forall j :: ChildMap(nodes, v.nodeAt[Extend(q, x)], j) == map[]
    requires q in v.nodeAt && |q| < v.k && v.nodeAt[q] < |nodes| && |q| < |nodes[v.nodeAt[q]].children|
    ensures LinkedDown(Unlinked(nodes, v.nodeAt[q], |q|, x), UnlinkedView(v, Extend(q, x)))
  {
    var p := Extend(q, x);
    var nodes' := Unlinked(nodes, v.nodeAt[q], |q|, x);
    var v' := UnlinkedView(v, p);
    forall r, y | r in v'.nodeAt && y in ChildMap(nodes', v'.nodeAt[r], |r|)
      ensures Extend(r, y) in v'.nodeAt
    {
      if r == q {
        assert y != x && Extend(r, y) != p;
      } else {
        assert Extend(r, y)[..|r|] == r;
      }
    }
  }

  /** The maps of every live node for parts other than its own stay empty. */
  lemma UnlinkedOtherMapsEmpty<P(!new), V>(nodes: seq<Node<P, V>>, v: View<P, V>, q: seq<P>, x: P)
    requires Shape(nodes, v) && Extend(q, x) in v.nodeAt
    requires q in v.nodeAt && |q| < v.k && v.nodeAt[q] < |nodes| && |q| < |nodes[v.nodeAt[q]].children|
    ensures OtherMapsEmpty(Unlinked(nodes, v.nodeAt[q], |q|, x), UnlinkedView(v, Extend(q, x)))
  {
    var n := v.nodeAt[q];
    var nodes' := Unlinked(nodes, n, |q|, x);
    var v' := UnlinkedView(v, Extend(q, x));
    forall r, j | r in v'.nodeAt && j != |r|
      ensures ChildMap(nodes', v'.nodeAt[r], j) == map[]
    {
      assert v'.nodeAt[r] == v.nodeAt[r];
      if r == q {
        assert ChildMap(nodes', n, j) == ChildMap(nodes, n, j);
      } else {
        assert ChildMap(nodes', v.nodeAt[r], j) == ChildMap(nodes, v.nodeAt[r], j);
      }
      assert ChildMap(nodes, v.nodeAt[r], j) == map[];
    }
  }

  /** Every remaining live prefix still reaches its node. */
  lemma UnlinkedPlaced<P(!new), V>(nodes: seq<Node<P, V>>, v: View<P, V>, q: seq<P>, x: P)
    requires Shape(nodes, v) && Extend(q, x) in v.nodeAt
    requires q in v.nodeAt && |q| < v.k && v.nodeAt[q] < |nodes| && |q| < |nodes[v.nodeAt[q]].children|
    ensures Placed(Unlinked(nodes, v.nodeAt[q], |q|, x), UnlinkedView(v, Extend(q, x)))
  {
    var nodes' := Unlinked(nodes, v.nodeAt[q], |q|, x);
    var v' := UnlinkedView(v, Extend(q, x));
    forall r | r in v'.nodeAt
      ensures Reaches(nodes', v', r)
    {
      assert Reaches(nodes, v, r);
    }
  }

  /** Every remaining live node holds the same pair as before. */
  lemma UnlinkedDataPlaced<P(!new), V>(nodes: seq<Node<P, V>>, v: View<P, V>, q: seq<P>, x: P)
    requires Shape(nodes, v) && Extend(q, x) in v.nodeAt
    requires q in v.nodeAt && |q| < v.k && v.nodeAt[q] < |nodes| && |q| < |nodes[v.nodeAt[q]].children|
    ensures DataPlaced(Unlinked(nodes, v.nodeAt[q], |q|, x), UnlinkedView(v, Extend(q, x)))
  {
    var nodes' := Unlinked(nodes, v.nodeAt[q], |q|, x);
    var v' := UnlinkedView(v, Extend(q, x));
    forall r | r in v'.nodeAt
      ensures DataOf(nodes', v'.nodeAt[r]) == if r in v'.contents then Some((r, v'.contents[r])) else None
    {
      assert DataOf(nodes', v.nodeAt[r]) == DataOf(nodes, v.nodeAt[r]);
    }
  }

  lemma UnlinkedShape<P(!new), V>(nodes: seq<Node<P, V>>, v: View<P, V>, q: seq<P>, x: P)
    requires Shape(nodes, v) && Extend(q, x) in v.nodeAt
    requires forall j :: ChildMap(nodes, v.nodeAt[Extend(q, x)], j) == map[]
    ensures q in v.nodeAt && |q| < v.k
    ensures Shape(Unlinked(nodes, v.nodeAt[q], |q|, x), UnlinkedView(v, Extend(q, x)))
  {
    assert Reaches(nodes, v, Extend(q, x));
    assert Reaches(nodes, v, q);
    UnlinkedLinkedUp(nodes, v, q, x);
    UnlinkedLinkedDown(nodes, v, q, x);
    UnlinkedOtherMapsEmpty(nodes, v, q, x);
    UnlinkedPlaced(nodes, v, q, x);
    UnlinkedDataPlaced(nodes, v, q, x);
  }

  /** Unlinking `p` after clearing below it leaves the view that drops `p`
      as well. */
  lemma UnlinkedAfterCleared<P(!new), V>(v: View<P, V>, p: seq<P>)
    ensures UnlinkedView(ErasedView(v, p, false), p) == ErasedView(v, p, true)
  {
    var a := UnlinkedView(ErasedView(v, p, false), p);
    var b := ErasedView(v, p, true);
    assert a.nodeAt == b.nodeAt;
    assert a.contents == b.contents;
  }

  /** On a cleared node of `p`, the parent link is set exactly when `p` has
      two or more parts, and then it is the node of `p` without its last
      part; unlinking there keeps the shape and the parent links without `p`. */
  lemma UnlinkStep<P(!new), V>(nodes: seq<Node<P, V>>, v: View<P, V>, p: seq<P>)
    requires Shape(nodes, v) && ParentLinks(nodes, v.nodeAt) && p in v.nodeAt && |p| >= 1
    requires forall j :: ChildMap(nodes, v.nodeAt[p], j) == map[]
    ensures v.nodeAt[p] < |nodes|
    ensures nodes[v.nodeAt[p]].parent.Some? <==> |p| >= 2
    ensures nodes[v.nodeAt[p]].parent.Some? ==>
              var par := nodes[v.nodeAt[p]].parent.value;
              && par < |nodes| && |p| - 1 < |nodes[par].children|
              && Shape(Unlinked(nodes, par, |p| - 1, p[|p| - 1]), UnlinkedView(v, p))
              && ParentLinks(Unlinked(nodes, par, |p| - 1, p[|p| - 1]), UnlinkedView(v, p).nodeAt)
  {
    assert Reaches(nodes, v, p);
    var q := p[..|p| - 1];
    var x := p[|p| - 1];
    assert p == Extend(q, x);
    LivePrefix(nodes, v, p, |p| - 1);
    assert ParentOf(nodes, v.nodeAt[Extend(q, x)]) == if q == [] then None else Some(v.nodeAt[q]);
    if |p| >= 2 {
      UnlinkedShape(nodes, v, q, x);
      var nodes' := Unlinked(nodes, v.nodeAt[q], |q|, x);
      ParentLinksKept(nodes, nodes', v.nodeAt, UnlinkedView(v, p).nodeAt);
    }
  }

  /** A strict extension of `p` of the form `Extend(r, y)` has `r` between. */
  lemma PrefixOfExtension<P>(p: seq<P>, r: seq<P>, y: P)
    requires IsPrefix(p, Extend(r, y)) && Extend(r, y) != p
    ensures IsPrefix(p, r)
  {
    assert r[..|p|] == Extend(r, y)[..|r|][..|p|];
  }
}
