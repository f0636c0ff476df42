/**
 * The prefix trie shared by both versions of the multi-key map
 * (inc/MultiKeyMap.h and the earlier inc/trie.h).
 *
 * Nodes are held in an arena, a sequence indexed by `nat`, and a
 * `shared_ptr<Node>` becomes an index into it. A node has one child map per
 * key part; the map for part `j` sends a value of that part to a child node.
 * A key is a sequence of `k` parts, a partial key a shorter sequence.
 *
 * The abstract view of a trie is a `View`: the number of key parts `k`, the
 * live prefixes `nodeAt` (every partial key that reaches a node, sent to that
 * node) and the stored pairs `contents`. `Shape` ties the arena to the view.
 */
module TrieCore {
  import opened Wrappers
  import Index

  /** `struct Node`: one child map per key part, the stored pair (only at
      depth `k`) and the parent link (only kept by inc/MultiKeyMap.h). */
  datatype Node<P(==), V> = Node(children: seq<map<P, nat>>, data: Option<(seq<P>, V)>, parent: Option<nat>)

  /** `Node{}` or `std::make_shared<Node>()`, with the parent link given. */
  function EmptyNode<P(==, !new), V>(k: nat, parent: Option<nat>): (n: Node<P, V>)
    ensures |n.children| == k && n.data == None && n.parent == parent
    ensures forall j :: 0 <= j < k ==> n.children[j] == map[]
  {
    Node(seq(k, _ => map[]), None, parent)
  }

  /** The child map for key part `d` of node `n`; empty for a node or a part
      that does not exist, so that the shape can be stated without
      preconditions. */
  function ChildMap<P(==, !new), V>(nodes: seq<Node<P, V>>, n: nat, d: nat): map<P, nat>
  {
    if n < |nodes| && d < |nodes[n].children| then nodes[n].children[d] else map[]
  }

  /** The stored pair of node `n`, if any. */
  function DataOf<P(==, !new), V>(nodes: seq<Node<P, V>>, n: nat): Option<(seq<P>, V)>
  {
    if n < |nodes| then nodes[n].data else None
  }

  /** The parent link of node `n`. */
  function ParentOf<P(==, !new), V>(nodes: seq<Node<P, V>>, n: nat): Option<nat>
  {
    if n < |nodes| then nodes[n].parent else None
  }

  /** `a` is a prefix of `b`. */
  predicate IsPrefix<P(==)>(a: seq<P>, b: seq<P>)
  {
    |a| <= |b| && b[..|a|] == a
  }

  /** Being a prefix is transitive. */
  lemma PrefixTrans<P>(a: seq<P>, b: seq<P>, c: seq<P>)
    requires IsPrefix(a, b) && IsPrefix(b, c)
    ensures IsPrefix(a, c)
  {
    assert c[..|a|] == c[..|b|][..|a|];
  }

  /** The partial key `q` followed by one more part `x`. */
  function Extend<P>(q: seq<P>, x: P): (r: seq<P>)
    ensures |r| == |q| + 1 && r[..|q|] == q && r[|q|] == x
  {
    q + [x]
  }

  /** The abstract view of one trie. */
  datatype View<P(==), V> = View(k: nat, nodeAt: map<seq<P>, nat>, contents: map<seq<P>, V>)

  /** The live prefix `q` is at most `k` parts long and reaches a node of the
      arena with one child map per key part. */
  ghost predicate Reaches<P(!new), V>(nodes: seq<Node<P, V>>, v: View<P, V>, q: seq<P>)
  {
    q in v.nodeAt && |q| <= v.k && v.nodeAt[q] < |nodes| && |nodes[v.nodeAt[q]].children| == v.k
  }

  /** `key` has all `k` parts. */
  predicate IsFullKey<P>(k: nat, key: seq<P>)
  {
    |key| == k
  }

  /** Every live prefix reaches a node of the arena. */
  ghost predicate Placed<P(!new), V>(nodes: seq<Node<P, V>>, v: View<P, V>)
  {
    forall q | q in v.nodeAt :: Reaches(nodes, v, q)
  }

  /** A live prefix `Extend(q, x)` hangs off the node of `q`, under value `x`
      of the map for part `|q|`. */
  ghost predicate LinkedUp<P(!new), V>(nodes: seq<Node<P, V>>, v: View<P, V>)
  {
    forall q, x | Extend(q, x) in v.nodeAt ::
      q in v.nodeAt && x in ChildMap(nodes, v.nodeAt[q], |q|)
      && ChildMap(nodes, v.nodeAt[q], |q|)[x] == v.nodeAt[Extend(q, x)]
  }

  /** Every entry of the map for part `|q|` of a live node `q` is live. */
  ghost predicate LinkedDown<P(!new), V>(nodes: seq<Node<P, V>>, v: View<P, V>)
  {
    forall q, x | q in v.nodeAt && x in ChildMap(nodes, v.nodeAt[q], |q|) :: Extend(q, x) in v.nodeAt
  }

  /** The maps of a live node for the other parts are empty: a part is looked
      up in the map for its position. */
  ghost predicate OtherMapsEmpty<P(!new), V>(nodes: seq<Node<P, V>>, v: View<P, V>)
  {
    forall q, j | q in v.nodeAt && j != |q| :: ChildMap(nodes, v.nodeAt[q], j) == map[]
  }

  /** Distinct live prefixes reach distinct nodes. */
  ghost predicate Injective<P(!new)>(nodeAt: map<seq<P>, nat>)
  {
    forall q1, q2 | q1 in nodeAt && q2 in nodeAt && q1 != q2 :: nodeAt[q1] != nodeAt[q2]
  }

  /** Stored keys are full keys and live. */
  ghost predicate KeysLive<P(!new), V>(v: View<P, V>)
  {
    forall key | key in v.contents :: key in v.nodeAt && IsFullKey(v.k, key)
  }

  /** A live node holds a pair exactly when its prefix is a stored key, and
      then holds that key with its value. */
  ghost predicate DataPlaced<P(!new), V>(nodes: seq<Node<P, V>>, v: View<P, V>)
  {
    forall q | q in v.nodeAt ::
      DataOf(nodes, v.nodeAt[q]) == if q in v.contents then Some((q, v.contents[q])) else None
  }

  /** The arena `nodes` holds the trie described by `v`. */
  ghost predicate Shape<P(!new), V>(nodes: seq<Node<P, V>>, v: View<P, V>)
  {
    && [] in v.nodeAt
    && Placed(nodes, v)
    && LinkedUp(nodes, v)
    && LinkedDown(nodes, v)
    && OtherMapsEmpty(nodes, v)
    && Injective(v.nodeAt)
    && KeysLive(v)
    && DataPlaced(nodes, v)
  }

  /** The parent links kept by inc/MultiKeyMap.h: the root and the nodes one
      part deep have none (the lookup starts with a null parent), every deeper
      node links to the node of its prefix one part shorter. */
  ghost predicate ParentLinks<P(!new), V>(nodes: seq<Node<P, V>>, nodeAt: map<seq<P>, nat>)
  {
    && ([] in nodeAt ==> ParentOf(nodes, nodeAt[[]]) == None)
    && (forall q, x | q in nodeAt && Extend(q, x) in nodeAt ::
          ParentOf(nodes, nodeAt[Extend(q, x)]) == if q == [] then None else Some(nodeAt[q]))
  }

  /** The stored keys that start with the partial key `p`. */
  ghost function PrefixKeys<P(!new), V>(contents: map<seq<P>, V>, p: seq<P>): set<seq<P>>
  {
    set key | key in contents && IsPrefix(p, key)
  }

  /** An arena with only an empty root, and its view. */
  function EmptyArena<P(==, !new), V>(k: nat): (nodes: seq<Node<P, V>>)
    ensures Shape(nodes, View(k, map[[] := 0], map[]))
    ensures ParentLinks(nodes, map[[] := 0])
  {
    [EmptyNode(k, None)]
  }

  /** Every prefix of a live prefix is live. */
  lemma {:induction false} LivePrefix<P(!new), V>(nodes: seq<Node<P, V>>, v: View<P, V>, r: seq<P>, n: nat)
    requires Shape(nodes, v)
    requires r in v.nodeAt && n <= |r|
    ensures r[..n] in v.nodeAt
    decreases |r| - n
  {
    if n < |r| {
      LivePrefix(nodes, v, r, n + 1);
      assert r[..n + 1] == Extend(r[..n], r[n]);
    } else {
      assert r[..n] == r;
    }
  }

  /** A partial key that is not live has no stored key below it. */
  lemma DeadPrefixHasNoKeys<P(!new), V>(nodes: seq<Node<P, V>>, v: View<P, V>, p: seq<P>)
    requires Shape(nodes, v)
    requires p !in v.nodeAt
    ensures PrefixKeys(v.contents, p) == {}
  {
    forall key | key in v.contents && IsPrefix(p, key)
      ensures false
    {
      LivePrefix(nodes, v, key, |p|);
    }
  }

  /** A full key's only stored extension is itself. */
  lemma FullKeyPrefixKeys<P(!new), V>(v: View<P, V>, p: seq<P>)
    requires forall key | key in v.contents :: IsFullKey(v.k, key)
    requires |p| == v.k
    ensures PrefixKeys(v.contents, p) == if p in v.contents then {p} else {}
  {
    forall key | key in PrefixKeys(v.contents, p)
      ensures key == p
    {
      assert key[..|p|] == key;
    }
    if p in v.contents {
      assert p[..|p|] == p;
      assert p in PrefixKeys(v.contents, p);
    }
  }

  /** The stored keys below `p` are among all stored keys. */
  lemma PrefixKeysBound<P(!new), V>(contents: map<seq<P>, V>, p: seq<P>)
    ensures PrefixKeys(contents, p) <= contents.Keys
    ensures |PrefixKeys(contents, p)| <= |contents|
  {
    SubsetCard(PrefixKeys(contents, p), contents.Keys);
  }

  /** Removing a subset removes exactly its size. */
  lemma {:induction false} SubsetCard<T>(a: set<T>, b: set<T>)
    requires a <= b
    ensures |b - a| == |b| - |a|
    ensures |a| <= |b|
  {
    if a != {} {
      var x :| x in a;
      SubsetCard(a - {x}, b - {x});
      assert b - {x} - (a - {x}) == b - a;
    }
  }

  /** `getChildrenTypeFromTuple<T>`: the child map used for a key part of
      type `t` is the first one declared for that type. */
  function ChildMapIndex<T(==)>(keyTypes: seq<T>, t: T): (j: nat)
    requires t in keyTypes
    ensures j < |keyTypes| && keyTypes[j] == t
  {
    Index.GetIndexOfType(Index.QualifiedType(t, false, false, false), keyTypes)
  }

  /** With distinct key types the map used for part `i` is the map at
      position `i`, which is how the rest of the model dispatches. */
  lemma DispatchIsPositional<T>(keyTypes: seq<T>, i: nat)
    requires i < |keyTypes|
    requires forall a, b :: 0 <= a < b < |keyTypes| ==> keyTypes[a] != keyTypes[b]
    ensures ChildMapIndex(keyTypes, keyTypes[i]) == i
  {
    Index.IndexOfDistinct(keyTypes, i);
  }

  /** With a repeated key type, as in `<int, int>`, the second part is looked
      up and created in the first part's map. */
  lemma RepeatedTypeSharesMap()
    ensures ChildMapIndex([Index.Int, Index.Int], Index.Int) == 0
  {
  }

  /** The const `getNodeForPartialKeyImpl`: follow the parts of `p` from the
      root, each in the child map for its position, and stop at the first
      missing child. */
  method Lookup<P(==, !new), V>(nodes: seq<Node<P, V>>, root: nat, p: seq<P>, ghost v: View<P, V>)
    returns (r: Option<nat>)
    requires Shape(nodes, v) && v.nodeAt[[]] == root
    ensures r == if p in v.nodeAt then Some(v.nodeAt[p]) else None
  {
    r := Some(root);
    var i := 0;
    while i < |p| && r.Some?
      invariant 0 <= i <= |p|
      invariant r.Some? ==> p[..i] in v.nodeAt && r.value == v.nodeAt[p[..i]]
      invariant r.None? ==> p[..i] !in v.nodeAt
    {
      var children := ChildMap(nodes, r.value, i);
      assert p[..i + 1] == Extend(p[..i], p[i]);
      if p[i] in children {
        r := Some(children[p[i]]);
      } else {
        r := None;
      }
      i := i + 1;
    }
    assert p[..|p|] == p;
    if r.None? && p in v.nodeAt {
      LivePrefix(nodes, v, p, i);
    }
  }

  /** A child map with `x` sent to node `c`. */
  function Link<P>(m: map<P, nat>, x: P, c: nat): (r: map<P, nat>)
    ensures x in r && r[x] == c && r.Keys == m.Keys + {x}
    ensures forall y | y in m && y != x :: r[y] == m[y]
  {
    m[x := c]
  }

  /** The arena after node `n` stores the pair `(key, value)`:
      `node->data = { key, value }`. */
  function Stored<P(==, !new), V>(nodes: seq<Node<P, V>>, n: nat, key: seq<P>, value: V): (r: seq<Node<P, V>>)
    requires n < |nodes|
    ensures |r| == |nodes| && r[n].data == Some((key, value))
    ensures r[n].children == nodes[n].children && r[n].parent == nodes[n].parent
    ensures forall i | 0 <= i < |nodes| && i != n :: r[i] == nodes[i]
  {
    nodes[n := nodes[n].(data := Some((key, value)))]
  }

  /** Storing a pair at the node of a live full key keeps the shape of the
      trie, with that key now sent to that value. */
  lemma StoredShape<P(!new), V>(nodes: seq<Node<P, V>>, v: View<P, V>, key: seq<P>, value: V)
    requires Shape(nodes, v) && key in v.nodeAt && IsFullKey(v.k, key)
    ensures v.nodeAt[key] < |nodes|
    ensures Shape(Stored(nodes, v.nodeAt[key], key, value), v.(contents := v.contents[key := value]))
  {
    assert Reaches(nodes, v, key);
    var n := v.nodeAt[key];
    var nodes' := Stored(nodes, n, key, value);
    var v' := v.(contents := v.contents[key := value]);
    forall q | q in v.nodeAt
      ensures Reaches(nodes', v', q)
      ensures forall j :: ChildMap(nodes', v.nodeAt[q], j) == ChildMap(nodes, v.nodeAt[q], j)
      ensures DataOf(nodes', v.nodeAt[q]) == if q in v'.contents then Some((q, v'.contents[q])) else None
    {
      assert Reaches(nodes, v, q);
      if q != key {
        assert DataOf(nodes', v.nodeAt[q]) == DataOf(nodes, v.nodeAt[q]);
      }
    }
    assert LinkedUp(nodes', v');
  }

  /** The parent links survive any change that keeps every parent field and
      only forgets live prefixes. */
  lemma ParentLinksKept<P(!new), V>(nodes: seq<Node<P, V>>, nodes': seq<Node<P, V>>, nodeAt: map<seq<P>, nat>, nodeAt': map<seq<P>, nat>)
    requires ParentLinks(nodes, nodeAt)
    requires |nodes'| == |nodes| && forall i | 0 <= i < |nodes| :: nodes'[i].parent == nodes[i].parent
    requires forall q | q in nodeAt' :: q in nodeAt && nodeAt'[q] == nodeAt[q]
    ensures ParentLinks(nodes', nodeAt')
  {
    forall q, x | q in nodeAt' && Extend(q, x) in nodeAt'
      ensures ParentOf(nodes', nodeAt'[Extend(q, x)]) == if q == [] then None else Some(nodeAt'[q])
    {
      assert ParentOf(nodes', nodeAt[Extend(q, x)]) == ParentOf(nodes, nodeAt[Extend(q, x)]);
    }
    if [] in nodeAt' {
      assert ParentOf(nodes', nodeAt[[]]) == ParentOf(nodes, nodeAt[[]]);
    }
  }

  /** The arena after the node of `q` gains the new child `x`, the new node
      taking the next free index. */
  function AddChild<P(==, !new), V>(nodes: seq<Node<P, V>>, n: nat, d: nat, x: P, child: Node<P, V>): (r: seq<Node<P, V>>)
    requires n < |nodes| && d < |nodes[n].children|
    ensures |r| == |nodes| + 1 && r[|nodes|] == child
    ensures |r[n].children| == |nodes[n].children|
    ensures r[n].children[d] == nodes[n].children[d][x := |nodes|]
    ensures forall j | 0 <= j < |nodes[n].children| && j != d :: r[n].children[j] == nodes[n].children[j]
    ensures r[n].data == nodes[n].data && r[n].parent == nodes[n].parent
    ensures forall i | 0 <= i < |nodes| && i != n :: r[i] == nodes[i]
  {
    var grown := nodes + [child];
    grown[n := nodes[n].(children := nodes[n].children[d := Link(nodes[n].children[d], x, |nodes|)])]
  }

  /** The arena after the live prefix `q` gains the missing child `x`. */
  ghost function Grown<P(!new), V>(nodes: seq<Node<P, V>>, v: View<P, V>, q: seq<P>, x: P, parent: Option<nat>): seq<Node<P, V>>
    requires Shape(nodes, v) && q in v.nodeAt && |q| < v.k
  {
    AddChild(nodes, v.nodeAt[q], |q|, x, EmptyNode(v.k, parent))
  }

  /** Growing leaves the node of every other live prefix as it was. */
  lemma GrownUntouched<P(!new), V>(nodes: seq<Node<P, V>>, v: View<P, V>, q: seq<P>, x: P, parent: Option<nat>, r: seq<P>)
    requires Shape(nodes, v) && q in v.nodeAt && |q| < v.k
    requires r in v.nodeAt && r != q
    ensures Grown(nodes, v, q, x, parent)[v.nodeAt[r]] == nodes[v.nodeAt[r]]
  {
  }

  lemma GrownLinkedUp<P(!new), V>(nodes: seq<Node<P, V>>, v: View<P, V>, q: seq<P>, x: P, parent: Option<nat>)
    requires Shape(nodes, v) && q in v.nodeAt && |q| < v.k && Extend(q, x) !in v.nodeAt
    ensures LinkedUp(Grown(nodes, v, q, x, parent), v.(nodeAt := v.nodeAt[Extend(q, x) := |nodes|]))
  {
    var nodes' := Grown(nodes, v, q, x, parent);
    var v' := v.(nodeAt := v.nodeAt[Extend(q, x) := |nodes|]);
    forall r, y | Extend(r, y) in v'.nodeAt
      ensures r in v'.nodeAt && y in ChildMap(nodes', v'.nodeAt[r], |r|)
              && ChildMap(nodes', v'.nodeAt[r], |r|)[y] == v'.nodeAt[Extend(r, y)]
    {
      if Extend(r, y) == Extend(q, x) {
        assert r == Extend(r, y)[..|r|] == q;
        assert y == Extend(r, y)[|r|] == x;
      } else {
        assert r in v.nodeAt;
        if r == q {
          assert y != x;
        } else {
          GrownUntouched(nodes, v, q, x, parent, r);
        }
      }
    }
  }

  lemma GrownLinkedDown<P(!new), V>(nodes: seq<Node<P, V>>, v: View<P, V>, q: seq<P>, x: P, parent: Option<nat>)
    requires Shape(nodes, v) && q in v.nodeAt && |q| < v.k && Extend(q, x) !in v.nodeAt
    ensures LinkedDown(Grown(nodes, v, q, x, parent), v.(nodeAt := v.nodeAt[Extend(q, x) := |nodes|]))
  {
    var nodes' := Grown(nodes, v, q, x, parent);
    var v' := v.(nodeAt := v.nodeAt[Extend(q, x) := |nodes|]);
    forall r, y | r in v'.nodeAt && y in ChildMap(nodes', v'.nodeAt[r], |r|)
      ensures Extend(r, y) in v'.nodeAt
    {
      if r != Extend(q, x) && r != q {
        GrownUntouched(nodes, v, q, x, parent, r);
        assert y in ChildMap(nodes, v.nodeAt[r], |r|);
      }
    }
  }

  lemma GrownOtherMapsEmpty<P(!new), V>(nodes: seq<Node<P, V>>, v: View<P, V>, q: seq<P>, x: P, parent: Option<nat>)
    requires Shape(nodes, v) && q in v.nodeAt && |q| < v.k && Extend(q, x) !in v.nodeAt
    ensures OtherMapsEmpty(Grown(nodes, v, q, x, parent), v.(nodeAt := v.nodeAt[Extend(q, x) := |nodes|]))
  {
    var nodes' := Grown(nodes, v, q, x, parent);
    var v' := v.(nodeAt := v.nodeAt[Extend(q, x) := |nodes|]);
    forall r, j | r in v'.nodeAt && j != |r|
      ensures ChildMap(nodes', v'.nodeAt[r], j) == map[]
    {
      if r == q {
        assert ChildMap(nodes', v.nodeAt[q], j) == ChildMap(nodes, v.nodeAt[q], j);
      } else if r != Extend(q, x) {
        GrownUntouched(nodes, v, q, x, parent, r);
        assert ChildMap(nodes', v'.nodeAt[r], j) == ChildMap(nodes, v.nodeAt[r], j);
      }
    }
  }

  lemma GrownDataPlaced<P(!new), V>(nodes: seq<Node<P, V>>, v: View<P, V>, q: seq<P>, x: P, parent: Option<nat>)
    requires Shape(nodes, v) && q in v.nodeAt && |q| < v.k && Extend(q, x) !in v.nodeAt
    ensures DataPlaced(Grown(nodes, v, q, x, parent), v.(nodeAt := v.nodeAt[Extend(q, x) := |nodes|]))
  {
    var nodes' := Grown(nodes, v, q, x, parent);
    var v' := v.(nodeAt := v.nodeAt[Extend(q, x) := |nodes|]);
    forall r | r in v'.nodeAt
      ensures DataOf(nodes', v'.nodeAt[r]) == if r in v'.contents then Some((r, v'.contents[r])) else None
    {
      if r == Extend(q, x) {
        assert r !in v.contents;
      } else if r != q {
        GrownUntouched(nodes, v, q, x, parent, r);
        assert DataOf(nodes', v'.nodeAt[r]) == DataOf(nodes, v.nodeAt[r]);
      }
    }
  }

  /** Creating the missing child `x` of a live prefix `q` keeps the shape and
      makes `Extend(q, x)` live, with no stored pair. */
  lemma AddChildShape<P(!new), V>(nodes: seq<Node<P, V>>, v: View<P, V>, q: seq<P>, x: P, parent: Option<nat>)
    requires Shape(nodes, v)
    requires q in v.nodeAt && |q| < v.k && Extend(q, x) !in v.nodeAt
    ensures Shape(AddChild(nodes, v.nodeAt[q], |q|, x, EmptyNode(v.k, parent)),
                  v.(nodeAt := v.nodeAt[Extend(q, x) := |nodes|]))
  {
    var nodes' := Grown(nodes, v, q, x, parent);
    var v' := v.(nodeAt := v.nodeAt[Extend(q, x) := |nodes|]);
    GrownLinkedUp(nodes, v, q, x, parent);
    GrownLinkedDown(nodes, v, q, x, parent);
    GrownOtherMapsEmpty(nodes, v, q, x, parent);
    GrownDataPlaced(nodes, v, q, x, parent);
    forall r | r in v'.nodeAt
      ensures Reaches(nodes', v', r)
    {
      if r != q && r != Extend(q, x) {
        GrownUntouched(nodes, v, q, x, parent, r);
      }
    }
  }

  /** The new child keeps the parent links when its own link is the node of
      `q`, or none when `q` is the root. */
  lemma AddChildParents<P(!new), V>(nodes: seq<Node<P, V>>, v: View<P, V>, q: seq<P>, x: P)
    requires Shape(nodes, v) && ParentLinks(nodes, v.nodeAt)
    requires q in v.nodeAt && |q| < v.k && Extend(q, x) !in v.nodeAt
    ensures ParentLinks(AddChild(nodes, v.nodeAt[q], |q|, x, EmptyNode(v.k, if q == [] then None else Some(v.nodeAt[q]))),
                        v.nodeAt[Extend(q, x) := |nodes|])
  {
    var parent := if q == [] then None else Some(v.nodeAt[q]);
    var nodes' := AddChild(nodes, v.nodeAt[q], |q|, x, EmptyNode(v.k, parent));
    var nodeAt' := v.nodeAt[Extend(q, x) := |nodes|];
    forall r, y | r in nodeAt' && Extend(r, y) in nodeAt'
      ensures ParentOf(nodes', nodeAt'[Extend(r, y)]) == if r == [] then None else Some(nodeAt'[r])
    {
      if Extend(r, y) == Extend(q, x) {
        assert r == Extend(r, y)[..|r|] == q;
      } else {
        assert Extend(r, y) in v.nodeAt;
        assert r in v.nodeAt;
        assert ParentOf(nodes', nodeAt'[Extend(r, y)]) == ParentOf(nodes, v.nodeAt[Extend(r, y)]);
      }
    }
  }

  /** One part of the non-const `getNodeForPartialKeyImpl` with
      `createIfKeyDoesNotExist` (the lambda folded over the key parts): from
      the node `n` of the live prefix `q`, go to its child under `x` in the
      map for part `|q|`, creating that child with parent link `linked` when
      it is missing. */
  method ResolvePart<P(==, !new), V>(nodes: seq<Node<P, V>>, n: nat, k: nat, d: nat, x: P, linked: Option<nat>,
                                     ghost q: seq<P>, ghost v: View<P, V>)
    returns (nodes': seq<Node<P, V>>, child: nat, ghost w: View<P, V>)
    requires Shape(nodes, v) && v.k == k && q in v.nodeAt && n == v.nodeAt[q] && |q| == d < k
    ensures w.k == v.k && w.contents == v.contents && Shape(nodes', w)
    ensures w.nodeAt == if Extend(q, x) in v.nodeAt then v.nodeAt else v.nodeAt[Extend(q, x) := |nodes|]
    ensures forall r | r in v.nodeAt :: r in w.nodeAt && w.nodeAt[r] == v.nodeAt[r]
    ensures forall r | r in w.nodeAt :: r in v.nodeAt || r == Extend(q, x)
    ensures Extend(q, x) in w.nodeAt && child == w.nodeAt[Extend(q, x)]
    ensures ParentLinks(nodes, v.nodeAt) && linked == (if q == [] then None else Some(n))
            ==> ParentLinks(nodes', w.nodeAt)
  {
    var children := nodes[n].children[d];
    if x !in children {
      child := |nodes|;
      AddChildShape(nodes, v, q, x, linked);
      if ParentLinks(nodes, v.nodeAt) && linked == (if q == [] then None else Some(n)) {
        AddChildParents(nodes, v, q, x);
      }
      nodes' := AddChild(nodes, n, d, x, EmptyNode(k, linked));
      w := v.(nodeAt := v.nodeAt[Extend(q, x) := child]);
    } else {
      nodes' := nodes;
      child := children[x];
      w := v;
    }
  }

  /** One turn of the fold in `getNodeForPartialKeyImpl`: from the node of
      `p[..i]`, resolve part `i` and remember the node reached as the parent
      of the next one. */
  method Descend<P(==, !new), V>(nodes: seq<Node<P, V>>, n: nat, parent: Option<nat>, k: nat, p: seq<P>, i: nat,
                                 linkParents: bool, ghost w: View<P, V>)
    returns (nodes': seq<Node<P, V>>, n': nat, parent': Option<nat>, ghost w': View<P, V>)
    requires Shape(nodes, w) && w.k == k && i < |p| <= k
    requires p[..i] in w.nodeAt && n == w.nodeAt[p[..i]]
    requires parent == if i == 0 then None else Some(n)
    ensures w'.k == w.k && w'.contents == w.contents && Shape(nodes', w')
    ensures linkParents && ParentLinks(nodes, w.nodeAt) ==> ParentLinks(nodes', w'.nodeAt)
    ensures p[..i + 1] in w'.nodeAt && n' == w'.nodeAt[p[..i + 1]] && parent' == Some(n')
    ensures forall q | q in w'.nodeAt :: q in w.nodeAt || IsPrefix(q, p)
    ensures forall q | q in w.nodeAt :: q in w'.nodeAt && w'.nodeAt[q] == w.nodeAt[q]
  {
    assert p[..i + 1] == Extend(p[..i], p[i]);
    assert p[..i] == [] <==> i == 0;
    nodes', n', w' := ResolvePart(nodes, n, k, i, p[i], if linkParents then parent else None, p[..i], w);
    parent' := Some(n');
    assert IsPrefix(p[..i + 1], p);
  }

  /** The non-const `getNodeForPartialKeyImpl` with `createIfKeyDoesNotExist`:
      follow the parts of `p` from the root and create each missing node on
      the way. A new node's parent is the node before it on the path, except
      one part deep where the path's parent is still null; `linkParents`
      says whether the nodes keep parent links at all (inc/trie.h has none). */
  method LookupOrCreate<P(==, !new), V>(nodes: seq<Node<P, V>>, root: nat, k: nat, p: seq<P>, linkParents: bool, ghost v: View<P, V>)
    returns (nodes': seq<Node<P, V>>, n: nat, ghost w: View<P, V>)
    requires Shape(nodes, v) && v.nodeAt[[]] == root && v.k == k && |p| <= k
    requires linkParents ==> ParentLinks(nodes, v.nodeAt)
    ensures w.k == v.k && w.contents == v.contents
    ensures Shape(nodes', w) && w.nodeAt[[]] == root
    ensures linkParents ==> ParentLinks(nodes', w.nodeAt)
    ensures p in w.nodeAt && n == w.nodeAt[p]
    ensures forall q | q in w.nodeAt :: q in v.nodeAt || IsPrefix(q, p)
    ensures forall q | q in v.nodeAt :: q in w.nodeAt && w.nodeAt[q] == v.nodeAt[q]
  {
    nodes' := nodes;
    w := v;
    n := root;
    var parent: Option<nat> := None;
    var i := 0;
    while i < |p|
      invariant 0 <= i <= |p|
      invariant w.k == v.k && w.contents == v.contents
      invariant Shape(nodes', w) && w.nodeAt[[]] == root
      invariant linkParents ==> ParentLinks(nodes', w.nodeAt)
      invariant p[..i] in w.nodeAt && n == w.nodeAt[p[..i]]
      invariant parent == if i == 0 then None else Some(n)
      invariant forall q | q in w.nodeAt :: q in v.nodeAt || IsPrefix(q, p)
      invariant forall q | q in v.nodeAt :: q in w.nodeAt && w.nodeAt[q] == v.nodeAt[q]
    {
      nodes', n, parent, w := Descend(nodes', n, parent, k, p, i, linkParents, w);
      i := i + 1;
    }
    assert p[..|p|] == p;
  }
}
