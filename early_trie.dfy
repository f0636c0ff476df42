/**
 * The earlier `MultiKeyMap<V, Keys...>` of inc/trie.h: the same prefix trie
 * as `mkm::MultiKeyMap`, but it keeps no size, sets no parent links, and its
 * `erase` only clears the child maps of the node it resolves.
 */
module EarlyTrie {
  import opened Wrappers
  import opened TrieCore
  import opened TrieIterator
  import opened TrieErase
  import opened TrieOps

  class MultiKeyMap<P(==, !new), V> {
    /** `sizeof...(Keys)`: the number of parts of a full key. */
    const k: nat
    /** The nodes reachable from `root`, and perhaps some no longer reachable. */
    var nodes: seq<Node<P, V>>
    /** `root` */
    var root: nat
    /** The live prefixes and the stored pairs. */
    ghost var view: View<P, V>

    ghost predicate Valid()
      reads this
    {
      Planted(nodes, root, view, k)
    }

    /** `MultiKeyMap()`: an empty root. */
    constructor (k: nat)
      ensures Valid() && view.contents == map[] && this.k == k
    {
      this.k := k;
      nodes := EmptyArena(k);
      root := 0;
      view := View(k, map[[] := 0], map[]);
    }

    /** `insert(key, value)`: store `value` unless the key already has one;
        report whether it was stored. */
    method Insert(key: seq<P>, value: V) returns (inserted: bool)
      requires Valid() && |key| == k
      modifies this
      ensures Valid()
      ensures inserted <==> key !in old(view.contents)
      ensures view.contents == if inserted then old(view.contents)[key := value] else old(view.contents)
    {
      nodes, inserted, view := Put(nodes, root, k, key, value, view);
    }

    /** `begin()`: an iterator over every stored pair. */
    method Begin() returns (it: Iterator<P, V>)
      requires Valid()
      ensures fresh(it) && it.Valid(nodes, view)
      ensures it.Remaining(view) == view.contents.Keys
    {
      it := new Iterator(nodes, Some(root), [], view);
      AllKeysExtendEmpty(view.contents);
    }

    /** `end()`: the iterator with an empty stack. */
    method End() returns (it: Iterator<P, V>)
      requires Valid()
      ensures fresh(it) && it.Valid(nodes, view) && it.paths == []
      ensures it.Remaining(view) == {}
    {
      it := new Iterator.End(nodes, view);
    }

    /** `find(key...)`: an iterator over exactly the stored pairs whose key
        starts with the partial key `p`; at the end when there are none. */
    method Find(p: seq<P>) returns (it: Iterator<P, V>)
      requires Valid() && |p| <= k
      ensures fresh(it) && it.Valid(nodes, view)
      ensures it.Remaining(view) == PrefixKeys(view.contents, p)
    {
      var node := Lookup(nodes, root, p, view);
      it := new Iterator(nodes, node, p, view);
    }

    /** `at(key...)`: the value stored for the full key, or `out_of_range`. */
    method At(key: seq<P>) returns (r: Result<V, Error>)
      requires Valid() && |key| == k
      ensures r == if key in view.contents then Success(view.contents[key]) else Failure(OutOfRange)
    {
      r := FindValue(nodes, root, k, key, view);
    }

    /** `erase(key)`: clear every child map of the node of the partial key
        `p`. The prefixes strictly below `p` die with the pairs stored under
        them; the node of `p` stays linked with its own pair, so erasing a
        full key removes nothing. */
    method Erase(p: seq<P>)
      requires Valid() && p in view.nodeAt
      modifies this
      ensures Valid()
      ensures view == ErasedView(old(view), p, false)
      ensures view.contents == old(view.contents) - (PrefixKeys(old(view.contents), p) - {p})
    {
      var node := Lookup(nodes, root, p, view);
      var n := node.value;
      ghost var v, arena := view, nodes;
      nodes := ClearChildMaps(nodes, n);
      ClearedShape(arena, v, p);
      view := ErasedView(v, p, false);
      ErasedBelow(v, p);
    }
  }

  /** `insert`: find or create the node of the full key, and store `value`
      there when it holds no pair yet. */
  method Put<P(==, !new), V>(nodes: seq<Node<P, V>>, root: nat, k: nat, key: seq<P>, value: V, ghost v: View<P, V>)
    returns (nodes': seq<Node<P, V>>, stored: bool, ghost v': View<P, V>)
    requires Planted(nodes, root, v, k) && |key| == k
    ensures Planted(nodes', root, v', k)
    ensures stored <==> key !in v.contents
    ensures v'.contents == if stored then v.contents[key := value] else v.contents
  {
    var n;
    nodes', n, v' := LookupOrCreate(nodes, root, k, key, false, v);
    assert Reaches(nodes', v', key) && key in v'.nodeAt;
    stored := nodes'[n].data.None?;
    if stored {
      nodes', v' := Store(nodes', n, key, value, v');
    }
  }

  /** Erasing below `p` without unlinking drops the stored keys that start
      with `p`, except `p` itself. */
  lemma ErasedBelow<P(!new), V>(v: View<P, V>, p: seq<P>)
    requires forall key | key in v.contents :: key in v.nodeAt
    ensures Restrict(v.contents, Kept(v.nodeAt, p, false)) == v.contents - (PrefixKeys(v.contents, p) - {p})
  {
    var a := Restrict(v.contents, Kept(v.nodeAt, p, false));
    var b := v.contents - (PrefixKeys(v.contents, p) - {p});
    forall key | key in v.contents
      ensures key in a <==> key in b
    {
    }
    assert a.Keys == b.Keys;
  }

  /** Erasing the full key `(1, 2)` from a trie that stores 7 under it
      leaves `at(1, 2)` returning 7: the pair is not erased. */
  method EraseFullKeyKeepsPair() returns (r: Result<int, Error>)
    ensures r == Success(7)
  {
    var m := new MultiKeyMap<int, int>(2);
    var inserted := m.Insert([1, 2], 7);
    assert [1, 2] in m.view.nodeAt;
    m.Erase([1, 2]);
    assert PrefixKeys(map[[1, 2] := 7], [1, 2]) - {[1, 2]} == {};
    r := m.At([1, 2]);
  }
}
