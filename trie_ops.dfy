/**
 * Steps that `mkm::MultiKeyMap` (inc/MultiKeyMap.h) and the earlier
 * `MultiKeyMap` of inc/trie.h perform alike: storing a pair in the node of
 * its key, and finding the value of a full key.
 */
module TrieOps {
  import opened Wrappers
  import opened TrieCore
  import opened TrieIterator

  /** The `std::out_of_range` that `at` throws for a missing key. */
  datatype Error = OutOfRange

  /** A trie of `k`-part keys whose root is node `root`. */
  ghost predicate Planted<P(!new), V>(nodes: seq<Node<P, V>>, root: nat, v: View<P, V>, k: nat)
  {
    v.k == k && Shape(nodes, v) && v.nodeAt[[]] == root
  }

  /** `node->data = { key, value }` on the empty node of a live full key:
      the trie now stores one more pair, and parent links stay as they were. */
  method Store<P(==, !new), V>(nodes: seq<Node<P, V>>, n: nat, key: seq<P>, value: V, ghost v: View<P, V>)
    returns (nodes': seq<Node<P, V>>, ghost v': View<P, V>)
    requires Shape(nodes, v)
    requires key in v.nodeAt && n == v.nodeAt[key] && IsFullKey(v.k, key)
    requires n < |nodes| && nodes[n].data.None?
    ensures v' == v.(contents := v.contents[key := value])
    ensures key !in v.contents && |v'.contents| == |v.contents| + 1
    ensures Shape(nodes', v')
    ensures ParentLinks(nodes, v.nodeAt) ==> ParentLinks(nodes', v'.nodeAt)
  {
    StoredShape(nodes, v, key, value);
    nodes' := Stored(nodes, n, key, value);
    if ParentLinks(nodes, v.nodeAt) {
      ParentLinksKept(nodes, nodes', v.nodeAt, v.nodeAt);
    }
    v' := v.(contents := v.contents[key := value]);
  }

  /** `find(key)` compared with `end()`: the value stored for a full key,
      or `std::out_of_range` when there is none. */
  method FindValue<P(==, !new), V>(nodes: seq<Node<P, V>>, root: nat, k: nat, key: seq<P>, ghost v: View<P, V>)
    returns (r: Result<V, Error>)
    requires Planted(nodes, root, v, k) && |key| == k
    ensures r == if key in v.contents then Success(v.contents[key]) else Failure(OutOfRange)
  {
    var node := Lookup(nodes, root, key, v);
    var it := new Iterator(nodes, node, key, v);
    var e := new Iterator.End(nodes, v);
    FullKeyPrefixKeys(v, key);
    if it.Equals(e, nodes, v) {
      assert it.IsEnd(nodes, v);
      r := Failure(OutOfRange);
    } else {
      assert !it.IsEnd(nodes, v);
      var kv := it.Get(nodes, v);
      r := Success(kv.1);
    }
  }

  /** Every key starts with the empty partial key. */
  lemma AllKeysExtendEmpty<P(!new), V>(contents: map<seq<P>, V>)
    ensures PrefixKeys(contents, []) == contents.Keys
  {
    forall key | key in contents
      ensures IsPrefix([], key)
    {
    }
  }
}
