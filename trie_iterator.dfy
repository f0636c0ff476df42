/**
 * `IteratorImpl`, the iterator shared by inc/MultiKeyMap.h and inc/trie.h:
 * a depth-first walk of the subtree below one node, driven by an explicit
 * stack of nodes. Only nodes that hold a pair are ever left on top between
 * operations, so the iterator always points at a stored pair or is at the end.
 *
 * The iterator holds node indices into the arena of the trie it walks; every
 * operation takes that arena and its view as parameters.
 */
module TrieIterator {
  import opened Wrappers
  import opened TrieCore

  /** No stacked prefix is a prefix of another: the subtrees still to visit
      are disjoint. */
  ghost predicate Incomparable<P(!new)>(paths: seq<seq<P>>)
  {
    forall a, b | 0 <= a < |paths| && 0 <= b < |paths| && a != b :: !IsPrefix(paths[a], paths[b])
  }

  /** The live prefixes in the subtrees below the stacked prefixes. */
  ghost function Covered<P(!new)>(nodeAt: map<seq<P>, nat>, paths: seq<seq<P>>): set<seq<P>>
  {
    set r | r in nodeAt && exists t :: 0 <= t < |paths| && IsPrefix(paths[t], r)
  }

  /** The prefixes reached from `q` by one more part, in the order of `xs`. */
  ghost function Pushed<P>(q: seq<P>, xs: seq<P>): (r: seq<seq<P>>)
    ensures |r| == |xs|
    ensures forall i | 0 <= i < |xs| :: r[i] == Extend(q, xs[i])
  {
    seq(|xs|, i requires 0 <= i < |xs| => Extend(q, xs[i]))
  }

  /** A prefix of `Extend(q, x)` is either a prefix of `q` or all of it. */
  lemma PrefixOfExtend<P>(a: seq<P>, q: seq<P>, x: P)
    requires IsPrefix(a, Extend(q, x))
    ensures IsPrefix(a, q) || a == Extend(q, x)
  {
    if |a| <= |q| {
      assert q[..|a|] == Extend(q, x)[..|q|][..|a|];
    } else {
      assert a == Extend(q, x)[..|q| + 1];
    }
  }

  lemma ExtendIsLonger<P>(q: seq<P>, x: P)
    ensures IsPrefix(q, Extend(q, x)) && Extend(q, x) != q
  {
  }

  /** Replacing the prefix `q` on top of the stack by its children keeps the
      stacked subtrees disjoint. */
  lemma AdvanceIncomparable<P(!new)>(base: seq<seq<P>>, q: seq<P>, xs: seq<P>)
    requires Incomparable(base + [q])
    requires forall a, b | 0 <= a < b < |xs| :: xs[a] != xs[b]
    ensures Incomparable(base + Pushed(q, xs))
  {
    var before := base + [q];
    var after := base + Pushed(q, xs);
    assert before[|base|] == q;
    forall a, b | 0 <= a < |after| && 0 <= b < |after| && a != b
      ensures !IsPrefix(after[a], after[b])
    {
      if a < |base| && b < |base| {
        assert before[a] == after[a] && before[b] == after[b];
      } else if a < |base| {
        assert before[a] == after[a];
        var x := xs[b - |base|];
        if IsPrefix(after[a], after[b]) {
          PrefixOfExtend(after[a], q, x);
          if !IsPrefix(after[a], q) {
            ExtendIsLonger(q, x);
          }
        }
      } else if b < |base| {
        assert before[b] == after[b];
        if IsPrefix(after[a], after[b]) {
          ExtendIsLonger(q, xs[a - |base|]);
          PrefixTrans(q, after[a], after[b]);
        }
      } else {
        assert xs[a - |base|] != xs[b - |base|];
      }
    }
  }

  /** After the replacement nothing new is covered, and `q` is not. */
  lemma AdvanceCoveredShrinks<P(!new)>(nodeAt: map<seq<P>, nat>, base: seq<seq<P>>, q: seq<P>, xs: seq<P>)
    requires Incomparable(base + [q])
    ensures Covered(nodeAt, base + Pushed(q, xs)) <= Covered(nodeAt, base + [q]) - {q}
  {
    var before := base + [q];
    var after := base + Pushed(q, xs);
    assert before[|base|] == q;
    forall r | r in Covered(nodeAt, after)
      ensures r in Covered(nodeAt, before) && r != q
    {
      var t :| 0 <= t < |after| && IsPrefix(after[t], r);
      if t < |base| {
        assert before[t] == after[t];
        assert r != q;
      } else {
        ExtendIsLonger(q, xs[t - |base|]);
        PrefixTrans(q, after[t], r);
        assert IsPrefix(before[|base|], r);
      }
    }
  }

  /** Every live prefix strictly below `q` is below one of its children. */
  lemma AdvanceCoveredKeeps<P(!new), V>(nodes: seq<Node<P, V>>, v: View<P, V>, base: seq<seq<P>>, q: seq<P>, xs: seq<P>)
    requires Shape(nodes, v) && q in v.nodeAt
    requires forall x :: x in xs <==> x in ChildMap(nodes, v.nodeAt[q], |q|)
    ensures Covered(v.nodeAt, base + [q]) - {q} <= Covered(v.nodeAt, base + Pushed(q, xs))
  {
    var before := base + [q];
    var after := base + Pushed(q, xs);
    forall r | r in Covered(v.nodeAt, before) && r != q
      ensures r in Covered(v.nodeAt, after)
    {
      var t :| 0 <= t < |before| && IsPrefix(before[t], r);
      if t < |base| {
        assert after[t] == before[t];
      } else {
        assert before[t] == q;
        var x := r[|q|];
        LivePrefix(nodes, v, r, |q| + 1);
        assert r[..|q| + 1] == Extend(q, x);
        var i :| 0 <= i < |xs| && xs[i] == x;
        assert after[|base| + i] == Extend(q, x);
        assert IsPrefix(after[|base| + i], r);
      }
    }
  }

  /** A walk over the pairs stored below one node (`IteratorImpl`). */
  class Iterator<P(==, !new), V> {
    /** `m_nodes`: the nodes still to visit, the top of the stack last. */
    var stack: seq<nat>
    /** The prefix that reaches each stacked node. */
    ghost var paths: seq<seq<P>>

    /** The stack holds live nodes of disjoint subtrees. */
    ghost predicate Wf(nodes: seq<Node<P, V>>, v: View<P, V>)
      reads this
    {
      && Shape(nodes, v)
      && |paths| == |stack|
      && (forall t | 0 <= t < |stack| :: paths[t] in v.nodeAt && stack[t] == v.nodeAt[paths[t]])
      && Incomparable(paths)
    }

    /** Between operations the top node, if any, holds a pair. */
    ghost predicate Valid(nodes: seq<Node<P, V>>, v: View<P, V>)
      reads this
    {
      Wf(nodes, v) && (paths != [] ==> paths[|paths| - 1] in v.contents)
    }

    /** The stored keys the iterator has yet to yield, the current one
        included. */
    ghost function Remaining(v: View<P, V>): set<seq<P>>
      reads this
    {
      Covered(v.nodeAt, paths) * v.contents.Keys
    }

    /** The key of the pair the iterator points at. */
    ghost function CurrentKey(): seq<P>
      reads this
      requires paths != []
    {
      paths[|paths| - 1]
    }

    /** `IteratorImpl()`: the end iterator, with an empty stack. */
    constructor End(ghost nodes: seq<Node<P, V>>, ghost v: View<P, V>)
      requires Shape(nodes, v)
      ensures Valid(nodes, v) && Remaining(v) == {} && paths == []
    {
      stack := [];
      paths := [];
    }

    /** `IteratorImpl(node)`: start at `start`, the node of the partial key
        `from`, or at the end when `start` is null; then skip to the first
        node holding a pair. The iterator yields exactly the stored keys that
        extend `from`. */
    constructor (nodes: seq<Node<P, V>>, start: Option<nat>, ghost from: seq<P>, ghost v: View<P, V>)
      requires Shape(nodes, v)
      requires start == if from in v.nodeAt then Some(v.nodeAt[from]) else None
      ensures Valid(nodes, v)
      ensures Remaining(v) == PrefixKeys(v.contents, from)
    {
      stack := [];
      paths := [];
      new;
      if start.Some? {
        stack := [start.value];
        paths := [from];
        assert Covered(v.nodeAt, paths) * v.contents.Keys == PrefixKeys(v.contents, from) by {
          forall key | key in PrefixKeys(v.contents, from)
            ensures key in Covered(v.nodeAt, paths)
          {
            assert IsPrefix(paths[0], key);
          }
        }
        SkipEmpty(nodes, v);
      } else {
        DeadPrefixHasNoKeys(nodes, v, from);
      }
    }

    /** `isEnd()`: the stack is empty, exactly when nothing remains. */
    function IsEnd(ghost nodes: seq<Node<P, V>>, ghost v: View<P, V>): (b: bool)
      reads this
      requires Valid(nodes, v)
      ensures b <==> Remaining(v) == {}
      ensures b <==> paths == []
    {
      if stack == [] then
        true
      else
        assert IsPrefix(CurrentKey(), CurrentKey());
        assert CurrentKey() in Remaining(v);
        false
    }

    /** `operator*`: the pair at the top node, whose key is the current key
        and whose value is the one stored for it. */
    function Get(nodes: seq<Node<P, V>>, ghost v: View<P, V>): (kv: (seq<P>, V))
      reads this
      requires Valid(nodes, v) && paths != []
      ensures kv.0 == CurrentKey() && kv.0 in Remaining(v) && kv.1 == v.contents[kv.0]
    {
      assert IsPrefix(CurrentKey(), CurrentKey());
      nodes[stack[|stack| - 1]].data.value
    }

    /** `operator==`: both at the end, or both pointing at the same node,
        which with distinct nodes for distinct prefixes means the same key. */
    function Equals(other: Iterator<P, V>, ghost nodes: seq<Node<P, V>>, ghost v: View<P, V>): (b: bool)
      reads this, other
      requires Valid(nodes, v) && other.Valid(nodes, v)
      ensures b <==> ((paths == [] && other.paths == [])
                      || (paths != [] && other.paths != [] && CurrentKey() == other.CurrentKey()))
    {
      if stack == [] && other.stack == [] then
        true
      else if stack == [] || other.stack == [] then
        false
      else
        stack[|stack| - 1] == other.stack[|other.stack| - 1]
    }

    /** The body of the lambda that `advance()` applies to each child map:
        push every child of `m`, in map order (an arbitrary order here). The
        map is the one for part `|q|` of the node of `q`, or an empty one. */
    method PushChildren(m: map<P, nat>, ghost q: seq<P>, ghost v: View<P, V>) returns (ghost added: seq<P>)
      requires |paths| == |stack|
      requires forall x | x in m :: Extend(q, x) in v.nodeAt && m[x] == v.nodeAt[Extend(q, x)]
      modifies this
      ensures paths == old(paths) + Pushed(q, added) && |stack| == |paths|
      ensures stack[..|old(stack)|] == old(stack)
      ensures forall t | |old(stack)| <= t < |stack| :: paths[t] in v.nodeAt && stack[t] == v.nodeAt[paths[t]]
      ensures forall a, b | 0 <= a < b < |added| :: added[a] != added[b]
      ensures forall x :: x in added <==> x in m
      ensures |added| == |m.Keys|
    {
      added := [];
      var rest := m.Keys;
      while rest != {}
        invariant rest <= m.Keys
        invariant paths == old(paths) + Pushed(q, added) && |stack| == |paths|
        invariant stack[..|old(stack)|] == old(stack)
        invariant forall t | |old(stack)| <= t < |stack| :: paths[t] in v.nodeAt && stack[t] == v.nodeAt[paths[t]]
        invariant forall a, b | 0 <= a < b < |added| :: added[a] != added[b]
        invariant forall x :: x in added <==> x in m && x !in rest
        invariant |added| + |rest| == |m.Keys|
        decreases |rest|
      {
        var x :| x in rest;
        stack := stack + [m[x]];
        paths := paths + [Extend(q, x)];
        added := added + [x];
        rest := rest - {x};
      }
    }

    /** The `forEach` of `advance()` over the child maps of node `n`, the
        node of `q`: push the children of each map in turn. Only the map for
        part `|q|` has children. */
    method PushChildMaps(nodes: seq<Node<P, V>>, n: nat, ghost q: seq<P>, ghost c: map<P, nat>, ghost v: View<P, V>)
      returns (ghost xs: seq<P>)
      requires n < |nodes| && (|q| < |nodes[n].children| || c == map[])
      requires forall j | 0 <= j < |nodes[n].children| :: nodes[n].children[j] == if j == |q| then c else map[]
      requires forall x | x in c :: Extend(q, x) in v.nodeAt && c[x] == v.nodeAt[Extend(q, x)]
      requires |paths| == |stack|
      modifies this
      ensures paths == old(paths) + Pushed(q, xs) && |stack| == |paths|
      ensures stack[..|old(stack)|] == old(stack)
      ensures forall t | |old(stack)| <= t < |stack| :: paths[t] in v.nodeAt && stack[t] == v.nodeAt[paths[t]]
      ensures forall a, b | 0 <= a < b < |xs| :: xs[a] != xs[b]
      ensures forall x :: x in xs <==> x in c
    {
      xs := [];
      var j := 0;
      while j < |nodes[n].children|
        invariant 0 <= j <= |nodes[n].children|
        invariant paths == old(paths) + Pushed(q, xs) && |stack| == |paths|
        invariant stack[..|old(stack)|] == old(stack)
        invariant forall t | |old(stack)| <= t < |stack| :: paths[t] in v.nodeAt && stack[t] == v.nodeAt[paths[t]]
        invariant forall a, b | 0 <= a < b < |xs| :: xs[a] != xs[b]
        invariant forall x :: x in xs <==> x in c && j > |q|
        invariant j <= |q| ==> xs == []
      {
        var m := nodes[n].children[j];
        ghost var added := PushChildren(m, q, v);
        if j == |q| {
          assert Pushed(q, xs) == [];
          xs := added;
        } else {
          assert added == [] && Pushed(q, added) == [];
        }
        j := j + 1;
      }
    }

    /** `advance()`: pop the top node and push its children. The popped
        prefix is no longer covered and everything else covered still is. */
    method Advance(nodes: seq<Node<P, V>>, ghost v: View<P, V>)
      requires Wf(nodes, v) && stack != []
      modifies this
      ensures Wf(nodes, v)
      ensures old(paths[|paths| - 1]) in old(Covered(v.nodeAt, paths))
      ensures Covered(v.nodeAt, paths) == old(Covered(v.nodeAt, paths)) - {old(paths[|paths| - 1])}
    {
      var n := stack[|stack| - 1];
      ghost var q := paths[|paths| - 1];
      assert IsPrefix(q, q);
      assert paths == paths[..|paths| - 1] + [q];
      stack := stack[..|stack| - 1];
      paths := paths[..|paths| - 1];
      ghost var base := paths;
      ghost var c := ChildMap(nodes, n, |q|);
      forall j | 0 <= j < |nodes[n].children|
        ensures nodes[n].children[j] == if j == |q| then c else map[]
      {
        assert nodes[n].children[j] == ChildMap(nodes, n, j);
      }
      ghost var xs := PushChildMaps(nodes, n, q, c, v);
      AdvanceIncomparable(base, q, xs);
      AdvanceCoveredShrinks(v.nodeAt, base, q, xs);
      AdvanceCoveredKeeps(nodes, v, base, q, xs);
    }

    /** The loop of the constructor and of `operator++`: advance while the
        top node holds no pair. Nodes without a pair hold no stored key, so
        nothing is skipped that was still to be yielded. */
    method SkipEmpty(nodes: seq<Node<P, V>>, ghost v: View<P, V>)
      requires Wf(nodes, v)
      modifies this
      ensures Valid(nodes, v)
      ensures Remaining(v) == old(Remaining(v))
    {
      while stack != [] && nodes[stack[|stack| - 1]].data.None?
        invariant Wf(nodes, v)
        invariant Remaining(v) == old(Remaining(v))
        decreases |Covered(v.nodeAt, paths)|
      {
        ghost var q := paths[|paths| - 1];
        assert q !in v.contents;
        Advance(nodes, v);
      }
    }

    /** `operator++`: nothing at the end; otherwise advance past the current
        node and on to the next node holding a pair. The current key leaves
        the keys still to be yielded and nothing else does. */
    method Next(nodes: seq<Node<P, V>>, ghost v: View<P, V>)
      requires Valid(nodes, v)
      modifies this
      ensures Valid(nodes, v)
      ensures old(paths) == [] ==> stack == old(stack) && paths == old(paths)
      ensures old(paths) != [] ==> old(CurrentKey()) in old(Remaining(v))
      ensures old(paths) != [] ==> Remaining(v) == old(Remaining(v)) - {old(CurrentKey())}
    {
      if stack == [] {
        return;
      }
      Advance(nodes, v);
      SkipEmpty(nodes, v);
    }
  }
}
