/**
 * `mkm::MultiKeyMap<V, Keys...>` (inc/MultiKeyMap.h): a map from keys of `k`
 * parts to values, stored in a prefix trie whose nodes keep parent links, and
 * looked up by full or partial keys.
 *
 * The trie's arena, root and size are fields; the abstract state is the ghost
 * pair `nodeAt` (the live prefixes) and `contents` (the stored pairs).
 */
module Mkm {
  import opened Wrappers
  import opened TrieCore
  import opened TrieIterator
  import opened TrieErase
  import opened TrieOps

  /** The pairs a sequence of `insert` calls stores, from an empty map:
      a pair is stored only when its key has none yet. */
  ghost function Inserted<P(!new), V>(pairs: seq<(seq<P>, V)>): map<seq<P>, V>
  {
    if pairs == [] then map[]
    else
      var m := Inserted(pairs[..|pairs| - 1]);
      var (key, value) := pairs[|pairs| - 1];
      if key in m then m else m[key := value]
  }

  /** A key is stored exactly when some pair has it, with the value of its
      first pair. */
  ghost predicate FirstWins<P(!new), V>(contents: map<seq<P>, V>, pairs: seq<(seq<P>, V)>)
  {
    && (forall key :: key in contents <==> exists i :: 0 <= i < |pairs| && pairs[i].0 == key)
    && (forall i | 0 <= i < |pairs| && (forall j | 0 <= j < i :: pairs[j].0 != pairs[i].0) ::
          pairs[i].0 in contents && contents[pairs[i].0] == pairs[i].1)
  }

  /** Every pair of `sub` is in `m`. */
  ghost predicate Agrees<K, V>(sub: map<K, V>, m: map<K, V>)
  {
    forall key | key in sub :: key in m && m[key] == sub[key]
  }

  class MultiKeyMap<P(==, !new), V(==)> {
    /** `sizeof...(Keys)`: the number of parts of a full key. */
    const k: nat
    /** `mapped_type{}`: the value `operator[]` stores for a missing key. */
    const zero: V
    /** The nodes reachable from `root`, and perhaps some no longer reachable. */
    var nodes: seq<Node<P, V>>
    /** `root` */
    var root: nat
    /** `m_size` */
    var size: nat
    /** The live prefixes and the stored pairs. */
    ghost var view: View<P, V>

    ghost predicate Linked()
      reads this
    {
      Rooted(nodes, root, view, k)
    }

    ghost predicate Valid()
      reads this
    {
      Counted(nodes, root, size, view, k)
    }

    /** `MultiKeyMap()`: an empty root. */
    constructor (k: nat, zero: V)
      ensures Valid() && view.contents == map[]
      ensures this.k == k && this.zero == zero
    {
      this.k := k;
      this.zero := zero;
      nodes := EmptyArena(k);
      root := 0;
      size := 0;
      view := View(k, map[[] := 0], map[]);
    }

    /** `MultiKeyMap(first, last)` and `MultiKeyMap(init)`: insert every
        pair in order, so the first pair for a key wins. */
    constructor FromPairs(k: nat, zero: V, pairs: seq<(seq<P>, V)>)
      requires forall i | 0 <= i < |pairs| :: |pairs[i].0| == k
      ensures Valid() && this.k == k && this.zero == zero
      ensures view.contents == Inserted(pairs) && FirstWins(view.contents, pairs)
    {
      this.k := k;
      this.zero := zero;
      var arena, count;
      ghost var v;
      arena, count, v := InsertPairs(k, pairs);
      nodes, root, size, view := arena, 0, count, v;
      InsertedFirstWins(pairs);
    }

    /** `MultiKeyMap(const MultiKeyMap&)`: insert every pair of `rhs` into a
        new trie; the copy stores the same pairs. */
    constructor Copy(rhs: MultiKeyMap<P, V>)
      requires rhs.Valid()
      ensures Valid() && k == rhs.k && zero == rhs.zero
      ensures view.contents == rhs.view.contents
    {
      k := rhs.k;
      zero := rhs.zero;
      var it := rhs.Begin();
      var arena, count;
      ghost var v;
      arena, count, v := InsertAll(rhs.nodes, it, rhs.k, rhs.view);
      nodes, root, size, view := arena, 0, count, v;
    }

    /** `insert(key, value)`: store `value` unless the key already has one;
        report whether it was stored. */
    method Insert(key: seq<P>, value: V) returns (inserted: bool)
      requires Valid() && |key| == k
      modifies this
      ensures Valid()
      ensures inserted <==> key !in old(view.contents)
      ensures view.contents == if inserted then old(view.contents)[key := value] else old(view.contents)
    {
      var n, s;
      nodes, n, inserted, view, s := Emplace(nodes, root, size, k, key, value, view);
      size := s;
    }

    /** `operator[](key)`: the value stored for `key`, storing
        `mapped_type{}` first when there is none. */
    method Index(key: seq<P>) returns (value: V)
      requires Valid() && |key| == k
      modifies this
      ensures Valid()
      ensures view.contents == if key in old(view.contents) then old(view.contents) else old(view.contents)[key := zero]
      ensures key in view.contents && value == view.contents[key]
    {
      var n, stored, s;
      nodes, n, stored, view, s := Emplace(nodes, root, size, k, key, zero, view);
      size := s;
      value := nodes[n].data.value.1;
    }

    /** `begin()`: an iterator over every stored pair. */
    method Begin() returns (it: Iterator<P, V>)
      requires Valid()
      ensures fresh(it) && it.Valid(nodes, view)
      ensures it.Remaining(view) == view.contents.Keys
    {
      it := new Iterator(nodes, Some(root), [], view);
      AllKeysExtendEmpty(view.contents);
    }

    /** `end()`: the iterator with an empty stack. */
    method End() returns (it: Iterator<P, V>)
      requires Valid()
      ensures fresh(it) && it.Valid(nodes, view) && it.paths == []
      ensures it.Remaining(view) == {}
    {
      it := new Iterator.End(nodes, view);
    }

    /** `find(key...)`: an iterator over exactly the stored pairs whose key
        starts with the partial key `p`; at the end when there are none. */
    method Find(p: seq<P>) returns (it: Iterator<P, V>)
      requires Valid() && |p| <= k
      ensures fresh(it) && it.Valid(nodes, view)
      ensures it.Remaining(view) == PrefixKeys(view.contents, p)
    {
      var node := Lookup(nodes, root, p, view);
      it := new Iterator(nodes, node, p, view);
    }

    /** `count(key...)`: the number of stored keys starting with `p`. */
    method Count(p: seq<P>) returns (n: nat)
      requires Valid() && |p| <= k
      ensures n == |PrefixKeys(view.contents, p)|
    {
      var it := Find(p);
      var arena := nodes;
      ghost var v := view;
      n := 0;
      while !it.IsEnd(arena, v)
        invariant it.Valid(arena, v)
        invariant n + |it.Remaining(v)| == |PrefixKeys(v.contents, p)|
        decreases |it.Remaining(v)|
      {
        it.Next(arena, v);
        n := n + 1;
      }
    }

    /** `contains(key...)`: some stored key starts with `p`. */
    method Contains(p: seq<P>) returns (b: bool)
      requires Valid() && |p| <= k
      ensures b <==> exists key :: key in view.contents && IsPrefix(p, key)
    {
      var it := Find(p);
      var e := End();
      b := !it.Equals(e, nodes, view);
      assert b <==> !it.IsEnd(nodes, view);
      if b {
        ghost var key :| key in PrefixKeys(view.contents, p);
      } else {
        forall key | key in view.contents
          ensures !IsPrefix(p, key)
        {
          assert key !in PrefixKeys(view.contents, p);
        }
      }
    }

    /** `at(key...)`: the value stored for the full key, or `out_of_range`. */
    method At(key: seq<P>) returns (r: Result<V, Error>)
      requires Valid() && |key| == k
      ensures r == if key in view.contents then Success(view.contents[key]) else Failure(OutOfRange)
    {
      r := FindValue(nodes, root, k, key, view);
    }

    /** `size()` */
    function Size(): (n: nat)
      reads this
      requires Valid()
      ensures n == |view.contents|
    {
      size
    }

    /** `empty()` */
    function Empty(): (b: bool)
      reads this
      requires Valid()
      ensures b <==> view.contents == map[]
    {
      if size == 0 then true else assert view.contents.Keys != {}; false
    }

    /** `clear()`: a new empty root and a zero size. */
    method Clear()
      requires Valid()
      modifies this
      ensures Valid() && view.contents == map[]
    {
      nodes := EmptyArena(k);
      root := 0;
      size := 0;
      view := View(k, map[[] := 0], map[]);
    }

    /** `swap(rhs)`: exchange the tries and the sizes. */
    method Swap(rhs: MultiKeyMap<P, V>)
      requires Valid() && rhs.Valid() && rhs.k == k && rhs.zero == zero
      modifies this, rhs
      ensures Valid() && rhs.Valid()
      ensures view.contents == old(rhs.view.contents) && rhs.view.contents == old(view.contents)
    {
      if rhs == this {
        return;
      }
      var arena, top, count := nodes, root, size;
      ghost var v := view;
      nodes, root, size, view := rhs.nodes, rhs.root, rhs.size, rhs.view;
      rhs.nodes, rhs.root, rhs.size, rhs.view := arena, top, count, v;
    }

    /** `operator==`: the same size, and every pair of `rhs` found here with
        an equal value; that is, the same stored pairs. */
    method Equals(rhs: MultiKeyMap<P, V>) returns (b: bool)
      requires Valid() && rhs.Valid() && rhs.k == k
      ensures b <==> view.contents == rhs.view.contents
    {
      if size != rhs.size {
        return false;
      }
      var it := rhs.Begin();
      b := AllFound(rhs.nodes, it, nodes, root, k, rhs.view, view);
      if b {
        SameSizeSubmap(rhs.view.contents, view.contents);
      }
    }

    /** `erase(key)`: drop every pair whose key starts with the partial key
        `p`. The size goes down by the number of such pairs, every child map
        of `p`'s node is cleared, and the node is removed from its parent's
        map when it has a parent, that is when `p` has two or more parts.
        With a single part the node stays, and so does any pair stored in it
        (only possible when `k` is 1). */
    method Erase(p: seq<P>)
      requires Valid() && 1 <= |p| <= k && p in view.nodeAt
      modifies this
      ensures Linked()
      ensures size == old(size) - |PrefixKeys(old(view.contents), p)|
      ensures view == ErasedView(old(view), p, |p| >= 2)
      ensures k >= 2 ==> Valid() && view.contents == old(view.contents) - PrefixKeys(old(view.contents), p)
    {
      nodes, size, view := EraseBelow(nodes, root, size, k, p, view);
    }
  }

  ghost predicate Rooted<P(!new), V>(nodes: seq<Node<P, V>>, root: nat, v: View<P, V>, k: nat)
  {
    Planted(nodes, root, v, k) && ParentLinks(nodes, v.nodeAt)
  }
  ghost predicate Counted<P(!new), V>(nodes: seq<Node<P, V>>, root: nat, size: nat, v: View<P, V>, k: nat)
  {
    Rooted(nodes, root, v, k) && size == |v.contents|
  }

  /** The common part of `insert` and `operator[]`: find or create the node
      of the full key, and store `value` there when it holds no pair yet. */
  method Emplace<P(==, !new), V>(nodes: seq<Node<P, V>>, root: nat, size: nat, k: nat, key: seq<P>, value: V, ghost v: View<P, V>)
    returns (nodes': seq<Node<P, V>>, n: nat, stored: bool, ghost v': View<P, V>, size': nat)
    requires Counted(nodes, root, size, v, k)
    requires |key| == k
    ensures Counted(nodes', root, size', v', k)
    ensures v'.k == k && Shape(nodes', v') && v'.nodeAt[[]] == root && ParentLinks(nodes', v'.nodeAt)
    ensures stored <==> key !in v.contents
    ensures v'.contents == if stored then v.contents[key := value] else v.contents
    ensures |v'.contents| == if stored then |v.contents| + 1 else |v.contents|
    ensures n < |nodes'| && nodes'[n].data.Some? && nodes'[n].data.value.1 == v'.contents[key]
  {
    nodes', n, v' := LookupOrCreate(nodes, root, k, key, true, v);
    assert Reaches(nodes', v', key) && key in v'.nodeAt;
    stored := nodes'[n].data.None?;
    size' := size;
    if stored {
      nodes', v' := Store(nodes', n, key, value, v');
      size' := size + 1;
    }
  }

  /** The loop of the range constructor: `insert` the pairs in order into
      a trie that starts empty. */
  method InsertPairs<P(==, !new), V>(k: nat, pairs: seq<(seq<P>, V)>)
    returns (nodes: seq<Node<P, V>>, size: nat, ghost v: View<P, V>)
    requires forall i | 0 <= i < |pairs| :: |pairs[i].0| == k
    ensures Counted(nodes, 0, size, v, k) && v.contents == Inserted(pairs)
  {
    nodes := EmptyArena(k);
    size := 0;
    v := View(k, map[[] := 0], map[]);
    var i := 0;
    while i < |pairs|
      invariant 0 <= i <= |pairs|
      invariant Counted(nodes, 0, size, v, k) && v.contents == Inserted(pairs[..i])
    {
      var n, stored;
      InsertedNext(pairs, i);
      nodes, n, stored, v, size := Emplace(nodes, 0, size, k, pairs[i].0, pairs[i].1, v);
      i := i + 1;
    }
    assert pairs[..|pairs|] == pairs;
  }

  /** The loop of the copy constructor: `insert` every pair the iterator
      over `rhs` yields into a trie that starts empty. */
  method InsertAll<P(==, !new), V>(rnodes: seq<Node<P, V>>, it: Iterator<P, V>, k: nat, ghost rv: View<P, V>)
    returns (nodes: seq<Node<P, V>>, size: nat, ghost v: View<P, V>)
    requires it.Valid(rnodes, rv) && it.Remaining(rv) == rv.contents.Keys && rv.k == k
    modifies it
    ensures Counted(nodes, 0, size, v, k) && v.contents == rv.contents
  {
    nodes := EmptyArena(k);
    size := 0;
    v := View(k, map[[] := 0], map[]);
    while !it.IsEnd(rnodes, rv)
      invariant it.Valid(rnodes, rv) && Counted(nodes, 0, size, v, k)
      invariant v.contents == rv.contents - it.Remaining(rv)
      decreases it.Remaining(rv)
    {
      nodes, size, v := InsertNext(rnodes, it, nodes, size, k, rv, v);
    }
    NothingRemaining(rv.contents, it.Remaining(rv));
  }

  /** One turn of the copy constructor's loop: `insert` the pair at the
      iterator, then `++it`. */
  method InsertNext<P(==, !new), V>(rnodes: seq<Node<P, V>>, it: Iterator<P, V>, nodes: seq<Node<P, V>>, size: nat, k: nat,
                                    ghost rv: View<P, V>, ghost v: View<P, V>)
    returns (nodes': seq<Node<P, V>>, size': nat, ghost v': View<P, V>)
    requires it.Valid(rnodes, rv) && it.paths != [] && rv.k == k
    requires Counted(nodes, 0, size, v, k) && v.contents == rv.contents - it.Remaining(rv)
    modifies it
    ensures it.Valid(rnodes, rv) && Counted(nodes', 0, size', v', k)
    ensures v'.contents == rv.contents - it.Remaining(rv)
    ensures it.Remaining(rv) < old(it.Remaining(rv))
  {
    var kv := it.Get(rnodes, rv);
    var n, stored;
    nodes', n, stored, v', size' := Emplace(nodes, 0, size, k, kv.0, kv.1, v);
    ghost var before := it.Remaining(rv);
    it.Next(rnodes, rv);
    TakeOneMore(rv.contents, before, kv.0);
  }

  /** One turn of the loop of `operator==`: look the pair at the iterator
      up with `find`, and on a match `++it`. */
  method FoundNext<P(==, !new), V(==)>(rnodes: seq<Node<P, V>>, it: Iterator<P, V>, nodes: seq<Node<P, V>>, root: nat, k: nat,
                                      ghost rv: View<P, V>, ghost v: View<P, V>)
    returns (found: bool)
    requires it.Valid(rnodes, rv) && it.paths != [] && rv.k == k && Rooted(nodes, root, v, k)
    requires Agrees(rv.contents - it.Remaining(rv), v.contents)
    modifies it
    ensures it.Valid(rnodes, rv)
    ensures found ==> Agrees(rv.contents - it.Remaining(rv), v.contents) && it.Remaining(rv) < old(it.Remaining(rv))
    ensures !found ==> !Agrees(rv.contents, v.contents)
  {
    var kv := it.Get(rnodes, rv);
    var r := FindValue(nodes, root, k, kv.0, v);
    if r.Failure? || r.value != kv.1 {
      assert kv.0 in rv.contents && rv.contents[kv.0] == kv.1;
      return false;
    }
    ghost var before := it.Remaining(rv);
    it.Next(rnodes, rv);
    AgreesOneMore(rv.contents, before, kv.0, v.contents);
    found := true;
  }

  /** The loop of `operator==`: every pair the iterator over `rhs` yields
      is found, with the same value, in the trie of `nodes`. */
  method AllFound<P(==, !new), V(==)>(rnodes: seq<Node<P, V>>, it: Iterator<P, V>, nodes: seq<Node<P, V>>, root: nat, k: nat,
                                     ghost rv: View<P, V>, ghost v: View<P, V>)
    returns (b: bool)
    requires it.Valid(rnodes, rv) && it.Remaining(rv) == rv.contents.Keys
    requires rv.k == k && Rooted(nodes, root, v, k)
    modifies it
    ensures b <==> Agrees(rv.contents, v.contents)
  {
    while !it.IsEnd(rnodes, rv)
      invariant it.Valid(rnodes, rv)
      invariant Agrees(rv.contents - it.Remaining(rv), v.contents)
      decreases it.Remaining(rv)
    {
      var found := FoundNext(rnodes, it, nodes, root, k, rv, v);
      if !found {
        return false;
      }
    }
    NothingRemaining(rv.contents, it.Remaining(rv));
    b := true;
  }

  /** The body of `erase`: count the pairs below `p` off the size, then
      clear and unlink `p`'s node. */
  method EraseBelow<P(==, !new), V>(nodes: seq<Node<P, V>>, root: nat, size: nat, k: nat, p: seq<P>, ghost v: View<P, V>)
    returns (nodes': seq<Node<P, V>>, size': nat, ghost v': View<P, V>)
    requires Counted(nodes, root, size, v, k) && 1 <= |p| <= k && p in v.nodeAt
    ensures Rooted(nodes', root, v', k)
    ensures size' == size - |PrefixKeys(v.contents, p)|
    ensures v' == ErasedView(v, p, |p| >= 2)
    ensures k >= 2 ==> Counted(nodes', root, size', v', k) && v'.contents == v.contents - PrefixKeys(v.contents, p)
  {
    var node := Lookup(nodes, root, p, v);
    var n := node.value;
    size' := CountDown(nodes, n, p, size, v);
    nodes', v' := ClearAndUnlink(nodes, n, p, v);
    if k >= 2 {
      ErasedKeys(v, p);
      PrefixKeysBound(v.contents, p);
      SubsetCard(PrefixKeys(v.contents, p), v.contents.Keys);
    }
  }

  /** The loop in `erase` that decreases `m_size` once for every pair the
      iterator from `p`'s node yields: by the number of stored keys that
      start with `p`. */
  method CountDown<P(==, !new), V>(nodes: seq<Node<P, V>>, n: nat, p: seq<P>, size: nat, ghost v: View<P, V>)
    returns (size': nat)
    requires Shape(nodes, v) && p in v.nodeAt && n == v.nodeAt[p] && size == |v.contents|
    ensures size' == size - |PrefixKeys(v.contents, p)|
  {
    PrefixKeysBound(v.contents, p);
    var it := new Iterator(nodes, Some(n), p, v);
    size' := size;
    while !it.IsEnd(nodes, v)
      invariant it.Valid(nodes, v)
      invariant size' + |PrefixKeys(v.contents, p)| == size + |it.Remaining(v)|
      decreases |it.Remaining(v)|
    {
      size' := CountOne(nodes, it, size', v);
    }
  }

  /** One turn of the loop in `erase`: `--m_size` and `++it`, so the size
      goes down by one exactly as one key leaves the keys still to visit. */
  method CountOne<P(==, !new), V>(nodes: seq<Node<P, V>>, it: Iterator<P, V>, size: nat, ghost v: View<P, V>)
    returns (size': nat)
    requires it.Valid(nodes, v) && it.paths != [] && size >= |it.Remaining(v)|
    modifies it
    ensures it.Valid(nodes, v)
    ensures |it.Remaining(v)| == old(|it.Remaining(v)|) - 1 && size' == size - 1
  {
    it.Next(nodes, v);
    size' := size - 1;
  }

  /** The rest of `erase`: clear every child map of `p`'s node, then, when
      the node has a parent, remove it from the parent's map for the last
      part of `p`. The trie then holds exactly the prefixes and pairs that
      survive erasing below `p`, and `p` itself goes when it has two or more
      parts. */
  method ClearAndUnlink<P(==, !new), V>(nodes: seq<Node<P, V>>, n: nat, p: seq<P>, ghost v: View<P, V>)
    returns (nodes': seq<Node<P, V>>, ghost v': View<P, V>)
    requires Shape(nodes, v) && ParentLinks(nodes, v.nodeAt) && p in v.nodeAt && n == v.nodeAt[p] && 1 <= |p|
    ensures v' == ErasedView(v, p, |p| >= 2)
    ensures [] in v'.nodeAt && v'.nodeAt[[]] == v.nodeAt[[]]
    ensures Shape(nodes', v') && ParentLinks(nodes', v'.nodeAt)
  {
    assert Reaches(nodes, v, p);
    nodes' := ClearChildMaps(nodes, n);
    ClearedShape(nodes, v, p);
    v' := ErasedView(v, p, false);
    ParentLinksKept(nodes, nodes', v.nodeAt, v'.nodeAt);
    UnlinkStep(nodes', v', p);
    if nodes'[n].parent.Some? {
      var last := |p| - 1;
      nodes' := Unlinked(nodes', nodes'[n].parent.value, last, p[last]);
      UnlinkedAfterCleared(v, p);
      v' := ErasedView(v, p, true);
    }
  }

  /** One more `insert` in the range constructor keeps the first pair of
      each key. */
  lemma FirstWinsStep<P(!new), V>(before: map<seq<P>, V>, after: map<seq<P>, V>, pairs: seq<(seq<P>, V)>)
    requires pairs != [] && FirstWins(before, pairs[..|pairs| - 1])
    requires after == if pairs[|pairs| - 1].0 in before then before
                      else before[pairs[|pairs| - 1].0 := pairs[|pairs| - 1].1]
    ensures FirstWins(after, pairs)
  {
    var i := |pairs| - 1;
    var init := pairs[..i];
    assert forall j | 0 <= j < i :: pairs[j] == init[j];
    forall key | key in after
      ensures exists j :: 0 <= j < |pairs| && pairs[j].0 == key
    {
      if key in before {
        var j :| 0 <= j < i && init[j].0 == key;
        assert pairs[j].0 == key;
      } else {
        assert pairs[i].0 == key;
      }
    }
    forall j | 0 <= j < |pairs|
      ensures pairs[j].0 in after
    {
      if j < i {
        assert init[j].0 == pairs[j].0;
      }
    }
    forall j | 0 <= j < |pairs| && (forall l | 0 <= l < j :: pairs[l].0 != pairs[j].0)
      ensures pairs[j].0 in after && after[pairs[j].0] == pairs[j].1
    {
      if j < i {
        assert init[j] == pairs[j];
        assert forall l | 0 <= l < j :: init[l].0 != init[j].0;
      } else {
        forall l | 0 <= l < i
          ensures init[l].0 != pairs[i].0
        {
          assert init[l] == pairs[l];
        }
        assert pairs[i].0 !in before;
      }
    }
  }

  /** One more pair: the first pair of a key wins over later ones. */
  lemma InsertedNext<P(!new), V>(pairs: seq<(seq<P>, V)>, i: nat)
    requires i < |pairs|
    ensures Inserted(pairs[..i + 1]) == if pairs[i].0 in Inserted(pairs[..i]) then Inserted(pairs[..i])
                                         else Inserted(pairs[..i])[pairs[i].0 := pairs[i].1]
  {
    assert pairs[..i + 1][..i] == pairs[..i];
  }

  /** The map built by `insert`ing the pairs in order is the one where the
      first pair of each key wins. */
  lemma {:induction false} InsertedFirstWins<P(!new), V>(pairs: seq<(seq<P>, V)>)
    ensures FirstWins(Inserted(pairs), pairs)
    decreases |pairs|
  {
    if pairs != [] {
      InsertedFirstWins(pairs[..|pairs| - 1]);
      FirstWinsStep(Inserted(pairs[..|pairs| - 1]), Inserted(pairs), pairs);
    }
  }

  /** Moving one key out of the keys still to visit adds its pair. */
  lemma TakeOneMore<K, V>(m: map<K, V>, rest: set<K>, key: K)
    requires key in m && key in rest
    ensures m - (rest - {key}) == (m - rest)[key := m[key]]
  {
  }

  lemma NothingRemaining<K, V>(m: map<K, V>, rest: set<K>)
    requires rest == {}
    ensures m - rest == m
  {
  }

  lemma AgreesOneMore<K, V>(m: map<K, V>, rest: set<K>, key: K, other: map<K, V>)
    requires Agrees(m - rest, other) && key in m && key in other && other[key] == m[key]
    ensures Agrees(m - (rest - {key}), other)
  {
  }

  /** Two maps of the same size, one of whose pairs all appear in the other,
      are equal. */
  lemma SameSizeSubmap<K, V>(a: map<K, V>, b: map<K, V>)
    requires |a| == |b|
    requires forall key | key in a :: key in b && b[key] == a[key]
    ensures a == b
  {
    SubsetCard(a.Keys, b.Keys);
    assert b.Keys - a.Keys == {};
    assert a.Keys == b.Keys;
  }

  /** With keys of two or more parts, erasing below `p` drops exactly the
      stored keys that start with `p`. */
  lemma ErasedKeys<P(!new), V>(v: View<P, V>, p: seq<P>)
    requires v.k >= 2 && 1 <= |p|
    requires forall key | key in v.contents :: key in v.nodeAt && IsFullKey(v.k, key)
    ensures Restrict(v.contents, Kept(v.nodeAt, p, |p| >= 2)) == v.contents - PrefixKeys(v.contents, p)
  {
    var a := Restrict(v.contents, Kept(v.nodeAt, p, |p| >= 2));
    var b := v.contents - PrefixKeys(v.contents, p);
    forall key | key in v.contents
      ensures key in a <==> key in b
    {
    }
    assert a.Keys == b.Keys;
  }

  /** Erasing the full key `(1, 2)` from a map that stores 7 under it
      leaves `at(1, 2)` throwing `out_of_range`: the pair is erased. */
  method EraseFullKeyDropsPair() returns (r: Result<int, Error>)
    ensures r == Failure(OutOfRange)
  {
    var m := new MultiKeyMap<int, int>(2, 0);
    var inserted := m.Insert([1, 2], 7);
    assert [1, 2] in m.view.nodeAt;
    m.Erase([1, 2]);
    assert PrefixKeys(map[[1, 2] := 7], [1, 2]) == {[1, 2]};
    r := m.At([1, 2]);
  }
}
