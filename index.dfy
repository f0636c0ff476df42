/**
 * Compile-time helpers of the multi-key map (inc/Index.h, and the copies in
 * the `detail` namespace of inc/MultiKeyMap.h).
 *
 * A C++ type pack becomes a sequence of type tags and a tuple becomes a
 * sequence of values; the recursion over the pack becomes recursion over the
 * sequence.
 */
module Index {

  /** A type as named at a use site: a base type plus the qualifiers that
      `RemoveCVRef` strips (const, volatile, reference). */
  datatype QualifiedType<T> = QualifiedType(base: T, isConst: bool, isVolatile: bool, isReference: bool)

  /** `RemoveCVRef_t<T>`: the type without its qualifiers. */
  function RemoveCVRef<T>(t: QualifiedType<T>): T
  {
    t.base
  }

  /** `IndexImpl<T, Ts...>`: the position of the first element of `ts` that is
      `t`. There is no base case for an empty pack, so the index is only
      defined when `t` occurs in `ts`. */
  function IndexOf<T(==)>(t: T, ts: seq<T>): (r: nat)
    requires t in ts
    ensures r < |ts| && ts[r] == t
    ensures forall j :: 0 <= j < r ==> ts[j] != t
  {
    if ts[0] == t then 0 else 1 + IndexOf(t, ts[1..])
  }

  /** `getIndexOfType<T, Ts...>()`: the first position of `T` in `Ts`, after
      the qualifiers of `T` are removed. */
  function GetIndexOfType<T(==)>(t: QualifiedType<T>, ts: seq<T>): (r: nat)
    requires RemoveCVRef(t) in ts
    ensures r < |ts| && ts[r] == t.base
    ensures forall j :: 0 <= j < r ==> ts[j] != t.base
  {
    IndexOf(RemoveCVRef(t), ts)
  }

  /** Qualifiers never change the index: `const int` and `int` find the
      same position. */
  lemma {:induction false} QualifiersIgnored<T>(t: QualifiedType<T>, u: QualifiedType<T>, ts: seq<T>)
    requires t.base == u.base && t.base in ts
    ensures GetIndexOfType(t, ts) == GetIndexOfType(u, ts)
  {
  }

  /** When every element of a pack is distinct, the first occurrence of the
      element at position `i` is `i` itself. */
  lemma {:induction false} IndexOfDistinct<T>(ts: seq<T>, i: nat)
    requires i < |ts|
    requires forall a, b :: 0 <= a < b < |ts| ==> ts[a] != ts[b]
    ensures IndexOf(ts[i], ts) == i
  {
    var r := IndexOf(ts[i], ts);
    assert ts[r] == ts[i];
  }

  /** Type tags for the examples used in the repository's own index test. */
  datatype BuiltinType = Int | Float | Char

  /** In `<int, float, char, int>`: `int` and `const int` are found at 0
      (the first of the two `int`s), `float` at 1 and `char` at 2. */
  lemma GetIndexOfTypeExamples()
    ensures GetIndexOfType(QualifiedType(Int, false, false, false), [Int, Float, Char, Int]) == 0
    ensures GetIndexOfType(QualifiedType(Int, true, false, false), [Int, Float, Char, Int]) == 0
    ensures GetIndexOfType(QualifiedType(Float, false, false, false), [Int, Float, Char, Int]) == 1
    ensures GetIndexOfType(QualifiedType(Char, false, false, false), [Int, Float, Char, Int]) == 2
  {
  }

  /** `forEach(tuple, f)`: calls `f` on every element of the tuple, left to
      right. The result is the sequence of call results, in call order. */
  function ForEach<E, R>(t: seq<E>, f: E -> R): (calls: seq<R>)
    ensures |calls| == |t|
    ensures forall i :: 0 <= i < |t| ==> calls[i] == f(t[i])
  {
    if t == [] then [] else [f(t[0])] + ForEach(t[1..], f)
  }

  /** `RemoveType<T, Ts...>`: the concatenation, element by element, of an
      empty tuple where the element is `t` and a one-element tuple otherwise. */
  function RemoveType<T(==,!new)>(t: T, ts: seq<T>): (r: seq<T>)
    ensures forall x :: x in r <==> x in ts && x != t
    ensures forall x :: multiset(r)[x] == if x == t then 0 else multiset(ts)[x]
  {
    if ts == [] then []
    else
      assert ts == [ts[0]] + ts[1..];
      (if ts[0] == t then [] else [ts[0]]) + RemoveType(t, ts[1..])
  }

  /** `RemoveType` keeps the original order: filtering a concatenation is
      the concatenation of the filtered parts. */
  lemma {:induction false} RemoveTypeAppend<T(!new)>(t: T, a: seq<T>, b: seq<T>)
    ensures RemoveType(t, a + b) == RemoveType(t, a) + RemoveType(t, b)
  {
    if a == [] {
      assert a + b == b;
    } else {
      assert (a + b)[0] == a[0] && (a + b)[1..] == a[1..] + b;
      RemoveTypeAppend(t, a[1..], b);
    }
  }

  /** `tupleTail<I>(t)`: the indices `0 .. |t| - I` shifted up by `I`. */
  function TupleTail<T>(t: seq<T>, i: nat): (r: seq<T>)
    requires i <= |t|
    ensures r == t[i..]
  {
    seq(|t| - i, j requires 0 <= j < |t| - i => t[j + i])
  }

  /** `tupleHead<I>(t)`: the first `|t| - I - 1` elements (the index
      sequence has `sizeof...(Ts) - I - 1` entries). */
  function TupleHead<T>(t: seq<T>, i: nat): (r: seq<T>)
    requires i + 1 <= |t|
    ensures r == t[..|t| - i - 1]
  {
    seq(|t| - i - 1, j requires 0 <= j < |t| - i - 1 => t[j])
  }

  /** `splitTuple<I>(t)` as written: `(tupleHead<I + 1>(t), tupleTail<I>(t))`,
      of lengths `|t| - I - 2` and `|t| - I`. */
  function SplitTuple<T>(t: seq<T>, i: nat): (r: (seq<T>, seq<T>))
    requires i + 2 <= |t|
    ensures |r.0| == |t| - i - 2 && |r.1| == |t| - i
    ensures r.0 == t[..|t| - i - 2] && r.1 == t[i..]
  {
    (TupleHead(t, i + 1), TupleTail(t, i))
  }

  /** The repository's own split test: a 6-tuple split at 2 gives a 2-element
      head and a 4-element tail, and `tupleHead<2>` of it has 3 elements. */
  lemma SplitTupleSixAtTwo()
    ensures TupleHead([0, 1, 2, 3, 4, 5], 2) == [0, 1, 2]
    ensures TupleTail([0, 1, 2, 3, 4, 5], 2) == [2, 3, 4, 5]
    ensures SplitTuple([0, 1, 2, 3, 4, 5], 2) == ([0, 1], [2, 3, 4, 5])
  {
    var t := [0, 1, 2, 3, 4, 5];
    assert t[..3] == [0, 1, 2] && t[..2] == [0, 1] && t[2..] == [2, 3, 4, 5];
  }

  /** With seven elements the as-written split at 2 puts element 2 in both
      halves, the duplication the split is meant to avoid. */
  lemma SplitTupleSevenDuplicates()
    ensures SplitTuple([0, 1, 2, 3, 4, 5, 6], 2) == ([0, 1, 2], [2, 3, 4, 5, 6])
    ensures SplitTuple([0, 1, 2, 3, 4, 5, 6], 2).0 + SplitTuple([0, 1, 2, 3, 4, 5, 6], 2).1
         != [0, 1, 2, 3, 4, 5, 6]
  {
    var t := [0, 1, 2, 3, 4, 5, 6];
    assert t[..3] == [0, 1, 2] && t[2..] == [2, 3, 4, 5, 6];
    var s := SplitTuple(t, 2);
    assert |s.0 + s.1| == 8;
  }

  /** The split the comment in `splitTuple` describes: everything before
      position `i`, then everything from `i` on. */
  function SplitTupleAt<T>(t: seq<T>, i: nat): (r: (seq<T>, seq<T>))
    requires i <= |t|
    ensures |r.0| == i && |r.1| == |t| - i
    ensures r.0 + r.1 == t
  {
    (seq(i, j requires 0 <= j < i => t[j]), TupleTail(t, i))
  }
}
