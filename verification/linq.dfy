/**
 * The LINQ operators the modelled code relies on, with their .NET semantics:
 * `Distinct`, `Except`, `Where`, and `GroupBy(key).Select(g => g.First())`.
 * All of them stream their input from left to right and keep the FIRST
 * occurrence of every element (or key), in order of first appearance.
 */
module Linq {

  /** The identity function, the key of plain `Distinct`. */
  function Id<T>(x: T): T { x }

  /** `s.Select(f)`: `f` applied to every element of `s`, in order. */
  function Select<T, U>(s: seq<T>, f: T -> U): (r: seq<U>)
    ensures |r| == |s|
    ensures forall i :: 0 <= i < |s| ==> r[i] == f(s[i])
  {
    seq(|s|, i requires 0 <= i < |s| => f(s[i]))
  }

  /** The position of the first element of `s` whose key is `k`. */
  function FirstKeyIndex<T, K(==)>(s: seq<T>, key: T -> K, k: K): (i: nat)
    requires k in Select(s, key)
    ensures i < |s| && key(s[i]) == k
    ensures forall j :: 0 <= j < i ==> key(s[j]) != k
  {
    if key(s[0]) == k then 0
    else
      assert Select(s, key)[1..] == Select(s[1..], key);
      FirstKeyIndex(s[1..], key, k) + 1
  }

  /** The position of the first occurrence of `x` in `s` (`List.IndexOf`). */
  function FirstIndex<T(==)>(s: seq<T>, x: T): (i: nat)
    requires x in s
    ensures i < |s| && s[i] == x
    ensures forall j :: 0 <= j < i ==> s[j] != x
  {
    SelectId(s);
    FirstKeyIndex(s, Id, x)
  }

  lemma SelectId<T>(s: seq<T>)
    ensures Select(s, Id) == s
  {
  }

  /** No element occurs twice. */
  ghost predicate NoDuplicates<T>(s: seq<T>)
  {
    forall i, j :: 0 <= i < j < |s| ==> s[i] != s[j]
  }

  /**
   * The first element of `s` for each distinct key, in order of first
   * appearance. This is `DistinctBy(key)`, and equally
   * `GroupBy(key).Select(g => g.First())`: LINQ's `GroupBy` yields its groups
   * in the order their keys first appear and keeps each group's elements in
   * input order.
   */
  function DistinctBy<T, K(==)>(s: seq<T>, key: T -> K): (r: seq<T>)
  {
    if s == [] then []
    else
      var r := DistinctBy(s[..|s| - 1], key);
      if key(s[|s| - 1]) in Select(r, key) then r else r + [s[|s| - 1]]
  }

  /**
   * `r` holds exactly one element per key of `s`, namely the first element of
   * `s` with that key, ordered by where each key first appears in `s`.
   */
  ghost predicate FirstPerKey<T, K>(s: seq<T>, key: T -> K, r: seq<T>)
  {
    && (forall i, j :: 0 <= i < j < |r| ==> key(r[i]) != key(r[j]))
    && (forall i :: 0 <= i < |s| ==> key(s[i]) in Select(r, key))
    && (forall i :: 0 <= i < |r| ==>
          key(r[i]) in Select(s, key) && r[i] == s[FirstKeyIndex(s, key, key(r[i]))])
    && (forall i, j :: 0 <= i < j < |r| ==>
          key(r[i]) in Select(s, key) && key(r[j]) in Select(s, key) &&
          FirstKeyIndex(s, key, key(r[i])) < FirstKeyIndex(s, key, key(r[j])))
  }

  /** The first element with key `k` is the same in `s` and in any prefix of `s` that has that key. */
  lemma FirstKeyIndexOfPrefix<T, K>(s: seq<T>, key: T -> K, m: nat, k: K)
    requires m <= |s| && k in Select(s[..m], key)
    ensures k in Select(s, key)
    ensures FirstKeyIndex(s, key, k) == FirstKeyIndex(s[..m], key, k)
  {
    var a := FirstKeyIndex(s[..m], key, k);
    assert s[..m][a] == s[a];
    assert Select(s, key)[a] == k;
    forall j | 0 <= j < a
      ensures key(s[j]) != k
    {
      assert s[..m][j] == s[j];
    }
  }

  /** The keys of `s` are the keys of its prefix without the last element, and that element's key. */
  lemma SelectOfPrefix<T, K>(s: seq<T>, key: T -> K)
    requires s != []
    ensures Select(s, key) == Select(s[..|s| - 1], key) + [key(s[|s| - 1])]
  {
  }

  /** A last element whose key was seen before adds nothing. */
  lemma FirstPerKeyKeep<T, K>(s: seq<T>, key: T -> K, r: seq<T>)
    requires s != [] && FirstPerKey(s[..|s| - 1], key, r)
    requires key(s[|s| - 1]) in Select(r, key)
    ensures FirstPerKey(s, key, r)
  {
    var p := s[..|s| - 1];
    SelectOfPrefix(s, key);
    forall i | 0 <= i < |r|
      ensures key(r[i]) in Select(p, key)
      ensures FirstKeyIndex(s, key, key(r[i])) == FirstKeyIndex(p, key, key(r[i]))
    {
      assert Select(r, key)[i] == key(r[i]);
      FirstKeyIndexOfPrefix(s, key, |s| - 1, key(r[i]));
    }
  }

  /** A last element with a new key is kept, after everything kept before it. */
  lemma FirstPerKeyAppend<T, K>(s: seq<T>, key: T -> K, r: seq<T>)
    requires s != [] && FirstPerKey(s[..|s| - 1], key, r)
    requires key(s[|s| - 1]) !in Select(r, key)
    ensures FirstPerKey(s, key, r + [s[|s| - 1]])
  {
    var n := |s|;
    var last := s[n - 1];
    var r' := r + [last];
    assert Select(r', key) == Select(r, key) + [key(last)];
    NewKeyFirstAtEnd(s, key, r);
    KeptKeysStayFirst(s, key, r);
    forall i | 0 <= i < n
      ensures key(s[i]) in Select(r', key)
    {
      if i < n - 1 {
        assert s[..n - 1][i] == s[i];
      }
    }
  }

  /** A key absent from everything before the last element first appears there. */
  lemma NewKeyFirstAtEnd<T, K>(s: seq<T>, key: T -> K, r: seq<T>)
    requires s != [] && FirstPerKey(s[..|s| - 1], key, r)
    requires key(s[|s| - 1]) !in Select(r, key)
    ensures key(s[|s| - 1]) in Select(s, key)
    ensures FirstKeyIndex(s, key, key(s[|s| - 1])) == |s| - 1
  {
    var p := s[..|s| - 1];
    var last := s[|s| - 1];
    SelectOfPrefix(s, key);
    forall f | 0 <= f < |s| - 1
      ensures key(s[f]) != key(last)
    {
      assert Select(p, key)[f] == key(s[f]);
    }
  }

  /** The keys kept from the prefix keep their first positions, all before the last element. */
  lemma KeptKeysStayFirst<T, K>(s: seq<T>, key: T -> K, r: seq<T>)
    requires s != [] && FirstPerKey(s[..|s| - 1], key, r)
    requires key(s[|s| - 1]) !in Select(r, key)
    ensures forall i :: 0 <= i < |r| ==>
              key(r[i]) in Select(s, key) && key(r[i]) != key(s[|s| - 1]) &&
              FirstKeyIndex(s, key, key(r[i])) == FirstKeyIndex(s[..|s| - 1], key, key(r[i])) < |s| - 1
  {
    var p := s[..|s| - 1];
    forall i | 0 <= i < |r|
      ensures key(r[i]) in Select(s, key) && key(r[i]) != key(s[|s| - 1])
      ensures FirstKeyIndex(s, key, key(r[i])) == FirstKeyIndex(p, key, key(r[i])) < |s| - 1
    {
      assert Select(r, key)[i] == key(r[i]);
      FirstKeyIndexOfPrefix(s, key, |s| - 1, key(r[i]));
    }
  }

  lemma {:induction false} DistinctByIsFirstPerKey<T, K>(s: seq<T>, key: T -> K)
    ensures FirstPerKey(s, key, DistinctBy(s, key))
    decreases |s|
  {
    if s != [] {
      var p := s[..|s| - 1];
      DistinctByIsFirstPerKey(p, key);
      if key(s[|s| - 1]) in Select(DistinctBy(p, key), key) {
        FirstPerKeyKeep(s, key, DistinctBy(p, key));
      } else {
        FirstPerKeyAppend(s, key, DistinctBy(p, key));
      }
    }
  }

  /** `s.Distinct()`: the elements of `s` without repetitions, in order of first occurrence. */
  function Distinct<T(==)>(s: seq<T>): (r: seq<T>)
  {
    DistinctBy(s, Id)
  }

  lemma DistinctSpec<T>(s: seq<T>)
    ensures NoDuplicates(Distinct(s))
    ensures forall i :: 0 <= i < |s| ==> s[i] in Distinct(s)
    ensures forall i :: 0 <= i < |Distinct(s)| ==> Distinct(s)[i] in s
    ensures forall i, j :: 0 <= i < j < |Distinct(s)| ==>
              FirstIndex(s, Distinct(s)[i]) < FirstIndex(s, Distinct(s)[j])
  {
    var r := Distinct(s);
    DistinctByIsFirstPerKey(s, Id);
    SelectId(s);
    SelectId(r);
  }

  lemma {:induction false} DistinctOfNoDuplicates<T>(s: seq<T>)
    requires NoDuplicates(s)
    ensures Distinct(s) == s
    decreases |s|
  {
    if s != [] {
      var p := s[..|s| - 1];
      DistinctOfNoDuplicates(p);
      SelectId(p);
      assert s == p + [s[|s| - 1]];
    }
  }

  /** `s.Where(p)`: the elements of `s` that satisfy `p`, in order. */
  function Where<T>(s: seq<T>, p: T -> bool): (r: seq<T>)
  {
    if s == [] then []
    else Where(s[..|s| - 1], p) + (if p(s[|s| - 1]) then [s[|s| - 1]] else [])
  }

  /**
   * The positions in `s` of the elements `Where(s, p)` keeps: every position
   * whose element satisfies `p`, strictly increasing, so `Where` keeps every
   * match, repetitions included, in the input order.
   */
  ghost function WherePositions<T>(s: seq<T>, p: T -> bool): (pos: seq<nat>)
    ensures |pos| == |Where(s, p)|
    ensures forall i :: 0 <= i < |pos| ==> pos[i] < |s| && Where(s, p)[i] == s[pos[i]]
    ensures forall i, j :: 0 <= i < j < |pos| ==> pos[i] < pos[j]
    ensures forall i :: 0 <= i < |s| && p(s[i]) ==> i in pos
    decreases |s|
  {
    if s == [] then []
    else
      var prefix := s[..|s| - 1];
      var pos := WherePositions(prefix, p);
      assert forall i :: 0 <= i < |prefix| ==> prefix[i] == s[i];
      assert Where(s, p) == Where(prefix, p) + (if p(s[|s| - 1]) then [s[|s| - 1]] else []);
      if p(s[|s| - 1]) then pos + [|s| - 1] else pos
  }

  lemma {:induction false} WhereSpec<T>(s: seq<T>, p: T -> bool)
    ensures forall i :: 0 <= i < |Where(s, p)| ==> Where(s, p)[i] in s && p(Where(s, p)[i])
    ensures forall i :: 0 <= i < |s| && p(s[i]) ==> s[i] in Where(s, p)
    ensures (forall i :: 0 <= i < |s| ==> !p(s[i])) ==> Where(s, p) == []
    decreases |s|
  {
    if s != [] {
      var prefix := s[..|s| - 1];
      WhereSpec(prefix, p);
      assert s == prefix + [s[|s| - 1]];
    }
  }

  /** Everything in `s.Where(p).Select(f)` is the image under `f` of an element that satisfies `p`. */
  lemma SelectWhereSound<T, U>(s: seq<T>, p: T -> bool, f: T -> U)
    ensures forall k :: 0 <= k < |Select(Where(s, p), f)| ==>
              exists i :: 0 <= i < |s| && p(s[i]) && f(s[i]) == Select(Where(s, p), f)[k]
  {
    var kept := Where(s, p);
    var pos := WherePositions(s, p);
    WhereSpec(s, p);
    var images := Select(kept, f);
    forall k | 0 <= k < |images|
      ensures exists i :: 0 <= i < |s| && p(s[i]) && f(s[i]) == images[k]
    {
      var i := pos[k];
      assert s[i] == kept[k] && p(s[i]);
      assert images[k] == f(s[i]);
    }
  }

  /** The image under `f` of every element that satisfies `p` is in `s.Where(p).Select(f)`. */
  lemma SelectWhereComplete<T, U>(s: seq<T>, p: T -> bool, f: T -> U)
    ensures forall i :: 0 <= i < |s| && p(s[i]) ==> f(s[i]) in Select(Where(s, p), f)
  {
    var kept := Where(s, p);
    WhereSpec(s, p);
    forall i | 0 <= i < |s| && p(s[i])
      ensures f(s[i]) in Select(kept, f)
    {
      var k :| 0 <= k < |kept| && kept[k] == s[i];
      assert Select(kept, f)[k] == f(s[i]);
    }
  }

  /** A filter every element passes keeps the whole sequence. */
  lemma {:induction false} WhereOfAll<T>(s: seq<T>, p: T -> bool)
    requires forall i :: 0 <= i < |s| ==> p(s[i])
    ensures Where(s, p) == s
    decreases |s|
  {
    if s != [] {
      var prefix := s[..|s| - 1];
      WhereOfAll(prefix, p);
      assert s == prefix + [s[|s| - 1]];
    }
  }

  lemma {:induction false} WhereKeepsNoDuplicates<T>(s: seq<T>, p: T -> bool)
    requires NoDuplicates(s)
    ensures NoDuplicates(Where(s, p))
  {
    var pos := WherePositions(s, p);
  }

  /**
   * `first.Except(second)`: the elements of `first` that are not in `second`,
   * each once, in order of first occurrence (LINQ's `Except` is a set
   * operation and drops repetitions of `first` as well).
   */
  function Except<T(==)>(first: seq<T>, second: seq<T>): (r: seq<T>)
  {
    Distinct(Where(first, NotIn(second)))
  }

  /** The filter `x => !second.Contains(x)` that `Except` applies. */
  function NotIn<T(==)>(second: seq<T>): T -> bool
  {
    x => x !in second
  }

  /**
   * `first.Except(second)` holds no repetitions, holds exactly the elements of
   * `first` that are not in `second`, and keeps them in order of their first
   * occurrence in `first`.
   */
  lemma ExceptSpec<T>(first: seq<T>, second: seq<T>)
    ensures NoDuplicates(Except(first, second))
    ensures forall i :: 0 <= i < |Except(first, second)| ==>
              Except(first, second)[i] in first && Except(first, second)[i] !in second
    ensures forall i :: 0 <= i < |first| && first[i] !in second ==> first[i] in Except(first, second)
    ensures forall i, j :: 0 <= i < j < |Except(first, second)| ==>
              FirstIndex(first, Except(first, second)[i]) < FirstIndex(first, Except(first, second)[j])
  {
    DistinctSpec(Where(first, NotIn(second)));
    ExceptMembership(first, second);
    ExceptInOrder(first, second);
  }

  lemma ExceptMembership<T>(first: seq<T>, second: seq<T>)
    ensures forall i :: 0 <= i < |Except(first, second)| ==>
              Except(first, second)[i] in first && Except(first, second)[i] !in second
    ensures forall i :: 0 <= i < |first| && first[i] !in second ==> first[i] in Except(first, second)
  {
    var w := Where(first, NotIn(second));
    var r := Distinct(w);
    DistinctSpec(w);
    WhereSpec(first, NotIn(second));
    forall i | 0 <= i < |first| && first[i] !in second
      ensures first[i] in r
    {
      var k :| 0 <= k < |w| && w[k] == first[i];
    }
  }

  lemma ExceptInOrder<T>(first: seq<T>, second: seq<T>)
    ensures forall i :: 0 <= i < |Except(first, second)| ==> Except(first, second)[i] in first
    ensures forall i, j :: 0 <= i < j < |Except(first, second)| ==>
              FirstIndex(first, Except(first, second)[i]) < FirstIndex(first, Except(first, second)[j])
  {
    var w := Where(first, NotIn(second));
    var r := Distinct(w);
    DistinctSpec(w);
    var pos := WherePositions(first, NotIn(second));
    forall i | 0 <= i < |r|
      ensures r[i] in first
    {
      FirstIndexThroughWhere(first, NotIn(second), r[i]);
    }
    forall i, j | 0 <= i < j < |r|
      ensures FirstIndex(first, r[i]) < FirstIndex(first, r[j])
    {
      FirstIndexThroughWhere(first, NotIn(second), r[i]);
      FirstIndexThroughWhere(first, NotIn(second), r[j]);
    }
  }

  /**
   * A filter keeps or drops every occurrence of a value alike, so the first
   * occurrence of a kept value in `s` is the one `Where` kept first.
   */
  lemma FirstIndexThroughWhere<T>(s: seq<T>, p: T -> bool, x: T)
    requires x in Where(s, p)
    ensures x in s
    ensures FirstIndex(s, x) == WherePositions(s, p)[FirstIndex(Where(s, p), x)]
  {
    var w := Where(s, p);
    var pos := WherePositions(s, p);
    var a := FirstIndex(w, x);
    WhereSpec(s, p);
    assert p(w[a]);
    assert s[pos[a]] == x;
    forall j | 0 <= j < pos[a] && p(s[j])
      ensures s[j] != x
    {
      assert j in pos;
      var b :| 0 <= b < |pos| && pos[b] == j;
      IncreasingPositions(pos, b, a);
      assert w[b] == s[j];
    }
    assert forall j :: 0 <= j < pos[a] ==> s[j] != x;
  }

  /** In a strictly increasing sequence a smaller entry sits at an earlier index. */
  lemma IncreasingPositions(pos: seq<nat>, b: nat, a: nat)
    requires forall i, j :: 0 <= i < j < |pos| ==> pos[i] < pos[j]
    requires b < |pos| && a < |pos| && pos[b] < pos[a]
    ensures b < a
  {
  }
}
