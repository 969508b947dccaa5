/** Sequence helpers: distinctness, `splice(indexOf(x), 1)`, and the insertion-order
    bookkeeping of a JavaScript Map or Set. */
module Seqs {

  ghost predicate Distinct<T>(s: seq<T>) {
    forall i, j :: 0 <= i < j < |s| ==> s[i] != s[j]
  }

  /** `s.splice(s.indexOf(x), 1)` guarded by `indexOf >= 0`: drops the first occurrence of x. */
  function RemoveFirst<T(==)>(s: seq<T>, x: T): (r: seq<T>)
    ensures x !in s ==> r == s
    ensures x in s ==> |r| == |s| - 1
    ensures forall y :: y in r ==> y in s
    ensures forall y :: y in s && y != x ==> y in r
    ensures Distinct(s) ==> Distinct(r) && x !in r
  {
    if s == [] then []
    else if s[0] == x then s[1..]
    else
      assert Distinct(s) ==> Distinct(s[1..]) && s[0] !in s[1..];
      [s[0]] + RemoveFirst(s[1..], x)
  }

  /** The key order after `m.set(k, v)` or `set.add(k)`: a new key goes last, an existing key keeps its place. */
  function PutOrder<K>(order: seq<K>, present: bool, k: K): seq<K> {
    if present then order else order + [k]
  }

  /** The sequence with every element of R dropped, order kept. */
  function Without<T(==,!new)>(s: seq<T>, R: set<T>): (r: seq<T>)
    ensures forall y :: y in r <==> y in s && y !in R
    ensures Distinct(s) ==> Distinct(r)
    ensures |r| <= |s|
  {
    if s == [] then []
    else if s[0] in R then Without(s[1..], R)
    else [s[0]] + Without(s[1..], R)
  }

  /** The largest of base and the elements of s. */
  function MaxOf(base: int, s: seq<int>): (r: int)
    ensures r >= base
    ensures forall i :: 0 <= i < |s| ==> s[i] <= r
    ensures r == base || r in s
    decreases |s|
  {
    if s == [] then base
    else MaxOf(if s[0] > base then s[0] else base, s[1..])
  }

  /** The set of elements of a sequence. */
  function Elems<T>(s: seq<T>): set<T> {
    set y | y in s
  }

  lemma DistinctAppend<T>(s: seq<T>, x: T)
    requires Distinct(s) && x !in s
    ensures Distinct(s + [x])
  {
  }

  /** A sequence with no members is empty. */
  lemma NoMembersEmpty<T>(s: seq<T>)
    ensures (forall k :: k !in s) ==> s == []
  {
    if |s| > 0 {
      assert s[0] in s;
    }
  }

  /** Splitting off the head of a repetition-free sequence. */
  lemma ElemsCons<T>(s: seq<T>)
    requires s != [] && Distinct(s)
    ensures Elems(s) == {s[0]} + Elems(s[1..])
    ensures Distinct(s[1..]) && s[0] !in s[1..]
    ensures forall y :: y in s[1..] ==> y in s
  {
    assert s == [s[0]] + s[1..];
  }

  lemma DistinctConcat<T>(a: seq<T>, b: seq<T>)
    requires Distinct(a) && Distinct(b) && forall y :: y in a ==> y !in b
    ensures Distinct(a + b)
  {
    forall i, j | 0 <= i < j < |a + b| ensures (a + b)[i] != (a + b)[j] {
      if j < |a| {
        assert (a + b)[i] == a[i] && (a + b)[j] == a[j];
      } else if i < |a| {
        assert (a + b)[i] == a[i] && (a + b)[j] == b[j - |a|];
        assert b[j - |a|] in b;
      } else {
        assert (a + b)[i] == b[i - |a|] && (a + b)[j] == b[j - |a|];
      }
    }
  }

  /** The values of the keys of `order` that are in the map, in that order: a traversal of a
      JavaScript Map whose insertion order is `order`. */
  function InOrder<K, V>(m: map<K, V>, order: seq<K>): (r: seq<V>)
    ensures |r| <= |order|
    ensures (forall k :: k in order ==> k in m) ==>
      |r| == |order| && forall i :: 0 <= i < |order| ==> r[i] == m[order[i]]
    decreases |order|
  {
    if order == [] then []
    else if order[0] in m then [m[order[0]]] + InOrder(m, order[1..])
    else InOrder(m, order[1..])
  }

  /** When every key of `order` is in the map, the traversal has one value per key. */
  lemma InOrderAll<K, V>(m: map<K, V>, order: seq<K>)
    requires forall i :: 0 <= i < |order| ==> order[i] in m
    ensures |InOrder(m, order)| == |order|
    ensures forall i :: 0 <= i < |order| ==> InOrder(m, order)[i] == m[order[i]]
  {
    forall k | k in order ensures k in m {
      var i :| 0 <= i < |order| && order[i] == k;
    }
  }

  lemma ElemsAre<T>(s: seq<T>, S: set<T>)
    requires forall k :: k in s <==> k in S
    ensures Elems(s) == S
  {
  }

  /** Dropping one more element that the sequence does not hold changes nothing. */
  lemma {:induction false} WithoutAbsent<T(!new)>(s: seq<T>, D: set<T>, x: T)
    requires x !in s
    ensures Without(s, D + {x}) == Without(s, D)
    decreases |s|
  {
    if s != [] {
      assert x !in s[1..];
      WithoutAbsent(s[1..], D, x);
    }
  }

  /** Removing the first occurrence of x from s without D is dropping x along with D. */
  lemma {:induction false} WithoutRemove<T(!new)>(s: seq<T>, D: set<T>, x: T)
    requires Distinct(s) && x in s && x !in D
    ensures RemoveFirst(Without(s, D), x) == Without(s, D + {x})
    decreases |s|
  {
    assert Distinct(s[1..]);
    if s[0] == x {
      assert x !in s[1..];
      WithoutAbsent(s[1..], D, x);
    } else if s[0] in D {
      WithoutRemove(s[1..], D, x);
    } else {
      var w := Without(s[1..], D);
      assert ([s[0]] + w)[1..] == w;
      WithoutRemove(s[1..], D, x);
    }
  }

  lemma WithoutNothing<T(!new)>(s: seq<T>)
    ensures Without(s, {}) == s
  {
    if s != [] {
      assert s == [s[0]] + s[1..];
    }
  }
}
