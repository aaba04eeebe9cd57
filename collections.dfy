/** Sequence operations of the Kotlin standard library that the client code
    relies on (`filter`, `indexOf`, `remove`, `firstOrNull`), each with the
    property that characterises it independently of how it is computed. */
module Collections {

  datatype Option<+T> = None | Some(value: T)

  /** `a` can be obtained from `b` by deleting elements: order is kept. */
  predicate IsSubsequence<T(==)>(a: seq<T>, b: seq<T>)
    decreases |b|
  {
    if a == [] then true
    else if b == [] then false
    else (a[0] == b[0] && IsSubsequence(a[1..], b[1..])) || IsSubsequence(a, b[1..])
  }

  /** No element occurs twice. */
  predicate NoDuplicates<T(==)>(s: seq<T>)
  {
    forall i, j | 0 <= i < j < |s| :: s[i] != s[j]
  }

  /** Kotlin's `filter { p(it) }`: the elements satisfying `p`, in their original order.
      Being a subsequence with exactly the multiplicities of the kept elements
      determines the result uniquely. */
  function Filter<T(==)>(s: seq<T>, p: T -> bool): (r: seq<T>)
    ensures IsSubsequence(r, s)
    ensures forall x | x in r :: p(x) && x in s
    ensures forall x | x in s :: multiset(r)[x] == if p(x) then multiset(s)[x] else 0
  {
    if s == [] then []
    else
      var rest := Filter(s[1..], p);
      assert s == [s[0]] + s[1..];
      if p(s[0]) then
        assert ([s[0]] + rest)[1..] == rest;
        [s[0]] + rest
      else rest
  }

  /** Kotlin's `indexOf`: the first index holding `x`, or -1. */
  function IndexOf<T(==)>(s: seq<T>, x: T): (r: int)
    ensures -1 <= r < |s|
    ensures r == -1 <==> x !in s
    ensures 0 <= r ==> s[r] == x && x !in s[..r]
  {
    if s == [] then -1
    else if s[0] == x then 0
    else
      var k := IndexOf(s[1..], x);
      if k == -1 then -1
      else
        assert s[..k + 1] == [s[0]] + s[1..][..k];
        k + 1
  }

  /** In a sequence without duplicates, `indexOf` finds each position back. */
  lemma IndexOfDistinct<T>(s: seq<T>, i: int)
    requires NoDuplicates(s)
    requires 0 <= i < |s|
    ensures IndexOf(s, s[i]) == i
  {
  }

  /** Kotlin's `MutableList.remove(x)`: drop the first occurrence of `x`, if any. */
  function RemoveFirst<T(==)>(s: seq<T>, x: T): (r: seq<T>)
    ensures x in s ==> multiset(r) == multiset(s) - multiset{x}
    ensures x !in s ==> r == s
    ensures IsSubsequence(r, s)
  {
    if s == [] then []
    else if s[0] == x then
      assert s == [s[0]] + s[1..];
      SkipHeadIsSubsequence(s);
      s[1..]
    else
      var rest := RemoveFirst(s[1..], x);
      assert s == [s[0]] + s[1..];
      assert ([s[0]] + rest)[1..] == rest;
      [s[0]] + rest
  }

  lemma SkipHeadIsSubsequence<T>(s: seq<T>)
    requires s != []
    ensures IsSubsequence(s[1..], s)
  {
    IsSubsequenceReflexive(s[1..]);
  }

  lemma {:induction false} IsSubsequenceReflexive<T>(s: seq<T>)
    ensures IsSubsequence(s, s)
  {
    if s != [] {
      IsSubsequenceReflexive(s[1..]);
    }
  }

  /** Every element of a subsequence occurs in the sequence it was taken from. */
  lemma {:induction false} SubsequenceMembers<T>(a: seq<T>, b: seq<T>)
    requires IsSubsequence(a, b)
    ensures forall x | x in a :: x in b
    decreases |b|
  {
    if a != [] {
      if a[0] == b[0] && IsSubsequence(a[1..], b[1..]) {
        SubsequenceMembers(a[1..], b[1..]);
        assert a == [a[0]] + a[1..];
      } else {
        SubsequenceMembers(a, b[1..]);
      }
    }
  }

  /** Dropping an element from a duplicate-free sequence keeps it duplicate-free. */
  lemma {:induction false} SubsequenceNoDuplicates<T>(a: seq<T>, b: seq<T>)
    requires IsSubsequence(a, b) && NoDuplicates(b)
    ensures NoDuplicates(a)
    decreases |b|
  {
    if a != [] {
      if a[0] == b[0] && IsSubsequence(a[1..], b[1..]) {
        SubsequenceNoDuplicates(a[1..], b[1..]);
        SubsequenceMembers(a[1..], b[1..]);
        forall i, j | 0 <= i < j < |a| ensures a[i] != a[j] {
          if i == 0 {
            assert a[j] == a[1..][j - 1];
            assert a[j] in b[1..];
          } else {
            assert a[i] == a[1..][i - 1] && a[j] == a[1..][j - 1];
          }
        }
      } else {
        SubsequenceNoDuplicates(a, b[1..]);
      }
    }
  }

  lemma NoDuplicatesMultiplicity<T>(s: seq<T>, x: T)
    requires NoDuplicates(s)
    ensures multiset(s)[x] <= 1
  {
    if s != [] {
      assert s == [s[0]] + s[1..];
      assert NoDuplicates(s[1..]) by {
        forall i, j | 0 <= i < j < |s[1..]| ensures s[1..][i] != s[1..][j] {
          assert s[1..][i] == s[i + 1] && s[1..][j] == s[j + 1];
        }
      }
      NoDuplicatesMultiplicity(s[1..], x);
      if s[0] == x {
        forall k | 0 <= k < |s[1..]| ensures s[1..][k] != x {
          assert s[1..][k] == s[k + 1];
        }
      }
    }
  }

  /** A permutation of a duplicate-free sequence is duplicate-free. */
  lemma PermutationNoDuplicates<T>(a: seq<T>, b: seq<T>)
    requires multiset(a) == multiset(b) && NoDuplicates(a)
    ensures NoDuplicates(b)
  {
    forall i, j | 0 <= i < j < |b| ensures b[i] != b[j] {
      if b[i] == b[j] {
        assert b == b[..j] + b[j..];
        assert b[i] in b[..j] && b[j] in b[j..];
        assert multiset(b)[b[i]] == multiset(b[..j])[b[i]] + multiset(b[j..])[b[i]];
        NoDuplicatesMultiplicity(a, b[i]);
        assert false;
      }
    }
  }

  /** Removing a matching element from two permutations leaves permutations. */
  lemma RemoveMatching<T>(s: seq<T>, t: seq<T>, i: int)
    requires multiset(s) == multiset(t) && s != [] && 0 <= i < |t| && t[i] == s[0]
    ensures multiset(s[1..]) == multiset(t[..i] + t[i + 1..])
  {
    assert s == [s[0]] + s[1..];
    assert t == t[..i] + [t[i]] + t[i + 1..];
    var rest := t[..i] + t[i + 1..];
    assert multiset(s) == multiset{s[0]} + multiset(s[1..]);
    assert multiset(t) == multiset{s[0]} + multiset(rest);
    forall y ensures multiset(s[1..])[y] == multiset(rest)[y] {
      assert multiset(s)[y] == multiset(t)[y];
    }
  }

  /** `maxOf { key(it) }` of a non-empty sequence: a key that occurs and
      bounds every key. */
  function MaxOfKey<T>(s: seq<T>, key: T -> int): (m: int)
    requires s != []
    ensures exists x | x in s :: key(x) == m
    ensures forall x | x in s :: key(x) <= m
  {
    if |s| == 1 then key(s[0])
    else
      var rest := MaxOfKey(s[1..], key);
      assert s == [s[0]] + s[1..];
      if key(s[0]) >= rest then key(s[0]) else rest
  }

  /** `map { f(it) }`. */
  function MapSeq<T, U>(f: T -> U, s: seq<T>): (r: seq<U>)
    ensures |r| == |s| && forall i | 0 <= i < |s| :: r[i] == f(s[i])
  {
    if s == [] then [] else [f(s[0])] + MapSeq(f, s[1..])
  }

  lemma {:induction false} MapSeqAppend<T, U>(f: T -> U, a: seq<T>, b: seq<T>)
    ensures MapSeq(f, a + b) == MapSeq(f, a) + MapSeq(f, b)
  {
    var l, r := MapSeq(f, a + b), MapSeq(f, a) + MapSeq(f, b);
    assert |l| == |r|;
    forall k | 0 <= k < |l| ensures l[k] == r[k] {
      if k < |a| {
        assert (a + b)[k] == a[k];
      } else {
        assert (a + b)[k] == b[k - |a|];
      }
    }
  }

  lemma MapSeqSplit<T, U>(f: T -> U, t: seq<T>, i: int)
    requires 0 <= i < |t|
    ensures multiset(MapSeq(f, t)) == multiset{f(t[i])} + multiset(MapSeq(f, t[..i] + t[i + 1..]))
  {
    SplitAround(t, i);
    MapSeqAround(f, t[..i], t[i], t[i + 1..]);
  }

  lemma SplitAround<T>(t: seq<T>, i: int)
    requires 0 <= i < |t|
    ensures t == t[..i] + ([t[i]] + t[i + 1..])
  {
  }

  /** The mapped sequence around one element. */
  lemma MapSeqAround<T, U>(f: T -> U, u: seq<T>, x: T, v: seq<T>)
    ensures multiset(MapSeq(f, u + ([x] + v))) == multiset{f(x)} + multiset(MapSeq(f, u + v))
  {
    MapSeqCons(f, x, v);
    MapSeqAppend(f, u, [x] + v);
    MapSeqAppend(f, u, v);
    MultisetOfThree(MapSeq(f, u), f(x), MapSeq(f, v));
  }

  lemma MapSeqCons<T, U>(f: T -> U, x: T, v: seq<T>)
    ensures MapSeq(f, [x] + v) == [f(x)] + MapSeq(f, v)
  {
    assert ([x] + v)[1..] == v;
  }

  lemma MultisetOfThree<U>(x: seq<U>, a: U, y: seq<U>)
    ensures multiset(x + ([a] + y)) == multiset{a} + multiset(x + y)
  {
  }

  /** Mapping takes permutations to permutations. */
  lemma {:induction false} MapSeqPermutation<T, U>(f: T -> U, s: seq<T>, t: seq<T>)
    requires multiset(s) == multiset(t)
    ensures multiset(MapSeq(f, s)) == multiset(MapSeq(f, t))
    decreases |s|
  {
    if s != [] {
      assert s[0] in multiset(t);
      var i :| 0 <= i < |t| && t[i] == s[0];
      RemoveMatching(s, t, i);
      MapSeqPermutation(f, s[1..], t[..i] + t[i + 1..]);
      assert multiset(MapSeq(f, s)) == multiset{f(s[0])} + multiset(MapSeq(f, s[1..]));
      MapSeqSplit(f, t, i);
    }
  }
}
