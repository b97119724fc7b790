/** Generic sequence operations shared by the recency list, the hosted
    children of the content panel and the editable tab list.  They model the
    .NET List / LinkedList operations the application uses. */
module Seqs {

  /** No element occurs twice. */
  predicate Distinct<T(==)>(s: seq<T>) {
    forall i, j :: 0 <= i < j < |s| ==> s[i] != s[j]
  }

  /** The set of elements of a sequence. */
  function Elems<T>(s: seq<T>): set<T>
  {
    set x | x in s
  }

  /** `s` with every occurrence of `x` taken out, the rest in order. */
  function Without<T(==)>(s: seq<T>, x: T): (r: seq<T>)
    ensures Elems(r) == Elems(s) - {x}
    ensures |r| <= |s|
    ensures x !in s ==> r == s
    ensures Distinct(s) ==> Distinct(r)
  {
    if s == [] then []
    else
      assert s == [s[0]] + s[1..];
      if s[0] == x then Without(s[1..], x)
      else
        var w := Without(s[1..], x);
        assert Elems([s[0]] + w) == {s[0]} + Elems(w);
        [s[0]] + w
  }

  /** `s` with every element of `xs` taken out, the rest in order. */
  function WithoutAll<T(==)>(s: seq<T>, xs: set<T>): (r: seq<T>)
    ensures Elems(r) == Elems(s) - xs
    ensures Distinct(s) ==> Distinct(r)
  {
    if s == [] then []
    else if s[0] in xs then WithoutAll(s[1..], xs)
    else
      var w := WithoutAll(s[1..], xs);
      assert s == [s[0]] + s[1..];
      assert Elems([s[0]] + w) == {s[0]} + Elems(w);
      [s[0]] + w
  }

  lemma {:induction false} WithoutConcat<T>(a: seq<T>, b: seq<T>, x: T)
    ensures Without(a + b, x) == Without(a, x) + Without(b, x)
  {
    if a == [] {
      assert a + b == b;
    } else {
      assert (a + b)[1..] == a[1..] + b;
      WithoutConcat(a[1..], b, x);
    }
  }

  lemma {:induction false} WithoutTwice<T>(s: seq<T>, x: T)
    ensures Without(Without(s, x), x) == Without(s, x)
  {
    if s != [] {
      WithoutTwice(s[1..], x);
      if s[0] != x {
        assert Without(s, x) == [s[0]] + Without(s[1..], x);
        assert Without(s, x)[1..] == Without(s[1..], x);
      }
    }
  }

  lemma {:induction false} WithoutCommutes<T>(s: seq<T>, x: T, y: T)
    ensures Without(Without(s, x), y) == Without(Without(s, y), x)
  {
    if s != [] {
      WithoutCommutes(s[1..], x, y);
      var t := s[1..];
      if s[0] != x {
        assert Without(s, x) == [s[0]] + Without(t, x);
        assert Without(s, x)[1..] == Without(t, x);
      }
      if s[0] != y {
        assert Without(s, y) == [s[0]] + Without(t, y);
        assert Without(s, y)[1..] == Without(t, y);
      }
      if s[0] != x && s[0] != y {
        assert Without(Without(s, x), y) == [s[0]] + Without(Without(t, x), y);
        assert Without(Without(s, y), x) == [s[0]] + Without(Without(t, y), x);
      }
    }
  }

  /** Removing one more element from an already filtered sequence is the
      same as filtering by the larger set. */
  lemma {:induction false} WithoutAllStep<T>(s: seq<T>, xs: set<T>, x: T)
    ensures Without(WithoutAll(s, xs), x) == WithoutAll(s, xs + {x})
  {
    if s != [] {
      WithoutAllStep(s[1..], xs, x);
      if s[0] !in xs {
        var w := WithoutAll(s[1..], xs);
        assert WithoutAll(s, xs) == [s[0]] + w;
        assert ([s[0]] + w)[1..] == w;
      }
    }
  }

  /** Filtering by a set that holds none of the elements changes nothing. */
  lemma {:induction false} WithoutAllDisjoint<T>(s: seq<T>, xs: set<T>)
    requires forall x :: x in s ==> x !in xs
    ensures WithoutAll(s, xs) == s
  {
    if s != [] {
      assert s == [s[0]] + s[1..];
      WithoutAllDisjoint(s[1..], xs);
    }
  }

  /** Filtering twice is filtering once by the union. */
  lemma {:induction false} WithoutAllUnion<T>(s: seq<T>, xs: set<T>, ys: set<T>)
    ensures WithoutAll(WithoutAll(s, xs), ys) == WithoutAll(s, xs + ys)
  {
    if s != [] {
      WithoutAllUnion(s[1..], xs, ys);
      if s[0] !in xs {
        var w := WithoutAll(s[1..], xs);
        assert WithoutAll(s, xs) == [s[0]] + w;
        assert ([s[0]] + w)[1..] == w;
      }
    }
  }

  /** Filtering by one element is removing that element. */
  lemma WithoutAllSingle<T>(s: seq<T>, x: T)
    ensures WithoutAll(s, {x}) == Without(s, x)
  {
    WithoutAllDisjoint(s, {});
    WithoutAllStep(s, {}, x);
  }

  /** Filtering keeps only elements that were there. */
  lemma WithoutAllSubset<T>(s: seq<T>, xs: set<T>)
    ensures forall x :: x in WithoutAll(s, xs) ==> x in s
  {
    assert Elems(WithoutAll(s, xs)) <= Elems(s);
  }

  /** Index of the first occurrence of `x`, or -1 (List.IndexOf). */
  function IndexOf<T(==)>(s: seq<T>, x: T): (r: int)
    ensures -1 <= r < |s|
    ensures r == -1 <==> x !in s
    ensures r >= 0 ==> s[r] == x && x !in s[..r]
  {
    if s == [] then -1
    else if s[0] == x then 0
    else
      var k := IndexOf(s[1..], x);
      if k == -1 then -1
      else (assert s[..k + 1] == [s[0]] + s[1..][..k]; k + 1)
  }

  /** List.RemoveAt. */
  function RemoveAt<T>(s: seq<T>, i: nat): (r: seq<T>)
    requires i < |s|
    ensures |r| == |s| - 1
    ensures forall k :: 0 <= k < i ==> r[k] == s[k]
    ensures forall k :: i <= k < |r| ==> r[k] == s[k + 1]
  {
    s[..i] + s[i + 1..]
  }

  /** List.Insert. */
  function Insert<T>(s: seq<T>, i: nat, x: T): (r: seq<T>)
    requires i <= |s|
    ensures |r| == |s| + 1
    ensures r[i] == x
    ensures forall k :: 0 <= k < i ==> r[k] == s[k]
    ensures forall k :: i < k < |r| ==> r[k] == s[k - 1]
  {
    s[..i] + [x] + s[i..]
  }

  /** List.Remove: the first occurrence of `x` is taken out, if any. */
  function RemoveFirst<T(==)>(s: seq<T>, x: T): (r: seq<T>)
    ensures x !in s ==> r == s
    ensures x in s ==> |r| == |s| - 1 && multiset(r) == multiset(s) - multiset{x}
    ensures x in s ==> r == RemoveAt(s, IndexOf(s, x))
  {
    var i := IndexOf(s, x);
    if i == -1 then s
    else
      assert s == s[..i] + [x] + s[i + 1..];
      RemoveAt(s, i)
  }

  /** The two neighbours at `i` and `i + 1` change places. */
  function SwapAdjacent<T>(s: seq<T>, i: nat): (r: seq<T>)
    requires i + 1 < |s|
  {
    s[i := s[i + 1]][i + 1 := s[i]]
  }

  /** RemoveAt followed by Insert one place earlier swaps with the
      predecessor; the tab list length and its elements are kept. */
  lemma MoveEarlierIsSwap<T>(s: seq<T>, i: nat)
    requires 0 < i < |s|
    ensures Insert(RemoveAt(s, i), i - 1, s[i]) == SwapAdjacent(s, i - 1)
    ensures multiset(SwapAdjacent(s, i - 1)) == multiset(s)
  {
    var r := Insert(RemoveAt(s, i), i - 1, s[i]);
    assert forall k :: 0 <= k < |s| ==> r[k] == SwapAdjacent(s, i - 1)[k];
    SwapPermutes(s, i - 1);
  }

  /** RemoveAt followed by Insert one place later swaps with the successor. */
  lemma MoveLaterIsSwap<T>(s: seq<T>, i: nat)
    requires i + 1 < |s|
    ensures Insert(RemoveAt(s, i), i + 1, s[i]) == SwapAdjacent(s, i)
    ensures multiset(SwapAdjacent(s, i)) == multiset(s)
  {
    var r := Insert(RemoveAt(s, i), i + 1, s[i]);
    assert forall k :: 0 <= k < |s| ==> r[k] == SwapAdjacent(s, i)[k];
    SwapPermutes(s, i);
  }

  lemma SwapPermutes<T>(s: seq<T>, i: nat)
    requires i + 1 < |s|
    ensures multiset(SwapAdjacent(s, i)) == multiset(s)
  {
    var r := SwapAdjacent(s, i);
    assert s == s[..i] + [s[i], s[i + 1]] + s[i + 2..];
    assert r == s[..i] + [s[i + 1], s[i]] + s[i + 2..];
  }
}
