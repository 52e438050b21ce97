/**
 * Sequence operations with the meaning of the JavaScript array methods and lodash helpers
 * the program uses: `filter`, `indexOf`, `splice`, `uniq` and `flatten`.
 */
module Collections {

  /** `s.filter(p)`: the elements satisfying `p`, in their original order. */
  function Filter<T>(s: seq<T>, p: T -> bool): (r: seq<T>)
    ensures |r| <= |s|
    ensures forall k :: 0 <= k < |r| ==> r[k] in s && p(r[k])
    ensures forall k :: 0 <= k < |s| && p(s[k]) ==> s[k] in r
    decreases |s|
  {
    if |s| == 0 then []
    else (if p(s[0]) then [s[0]] else []) + Filter(s[1..], p)
  }

  lemma {:induction false} FilterConcat<T>(a: seq<T>, b: seq<T>, p: T -> bool)
    ensures Filter(a + b, p) == Filter(a, p) + Filter(b, p)
    decreases |a|
  {
    if |a| == 0 {
      assert a + b == b;
    } else {
      assert (a + b)[0] == a[0];
      assert (a + b)[1..] == a[1..] + b;
      FilterConcat(a[1..], b, p);
    }
  }

  /** A filter nothing passes is empty. */
  lemma {:induction false} FilterNone<T>(s: seq<T>, p: T -> bool)
    requires forall k :: 0 <= k < |s| ==> !p(s[k])
    ensures Filter(s, p) == []
    decreases |s|
  {
    if |s| > 0 {
      FilterNone(s[1..], p);
    }
  }

  /** A filter everything passes changes nothing. */
  lemma {:induction false} FilterAll<T>(s: seq<T>, p: T -> bool)
    requires forall k :: 0 <= k < |s| ==> p(s[k])
    ensures Filter(s, p) == s
    decreases |s|
  {
    if |s| > 0 {
      FilterAll(s[1..], p);
      assert [s[0]] + s[1..] == s;
    }
  }

  /** Filters with predicates that agree on the sequence's elements select the same elements. */
  lemma {:induction false} FilterSamePredicate<T>(s: seq<T>, p: T -> bool, q: T -> bool)
    requires forall k :: 0 <= k < |s| ==> p(s[k]) == q(s[k])
    ensures Filter(s, p) == Filter(s, q)
    decreases |s|
  {
    if |s| > 0 {
      FilterSamePredicate(s[1..], p, q);
    }
  }

  /** Filtering by two predicates that never both hold, together, selects what their disjunction selects. */
  lemma {:induction false} FilterDisjointUnion<T>(s: seq<T>, p: T -> bool, q: T -> bool, pq: T -> bool)
    requires forall k :: 0 <= k < |s| ==> !(p(s[k]) && q(s[k])) && pq(s[k]) == (p(s[k]) || q(s[k]))
    ensures multiset(Filter(s, p)) + multiset(Filter(s, q)) == multiset(Filter(s, pq))
    decreases |s|
  {
    if |s| > 0 {
      FilterDisjointUnion(s[1..], p, q, pq);
    }
  }

  /** Filtering an extended prefix: what a left-to-right loop that pushes accepted elements builds. */
  lemma FilterSnoc<T>(s: seq<T>, x: T, p: T -> bool)
    ensures Filter(s + [x], p) == Filter(s, p) + (if p(x) then [x] else [])
  {
    FilterConcat(s, [x], p);
    assert Filter([x], p) == (if p(x) then [x] else []) + Filter([x][1..], p);
  }

  /** `a` can be obtained from `b` by deleting elements (greedy matching decides it). */
  predicate IsSubsequence<T(==)>(a: seq<T>, b: seq<T>)
    decreases |b|
  {
    |a| == 0 || (|b| > 0 && if a[0] == b[0] then IsSubsequence(a[1..], b[1..]) else IsSubsequence(a, b[1..]))
  }

  lemma {:induction false} EmptyIsSubsequence<T>(b: seq<T>)
    ensures IsSubsequence([], b)
  {
  }

  lemma {:induction false} SubsequenceOfTail<T>(a: seq<T>, x: T, b: seq<T>)
    requires IsSubsequence(a, b)
    ensures IsSubsequence(a, [x] + b)
    decreases |b|, 1
  {
    if |a| > 0 {
      assert ([x] + b)[1..] == b;
      if a[0] == x {
        // Greedy matching takes x; the rest of a is a subsequence of b as well.
        SubsequenceDropHead(a, b);
      }
    }
  }

  lemma {:induction false} SubsequenceDropHead<T>(a: seq<T>, b: seq<T>)
    requires |a| > 0 && IsSubsequence(a, b)
    ensures IsSubsequence(a[1..], b)
    decreases |b|, 0
  {
    if a[0] == b[0] {
      SubsequenceOfTail(a[1..], b[0], b[1..]);
      assert [b[0]] + b[1..] == b;
    } else {
      SubsequenceDropHead(a, b[1..]);
      SubsequenceOfTail(a[1..], b[0], b[1..]);
      assert [b[0]] + b[1..] == b;
    }
  }

  lemma {:induction false} FilterIsSubsequence<T>(s: seq<T>, p: T -> bool)
    ensures IsSubsequence(Filter(s, p), s)
    decreases |s|
  {
    if |s| > 0 {
      FilterIsSubsequence(s[1..], p);
      var rest := Filter(s[1..], p);
      if p(s[0]) {
        assert Filter(s, p) == [s[0]] + rest;
        assert Filter(s, p)[1..] == rest;
      } else {
        assert Filter(s, p) == rest;
        SubsequenceOfTail(rest, s[0], s[1..]);
        assert [s[0]] + s[1..] == s;
      }
    }
  }

  /** `s.indexOf(x)`: the first index holding `x`, or -1. */
  function IndexOf<T(==)>(s: seq<T>, x: T): (r: int)
    ensures -1 <= r < |s|
    ensures r == -1 <==> x !in s
    ensures 0 <= r ==> s[r] == x && x !in s[..r]
    decreases |s|
  {
    if |s| == 0 then -1
    else if s[0] == x then 0
    else
      var i := IndexOf(s[1..], x);
      assert i >= 0 ==> s[..i + 1] == [s[0]] + s[1..][..i];
      if i == -1 then -1 else i + 1
  }

  /** The first-occurrence index is determined by the two facts `IndexOf` promises. */
  lemma FirstIndexUnique<T>(s: seq<T>, x: T, i: nat)
    requires i < |s| && s[i] == x && x !in s[..i]
    ensures IndexOf(s, x) == i
  {
    var j := IndexOf(s, x);
    assert forall k :: 0 <= k < i ==> s[..i][k] == s[k];
    assert forall k :: 0 <= k < j ==> s[..j][k] == s[k];
  }

  /** `splice(i, 1)`: the sequence without position `i`. */
  function RemoveAt<T>(s: seq<T>, i: nat): (r: seq<T>)
    requires i < |s|
    ensures |r| == |s| - 1
    ensures multiset(r) + multiset{s[i]} == multiset(s)
  {
    assert s == s[..i] + [s[i]] + s[i + 1..];
    s[..i] + s[i + 1..]
  }

  /** The sequence without the first occurrence of `x` (unchanged when `x` does not occur). */
  function RemoveFirst<T(==)>(s: seq<T>, x: T): seq<T>
  {
    var i := IndexOf(s, x);
    if i < 0 then s else RemoveAt(s, i)
  }

  /** Removing the first occurrences of two different values can be done in either order. */
  lemma {:induction false} RemoveFirstCommutes<T>(s: seq<T>, x: T, y: T)
    requires x != y
    ensures RemoveFirst(RemoveFirst(s, x), y) == RemoveFirst(RemoveFirst(s, y), x)
    decreases |s|
  {
    if |s| > 0 {
      RemoveFirstCons(s, x);
      RemoveFirstCons(s, y);
      if s[0] == x {
        RemoveFirstCons([s[0]] + RemoveFirst(s[1..], y), x);
        assert ([s[0]] + RemoveFirst(s[1..], y))[1..] == RemoveFirst(s[1..], y);
      } else if s[0] == y {
        RemoveFirstCons([s[0]] + RemoveFirst(s[1..], x), y);
        assert ([s[0]] + RemoveFirst(s[1..], x))[1..] == RemoveFirst(s[1..], x);
      } else {
        var sx := [s[0]] + RemoveFirst(s[1..], x);
        var sy := [s[0]] + RemoveFirst(s[1..], y);
        RemoveFirstCons(sx, y);
        RemoveFirstCons(sy, x);
        assert sx[1..] == RemoveFirst(s[1..], x);
        assert sy[1..] == RemoveFirst(s[1..], y);
        RemoveFirstCommutes(s[1..], x, y);
      }
    }
  }

  lemma RemoveFirstCons<T>(s: seq<T>, x: T)
    requires |s| > 0
    ensures RemoveFirst(s, x) == if s[0] == x then s[1..] else [s[0]] + RemoveFirst(s[1..], x)
  {
    if s[0] != x {
      var i := IndexOf(s[1..], x);
      assert IndexOf(s, x) == if i == -1 then -1 else i + 1;
      if i >= 0 {
        assert s[..i + 1] + s[i + 2..] == [s[0]] + (s[1..][..i] + s[1..][i + 1..]);
      }
    } else {
      assert s[..0] + s[1..] == s[1..];
    }
  }

  predicate Distinct<T(==)>(s: seq<T>) {
    forall i, j :: 0 <= i < j < |s| ==> s[i] != s[j]
  }

  /** lodash `uniq`: the distinct elements, each kept at its first occurrence. */
  function Uniq<T(==)>(s: seq<T>): (r: seq<T>)
    ensures forall k :: 0 <= k < |r| ==> r[k] in s
    ensures forall k :: 0 <= k < |s| ==> s[k] in r
    ensures Distinct(r)
    decreases |s|
  {
    if |s| == 0 then []
    else
      var u := Uniq(s[..|s| - 1]);
      var last := s[|s| - 1];
      assert s == s[..|s| - 1] + [last];
      if last in u then u else u + [last]
  }

  /** Appending an element does not move the first occurrence of one already present. */
  lemma IndexOfSnoc<T>(init: seq<T>, last: T, y: T)
    requires y in init
    ensures IndexOf(init + [last], y) == IndexOf(init, y)
  {
    var s := init + [last];
    var k := IndexOf(init, y);
    assert s[..k] == init[..k];
    FirstIndexUnique(s, y, k);
  }

  /** `uniq` lists the distinct elements in the order of their first occurrence. */
  lemma {:induction false} UniqKeepsFirstOccurrenceOrder<T>(s: seq<T>)
    ensures forall i, j :: 0 <= i < j < |Uniq(s)| ==> 0 <= IndexOf(s, Uniq(s)[i]) < IndexOf(s, Uniq(s)[j])
    decreases |s|
  {
    if |s| > 0 {
      var init := s[..|s| - 1];
      var last := s[|s| - 1];
      UniqKeepsFirstOccurrenceOrder(init);
      var u := Uniq(init);
      assert s == init + [last];
      assert Uniq(s) == if last in u then u else u + [last];
      forall y | y in init
        ensures IndexOf(s, y) == IndexOf(init, y)
      {
        IndexOfSnoc(init, last, y);
      }
      forall i, j | 0 <= i < j < |Uniq(s)|
        ensures 0 <= IndexOf(s, Uniq(s)[i]) < IndexOf(s, Uniq(s)[j])
      {
        assert u[i] in init;
        if j < |u| {
          assert u[j] in init;
        } else {
          assert last !in init;
          FirstIndexUnique(s, last, |s| - 1);
        }
      }
    } else {
      assert Uniq(s) == [];
    }
  }

  /** lodash `flatten(keys.map(f))`: the results of `f` on each key, concatenated in key order. */
  function ConcatMap<K, T>(keys: seq<K>, f: K -> seq<T>): seq<T>
    decreases |keys|
  {
    if |keys| == 0 then [] else f(keys[0]) + ConcatMap(keys[1..], f)
  }

  lemma {:induction false} ConcatMapAppend<K, T>(a: seq<K>, b: seq<K>, f: K -> seq<T>)
    ensures ConcatMap(a + b, f) == ConcatMap(a, f) + ConcatMap(b, f)
    decreases |a|
  {
    if |a| > 0 {
      assert (a + b)[1..] == a[1..] + b;
      ConcatMapAppend(a[1..], b, f);
    } else {
      assert a + b == b;
    }
  }

  /** The `j`-th element of the part for `keys[i]` sits right after the parts for the keys before it. */
  lemma ConcatMapIndex<K, T>(keys: seq<K>, f: K -> seq<T>, i: nat, j: nat)
    requires i < |keys| && j < |f(keys[i])|
    ensures |ConcatMap(keys[..i], f)| + j < |ConcatMap(keys, f)|
    ensures ConcatMap(keys, f)[|ConcatMap(keys[..i], f)| + j] == f(keys[i])[j]
  {
    assert keys == keys[..i] + keys[i..];
    ConcatMapAppend(keys[..i], keys[i..], f);
    assert keys[i..][1..] == keys[i + 1..];
    assert ConcatMap(keys[i..], f) == f(keys[i]) + ConcatMap(keys[i + 1..], f);
  }

  /** `s.map((x, i) => f(x, from + i))`: each element mapped together with its position, counted from `from`. */
  function MapIndexed<T, U>(s: seq<T>, from: nat, f: (T, nat) -> U): (r: seq<U>)
    ensures |r| == |s|
    ensures forall k :: 0 <= k < |s| ==> r[k] == f(s[k], from + k)
    decreases |s|
  {
    if |s| == 0 then [] else [f(s[0], from)] + MapIndexed(s[1..], from + 1, f)
  }
}
