/**
 * The list and stream primitives the iterator is built from: `List.indexOf`,
 * `List.add(index, element)`, `List.remove(Object)`, and the stream
 * pipelines `filter`, `findFirst` and `reduce((first, second) -> second)`.
 * Predicates are passed as total arrows, the way the streams take lambdas.
 */
module Seqs {

  /** No element occurs twice. */
  predicate Distinct<T(==)>(s: seq<T>) {
    forall i, j :: 0 <= i < j < |s| ==> s[i] != s[j]
  }

  /** `List.indexOf`: the first position of `x`, or -1 when it is absent. */
  function IndexOf<T(==)>(s: seq<T>, x: T): (r: int)
    ensures -1 <= r < |s|
    ensures r == -1 <==> x !in s
    ensures 0 <= r ==> s[r] == x
  {
    if s == [] then -1
    else if s[0] == x then 0
    else
      var k := IndexOf(s[1..], x);
      if k < 0 then -1 else k + 1
  }

  /** `stream().filter(p)`: the elements satisfying `p`, in their order. */
  function Filter<T(==)>(s: seq<T>, p: T -> bool): (r: seq<T>)
    ensures |r| <= |s|
  {
    if s == [] then []
    else (if p(s[0]) then [s[0]] else []) + Filter(s[1..], p)
  }

  /** `stream().filter(p).findFirst()`, as the position of the element found, or -1. */
  function FindFirst<T>(s: seq<T>, p: T -> bool): (r: int)
    ensures -1 <= r < |s|
    ensures 0 <= r ==> p(s[r])
  {
    if s == [] then -1
    else if p(s[0]) then 0
    else
      var k := FindFirst(s[1..], p);
      if k < 0 then -1 else k + 1
  }

  /** `stream().filter(p).reduce((first, second) -> second)`, as the position of the element kept, or -1. */
  function FindLast<T>(s: seq<T>, p: T -> bool): (r: int)
    ensures -1 <= r < |s|
    ensures 0 <= r ==> p(s[r])
  {
    if s == [] then -1
    else if p(s[|s| - 1]) then |s| - 1
    else FindLast(s[..|s| - 1], p)
  }

  /** `List.add(i, x)`. */
  function Insert<T>(s: seq<T>, i: nat, x: T): (r: seq<T>)
    requires i <= |s|
  {
    s[..i] + [x] + s[i..]
  }

  /** `List.remove(Object)`: drops the first occurrence of `x`, if any. */
  function RemoveFirst<T(==)>(s: seq<T>, x: T): (r: seq<T>)
  {
    var k := IndexOf(s, x);
    if k < 0 then s else s[..k] + s[k + 1..]
  }

  /** `indexOf` finds the first occurrence: no copy of `x` precedes it. */
  lemma {:induction false} IndexOfIsFirst<T>(s: seq<T>, x: T)
    ensures forall j :: 0 <= j < IndexOf(s, x) ==> s[j] != x
    ensures forall j :: 0 <= j < |s| && s[j] == x ==> IndexOf(s, x) <= j
  {
    if s != [] && s[0] != x {
      IndexOfIsFirst(s[1..], x);
      forall j | 0 <= j < |s| && s[j] == x ensures IndexOf(s, x) <= j {
        assert s[1..][j - 1] == x;
      }
    }
  }

  /** The filtered list holds exactly the elements that satisfy the filter. */
  lemma {:induction false} FilterMembers<T>(s: seq<T>, p: T -> bool)
    ensures forall i :: 0 <= i < |Filter(s, p)| ==> Filter(s, p)[i] in s && p(Filter(s, p)[i])
    ensures forall i :: 0 <= i < |s| && p(s[i]) ==> s[i] in Filter(s, p)
  {
    if s != [] {
      FilterMembers(s[1..], p);
      var head := if p(s[0]) then [s[0]] else [];
      var r := Filter(s, p);
      assert r == head + Filter(s[1..], p);
      forall i | 0 <= i < |r| ensures r[i] in s && p(r[i]) {
        if i >= |head| {
          assert r[i] == Filter(s[1..], p)[i - |head|];
        }
      }
      forall i | 0 <= i < |s| && p(s[i]) ensures s[i] in r {
        if i > 0 {
          assert s[i] == s[1..][i - 1];
        }
      }
    }
  }

  /** `findFirst` answers -1 exactly when nothing matches, and otherwise nothing before its answer matches. */
  lemma {:induction false} FindFirstIsFirst<T>(s: seq<T>, p: T -> bool)
    ensures FindFirst(s, p) == -1 <==> forall i :: 0 <= i < |s| ==> !p(s[i])
    ensures forall j :: 0 <= j < FindFirst(s, p) ==> !p(s[j])
  {
    if s != [] && !p(s[0]) {
      FindFirstIsFirst(s[1..], p);
      assert forall i :: 1 <= i < |s| ==> s[i] == s[1..][i - 1];
    }
  }

  /** The reduction to the last element answers -1 exactly when nothing matches, and otherwise nothing after its answer matches. */
  lemma {:induction false} FindLastIsLast<T>(s: seq<T>, p: T -> bool)
    ensures FindLast(s, p) == -1 <==> forall i :: 0 <= i < |s| ==> !p(s[i])
    ensures forall j :: FindLast(s, p) < j < |s| ==> !p(s[j])
  {
    if s != [] && !p(s[|s| - 1]) {
      var init := s[..|s| - 1];
      FindLastIsLast(init, p);
      assert forall i :: 0 <= i < |init| ==> s[i] == init[i];
    }
  }

  /** The first element of a filtered list is the first element satisfying the filter. */
  lemma {:induction false} FilterHead<T>(s: seq<T>, p: T -> bool)
    ensures |Filter(s, p)| > 0 <==> FindFirst(s, p) >= 0
    ensures FindFirst(s, p) >= 0 ==> Filter(s, p)[0] == s[FindFirst(s, p)]
  {
    if s != [] && !p(s[0]) {
      FilterHead(s[1..], p);
    }
  }

  /** The last element of a filtered list is the last element satisfying the filter. */
  lemma {:induction false} FilterLast<T>(s: seq<T>, p: T -> bool)
    ensures |Filter(s, p)| > 0 <==> FindLast(s, p) >= 0
    ensures FindLast(s, p) >= 0 ==> Filter(s, p)[|Filter(s, p)| - 1] == s[FindLast(s, p)]
  {
    if s != [] {
      var init := s[..|s| - 1];
      FilterAppend(init, [s[|s| - 1]], p);
      assert s == init + [s[|s| - 1]];
      FilterLast(init, p);
    }
  }

  /** Filtering distributes over concatenation. */
  lemma {:induction false} FilterAppend<T>(a: seq<T>, b: seq<T>, p: T -> bool)
    ensures Filter(a + b, p) == Filter(a, p) + Filter(b, p)
  {
    if a == [] {
      assert a + b == b;
    } else {
      var head := if p(a[0]) then [a[0]] else [];
      assert (a + b)[0] == a[0] && (a + b)[1..] == a[1..] + b;
      FilterAppend(a[1..], b, p);
      calc {
        Filter(a + b, p);
        head + Filter(a[1..] + b, p);
        head + (Filter(a[1..], p) + Filter(b, p));
        (head + Filter(a[1..], p)) + Filter(b, p);
      }
    }
  }

  /**
   * `indexOf` of the element `findFirst` returned is that element's own
   * position: an earlier copy of it would have been found first.
   */
  lemma FoundFirstIsIndexOf<T>(s: seq<T>, p: T -> bool)
    requires FindFirst(s, p) >= 0
    ensures IndexOf(s, s[FindFirst(s, p)]) == FindFirst(s, p)
  {
    var k := FindFirst(s, p);
    var j := IndexOf(s, s[k]);
    if j < k {
      assert p(s[j]);
    }
  }

  /** In a list without duplicates, `indexOf` of the element at `i` is `i`. */
  lemma DistinctIndexOf<T>(s: seq<T>, i: int)
    requires Distinct(s) && 0 <= i < |s|
    ensures IndexOf(s, s[i]) == i
  {
    IndexOfIsFirst(s, s[i]);
  }

  /**
   * Inserting a fresh element keeps the list free of duplicates, puts the
   * element at the requested position and leaves the others in their
   * relative order.
   */
  lemma InsertFresh<T>(s: seq<T>, i: nat, x: T)
    requires Distinct(s) && x !in s && i <= |s|
    ensures |Insert(s, i, x)| == |s| + 1
    ensures Insert(s, i, x)[i] == x
    ensures Distinct(Insert(s, i, x))
    ensures Insert(s, i, x)[..i] + Insert(s, i, x)[i + 1..] == s
  {
    var r := Insert(s, i, x);
    assert r[..i] == s[..i];
    assert r[i + 1..] == s[i..];
    forall a, b | 0 <= a < b < |r| ensures r[a] != r[b] {
      if a < i && b < i {
      } else if a < i && b == i {
        assert r[a] == s[a];
      } else if a < i {
        assert r[a] == s[a] && r[b] == s[b - 1];
      } else if a == i {
        assert r[b] == s[b - 1];
      } else {
        assert r[a] == s[a - 1] && r[b] == s[b - 1];
      }
    }
  }

  /** Removing an element from a list without duplicates removes it entirely and keeps every other element. */
  lemma RemoveFirstDistinct<T>(s: seq<T>, x: T)
    requires Distinct(s)
    ensures Distinct(RemoveFirst(s, x))
    ensures x !in RemoveFirst(s, x)
    ensures forall y :: y in RemoveFirst(s, x) <==> y in s && y != x
  {
    var k := IndexOf(s, x);
    if k >= 0 {
      var r := RemoveFirst(s, x);
      assert r == s[..k] + s[k + 1..];
      assert forall a :: 0 <= a < |r| ==> r[a] == (if a < k then s[a] else s[a + 1]);
      forall y ensures y in r <==> y in s && y != x {
        if y in s && y != x {
          var a :| 0 <= a < |s| && s[a] == y;
          assert r[if a < k then a else a - 1] == y;
        }
      }
    }
  }
}
