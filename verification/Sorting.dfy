/** The stable sort every listing here is put in order by, and what makes its result unique. */
module Sorting {
  import opened Machine

  ghost predicate TotalPreorder<T(!new)>(le: (T, T) -> bool) {
    && (forall a, b :: le(a, b) || le(b, a))
    && (forall a, b, c :: le(a, b) && le(b, c) ==> le(a, c))
  }

  ghost predicate Antisymmetric<T(!new)>(le: (T, T) -> bool) {
    forall a, b :: le(a, b) && le(b, a) ==> a == b
  }

  ghost predicate SortedBy<T>(s: seq<T>, le: (T, T) -> bool) {
    forall i, j :: 0 <= i < j < |s| ==> le(s[i], s[j])
  }

  function Insert<T>(x: T, s: seq<T>, le: (T, T) -> bool): seq<T> {
    if s == [] then [x]
    else if le(x, s[0]) then [x] + s
    else [s[0]] + Insert(x, s[1..], le)
  }

  /** Equal elements keep the order they came in. */
  function Sort<T>(s: seq<T>, le: (T, T) -> bool): seq<T> {
    if s == [] then [] else Insert(s[0], Sort(s[1..], le), le)
  }

  lemma {:induction false} InsertKeeps<T>(x: T, s: seq<T>, le: (T, T) -> bool)
    ensures multiset(Insert(x, s, le)) == multiset{x} + multiset(s)
  {
    if s != [] {
      assert s == [s[0]] + s[1..];
      if !le(x, s[0]) {
        InsertKeeps(x, s[1..], le);
      }
    }
  }

  lemma {:induction false} SortKeeps<T>(s: seq<T>, le: (T, T) -> bool)
    ensures multiset(Sort(s, le)) == multiset(s)
    ensures |Sort(s, le)| == |s|
  {
    if s != [] {
      assert s == [s[0]] + s[1..];
      SortKeeps(s[1..], le);
      InsertKeeps(s[0], Sort(s[1..], le), le);
    }
    assert |multiset(Sort(s, le))| == |multiset(s)|;
  }

  lemma {:induction false} InsertSorts<T(!new)>(x: T, s: seq<T>, le: (T, T) -> bool)
    requires TotalPreorder(le) && SortedBy(s, le)
    ensures SortedBy(Insert(x, s, le), le)
  {
    if s != [] && !le(x, s[0]) {
      InsertSorts(x, s[1..], le);
      var rest := Insert(x, s[1..], le);
      InsertKeeps(x, s[1..], le);
      forall j | 0 <= j < |rest| ensures le(s[0], rest[j]) {
        assert rest[j] in multiset(rest);
        assert rest[j] == x || rest[j] in s[1..];
      }
    }
  }

  lemma {:induction false} SortSorts<T(!new)>(s: seq<T>, le: (T, T) -> bool)
    requires TotalPreorder(le)
    ensures SortedBy(Sort(s, le), le)
  {
    if s != [] {
      SortSorts(s[1..], le);
      InsertSorts(s[0], Sort(s[1..], le), le);
    }
  }

  lemma SortedHead<T(!new)>(one: seq<T>, other: seq<T>, le: (T, T) -> bool)
    requires SortedBy(one, le) && one != [] && multiset(one) == multiset(other)
    ensures other != [] && (other[0] == one[0] || le(one[0], other[0]))
  {
    assert one[0] in multiset(other);
    assert other[0] in multiset(one);
  }

  lemma TailKeeps<T>(s: seq<T>)
    requires s != []
    ensures multiset(s[1..]) == multiset(s) - multiset{s[0]}
  {
    assert s == [s[0]] + s[1..];
  }

  /** Under an antisymmetric order there is one sorted sequence of given elements. */
  lemma {:induction false} SortedIsUnique<T(!new)>(one: seq<T>, other: seq<T>, le: (T, T) -> bool)
    requires Antisymmetric(le) && SortedBy(one, le) && SortedBy(other, le) && multiset(one) == multiset(other)
    ensures one == other
  {
    if one == [] {
      assert |multiset(other)| == 0;
    } else {
      SortedHead(one, other, le);
      SortedHead(other, one, le);
      TailKeeps(one);
      TailKeeps(other);
      SortedIsUnique(one[1..], other[1..], le);
      assert one == [one[0]] + one[1..];
    }
  }

  /** The derived order of tuples: field by field, the first difference deciding. */
  predicate LexLe(a: seq<int>, b: seq<int>)
    requires |a| == |b|
  {
    a == [] || a[0] < b[0] || (a[0] == b[0] && LexLe(a[1..], b[1..]))
  }

  /** That is: equal, or less at the first place they differ. */
  lemma {:induction false} FirstDifferenceDecides(a: seq<int>, b: seq<int>)
    requires |a| == |b|
    ensures LexLe(a, b) <==> a == b || exists k :: 0 <= k < |a| && LessAt(a, b, k)
  {
    if a != [] {
      var x, y := a[1..], b[1..];
      FirstDifferenceDecides(x, y);
      assert a == [a[0]] + x && b == [b[0]] + y;
      if a[0] == b[0] {
        forall k | 0 <= k < |x| ensures LessAt(x, y, k) <==> LessAt(a, b, k + 1) {
          assert a[..k + 1] == [a[0]] + x[..k] && b[..k + 1] == [b[0]] + y[..k];
          assert a[..k + 1] == b[..k + 1] ==> x[..k] == a[..k + 1][1..] && y[..k] == b[..k + 1][1..];
        }
        if k :| 0 <= k < |x| && LessAt(x, y, k) {
          assert LessAt(a, b, k + 1);
        }
        if k :| 0 <= k < |a| && LessAt(a, b, k) {
          assert k > 0 && LessAt(x, y, k - 1);
        }
      } else {
        assert a[0] < b[0] ==> LessAt(a, b, 0);
        forall k | 0 < k < |a| ensures !LessAt(a, b, k) {
          assert a[0] == a[..k][0] && b[0] == b[..k][0];
        }
      }
    }
  }

  predicate LessAt(a: seq<int>, b: seq<int>, k: int)
    requires |a| == |b| && 0 <= k < |a|
  {
    a[..k] == b[..k] && a[k] < b[k]
  }

  /** Where they first differ, if they do. */
  lemma Decided(a: seq<int>, b: seq<int>) returns (k: nat)
    requires |a| == |b| && LexLe(a, b)
    ensures k <= |a| && (forall i :: 0 <= i < k ==> a[i] == b[i]) && (k < |a| ==> a[k] < b[k])
  {
    FirstDifferenceDecides(a, b);
    if a == b {
      k := |a|;
    } else {
      var d :| 0 <= d < |a| && LessAt(a, b, d);
      k := d;
      forall i | 0 <= i < k ensures a[i] == b[i] {
        assert a[..k][i] == b[..k][i];
      }
    }
  }

  lemma {:induction false} LexIsTotal(a: seq<int>, b: seq<int>)
    requires |a| == |b|
    ensures LexLe(a, b) || LexLe(b, a)
    ensures LexLe(a, b) && LexLe(b, a) ==> a == b
  {
    if a != [] && a[0] == b[0] {
      LexIsTotal(a[1..], b[1..]);
      assert a == [a[0]] + a[1..] && b == [b[0]] + b[1..];
    }
  }

  lemma {:induction false} LexIsTransitive(a: seq<int>, b: seq<int>, c: seq<int>)
    requires |a| == |b| == |c| && LexLe(a, b) && LexLe(b, c)
    ensures LexLe(a, c)
  {
    if a != [] && a[0] == b[0] == c[0] {
      LexIsTransitive(a[1..], b[1..], c[1..]);
    }
  }

  function Filter<T>(s: seq<T>, p: T -> bool): seq<T> {
    if s == [] then [] else (if p(s[0]) then [s[0]] else []) + Filter(s[1..], p)
  }

  lemma {:induction false} InsertFilters<T(!new)>(x: T, s: seq<T>, le: (T, T) -> bool, p: T -> bool)
    requires forall a, b :: p(a) && p(b) ==> le(a, b)
    ensures Filter(Insert(x, s, le), p) == (if p(x) then [x] else []) + Filter(s, p)
  {
    if s != [] && !le(x, s[0]) {
      InsertFilters(x, s[1..], le, p);
      assert Insert(x, s, le)[1..] == Insert(x, s[1..], le);
    } else {
      assert ([x] + s)[1..] == s;
    }
  }

  /** The sort is stable: elements that the order does not tell apart keep the order they came in. */
  lemma {:induction false} SortIsStable<T(!new)>(s: seq<T>, le: (T, T) -> bool, p: T -> bool)
    requires forall a, b :: p(a) && p(b) ==> le(a, b)
    ensures Filter(Sort(s, le), p) == Filter(s, p)
  {
    if s != [] {
      SortIsStable(s[1..], le, p);
      InsertFilters(s[0], Sort(s[1..], le), le, p);
    }
  }

  lemma {:induction false} CountsAtMostOnce<T>(s: seq<T>, x: T)
    requires NoDuplicates(s)
    ensures multiset(s)[x] <= 1
  {
    if s != [] {
      var n := |s| - 1;
      CountsAtMostOnce(s[..n], x);
      assert s == s[..n] + [s[n]];
      assert s[n] !in s[..n];
    }
  }

  lemma ReorderedHasNoDuplicates<T>(s: seq<T>, other: seq<T>)
    requires NoDuplicates(s) && multiset(s) == multiset(other)
    ensures NoDuplicates(other)
  {
    forall i, j | 0 <= i < j < |other| ensures other[i] != other[j] {
      CountsAtMostOnce(s, other[i]);
      assert other == other[..i] + [other[i]] + other[i + 1..j] + [other[j]] + other[j + 1..];
      assert multiset(other) == multiset(other[..i]) + multiset{other[i]} + multiset(other[i + 1..j]) + multiset{other[j]} + multiset(other[j + 1..]);
    }
  }
}
