/** Shared vocabulary: results of fallible calls, the order on text, and sorting. */
module Basics {
  datatype Option<+T> = None | Some(value: T)

  /** `Failed` stands for every error the code passes on without naming it. */
  datatype Error = NotFound | Invalid | Failed

  datatype Result<+T> = Ok(value: T) | Err(error: Error)

  /** Code-point order, the order of Go's string comparison. */
  predicate Leq(a: string, b: string) {
    a == [] || (b != [] && (a[0] < b[0] || (a[0] == b[0] && Leq(a[1..], b[1..]))))
  }

  predicate IdLeq(a: int, b: int) {
    a <= b
  }

  ghost predicate TotalOrder<T(!new)>(leq: (T, T) -> bool) {
    && (forall x, y :: leq(x, y) || leq(y, x))
    && (forall x, y :: leq(x, y) && leq(y, x) ==> x == y)
    && (forall x, y, z :: leq(x, y) && leq(y, z) ==> leq(x, z))
  }

  lemma {:induction false} LeqTotal(a: string, b: string)
    ensures Leq(a, b) || Leq(b, a)
  {
    if a != [] && b != [] {
      LeqTotal(a[1..], b[1..]);
    }
  }

  lemma {:induction false} LeqAntisymmetric(a: string, b: string)
    requires Leq(a, b) && Leq(b, a)
    ensures a == b
  {
    if a != [] && b != [] {
      LeqAntisymmetric(a[1..], b[1..]);
      assert a == [a[0]] + a[1..] && b == [b[0]] + b[1..];
    }
  }

  lemma {:induction false} LeqTransitive(a: string, b: string, c: string)
    requires Leq(a, b) && Leq(b, c)
    ensures Leq(a, c)
  {
    if a != [] && a[0] == b[0] == c[0] {
      LeqTransitive(a[1..], b[1..], c[1..]);
    }
  }

  lemma LeqIsTotalOrder()
    ensures TotalOrder(Leq)
  {
    forall x, y ensures Leq(x, y) || Leq(y, x) { LeqTotal(x, y); }
    forall x, y | Leq(x, y) && Leq(y, x) ensures x == y { LeqAntisymmetric(x, y); }
    forall x, y, z | Leq(x, y) && Leq(y, z) ensures Leq(x, z) { LeqTransitive(x, y, z); }
  }

  // ---- Sorted sequences -------------------------------------------------

  ghost predicate SortedBy<T(!new)>(s: seq<T>, leq: (T, T) -> bool) {
    forall i, j | 0 <= i < j < |s| :: leq(s[i], s[j])
  }

  ghost predicate NoDuplicates<T(!new)>(s: seq<T>) {
    forall i, j | 0 <= i < j < |s| :: s[i] != s[j]
  }

  function Elements<T>(s: seq<T>): set<T> {
    set x | x in s
  }

  function Insert<T(!new)>(x: T, s: seq<T>, leq: (T, T) -> bool): (r: seq<T>)
    ensures multiset(r) == multiset(s) + multiset{x}
  {
    if s == [] || leq(x, s[0]) then [x] + s
    else
      assert s == [s[0]] + s[1..];
      [s[0]] + Insert(x, s[1..], leq)
  }

  /** The library sort, as a function; only its contract and `SortedIsUnique` are relied on. */
  function Sort<T(!new)>(s: seq<T>, leq: (T, T) -> bool): (r: seq<T>)
    ensures multiset(r) == multiset(s)
    ensures |r| == |s|
  {
    if s == [] then []
    else
      var r := Insert(s[0], Sort(s[1..], leq), leq);
      assert s == [s[0]] + s[1..];
      assert |multiset(r)| == |multiset(s)|;
      r
  }

  lemma {:induction false} InsertSorted<T(!new)>(x: T, s: seq<T>, leq: (T, T) -> bool)
    requires TotalOrder(leq) && SortedBy(s, leq)
    ensures SortedBy(Insert(x, s, leq), leq)
  {
    if s != [] && !leq(x, s[0]) {
      InsertSorted(x, s[1..], leq);
      var r := Insert(x, s[1..], leq);
      forall i | 0 <= i < |r| ensures leq(s[0], r[i]) {
        assert r[i] in multiset(r);
        assert r[i] == x || r[i] in s[1..];
      }
    } else if s != [] {
      assert leq(x, s[0]);
      forall i | 0 <= i < |s| ensures leq(x, s[i]) {
        if i > 0 { assert leq(s[0], s[i]); }
      }
    }
  }

  lemma {:induction false} SortSorts<T(!new)>(s: seq<T>, leq: (T, T) -> bool)
    requires TotalOrder(leq)
    ensures SortedBy(Sort(s, leq), leq)
  {
    if s != [] {
      SortSorts(s[1..], leq);
      InsertSorted(s[0], Sort(s[1..], leq), leq);
    }
  }

  lemma SortedHeadIsLeast<T(!new)>(a: seq<T>, x: T, leq: (T, T) -> bool)
    requires TotalOrder(leq) && SortedBy(a, leq) && x in a
    ensures leq(a[0], x)
  {
    var i :| 0 <= i < |a| && a[i] == x;
    if i == 0 { assert leq(x, x) || leq(x, x); }
  }

  lemma TailMultiset<T(!new)>(a: seq<T>)
    requires a != []
    ensures multiset(a[1..]) == multiset(a) - multiset{a[0]}
  {
    assert a == [a[0]] + a[1..];
  }

  /** A list is determined by its elements, with multiplicity, once it is sorted. */
  lemma {:induction false} SortedIsUnique<T(!new)>(a: seq<T>, b: seq<T>, leq: (T, T) -> bool)
    requires TotalOrder(leq)
    requires SortedBy(a, leq) && SortedBy(b, leq)
    requires multiset(a) == multiset(b)
    ensures a == b
  {
    assert |a| == |multiset(a)| == |multiset(b)| == |b|;
    if a != [] {
      assert a[0] == b[0] by {
        assert a[0] in multiset(b) && b[0] in multiset(a);
        SortedHeadIsLeast(a, b[0], leq);
        SortedHeadIsLeast(b, a[0], leq);
      }
      TailMultiset(a);
      TailMultiset(b);
      SortedIsUnique(a[1..], b[1..], leq);
      assert a == [a[0]] + a[1..] && b == [b[0]] + b[1..];
    }
  }

  lemma SortIgnoresOrder<T(!new)>(a: seq<T>, b: seq<T>, leq: (T, T) -> bool)
    requires TotalOrder(leq) && multiset(a) == multiset(b)
    ensures Sort(a, leq) == Sort(b, leq)
  {
    SortSorts(a, leq);
    SortSorts(b, leq);
    SortedIsUnique(Sort(a, leq), Sort(b, leq), leq);
  }

  lemma SortOfSorted<T(!new)>(a: seq<T>, leq: (T, T) -> bool)
    requires TotalOrder(leq) && SortedBy(a, leq)
    ensures Sort(a, leq) == a
  {
    SortSorts(a, leq);
    SortedIsUnique(Sort(a, leq), a, leq);
  }

  // ---- Enumerating sets -------------------------------------------------

  ghost predicate IsLeast<T(!new)>(m: T, s: set<T>, leq: (T, T) -> bool) {
    m in s && forall x | x in s :: leq(m, x)
  }

  lemma {:induction false} HasLeast<T(!new)>(s: set<T>, leq: (T, T) -> bool)
    requires TotalOrder(leq) && s != {}
    ensures exists m :: IsLeast(m, s, leq)
  {
    var y :| y in s;
    var rest := s - {y};
    assert leq(y, y) || leq(y, y);
    if rest == {} {
      assert forall x | x in s :: x == y || x in rest;
      assert IsLeast(y, s, leq);
    } else {
      HasLeast(rest, leq);
      var m :| IsLeast(m, rest, leq);
      LeastWithOneMore(y, m, s, leq);
    }
  }

  lemma LeastWithOneMore<T(!new)>(y: T, m: T, s: set<T>, leq: (T, T) -> bool)
    requires TotalOrder(leq) && y in s && IsLeast(m, s - {y}, leq)
    ensures exists l :: IsLeast(l, s, leq)
  {
    if leq(m, y) {
      assert IsLeast(m, s, leq);
    } else {
      assert leq(y, m) && (leq(y, y) || leq(y, y));
      forall x | x in s ensures leq(y, x) {
        if x != y { assert leq(m, x); }
      }
      assert IsLeast(y, s, leq);
    }
  }

  /** The elements of a set, in order: what a SELECT with ORDER BY over a key returns. */
  ghost function SortedSet<T(!new)>(s: set<T>, leq: (T, T) -> bool): (r: seq<T>)
    requires TotalOrder(leq)
    ensures SortedBy(r, leq)
    ensures multiset(r) == multiset(s)
    ensures |r| == |s|
  {
    if s == {} then []
    else
      HasLeast(s, leq);
      var m :| IsLeast(m, s, leq);
      var rest := SortedSet(s - {m}, leq);
      LeastFirst(m, s, rest, leq);
      [m] + rest
  }

  lemma LeastFirst<T(!new)>(m: T, s: set<T>, rest: seq<T>, leq: (T, T) -> bool)
    requires IsLeast(m, s, leq) && SortedBy(rest, leq) && multiset(rest) == multiset(s - {m}) && |rest| == |s - {m}|
    ensures SortedBy([m] + rest, leq) && multiset([m] + rest) == multiset(s) && |[m] + rest| == |s|
  {
    assert multiset(s) == multiset(s - {m}) + multiset{m};
    forall i | 0 <= i < |rest| ensures leq(m, rest[i]) {
      assert rest[i] in multiset(rest);
    }
  }

  lemma {:induction false} NoDuplicatesIsSet<T(!new)>(a: seq<T>)
    requires NoDuplicates(a)
    ensures multiset(a) == multiset(Elements(a))
    ensures |a| == |Elements(a)|
  {
    if a != [] {
      NoDuplicatesIsSet(a[1..]);
      assert a == [a[0]] + a[1..];
      assert Elements(a) == Elements(a[1..]) + {a[0]};
      assert a[0] !in Elements(a[1..]);
    }
  }

  /** The converse: a list as long as its set of elements repeats nothing. */
  lemma {:induction false} SetSizeMeansNoDuplicates<T(!new)>(a: seq<T>)
    ensures |Elements(a)| <= |a|
    ensures |Elements(a)| == |a| ==> NoDuplicates(a)
  {
    if a != [] {
      SetSizeMeansNoDuplicates(a[1..]);
      assert a == [a[0]] + a[1..];
      assert Elements(a) == Elements(a[1..]) + {a[0]};
      if |Elements(a)| == |a| {
        assert a[0] !in Elements(a[1..]);
        assert forall j | 1 <= j < |a| :: a[j] in Elements(a[1..]);
        forall i, j | 0 <= i < j < |a| ensures a[i] != a[j] {
          if i > 0 { assert a[1..][i - 1] != a[1..][j - 1]; }
        }
      }
    }
  }

  /** Lists of the same elements, with multiplicity. */
  lemma PermutedElements<T(!new)>(a: seq<T>, b: seq<T>)
    requires multiset(a) == multiset(b)
    ensures Elements(a) == Elements(b) && |a| == |b|
    ensures NoDuplicates(a) <==> NoDuplicates(b)
  {
    forall x ensures x in a <==> x in b {
      assert x in a <==> x in multiset(a);
      assert x in b <==> x in multiset(b);
    }
    assert |multiset(a)| == |a| && |multiset(b)| == |b|;
    if NoDuplicates(a) { NoDuplicatesIsSet(a); }
    if NoDuplicates(b) { NoDuplicatesIsSet(b); }
    SetSizeMeansNoDuplicates(a);
    SetSizeMeansNoDuplicates(b);
  }

  lemma SortedSetElements<T(!new)>(s: set<T>, leq: (T, T) -> bool)
    requires TotalOrder(leq)
    ensures Elements(SortedSet(s, leq)) == s
    ensures NoDuplicates(SortedSet(s, leq))
  {
    var r := SortedSet(s, leq);
    forall x ensures x in r <==> x in s {
      assert x in r <==> x in multiset(r);
    }
    assert Elements(r) == s;
    SetSizeMeansNoDuplicates(r);
  }

  lemma SortedListIsSortedSet<T(!new)>(a: seq<T>, s: set<T>, leq: (T, T) -> bool)
    requires TotalOrder(leq) && SortedBy(a, leq) && NoDuplicates(a) && Elements(a) == s
    ensures a == SortedSet(s, leq)
  {
    NoDuplicatesIsSet(a);
    SortedIsUnique(a, SortedSet(s, leq), leq);
  }

  /** The elements of a set, each once, in no promised order. */
  method AnyOrder<T(==, !new)>(all: set<T>) returns (rows: seq<T>)
    ensures NoDuplicates(rows) && Elements(rows) == all
  {
    var left := all;
    rows := [];
    while left != {}
      invariant NoDuplicates(rows) && Elements(rows) + left == all && Elements(rows) !! left
      decreases left
    {
      var k :| k in left;
      assert k !in Elements(rows);
      assert Elements(rows + [k]) == Elements(rows) + {k};
      rows := rows + [k];
      left := left - {k};
    }
  }
}
