/** The admin table's comparator and the sort it drives. The sort is
    `Array.prototype.sort`, which is stable: it is modelled by insertion
    sort, once as a function on sequences (the specification) and once as
    the in-place algorithm on an array, proved to agree with it. */
module BookSort {
  import opened Types
  import opened Text
  import opened Seqs

  datatype SortField = Title | Author | CreatedAt
  datatype SortOrder = Asc | Desc

  /** The string a title or author sort reads (`a[sortField] || ''`; a
      record here always has both strings, so the fallback never applies). */
  function TextKey(f: SortField, b: Book): string
    requires f != CreatedAt
  {
    if f == Title then b.title else b.author
  }

  /** `x` and `y` carry the same value in the sorted field. */
  predicate SameKey(f: SortField, x: Book, y: Book)
  {
    match f
    case Title => x.title == y.title
    case Author => x.author == y.author
    case CreatedAt => x.createdAt == y.createdAt
  }

  /** The comparator: `createdAt` by numeric difference, title and author by
      string comparison; negated for descending order. */
  function Compare(f: SortField, o: SortOrder, x: Book, y: Book): (r: int)
    ensures r == 0 <==> SameKey(f, x, y)
  {
    if f == CreatedAt then
      var c := x.createdAt - y.createdAt;
      if o == Asc then c else -c
    else
      StrCompareZeroIff(TextKey(f, x), TextKey(f, y));
      var c := StrCompare(TextKey(f, x), TextKey(f, y));
      if o == Asc then c else -c
  }

  /** What "sorts before" means: an earlier timestamp for `createdAt`,
      lexicographically before for title and author; reversed for descending. */
  lemma CompareMeaning(f: SortField, o: SortOrder, x: Book, y: Book)
    ensures f == CreatedAt ==>
      (Compare(f, o, x, y) < 0 <==> if o == Asc then x.createdAt < y.createdAt else y.createdAt < x.createdAt)
    ensures f != CreatedAt ==>
      (Compare(f, o, x, y) < 0 <==>
        if o == Asc then LexLess(TextKey(f, x), TextKey(f, y)) else LexLess(TextKey(f, y), TextKey(f, x)))
  {
    if f != CreatedAt {
      var a, b := TextKey(f, x), TextKey(f, y);
      StrCompareLessIff(a, b);
      StrCompareLessIff(b, a);
      StrCompareAntisymmetric(a, b);
    }
  }

  /** Descending is the exact negation of ascending, and swapping the
      arguments negates the result. */
  lemma CompareAntisymmetric(f: SortField, o: SortOrder, x: Book, y: Book)
    ensures Compare(f, Desc, x, y) == -Compare(f, Asc, x, y)
    ensures Compare(f, o, x, y) == -Compare(f, o, y, x)
  {
    if f != CreatedAt {
      StrCompareAntisymmetric(TextKey(f, x), TextKey(f, y));
    }
  }

  lemma CompareTransitive(f: SortField, o: SortOrder, x: Book, y: Book, z: Book)
    requires Compare(f, o, x, y) < 0 && Compare(f, o, y, z) < 0
    ensures Compare(f, o, x, z) < 0
  {
    if f != CreatedAt {
      var a, b, c := TextKey(f, x), TextKey(f, y), TextKey(f, z);
      if o == Asc {
        StrCompareTransitive(a, b, c);
      } else {
        StrCompareAntisymmetric(a, b);
        StrCompareAntisymmetric(b, c);
        StrCompareAntisymmetric(a, c);
        StrCompareTransitive(c, b, a);
      }
    }
  }

  /** Insertion of `x` into an already sorted `t`: `x` moves left past every
      element that compares strictly greater, and stops behind the first that
      does not, so it stays after the equal ones. */
  function Insert(t: seq<Book>, x: Book, f: SortField, o: SortOrder): (r: seq<Book>)
    ensures |r| == |t| + 1
    decreases |t|
  {
    if t == [] || Compare(f, o, t[|t| - 1], x) <= 0 then t + [x]
    else Insert(t[..|t| - 1], x, f, o) + [t[|t| - 1]]
  }

  /** Insertion adds `x` and loses nothing. */
  lemma {:induction false} InsertPermutes(t: seq<Book>, x: Book, f: SortField, o: SortOrder)
    ensures multiset(Insert(t, x, f, o)) == multiset(t) + multiset{x}
    decreases |t|
  {
    if !(t == [] || Compare(f, o, t[|t| - 1], x) <= 0) {
      InsertPermutes(t[..|t| - 1], x, f, o);
      assert t == t[..|t| - 1] + [t[|t| - 1]];
    }
  }

  /** The stable sort of `s` under the comparator: each element in turn is
      inserted into the sorted prefix before it. */
  function SortBy(s: seq<Book>, f: SortField, o: SortOrder): (r: seq<Book>)
    ensures |r| == |s|
    decreases |s|
  {
    if s == [] then []
    else Insert(SortBy(s[..|s| - 1], f, o), s[|s| - 1], f, o)
  }

  /** The sort is a permutation: every record comes out as often as it went in. */
  lemma {:induction false} SortByPermutes(s: seq<Book>, f: SortField, o: SortOrder)
    ensures multiset(SortBy(s, f, o)) == multiset(s)
    decreases |s|
  {
    if s != [] {
      SortByPermutes(s[..|s| - 1], f, o);
      InsertPermutes(SortBy(s[..|s| - 1], f, o), s[|s| - 1], f, o);
      assert s == s[..|s| - 1] + [s[|s| - 1]];
    }
  }

  /** Adjacent pairs are in order under the comparator. */
  predicate Sorted(r: seq<Book>, f: SortField, o: SortOrder)
  {
    forall i :: 0 < i < |r| ==> Compare(f, o, r[i - 1], r[i]) <= 0
  }

  /** The last element of an insertion is `x` itself or the last element of
      the list it was inserted into. */
  lemma InsertLast(t: seq<Book>, x: Book, f: SortField, o: SortOrder)
    ensures Insert(t, x, f, o)[|t|] == x || (t != [] && Insert(t, x, f, o)[|t|] == t[|t| - 1])
  {
  }

  lemma SortedSnoc(u: seq<Book>, y: Book, f: SortField, o: SortOrder)
    requires Sorted(u, f, o)
    requires u == [] || Compare(f, o, u[|u| - 1], y) <= 0
    ensures Sorted(u + [y], f, o)
  {
    var r := u + [y];
    forall i | 0 < i < |r| ensures Compare(f, o, r[i - 1], r[i]) <= 0 {
      if i < |u| {
        assert r[i - 1] == u[i - 1] && r[i] == u[i];
      }
    }
  }

  lemma {:induction false} InsertSorted(t: seq<Book>, x: Book, f: SortField, o: SortOrder)
    requires Sorted(t, f, o)
    ensures Sorted(Insert(t, x, f, o), f, o)
    decreases |t|
  {
    if t == [] || Compare(f, o, t[|t| - 1], x) <= 0 {
      SortedSnoc(t, x, f, o);
    } else {
      var t', y := t[..|t| - 1], t[|t| - 1];
      assert Sorted(t', f, o) by {
        forall i | 0 < i < |t'| ensures Compare(f, o, t'[i - 1], t'[i]) <= 0 {
          assert t'[i - 1] == t[i - 1] && t'[i] == t[i];
        }
      }
      InsertSorted(t', x, f, o);
      var u := Insert(t', x, f, o);
      InsertLast(t', x, f, o);
      CompareAntisymmetric(f, o, y, x);
      if u[|t'|] != x {
        assert u[|u| - 1] == t[|t| - 2];
      }
      SortedSnoc(u, y, f, o);
    }
  }

  /** The sort's output is in order. */
  lemma {:induction false} SortBySorted(s: seq<Book>, f: SortField, o: SortOrder)
    ensures Sorted(SortBy(s, f, o), f, o)
    decreases |s|
  {
    if s != [] {
      SortBySorted(s[..|s| - 1], f, o);
      InsertSorted(SortBy(s[..|s| - 1], f, o), s[|s| - 1], f, o);
    }
  }

  /** The records of one key value, in order. */
  function KeyIs(f: SortField, k: Book): Book -> bool
  {
    (e: Book) => SameKey(f, e, k)
  }

  /** Two records that cannot both pass a filter may trade places without
      changing what the filter keeps. */
  lemma FilterSwapPair(x: Book, y: Book, p: Book -> bool)
    requires !(p(x) && p(y))
    ensures Filter([x], p) + Filter([y], p) == Filter([y], p) + Filter([x], p)
  {
    FilterOne(x, p);
    FilterOne(y, p);
  }

  /** The filter step behind stability: appending `y` after a list that
      filters like `t'` followed by `x` filters like `t'` followed by `y`
      and then `x`, when `x` and `y` cannot both pass. */
  lemma FilterPastPair(u: seq<Book>, t': seq<Book>, x: Book, y: Book, p: Book -> bool)
    requires Filter(u, p) == Filter(t', p) + Filter([x], p)
    requires !(p(x) && p(y))
    ensures Filter(u + [y], p) == Filter(t' + [y], p) + Filter([x], p)
  {
    var fx, fy := Filter([x], p), Filter([y], p);
    calc {
      Filter(u + [y], p);
      { FilterAppend(u, [y], p); }
      Filter(t', p) + fx + fy;
      { FilterSwapPair(x, y, p); }
      Filter(t', p) + fy + fx;
      { FilterAppend(t', [y], p); }
      Filter(t' + [y], p) + fx;
    }
  }

  lemma {:induction false} InsertStable(t: seq<Book>, x: Book, f: SortField, o: SortOrder, k: Book)
    ensures Filter(Insert(t, x, f, o), KeyIs(f, k)) == Filter(t, KeyIs(f, k)) + Filter([x], KeyIs(f, k))
    decreases |t|
  {
    var p := KeyIs(f, k);
    if t == [] || Compare(f, o, t[|t| - 1], x) <= 0 {
      FilterAppend(t, [x], p);
    } else {
      var t', y := t[..|t| - 1], t[|t| - 1];
      assert t == t' + [y];
      InsertStable(t', x, f, o, k);
      // y compares strictly after x, so the two cannot share k's key value
      assert !SameKey(f, y, x);
      FilterPastPair(Insert(t', x, f, o), t', x, y, p);
    }
  }

  /** Stability: the records sharing any one key value come out in the order
      they went in, whatever the direction. */
  lemma {:induction false} SortByStable(s: seq<Book>, f: SortField, o: SortOrder, k: Book)
    ensures Filter(SortBy(s, f, o), KeyIs(f, k)) == Filter(s, KeyIs(f, k))
    decreases |s|
  {
    if s != [] {
      var s', x := s[..|s| - 1], s[|s| - 1];
      SortByStable(s', f, o, k);
      InsertStable(SortBy(s', f, o), x, f, o, k);
      assert s == s' + [x];
      FilterAppend(s', [x], KeyIs(f, k));
    }
  }

  /** When every key is equal, the sort leaves the list as it is. */
  lemma {:induction false} AllTiesKeepOrder(s: seq<Book>, f: SortField, o: SortOrder)
    requires forall i :: 0 <= i < |s| ==> SameKey(f, s[i], s[0])
    ensures SortBy(s, f, o) == s
    decreases |s|
  {
    if s != [] {
      var s', x := s[..|s| - 1], s[|s| - 1];
      assert s == s' + [x];
      assert SortBy(s, f, o) == Insert(SortBy(s', f, o), x, f, o);
      if s' != [] {
        assert forall i :: 0 <= i < |s'| ==> s'[i] == s[i];
        AllTiesKeepOrder(s', f, o);
        assert SameKey(f, s'[|s'| - 1], x);
        assert Insert(s', x, f, o) == s' + [x];
      }
    }
  }

  /** No two records share a key value. */
  predicate DistinctKeys(s: seq<Book>, f: SortField)
  {
    forall i, j :: 0 <= i < j < |s| ==> !SameKey(f, s[i], s[j])
  }

  lemma DistinctSnoc(u: seq<Book>, y: Book, f: SortField)
    requires DistinctKeys(u, f)
    requires forall e :: e in u ==> !SameKey(f, e, y)
    ensures DistinctKeys(u + [y], f)
  {
    var r := u + [y];
    forall i, j | 0 <= i < j < |r| ensures !SameKey(f, r[i], r[j]) {
      assert r[i] == u[i];
      if j < |u| {
        assert r[j] == u[j];
      } else {
        assert r[i] in u;
      }
    }
  }

  /** Every record of an insertion is `x` or comes from the list. */
  lemma InsertMembers(t: seq<Book>, x: Book, f: SortField, o: SortOrder, e: Book)
    requires e in Insert(t, x, f, o)
    ensures e == x || e in t
  {
    InsertPermutes(t, x, f, o);
    assert e in multiset(Insert(t, x, f, o));
  }

  lemma {:induction false} InsertDistinct(t: seq<Book>, x: Book, f: SortField, o: SortOrder)
    requires DistinctKeys(t, f)
    requires forall e :: e in t ==> !SameKey(f, e, x)
    ensures DistinctKeys(Insert(t, x, f, o), f)
    decreases |t|
  {
    if t == [] || Compare(f, o, t[|t| - 1], x) <= 0 {
      DistinctSnoc(t, x, f);
    } else {
      var t', y := t[..|t| - 1], t[|t| - 1];
      assert t == t' + [y];
      assert DistinctKeys(t', f) by {
        forall i, j | 0 <= i < j < |t'| ensures !SameKey(f, t'[i], t'[j]) {
          assert t'[i] == t[i] && t'[j] == t[j];
        }
      }
      InsertDistinct(t', x, f, o);
      var u := Insert(t', x, f, o);
      forall e | e in u ensures !SameKey(f, e, y) {
        InsertMembers(t', x, f, o, e);
        if e in t' {
          var m :| 0 <= m < |t'| && t'[m] == e;
          assert t[m] == e;
        }
      }
      DistinctSnoc(u, y, f);
    }
  }

  lemma {:induction false} SortByDistinct(s: seq<Book>, f: SortField, o: SortOrder)
    requires DistinctKeys(s, f)
    ensures DistinctKeys(SortBy(s, f, o), f)
    decreases |s|
  {
    if s != [] {
      var s', x := s[..|s| - 1], s[|s| - 1];
      SortByDistinct(s', f, o);
      var t := SortBy(s', f, o);
      SortByPermutes(s', f, o);
      forall e | e in t ensures !SameKey(f, e, x) {
        assert e in multiset(t);
        assert e in s';
        var m :| 0 <= m < |s'| && s'[m] == e;
        assert s[m] == e;
      }
      InsertDistinct(t, x, f, o);
    }
  }

  /** Every earlier record compares strictly before every later one. */
  predicate StrictlyOrdered(r: seq<Book>, f: SortField, o: SortOrder)
  {
    forall i, j :: 0 <= i < j < |r| ==> Compare(f, o, r[i], r[j]) < 0
  }

  lemma {:induction false} SortedDistinctStrict(r: seq<Book>, f: SortField, o: SortOrder)
    requires Sorted(r, f, o) && DistinctKeys(r, f)
    ensures StrictlyOrdered(r, f, o)
  {
    forall i, j | 0 <= i < j < |r| ensures Compare(f, o, r[i], r[j]) < 0 {
      StrictFrom(r, f, o, i, j);
    }
  }

  lemma {:induction false} StrictFrom(r: seq<Book>, f: SortField, o: SortOrder, i: nat, j: nat)
    requires Sorted(r, f, o) && DistinctKeys(r, f)
    requires i < j < |r|
    ensures Compare(f, o, r[i], r[j]) < 0
    decreases j - i
  {
    assert Compare(f, o, r[j - 1], r[j]) <= 0;
    if i < j - 1 {
      StrictFrom(r, f, o, i, j - 1);
      CompareTransitive(f, o, r[i], r[j - 1], r[j]);
    }
  }

  /** Two strictly ordered arrangements of the same records start alike. */
  lemma StrictlyOrderedSameHead(r1: seq<Book>, r2: seq<Book>, f: SortField, o: SortOrder)
    requires StrictlyOrdered(r1, f, o) && StrictlyOrdered(r2, f, o)
    requires multiset(r1) == multiset(r2) && r1 != []
    ensures r2 != [] && r1[0] == r2[0]
  {
    assert r1[0] in multiset(r2);
    var k :| 0 <= k < |r2| && r2[k] == r1[0];
    assert r2[0] in multiset(r1);
    var m :| 0 <= m < |r1| && r1[m] == r2[0];
    if k > 0 && m > 0 {
      CompareAntisymmetric(f, o, r2[0], r2[k]);
      assert false;
    }
  }

  lemma MultisetTail<T>(a: seq<T>, b: seq<T>)
    requires a != [] && b != [] && a[0] == b[0] && multiset(a) == multiset(b)
    ensures multiset(a[1..]) == multiset(b[1..])
  {
    assert a == [a[0]] + a[1..] && b == [b[0]] + b[1..];
    var ta, tb := multiset(a[1..]), multiset(b[1..]);
    forall e ensures ta[e] == tb[e] {
      assert multiset(a)[e] == multiset{a[0]}[e] + ta[e];
      assert multiset(b)[e] == multiset{a[0]}[e] + tb[e];
    }
  }

  /** Two strictly ordered arrangements of the same records are the same list. */
  lemma {:induction false} StrictlyOrderedUnique(r1: seq<Book>, r2: seq<Book>, f: SortField, o: SortOrder)
    requires StrictlyOrdered(r1, f, o) && StrictlyOrdered(r2, f, o)
    requires multiset(r1) == multiset(r2)
    ensures r1 == r2
    decreases |r1|
  {
    if r1 != [] {
      StrictlyOrderedSameHead(r1, r2, f, o);
      MultisetTail(r1, r2);
      StrictlyOrderedUnique(r1[1..], r2[1..], f, o);
      assert r1 == [r1[0]] + r1[1..] && r2 == [r2[0]] + r2[1..];
    } else {
      assert |multiset(r2)| == 0;
    }
  }

  /** With no two records sharing a key, the sort's output is the one
      strictly ordered arrangement of the input's records. */
  lemma SortByIsUniqueArrangement(s: seq<Book>, r: seq<Book>, f: SortField, o: SortOrder)
    requires DistinctKeys(s, f)
    requires StrictlyOrdered(r, f, o) && multiset(r) == multiset(s)
    ensures SortBy(s, f, o) == r
  {
    SortBySorted(s, f, o);
    SortByDistinct(s, f, o);
    SortedDistinctStrict(SortBy(s, f, o), f, o);
    SortByPermutes(s, f, o);
    StrictlyOrderedUnique(SortBy(s, f, o), r, f, o);
  }

  lemma ReverseStrict(r: seq<Book>, f: SortField)
    requires StrictlyOrdered(r, f, Asc)
    ensures StrictlyOrdered(Reverse(r), f, Desc)
  {
    var v := Reverse(r);
    forall i, j | 0 <= i < j < |v| ensures Compare(f, Desc, v[i], v[j]) < 0 {
      assert Compare(f, Asc, r[|r| - 1 - j], r[|r| - 1 - i]) < 0;
      CompareAntisymmetric(f, Asc, v[j], v[i]);
      CompareAntisymmetric(f, Asc, v[i], v[j]);
    }
  }

  /** With no two records sharing a key, descending order is exactly the
      reverse of ascending order. */
  lemma DescendingReversesAscending(s: seq<Book>, f: SortField)
    requires DistinctKeys(s, f)
    ensures SortBy(s, f, Desc) == Reverse(SortBy(s, f, Asc))
  {
    var up, down := SortBy(s, f, Asc), SortBy(s, f, Desc);
    SortBySorted(s, f, Asc);
    SortBySorted(s, f, Desc);
    SortByDistinct(s, f, Asc);
    SortByDistinct(s, f, Desc);
    SortedDistinctStrict(up, f, Asc);
    SortedDistinctStrict(down, f, Desc);
    ReverseStrict(up, f);
    ReversePermutes(up);
    SortByPermutes(s, f, Asc);
    SortByPermutes(s, f, Desc);
    StrictlyOrderedUnique(down, Reverse(up), f, Desc);
  }

  /** The comparator reads only the sorted field: records sharing its value
      compare alike against any other record. */
  lemma CompareReadsKeyOnly(f: SortField, o: SortOrder, x: Book, y: Book, z: Book)
    requires SameKey(f, y, z)
    ensures Compare(f, o, x, y) == Compare(f, o, x, z)
    ensures Compare(f, o, y, x) == Compare(f, o, z, x)
  {
  }

  /** "Not after" is transitive. */
  lemma CompareAtMostTransitive(f: SortField, o: SortOrder, x: Book, y: Book, z: Book)
    requires Compare(f, o, x, y) <= 0 && Compare(f, o, y, z) <= 0
    ensures Compare(f, o, x, z) <= 0
  {
    if Compare(f, o, x, y) == 0 {
      CompareReadsKeyOnly(f, o, z, x, y);
    } else if Compare(f, o, y, z) == 0 {
      CompareReadsKeyOnly(f, o, x, y, z);
    } else {
      CompareTransitive(f, o, x, y, z);
    }
  }

  /** In an ordered list, the head is not after any later record. */
  lemma {:induction false} SortedHeadFirst(r: seq<Book>, f: SortField, o: SortOrder, m: nat)
    requires Sorted(r, f, o) && 0 < m < |r|
    ensures Compare(f, o, r[0], r[m]) <= 0
    decreases m
  {
    if m > 1 {
      SortedHeadFirst(r, f, o, m - 1);
      CompareAtMostTransitive(f, o, r[0], r[m - 1], r[m]);
    }
  }

  /** Filtering a non-empty list: its head, if it passes, then the filtered tail. */
  lemma FilterCons(r: seq<Book>, p: Book -> bool)
    requires r != []
    ensures Filter(r, p) == (if p(r[0]) then [r[0]] else []) + Filter(r[1..], p)
  {
  }

  /** Two lists agree key class by key class: for every key value, the
      records carrying it appear in the same order in both. */
  ghost predicate SameKeyClasses(r1: seq<Book>, r2: seq<Book>, f: SortField)
  {
    forall k :: Filter(r1, KeyIs(f, k)) == Filter(r2, KeyIs(f, k))
  }

  /** The head of an ordered list lies in its own key class, so a list with
      the same key classes holds it too, and not before its own head. */
  lemma HeadNotAfter(r1: seq<Book>, r2: seq<Book>, f: SortField, o: SortOrder)
    requires Sorted(r2, f, o) && SameKeyClasses(r1, r2, f) && r1 != []
    ensures r2 != [] && Compare(f, o, r2[0], r1[0]) <= 0
  {
    var x := r1[0];
    var p := KeyIs(f, x);
    FilterCons(r1, p);
    assert x in Filter(r2, p);
    assert x in multiset(Filter(r2, p));
    assert x in r2;
    var m :| 0 <= m < |r2| && r2[m] == x;
    if m > 0 {
      SortedHeadFirst(r2, f, o, m);
    }
  }

  /** Ordered lists with the same key classes start with the same record,
      and their tails again have the same key classes. */
  lemma SameKeyClassesHead(r1: seq<Book>, r2: seq<Book>, f: SortField, o: SortOrder)
    requires Sorted(r1, f, o) && Sorted(r2, f, o) && SameKeyClasses(r1, r2, f) && r1 != []
    ensures r2 != [] && r1[0] == r2[0] && SameKeyClasses(r1[1..], r2[1..], f)
  {
    HeadNotAfter(r1, r2, f, o);
    HeadNotAfter(r2, r1, f, o);
    var x, y := r1[0], r2[0];
    CompareAntisymmetric(f, o, x, y);
    var p := KeyIs(f, x);
    FilterCons(r1, p);
    FilterCons(r2, p);
    assert x == y;
    forall k ensures Filter(r1[1..], KeyIs(f, k)) == Filter(r2[1..], KeyIs(f, k)) {
      FilterCons(r1, KeyIs(f, k));
      FilterCons(r2, KeyIs(f, k));
    }
  }

  /** Two ordered lists with the same key classes are equal. */
  lemma {:induction false} SortedSameKeyClassesEqual(r1: seq<Book>, r2: seq<Book>, f: SortField, o: SortOrder)
    requires Sorted(r1, f, o) && Sorted(r2, f, o) && SameKeyClasses(r1, r2, f)
    ensures r1 == r2
    decreases |r1|
  {
    if r1 != [] {
      SameKeyClassesHead(r1, r2, f, o);
      SortedTail(r1, f, o);
      SortedTail(r2, f, o);
      SortedSameKeyClassesEqual(r1[1..], r2[1..], f, o);
      assert r1 == [r1[0]] + r1[1..] && r2 == [r2[0]] + r2[1..];
    } else if r2 != [] {
      HeadNotAfter(r2, r1, f, o);
    }
  }

  lemma SortedTail(r: seq<Book>, f: SortField, o: SortOrder)
    requires Sorted(r, f, o) && r != []
    ensures Sorted(r[1..], f, o)
  {
    forall i | 0 < i < |r| - 1 ensures Compare(f, o, r[1..][i - 1], r[1..][i]) <= 0 {
      assert r[1..][i - 1] == r[i] && r[1..][i] == r[i + 1];
    }
  }

  /** Any ordered, stable rearrangement of `s` is the sort of `s`: so every
      stable sort under this comparator gives the same output, ties included. */
  lemma StableSortIsUnique(s: seq<Book>, r: seq<Book>, f: SortField, o: SortOrder)
    requires Sorted(r, f, o)
    requires forall k :: Filter(r, KeyIs(f, k)) == Filter(s, KeyIs(f, k))
    ensures r == SortBy(s, f, o)
  {
    SortBySorted(s, f, o);
    forall k ensures Filter(SortBy(s, f, o), KeyIs(f, k)) == Filter(s, KeyIs(f, k)) {
      SortByStable(s, f, o, k);
    }
    SortedSameKeyClassesEqual(r, SortBy(s, f, o), f, o);
  }

  /** Swapping `x` (at index j) with a strictly greater left neighbour keeps
      "inserting x into the part left of it, followed by the rest, gives
      Insert(t, x)". */
  lemma SwapStep(b: seq<Book>, j: nat, i: nat, x: Book, t: seq<Book>, f: SortField, o: SortOrder)
    requires 0 < j <= i < |b| && b[j] == x
    requires Compare(f, o, b[j - 1], x) > 0
    requires Insert(b[..j], x, f, o) + b[j + 1..i + 1] == Insert(t, x, f, o)
    ensures var c := b[j - 1 := x][j := b[j - 1]];
      Insert(c[..j - 1], x, f, o) + c[j..i + 1] == Insert(t, x, f, o) && c[j - 1] == x && c[i + 1..] == b[i + 1..]
  {
    var c := b[j - 1 := x][j := b[j - 1]];
    var p, y, rest := b[..j - 1], b[j - 1], b[j + 1..i + 1];
    SwapSlices(b, j, i);
    assert b[..j] == p + [y];
    InsertPastGreater(p, y, x, f, o);
    calc {
      Insert(c[..j - 1], x, f, o) + c[j..i + 1];
      Insert(p, x, f, o) + ([y] + rest);
      (Insert(p, x, f, o) + [y]) + rest;
      Insert(b[..j], x, f, o) + rest;
    }
  }

  /** The slices of a list after swapping positions j - 1 and j. */
  lemma SwapSlices(b: seq<Book>, j: nat, i: nat)
    requires 0 < j <= i < |b|
    ensures var c := b[j - 1 := b[j]][j := b[j - 1]];
      c[..j - 1] == b[..j - 1] && c[j - 1] == b[j] &&
      c[j..i + 1] == [b[j - 1]] + b[j + 1..i + 1] && c[i + 1..] == b[i + 1..]
  {
    var c := b[j - 1 := b[j]][j := b[j - 1]];
    assert c[j..i + 1] == [c[j]] + c[j + 1..i + 1];
    assert c[j + 1..i + 1] == b[j + 1..i + 1];
  }

  /** Inserting `x` past a strictly greater last element. */
  lemma InsertPastGreater(p: seq<Book>, y: Book, x: Book, f: SortField, o: SortOrder)
    requires Compare(f, o, y, x) > 0
    ensures Insert(p + [y], x, f, o) == Insert(p, x, f, o) + [y]
  {
    assert (p + [y])[..|p|] == p;
  }

  /** Once `x` meets no strictly greater left neighbour, the prefix up to
      index i is Insert(t, x). */
  lemma StopStep(b: seq<Book>, j: nat, i: nat, x: Book, t: seq<Book>, f: SortField, o: SortOrder)
    requires j <= i < |b| && b[j] == x
    requires j == 0 || Compare(f, o, b[j - 1], x) <= 0
    requires Insert(b[..j], x, f, o) + b[j + 1..i + 1] == Insert(t, x, f, o)
    ensures b[..i + 1] == Insert(t, x, f, o)
  {
    var p := b[..j];
    assert Insert(p, x, f, o) == p + [x] by {
      if j > 0 { assert p[|p| - 1] == b[j - 1]; }
    }
    var r, q := b[..i + 1], p + [x] + b[j + 1..i + 1];
    assert |r| == |q|;
    forall m | 0 <= m <= i ensures r[m] == q[m] {
    }
    assert r == q;
  }

  /** One step of the in-place sort: the element at index `i` is swapped
      leftwards into the sorted prefix before it. */
  method InsertAt(a: array<Book>, i: nat, f: SortField, o: SortOrder)
    requires i < a.Length
    modifies a
    ensures a[..i + 1] == Insert(old(a[..i]), old(a[i]), f, o)
    ensures a[i + 1..] == old(a[i + 1..])
  {
    ghost var t, x := a[..i], a[i];
    assert a[..i + 1] == t + [x];
    var j := i;
    while j > 0 && Compare(f, o, a[j - 1], a[j]) > 0
      invariant 0 <= j <= i
      invariant a[j] == x
      invariant Insert(a[..j], x, f, o) + a[j + 1..i + 1] == Insert(t, x, f, o)
      invariant a[i + 1..] == old(a[i + 1..])
    {
      ghost var b := a[..];
      SwapStep(b, j, i, x, t, f, o);
      a[j - 1], a[j] := a[j], a[j - 1];
      assert a[..] == b[j - 1 := x][j := b[j - 1]];
      j := j - 1;
    }
    StopStep(a[..], j, i, x, t, f, o);
  }

  /** One pass of the outer loop, on snapshots: if `b` holds the sort of
      the first i inputs followed by the untouched rest, and `c` is `b` with
      its i-th element inserted, then `c` holds the sort of i + 1 inputs. */
  lemma SortStep(b: seq<Book>, c: seq<Book>, s: seq<Book>, i: nat, f: SortField, o: SortOrder)
    requires |b| == |c| == |s| && i < |s|
    requires b[..i] == SortBy(s[..i], f, o) && b[i..] == s[i..]
    requires c[..i + 1] == Insert(b[..i], b[i], f, o) && c[i + 1..] == b[i + 1..]
    ensures c[..i + 1] == SortBy(s[..i + 1], f, o) && c[i + 1..] == s[i + 1..]
  {
    var s' := s[..i + 1];
    assert s'[..i] == s[..i] && s'[i] == s[i];
    assert b[i] == b[i..][0] == s[i..][0] == s[i];
    assert b[i + 1..] == b[i..][1..] == s[i..][1..] == s[i + 1..];
  }

  /** `filtered.sort(comparator)`: sorts the array in place; the result is
      the stable sort of what the array held. */
  method SortInPlace(a: array<Book>, f: SortField, o: SortOrder)
    modifies a
    ensures a[..] == SortBy(old(a[..]), f, o)
  {
    ghost var s := a[..];
    var i := 0;
    while i < a.Length
      invariant 0 <= i <= a.Length
      invariant a[..i] == SortBy(s[..i], f, o)
      invariant a[i..] == s[i..]
    {
      ghost var b := a[..];
      InsertAt(a, i, f, o);
      SortStep(b, a[..], s, i, f, o);
      i := i + 1;
    }
    assert a[..] == a[..a.Length] && s == s[..a.Length];
  }
}
