/**
 `ordenarDiscos`: the loaded albums sorted by total duration, ascending or
 descending, with the stable `Array.prototype.sort`. A stable sort is pinned
 down by three facts: the result is a permutation, it is sorted, and for
 every total the albums having that total appear in their prior order.
 */
module Sorting {
  import opened Albums
  import opened Catalogs

  datatype Order = Ascending | Descending

  /** The sort key: `duracionTotal()`. */
  function Key(a: Album): (k: int) { TotalDuration(a) }

  /**
   `x` may stand before `y`: the comparator `a - b` (ascending) or `b - a`
   (descending) is not positive.
   */
  predicate InOrder(o: Order, x: Album, y: Album)
  {
    match o
    case Ascending => Key(x) <= Key(y)
    case Descending => Key(x) >= Key(y)
  }

  predicate Sorted(o: Order, s: seq<Album>)
  {
    forall i, j :: 0 <= i < j < |s| ==> InOrder(o, s[i], s[j])
  }

  /** The albums of `s` whose total is `k`, in their order in `s`. */
  function KeyFilter(s: seq<Album>, k: int): (r: seq<Album>)
    ensures |r| <= |s|
  {
    if |s| == 0 then []
    else (if Key(s[0]) == k then [s[0]] else []) + KeyFilter(s[1..], k)
  }

  /** `r` is what a stable sort of `s` in order `o` yields. */
  ghost predicate IsStableSortOf(o: Order, r: seq<Album>, s: seq<Album>)
  {
    && multiset(r) == multiset(s)
    && Sorted(o, r)
    && forall k :: KeyFilter(r, k) == KeyFilter(s, k)
  }

  /** Puts `x` before the first album of `s` it may stand before. */
  function Insert(o: Order, x: Album, s: seq<Album>): (r: seq<Album>)
    ensures multiset(r) == multiset(s) + multiset{x}
  {
    if |s| == 0 then [x]
    else if InOrder(o, x, s[0]) then [x] + s
    else
      assert s == [s[0]] + s[1..];
      [s[0]] + Insert(o, x, s[1..])
  }

  /** Insertion sort: the first album is inserted into the sorted rest, before its equals. */
  function SortBy(o: Order, s: seq<Album>): (r: seq<Album>)
    ensures multiset(r) == multiset(s)
  {
    if |s| == 0 then []
    else
      assert s == [s[0]] + s[1..];
      Insert(o, s[0], SortBy(o, s[1..]))
  }

  lemma FilterCons(a: Album, s: seq<Album>, k: int)
    ensures KeyFilter([a] + s, k) == (if Key(a) == k then [a] else []) + KeyFilter(s, k)
  {
    assert ([a] + s)[1..] == s;
  }

  lemma {:induction false} FilterConcat(s: seq<Album>, t: seq<Album>, k: int)
    ensures KeyFilter(s + t, k) == KeyFilter(s, k) + KeyFilter(t, k)
    decreases |s|
  {
    if |s| == 0 {
      assert s + t == t;
    } else {
      FilterConcat(s[1..], t, k);
      assert s + t == [s[0]] + (s[1..] + t);
      FilterCons(s[0], s[1..] + t, k);
    }
  }

  /** The albums kept are albums of the list with the total asked for. */
  lemma {:induction false} FilterMembers(s: seq<Album>, k: int)
    ensures forall i :: 0 <= i < |KeyFilter(s, k)| ==> KeyFilter(s, k)[i] in s && Key(KeyFilter(s, k)[i]) == k
    decreases |s|
  {
    if |s| > 0 {
      FilterMembers(s[1..], k);
      assert s == [s[0]] + s[1..];
      FilterCons(s[0], s[1..], k);
    }
  }

  /** A total that no album of the list has keeps nothing. */
  lemma {:induction false} FilterNone(s: seq<Album>, k: int)
    requires forall i :: 0 <= i < |s| ==> Key(s[i]) != k
    ensures KeyFilter(s, k) == []
    decreases |s|
  {
    if |s| > 0 {
      FilterNone(s[1..], k);
    }
  }

  /** Inserting `x` keeps, for every total, the order of the albums with that total, `x` first. */
  lemma {:induction false} InsertFilter(o: Order, x: Album, s: seq<Album>, k: int)
    ensures KeyFilter(Insert(o, x, s), k) == KeyFilter([x] + s, k)
    decreases |s|
  {
    if |s| > 0 && !InOrder(o, x, s[0]) {
      var s0, s1 := s[0], s[1..];
      assert s == [s0] + s1;
      var fx := if Key(x) == k then [x] else [];
      var f0 := if Key(s0) == k then [s0] else [];
      assert Key(x) != Key(s0);
      assert f0 + fx == fx + f0;
      calc {
        KeyFilter(Insert(o, x, s), k);
        KeyFilter([s0] + Insert(o, x, s1), k);
        { FilterCons(s0, Insert(o, x, s1), k); }
        f0 + KeyFilter(Insert(o, x, s1), k);
        { InsertFilter(o, x, s1, k); }
        f0 + KeyFilter([x] + s1, k);
        { FilterCons(x, s1, k); }
        f0 + (fx + KeyFilter(s1, k));
        (f0 + fx) + KeyFilter(s1, k);
        (fx + f0) + KeyFilter(s1, k);
        fx + (f0 + KeyFilter(s1, k));
        { FilterCons(s0, s1, k); }
        fx + KeyFilter(s, k);
        { FilterCons(x, s, k); }
        KeyFilter([x] + s, k);
      }
    }
  }

  lemma {:induction false} InsertSorted(o: Order, x: Album, s: seq<Album>)
    requires Sorted(o, s)
    ensures Sorted(o, Insert(o, x, s))
    decreases |s|
  {
    if |s| > 0 && !InOrder(o, x, s[0]) {
      var s0, s1 := s[0], s[1..];
      var t := Insert(o, x, s1);
      InsertSorted(o, x, s1);
      var r := [s0] + t;
      assert InOrder(o, s0, x);
      forall j | 0 < j < |r|
        ensures InOrder(o, s0, r[j])
      {
        assert r[j] == t[j - 1];
        assert r[j] in multiset(t);
        if r[j] != x {
          assert r[j] in multiset(s1);
          var m :| 0 <= m < |s1| && s1[m] == r[j];
          assert s[m + 1] == r[j];
        }
      }
    }
  }

  lemma {:induction false} SortFilter(o: Order, s: seq<Album>, k: int)
    ensures KeyFilter(SortBy(o, s), k) == KeyFilter(s, k)
    decreases |s|
  {
    if |s| > 0 {
      SortFilter(o, s[1..], k);
      InsertFilter(o, s[0], SortBy(o, s[1..]), k);
      FilterCons(s[0], SortBy(o, s[1..]), k);
      FilterCons(s[0], s[1..], k);
      assert s == [s[0]] + s[1..];
    }
  }

  lemma {:induction false} SortSorted(o: Order, s: seq<Album>)
    ensures Sorted(o, SortBy(o, s))
    decreases |s|
  {
    if |s| > 0 {
      SortSorted(o, s[1..]);
      InsertSorted(o, s[0], SortBy(o, s[1..]));
    }
  }

  /** The insertion sort is a stable sort. */
  lemma SortByIsStable(o: Order, s: seq<Album>)
    ensures IsStableSortOf(o, SortBy(o, s), s)
  {
    SortSorted(o, s);
    forall k
      ensures KeyFilter(SortBy(o, s), k) == KeyFilter(s, k)
    {
      SortFilter(o, s, k);
    }
  }

  lemma InOrderBothWays(o: Order, x: Album, y: Album)
    requires InOrder(o, x, y) && InOrder(o, y, x)
    ensures Key(x) == Key(y)
  {
  }

  /**
   Two sorted lists that agree on the albums of every total are equal, so
   the stable sort of a list is unique: any stable sort gives the same result.
   */
  lemma {:induction false} SortedWithSameFiltersEqual(o: Order, r1: seq<Album>, r2: seq<Album>)
    requires Sorted(o, r1) && Sorted(o, r2)
    requires forall k :: KeyFilter(r1, k) == KeyFilter(r2, k)
    ensures r1 == r2
    decreases |r1|
  {
    if |r1| == 0 || |r2| == 0 {
      if |r1| > 0 {
        assert r1 == [r1[0]] + r1[1..];
        FilterCons(r1[0], r1[1..], Key(r1[0]));
      } else if |r2| > 0 {
        assert r2 == [r2[0]] + r2[1..];
        FilterCons(r2[0], r2[1..], Key(r2[0]));
      }
    } else {
      var a, b := r1[0], r2[0];
      var t1, t2 := r1[1..], r2[1..];
      assert r1 == [a] + t1 && r2 == [b] + t2;
      FilterCons(b, t2, Key(b));
      FilterMembers(r1, Key(b));
      assert KeyFilter(r1, Key(b))[0] == b;
      assert b in r1;
      var m :| 0 <= m < |r1| && r1[m] == b;
      assert InOrder(o, a, b) by {
        if m > 0 { assert InOrder(o, r1[0], r1[m]); }
      }
      FilterCons(a, t1, Key(a));
      FilterMembers(r2, Key(a));
      assert KeyFilter(r2, Key(a))[0] == a;
      assert a in r2;
      var m' :| 0 <= m' < |r2| && r2[m'] == a;
      assert InOrder(o, b, a) by {
        if m' > 0 { assert InOrder(o, r2[0], r2[m']); }
      }
      InOrderBothWays(o, a, b);
      assert a == b;
      forall k
        ensures KeyFilter(t1, k) == KeyFilter(t2, k)
      {
        FilterCons(a, t1, k);
        FilterCons(b, t2, k);
        var fa := if Key(a) == k then [a] else [];
        assert KeyFilter(t1, k) == KeyFilter(r1, k)[|fa|..];
        assert KeyFilter(t2, k) == KeyFilter(r2, k)[|fa|..];
      }
      SortedWithSameFiltersEqual(o, t1, t2);
    }
  }

  /**
   `ordenarDiscos(orden)`: `'asc'` and `'desc'` sort stably by total
   duration; any other value leaves the list as it is.
   */
  function SortCatalog(c: Catalog, orden: string): (r: Catalog)
    ensures orden == "asc" ==> IsStableSortOf(Ascending, r, c)
    ensures orden == "desc" ==> IsStableSortOf(Descending, r, c)
    ensures orden != "asc" && orden != "desc" ==> r == c
  {
    if orden == "asc" then
      SortByIsStable(Ascending, c);
      SortBy(Ascending, c)
    else if orden == "desc" then
      SortByIsStable(Descending, c);
      SortBy(Descending, c)
    else c
  }

  /** Whatever the order asked for, the result is a stable sort in that order. */
  lemma SortCatalogUnique(c: Catalog, orden: string, o: Order, r: Catalog)
    requires orden == "asc" || orden == "desc"
    requires o == (if orden == "asc" then Ascending else Descending)
    requires IsStableSortOf(o, r, c)
    ensures SortCatalog(c, orden) == r
  {
    var sorted := SortCatalog(c, orden);
    forall k
      ensures KeyFilter(sorted, k) == KeyFilter(r, k)
    {
      assert KeyFilter(sorted, k) == KeyFilter(c, k);
    }
    SortedWithSameFiltersEqual(o, sorted, r);
  }

  /**
   Sorting forgets a previous sort: sorting the already sorted list in
   either order gives what sorting the original list in that order gives.
   In particular sorting twice in the same order changes nothing.
   */
  lemma ResortForgetsPriorSort(o1: Order, o2: Order, s: seq<Album>)
    ensures SortBy(o2, SortBy(o1, s)) == SortBy(o2, s)
  {
    var first := SortBy(o1, s);
    SortByIsStable(o1, s);
    SortByIsStable(o2, first);
    SortByIsStable(o2, s);
    var again, direct := SortBy(o2, first), SortBy(o2, s);
    forall k
      ensures KeyFilter(again, k) == KeyFilter(direct, k)
    {
      assert KeyFilter(again, k) == KeyFilter(first, k);
    }
    SortedWithSameFiltersEqual(o2, again, direct);
  }

  /** The list reversed. */
  function Reverse(s: seq<Album>): (r: seq<Album>)
    ensures |r| == |s|
    ensures forall i :: 0 <= i < |s| ==> r[i] == s[|s| - 1 - i]
  {
    if |s| == 0 then [] else Reverse(s[1..]) + [s[0]]
  }

  lemma {:induction false} ReverseFilter(s: seq<Album>, k: int)
    ensures KeyFilter(Reverse(s), k) == Reverse(KeyFilter(s, k))
    decreases |s|
  {
    if |s| > 0 {
      ReverseFilter(s[1..], k);
      FilterConcat(Reverse(s[1..]), [s[0]], k);
      FilterCons(s[0], [], k);
      FilterCons(s[0], s[1..], k);
      assert s == [s[0]] + s[1..];
      var head := if Key(s[0]) == k then [s[0]] else [];
      ReverseConcat(head, KeyFilter(s[1..], k));
      assert Reverse(head) == head;
      assert [s[0]][1..] == [];
    }
  }

  lemma ReverseConcat(s: seq<Album>, t: seq<Album>)
    ensures Reverse(s + t) == Reverse(t) + Reverse(s)
  {
    var l, r := Reverse(s + t), Reverse(t) + Reverse(s);
    assert |l| == |r|;
    forall i | 0 <= i < |l|
      ensures l[i] == r[i]
    {
      if i < |t| {
        assert r[i] == t[|t| - 1 - i];
      } else {
        assert r[i] == Reverse(s)[i - |t|];
      }
    }
  }

  /** No two albums of the list have the same total duration. */
  predicate DistinctKeys(s: seq<Album>)
  {
    forall i, j :: 0 <= i < j < |s| ==> Key(s[i]) != Key(s[j])
  }

  lemma DistinctKeysFilter(s: seq<Album>, k: int)
    requires DistinctKeys(s)
    ensures |KeyFilter(s, k)| <= 1
    decreases |s|
  {
    if |s| > 0 {
      var s0, s1 := s[0], s[1..];
      assert s == [s0] + s1;
      FilterCons(s0, s1, k);
      assert forall i :: 0 <= i < |s1| ==> s1[i] == s[i + 1];
      if Key(s0) == k {
        assert forall i :: 0 <= i < |s1| ==> Key(s1[i]) != k;
        FilterNone(s1, k);
      } else {
        assert DistinctKeys(s1);
        DistinctKeysFilter(s1, k);
      }
    }
  }

  /**
   When no two albums share a total, the descending order is exactly the
   ascending order reversed.
   */
  lemma DescendingReversesAscending(s: seq<Album>)
    requires DistinctKeys(s)
    ensures SortBy(Descending, s) == Reverse(SortBy(Ascending, s))
  {
    var asc, desc := SortBy(Ascending, s), SortBy(Descending, s);
    SortByIsStable(Ascending, s);
    SortByIsStable(Descending, s);
    var rev := Reverse(asc);
    assert Sorted(Descending, rev) by {
      forall i, j | 0 <= i < j < |rev|
        ensures InOrder(Descending, rev[i], rev[j])
      {
        assert InOrder(Ascending, asc[|asc| - 1 - j], asc[|asc| - 1 - i]);
      }
    }
    forall k
      ensures KeyFilter(desc, k) == KeyFilter(rev, k)
    {
      ReverseFilter(asc, k);
      DistinctKeysFilter(s, k);
      var f := KeyFilter(s, k);
      assert Reverse(f) == f;
    }
    SortedWithSameFiltersEqual(Descending, desc, rev);
  }

  lemma ConsDistinct(a: Album, s: seq<Album>)
    ensures DistinctCodes([a] + s) <==>
      DistinctCodes(s) && forall i :: 0 <= i < |s| ==> s[i].code != a.code
  {
    var t := [a] + s;
    assert t[0] == a;
    assert forall i :: 0 <= i < |s| ==> t[i + 1] == s[i];
    if DistinctCodes(t) {
      forall i | 0 <= i < |s|
        ensures s[i].code != a.code
      {
        assert t[0].code != t[i + 1].code;
      }
      forall i, j | 0 <= i < j < |s|
        ensures s[i].code != s[j].code
      {
        assert t[i + 1].code != t[j + 1].code;
      }
    }
    if DistinctCodes(s) && forall i :: 0 <= i < |s| ==> s[i].code != a.code {
      forall i, j | 0 <= i < j < |t|
        ensures t[i].code != t[j].code
      {
        assert t[j] == s[j - 1];
        if i > 0 { assert t[i] == s[i - 1]; }
      }
    }
  }

  lemma {:induction false} InsertKeepsDistinct(o: Order, x: Album, s: seq<Album>)
    requires DistinctCodes([x] + s)
    ensures DistinctCodes(Insert(o, x, s))
    decreases |s|
  {
    if |s| > 0 && !InOrder(o, x, s[0]) {
      var s0, s1 := s[0], s[1..];
      assert s == [s0] + s1;
      ConsDistinct(x, s);
      ConsDistinct(s0, s1);
      ConsDistinct(x, s1);
      InsertKeepsDistinct(o, x, s1);
      var t := Insert(o, x, s1);
      forall i | 0 <= i < |t|
        ensures t[i].code != s0.code
      {
        assert t[i] in multiset(t);
        if t[i] != x {
          assert t[i] in multiset(s1);
          var m :| 0 <= m < |s1| && s1[m] == t[i];
        }
      }
      ConsDistinct(s0, t);
    }
  }

  lemma {:induction false} SortKeepsDistinct(o: Order, s: seq<Album>)
    requires DistinctCodes(s)
    ensures DistinctCodes(SortBy(o, s))
    decreases |s|
  {
    if |s| > 0 {
      var s0, s1 := s[0], s[1..];
      assert s == [s0] + s1;
      ConsDistinct(s0, s1);
      SortKeepsDistinct(o, s1);
      var t := SortBy(o, s1);
      forall i | 0 <= i < |t|
        ensures t[i].code != s0.code
      {
        assert t[i] in multiset(t);
        assert t[i] in multiset(s1);
        var m :| 0 <= m < |s1| && s1[m] == t[i];
      }
      ConsDistinct(s0, t);
      InsertKeepsDistinct(o, s0, t);
    }
  }

  /** Sorting keeps the loaded codes distinct. */
  lemma SortCatalogKeepsDistinct(c: Catalog, orden: string)
    requires DistinctCodes(c)
    ensures DistinctCodes(SortCatalog(c, orden))
  {
    if orden == "asc" {
      SortKeepsDistinct(Ascending, c);
    } else if orden == "desc" {
      SortKeepsDistinct(Descending, c);
    }
  }
}
