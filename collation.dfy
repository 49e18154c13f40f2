/**
 * The ordering step of `_get_collections`: the vulnerability list is
 * sorted by name, then (stably) by descending CVSS. The two passes
 * together are one stable sort by (CVSS descending, name ascending).
 */
module Collation {
  import opened Entities
  import opened Ordering
  import opened StableSort

  /** The list after `sort(key=name)` followed by `sort(key=cvss, reverse=True)`. */
  function Collate(s: seq<Vulnerability>): (r: seq<Vulnerability>)
    ensures multiset(r) == multiset(s)
  {
    SortBy(SortBy(s, Before(ByName)), Before(ByCvssDesc))
  }

  /** Sorting by CVSS keeps ties sorted by name, so the result is sorted by
      (CVSS descending, name ascending). */
  lemma SortedByBoth(r: seq<Vulnerability>)
    requires SortedBy(r, Before(ByCvssDesc))
    requires TiesSortedBy(r, Before(ByCvssDesc), Before(ByName))
    ensures SortedBy(r, Before(ByCvssDescThenName))
  {
    forall i, j | 0 <= i < j < |r|
      ensures !Precedes(ByCvssDescThenName, r[j], r[i])
    {
      assert !Before(ByCvssDesc)(r[j], r[i]);
      if r[i].cvss == r[j].cvss {
        TiedIsSameKey(ByCvssDesc, r[i], r[j]);
        assert !Before(ByName)(r[j], r[i]);
      }
    }
  }

  /** Ties under (CVSS, name) are the elements tied under CVSS and under name. */
  lemma TiedBoth(e: Vulnerability)
    ensures forall y :: Tied(Before(ByCvssDescThenName), y, e)
                    <==> Tied(Before(ByCvssDesc), y, e) && Tied(Before(ByName), y, e)
  {
    forall y
      ensures Tied(Before(ByCvssDescThenName), y, e)
          <==> Tied(Before(ByCvssDesc), y, e) && Tied(Before(ByName), y, e)
    {
      TiedIsSameKey(ByCvssDescThenName, y, e);
      TiedIsSameKey(ByCvssDesc, y, e);
      TiedIsSameKey(ByName, y, e);
    }
  }

  /** Vulnerabilities with equal CVSS and equal name keep their original
      relative order: those tied with `e` appear in the collated list in
      their input order. */
  lemma CollateStable(s: seq<Vulnerability>, e: Vulnerability)
    ensures KeyClass(Collate(s), Before(ByCvssDescThenName), e) == KeyClass(s, Before(ByCvssDescThenName), e)
  {
    var n, c, cn := Before(ByName), Before(ByCvssDesc), Before(ByCvssDescThenName);
    BeforeIsStrictWeakOrder(ByName);
    BeforeIsStrictWeakOrder(ByCvssDesc);
    TiedBoth(e);
    var t := SortBy(s, n);
    calc {
      KeyClass(Collate(s), cn, e);
      { KeyClassNested(Collate(s), c, n, cn, e); }
      KeyClass(KeyClass(SortBy(t, c), c, e), n, e);
      { SortByStable(t, c, e); }
      KeyClass(KeyClass(t, c, e), n, e);
      { KeyClassNested(t, c, n, cn, e); KeyClassNested(t, n, c, cn, e); }
      KeyClass(KeyClass(t, n, e), c, e);
      { SortByStable(s, n, e); }
      KeyClass(KeyClass(s, n, e), c, e);
      { KeyClassNested(s, n, c, cn, e); }
      KeyClass(s, cn, e);
    }
  }

  /** The two passes give exactly one stable sort by (CVSS descending,
      name ascending). */
  lemma CollateIsSortByCvssThenName(s: seq<Vulnerability>)
    ensures Collate(s) == SortBy(s, Before(ByCvssDescThenName))
  {
    var n, c, cn := Before(ByName), Before(ByCvssDesc), Before(ByCvssDescThenName);
    BeforeIsStrictWeakOrder(ByName);
    BeforeIsStrictWeakOrder(ByCvssDesc);
    BeforeIsStrictWeakOrder(ByCvssDescThenName);
    var t := SortBy(s, n);
    SortBySorted(s, n);
    SortBySorted(t, c);
    SortByKeepsTies(t, c, n);
    SortedByBoth(Collate(s));
    SortBySorted(s, cn);
    forall e
      ensures KeyClass(Collate(s), cn, e) == KeyClass(SortBy(s, cn), cn, e)
    {
      CollateStable(s, e);
      SortByStable(s, cn, e);
    }
    SortedUnique(Collate(s), SortBy(s, cn), cn);
  }

  /** The collated list is ordered by non-increasing CVSS, and by
      non-decreasing name among equal CVSS scores. */
  lemma CollateOrdered(s: seq<Vulnerability>, i: int, j: int)
    requires 0 <= i < j < |Collate(s)|
    ensures Collate(s)[i].cvss >= Collate(s)[j].cvss
    ensures Collate(s)[i].cvss == Collate(s)[j].cvss ==> !NameLt(Collate(s)[j].name, Collate(s)[i].name)
  {
    CollateIsSortByCvssThenName(s);
    BeforeIsStrictWeakOrder(ByCvssDescThenName);
    SortBySorted(s, Before(ByCvssDescThenName));
    assert !Before(ByCvssDescThenName)(Collate(s)[j], Collate(s)[i]);
  }

  /** Collating an already collated list changes nothing. */
  lemma CollateIdempotent(s: seq<Vulnerability>)
    ensures Collate(Collate(s)) == Collate(s)
  {
    var cn := Before(ByCvssDescThenName);
    BeforeIsStrictWeakOrder(ByCvssDescThenName);
    CollateIsSortByCvssThenName(s);
    CollateIsSortByCvssThenName(Collate(s));
    SortBySorted(s, cn);
    SortByOfSorted(Collate(s), cn);
  }

  /** The two in-place sorts at the start of `_get_collections`. */
  method SortVulnerabilities(a: array<Vulnerability>)
    modifies a
    ensures a[..] == Collate(old(a[..]))
  {
    SortInPlace(a, Before(ByName));
    SortInPlace(a, Before(ByCvssDesc));
  }
}
