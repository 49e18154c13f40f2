/**
 * The counters `_get_collections` returns next to the sorted list: the
 * number of vulnerabilities per severity level, the number of distinct
 * affected host IPs per level, and the number of vulnerabilities per
 * family. A Python `Counter` is a map whose missing keys read as 0.
 */
module Collections {
  import opened Entities
  import opened Collation
  import StableSort

  // ---------------------------------------------------------------
  // Counting
  // ---------------------------------------------------------------

  /** Number of elements of `s` satisfying `p`. */
  function Count<T>(s: seq<T>, p: T -> bool): nat
    decreases |s|
  {
    if s == [] then 0
    else Count(s[..|s| - 1], p) + (if p(s[|s| - 1]) then 1 else 0)
  }

  lemma CountSnoc<T>(s: seq<T>, x: T, p: T -> bool)
    ensures Count(s + [x], p) == Count(s, p) + (if p(x) then 1 else 0)
  {
    assert (s + [x])[..|s|] == s;
  }

  lemma {:induction false} CountConcat<T>(a: seq<T>, b: seq<T>, p: T -> bool)
    ensures Count(a + b, p) == Count(a, p) + Count(b, p)
    decreases |b|
  {
    if b == [] {
      assert a + b == a;
    } else {
      var b' := b[..|b| - 1];
      assert a + b == (a + b') + [b[|b| - 1]];
      CountSnoc(a + b', b[|b| - 1], p);
      CountConcat(a, b', p);
    }
  }

  /** Counting does not depend on the order of the elements. */
  lemma {:induction false} CountPermutation<T>(a: seq<T>, b: seq<T>, p: T -> bool)
    requires multiset(a) == multiset(b)
    ensures Count(a, p) == Count(b, p)
    decreases |a|
  {
    if a != [] {
      var x, a' := a[|a| - 1], a[..|a| - 1];
      StableSort.ButLast(a);
      assert multiset(a) == multiset(a') + multiset{x};
      assert x in b by {
        assert x in multiset(b);
      }
      var k :| 0 <= k < |b| && b[k] == x;
      var b' := b[..k] + b[k + 1..];
      RemoveAt(b, k);
      MultisetCancel(multiset(a'), multiset(b'), x);
      CountPermutation(a', b', p);
      RemoveAtCount(b[..k], x, b[k + 1..], p);
      CountSnoc(a', x, p);
    }
  }

  lemma MultisetCancel<T>(m: multiset<T>, n: multiset<T>, x: T)
    requires m + multiset{x} == n + multiset{x}
    ensures m == n
  {
    assert m == (m + multiset{x}) - multiset{x};
    assert n == (n + multiset{x}) - multiset{x};
  }

  /** Taking out the element at `k` removes one copy of it. */
  lemma RemoveAt<T>(b: seq<T>, k: nat)
    requires k < |b|
    ensures b == (b[..k] + [b[k]]) + b[k + 1..]
    ensures multiset(b) == multiset(b[..k] + b[k + 1..]) + multiset{b[k]}
  {
    assert b == (b[..k] + [b[k]]) + b[k + 1..];
  }

  lemma RemoveAtCount<T>(c: seq<T>, x: T, d: seq<T>, p: T -> bool)
    ensures Count((c + [x]) + d, p) == Count(c + d, p) + (if p(x) then 1 else 0)
  {
    CountConcat(c + [x], d, p);
    CountSnoc(c, x, p);
    CountConcat(c, d, p);
  }

  /** `vuln_levels[l]` after the loop: the vulnerabilities of level `l`. */
  function LevelCount(vs: seq<Vulnerability>, l: Level): nat
  {
    Count(vs, (v: Vulnerability) => v.level == l)
  }

  /** `vuln_by_family[f]` after the loop: the vulnerabilities of family `f`,
      each counted once whatever its number of hosts. */
  function FamilyCount(vs: seq<Vulnerability>, f: string): nat
  {
    Count(vs, (v: Vulnerability) => v.family == f)
  }

  /** Reading a `Counter`: a key never incremented reads as 0. */
  function CountOf<K>(m: map<K, nat>, key: K): nat
  {
    if key in m then m[key] else 0
  }

  /** The five levels in `level_choices` order. */
  const AllLevels: seq<Level> := [Critical, High, Medium, Low, None]

  /** Every vulnerability has exactly one level, so the per-level counts
      add up to the length of the list. */
  lemma {:induction false} LevelCountsSum(vs: seq<Vulnerability>)
    ensures LevelCount(vs, Critical) + LevelCount(vs, High) + LevelCount(vs, Medium)
            + LevelCount(vs, Low) + LevelCount(vs, None) == |vs|
    decreases |vs|
  {
    if vs != [] {
      LevelCountsSum(vs[..|vs| - 1]);
    }
  }

  /** An empty list leaves every level counter at 0. */
  lemma LevelCountsEmpty(l: Level)
    ensures LevelCount([], l) == 0
  {
  }

  // ---------------------------------------------------------------
  // Families, in the order the Counter first sees them
  // ---------------------------------------------------------------

  /** No value occurs twice. */
  ghost predicate NoDup<T>(s: seq<T>)
  {
    forall i, j :: 0 <= i < j < |s| ==> s[i] != s[j]
  }

  /** The families of `vs` in order of first appearance: the key order of
      `vuln_by_family`. */
  function FamilyOrder(vs: seq<Vulnerability>): (fs: seq<string>)
    decreases |vs|
  {
    if vs == [] then []
    else
      var fs := FamilyOrder(vs[..|vs| - 1]);
      if vs[|vs| - 1].family in fs then fs else fs + [vs[|vs| - 1].family]
  }

  /** `FamilyOrder` lists each family of `vs` exactly once, and nothing else. */
  lemma {:induction false} FamilyOrderSpec(vs: seq<Vulnerability>)
    ensures NoDup(FamilyOrder(vs))
    ensures forall f :: f in FamilyOrder(vs) <==> FamilyCount(vs, f) > 0
    decreases |vs|
  {
    if vs != [] {
      var p, v := vs[..|vs| - 1], vs[|vs| - 1];
      FamilyOrderSpec(p);
      assert vs == p + [v];
      forall f
        ensures FamilyCount(vs, f) == FamilyCount(p, f) + (if v.family == f then 1 else 0)
      {
        CountSnoc(p, v, (w: Vulnerability) => w.family == f);
      }
    }
  }

  /** Occurrences of `x` in `s`. */
  function Occ<T(==)>(s: seq<T>, x: T): nat
  {
    Count(s, (y: T) => y == x)
  }

  lemma {:induction false} OccNoDup<T>(s: seq<T>, x: T)
    requires NoDup(s)
    ensures Occ(s, x) == (if x in s then 1 else 0)
    decreases |s|
  {
    if s != [] {
      var p := s[..|s| - 1];
      assert NoDup(p);
      OccNoDup(p, x);
      assert s == p + [s[|s| - 1]];
      CountSnoc(p, s[|s| - 1], (y: T) => y == x);
    }
  }

  /** Sum of the family counts of `vs` over the families `fs`. */
  function SumFamilyCounts(vs: seq<Vulnerability>, fs: seq<string>): nat
    decreases |fs|
  {
    if fs == [] then 0
    else SumFamilyCounts(vs, fs[..|fs| - 1]) + FamilyCount(vs, fs[|fs| - 1])
  }

  /** One more vulnerability adds one for each listing of its family. */
  lemma {:induction false} SumFamilyCountsSnoc(p: seq<Vulnerability>, v: Vulnerability, fs: seq<string>)
    ensures SumFamilyCounts(p + [v], fs) == SumFamilyCounts(p, fs) + Occ(fs, v.family)
    decreases |fs|
  {
    if fs != [] {
      SumFamilyCountsSnoc(p, v, fs[..|fs| - 1]);
      var f := fs[|fs| - 1];
      CountSnoc(p, v, (w: Vulnerability) => w.family == f);
    }
  }

  lemma SumFamilyCountsAppend(vs: seq<Vulnerability>, fs: seq<string>, f: string)
    ensures SumFamilyCounts(vs, fs + [f]) == SumFamilyCounts(vs, fs) + FamilyCount(vs, f)
  {
    assert (fs + [f])[..|fs|] == fs;
  }

  /** Each vulnerability adds exactly one to the counter of its family, so
      the family counts add up to the length of the list. */
  lemma {:induction false} FamilyCountsSum(vs: seq<Vulnerability>)
    ensures SumFamilyCounts(vs, FamilyOrder(vs)) == |vs|
    decreases |vs|
  {
    if vs != [] {
      var p, v := vs[..|vs| - 1], vs[|vs| - 1];
      assert vs == p + [v];
      var fs := FamilyOrder(p);
      FamilyCountsSum(p);
      FamilyOrderSpec(p);
      SumFamilyCountsSnoc(p, v, fs);
      OccNoDup(fs, v.family);
      if v.family !in fs {
        SumFamilyCountsAppend(vs, fs, v.family);
        CountSnoc(p, v, (w: Vulnerability) => w.family == v.family);
      }
    }
  }

  // ---------------------------------------------------------------
  // Affected hosts
  // ---------------------------------------------------------------

  /** The IPs of a list of occurrences. */
  function IpsOf(hosts: seq<Occurrence>): set<string>
    decreases |hosts|
  {
    if hosts == [] then {} else IpsOf(hosts[..|hosts| - 1]) + {hosts[|hosts| - 1].ip}
  }

  /** The distinct IPs with an occurrence of a vulnerability of level `l`. */
  function AffectedIps(vs: seq<Vulnerability>, l: Level): set<string>
    decreases |vs|
  {
    if vs == [] then {}
    else AffectedIps(vs[..|vs| - 1], l) + (if vs[|vs| - 1].level == l then IpsOf(vs[|vs| - 1].hosts) else {})
  }

  /** The distinct IPs of all occurrences in `vs`. */
  function AllIps(vs: seq<Vulnerability>): set<string>
    decreases |vs|
  {
    if vs == [] then {} else AllIps(vs[..|vs| - 1]) + IpsOf(vs[|vs| - 1].hosts)
  }

  lemma {:induction false} IpsOfSpec(hosts: seq<Occurrence>, ip: string)
    ensures ip in IpsOf(hosts) <==> exists o :: o in hosts && o.ip == ip
    decreases |hosts|
  {
    if hosts != [] {
      var p := hosts[..|hosts| - 1];
      IpsOfSpec(p, ip);
      assert hosts == p + [hosts[|hosts| - 1]];
    }
  }

  /** An IP is counted for level `l` exactly when some vulnerability of
      level `l` has an occurrence on it. */
  lemma {:induction false} AffectedIpsSpec(vs: seq<Vulnerability>, l: Level, ip: string)
    ensures ip in AffectedIps(vs, l) <==> exists v :: v in vs && v.level == l && ip in IpsOf(v.hosts)
    decreases |vs|
  {
    if vs != [] {
      var p := vs[..|vs| - 1];
      AffectedIpsSpec(p, l, ip);
      assert vs == p + [vs[|vs| - 1]];
    }
  }

  /** Every IP counted for one level is an IP of the input. */
  lemma {:induction false} AffectedIpsSubset(vs: seq<Vulnerability>, l: Level)
    ensures AffectedIps(vs, l) <= AllIps(vs)
    decreases |vs|
  {
    if vs != [] {
      AffectedIpsSubset(vs[..|vs| - 1], l);
    }
  }

  /** The per-level host count never exceeds the number of distinct IPs. */
  lemma AffectedIpsBound(vs: seq<Vulnerability>, l: Level)
    ensures |AffectedIps(vs, l)| <= |AllIps(vs)|
  {
    AffectedIpsSubset(vs, l);
    SubsetCard(AffectedIps(vs, l), AllIps(vs));
  }

  lemma {:induction false} SubsetCard<T>(a: set<T>, b: set<T>)
    requires a <= b
    ensures |a| <= |b|
    decreases |b|
  {
    if a != {} {
      var x :| x in a;
      SubsetCard(a - {x}, b - {x});
    }
  }

  /** The elements of a list. */
  function Elems<T>(s: seq<T>): set<T>
  {
    set x | x in s
  }

  /** Appending `x` adds `x` to the elements, and keeps a list without
      duplicates so when `x` is new. */
  lemma ElemsSnoc<T>(s: seq<T>, x: T)
    ensures Elems(s + [x]) == Elems(s) + {x}
    ensures NoDup(s) && x !in s ==> NoDup(s + [x])
  {
    assert forall y :: y in s + [x] <==> y in s || y == x;
  }

  /** A list without duplicates has as many elements as its set. */
  lemma {:induction false} NoDupCard<T>(s: seq<T>)
    requires NoDup(s)
    ensures |Elems(s)| == |s|
    decreases |s|
  {
    if s != [] {
      var p := s[..|s| - 1];
      assert NoDup(p);
      NoDupCard(p);
      assert Elems(s) == Elems(p) + {s[|s| - 1]};
    }
  }

  // ---------------------------------------------------------------
  // Independence from the order
  // ---------------------------------------------------------------

  /** The counters are the same for any reordering of the list, so
      counting after the sort gives the counts of the input. */
  lemma CountersIgnoreOrder(vs: seq<Vulnerability>, ws: seq<Vulnerability>)
    requires multiset(vs) == multiset(ws)
    ensures forall l :: LevelCount(vs, l) == LevelCount(ws, l)
    ensures forall f :: FamilyCount(vs, f) == FamilyCount(ws, f)
    ensures forall l :: AffectedIps(vs, l) == AffectedIps(ws, l)
  {
    forall l
      ensures LevelCount(vs, l) == LevelCount(ws, l)
    {
      CountPermutation(vs, ws, (v: Vulnerability) => v.level == l);
    }
    forall f
      ensures FamilyCount(vs, f) == FamilyCount(ws, f)
    {
      CountPermutation(vs, ws, (v: Vulnerability) => v.family == f);
    }
    forall l
      ensures AffectedIps(vs, l) == AffectedIps(ws, l)
    {
      forall ip
        ensures ip in AffectedIps(vs, l) <==> ip in AffectedIps(ws, l)
      {
        AffectedIpsSpec(vs, l, ip);
        AffectedIpsSpec(ws, l, ip);
        assert forall v :: v in vs <==> v in ws by {
          forall v
            ensures v in vs <==> v in ws
          {
            assert v in vs <==> v in multiset(vs);
            assert v in ws <==> v in multiset(ws);
          }
        }
      }
    }
  }

  // ---------------------------------------------------------------
  // The loop of `_get_collections`
  // ---------------------------------------------------------------

  /** The counting loop of `_get_collections` over the (already sorted)
      list `vs`, then the loop over the five levels that reads off the
      length of each level's IP list. */
  method Tally(vs: seq<Vulnerability>)
    returns (levels: map<Level, nat>, hostsByLevel: map<Level, nat>,
             byFamily: map<string, nat>, familyOrder: seq<string>)
    ensures forall l :: CountOf(levels, l) == LevelCount(vs, l)
    ensures forall l :: l in levels <==> LevelCount(vs, l) > 0
    ensures forall l :: l in hostsByLevel && hostsByLevel[l] == |AffectedIps(vs, l)|
    ensures forall f :: CountOf(byFamily, f) == FamilyCount(vs, f)
    ensures byFamily.Keys == Elems(familyOrder)
    ensures familyOrder == FamilyOrder(vs)
  {
    levels, byFamily, familyOrder := map[], map[], [];
    var ipLists: seq<seq<string>> := [[], [], [], [], []];
    var i := 0;
    while i < |vs|
      invariant 0 <= i <= |vs|
      invariant LevelsCounted(levels, vs[..i])
      invariant FamiliesCounted(byFamily, familyOrder, vs[..i])
      invariant IpsCollected(ipLists, vs[..i])
    {
      var v := vs[i];
      assert vs[..i + 1] == vs[..i] + [v];
      LevelsStep(levels, vs[..i], v);
      levels := levels[v.level := CountOf(levels, v.level) + 1];
      var k := LevelIndex(v.level);
      ghost var before := ipLists;
      ipLists := CollectIps(ipLists, k, v.hosts);
      IpsStep(before, ipLists, vs[..i], v);
      FamiliesStep(byFamily, familyOrder, vs[..i], v);
      if v.family !in byFamily {
        familyOrder := familyOrder + [v.family];
      }
      byFamily := byFamily[v.family := CountOf(byFamily, v.family) + 1];
      i := i + 1;
    }
    assert vs[..i] == vs;
    hostsByLevel := LengthsByLevel(ipLists);
    forall l
      ensures |ipLists[LevelIndex(l)]| == |AffectedIps(vs, l)|
    {
      NoDupCard(ipLists[LevelIndex(l)]);
    }
  }

  /** The closing loop over the five levels: each level's host count is
      the length of its IP list. */
  method LengthsByLevel(ipLists: seq<seq<string>>) returns (counts: map<Level, nat>)
    requires |ipLists| == 5
    ensures forall l :: l in counts && counts[l] == |ipLists[LevelIndex(l)]|
  {
    counts := map[];
    var t := 0;
    while t < |AllLevels|
      invariant 0 <= t <= |AllLevels|
      invariant forall l :: l in counts <==> l in AllLevels[..t]
      invariant forall l :: l in counts ==> counts[l] == |ipLists[LevelIndex(l)]|
    {
      var l := AllLevels[t];
      counts := counts[l := |ipLists[LevelIndex(l)]|];
      assert AllLevels[..t + 1] == AllLevels[..t] + [l];
      t := t + 1;
    }
    forall l
      ensures l in counts
    {
      assert l == AllLevels[LevelIndex(l)];
      assert AllLevels[..t] == AllLevels;
    }
  }

  /** The inner loop: adds each occurrence's IP to `lists[k]` unless it
      is already there. */
  method CollectIps(lists: seq<seq<string>>, k: nat, hosts: seq<Occurrence>) returns (r: seq<seq<string>>)
    requires k < |lists|
    ensures |r| == |lists|
    ensures forall m :: 0 <= m < |lists| && m != k ==> r[m] == lists[m]
    ensures NoDup(lists[k]) ==> NoDup(r[k])
    ensures Elems(r[k]) == Elems(lists[k]) + IpsOf(hosts)
  {
    r := lists;
    var j := 0;
    while j < |hosts|
      invariant 0 <= j <= |hosts| && |r| == |lists|
      invariant forall m :: 0 <= m < |lists| && m != k ==> r[m] == lists[m]
      invariant NoDup(lists[k]) ==> NoDup(r[k])
      invariant Elems(r[k]) == Elems(lists[k]) + IpsOf(hosts[..j])
    {
      var ip := hosts[j].ip;
      assert hosts[..j + 1][..j] == hosts[..j];
      assert IpsOf(hosts[..j + 1]) == IpsOf(hosts[..j]) + {ip};
      if ip !in r[k] {
        ElemsSnoc(r[k], ip);
        r := r[k := r[k] + [ip]];
      }
      j := j + 1;
    }
    assert hosts[..j] == hosts;
  }

  /** `levels` is `vuln_levels` after counting `p`. */
  ghost predicate LevelsCounted(levels: map<Level, nat>, p: seq<Vulnerability>)
  {
    forall l :: CountOf(levels, l) == LevelCount(p, l) && (l in levels <==> LevelCount(p, l) > 0)
  }

  /** `byFamily` is `vuln_by_family` after counting `p`, with its keys in
      the order `familyOrder`. */
  ghost predicate FamiliesCounted(byFamily: map<string, nat>, familyOrder: seq<string>, p: seq<Vulnerability>)
  {
    (forall f :: CountOf(byFamily, f) == FamilyCount(p, f)) &&
    byFamily.Keys == Elems(familyOrder) &&
    familyOrder == FamilyOrder(p)
  }

  /** `ipLists` is `vuln_hostcount_by_level` after visiting `p`. */
  ghost predicate IpsCollected(ipLists: seq<seq<string>>, p: seq<Vulnerability>)
  {
    |ipLists| == 5 &&
    forall l :: NoDup(ipLists[LevelIndex(l)]) && Elems(ipLists[LevelIndex(l)]) == AffectedIps(p, l)
  }

  lemma LevelsStep(levels: map<Level, nat>, p: seq<Vulnerability>, v: Vulnerability)
    requires LevelsCounted(levels, p)
    ensures LevelsCounted(levels[v.level := CountOf(levels, v.level) + 1], p + [v])
  {
    forall l
      ensures LevelCount(p + [v], l) == LevelCount(p, l) + (if v.level == l then 1 else 0)
    {
      CountSnoc(p, v, (w: Vulnerability) => w.level == l);
    }
  }

  lemma FamiliesStep(byFamily: map<string, nat>, familyOrder: seq<string>, p: seq<Vulnerability>, v: Vulnerability)
    requires FamiliesCounted(byFamily, familyOrder, p)
    ensures FamiliesCounted(byFamily[v.family := CountOf(byFamily, v.family) + 1],
                            if v.family in byFamily then familyOrder else familyOrder + [v.family], p + [v])
  {
    forall f
      ensures FamilyCount(p + [v], f) == FamilyCount(p, f) + (if v.family == f then 1 else 0)
    {
      CountSnoc(p, v, (w: Vulnerability) => w.family == f);
    }
    assert (p + [v])[..|p|] == p;
    ElemsSnoc(familyOrder, v.family);
  }

  lemma IpsStep(lists: seq<seq<string>>, next: seq<seq<string>>, p: seq<Vulnerability>, v: Vulnerability)
    requires IpsCollected(lists, p)
    requires |next| == 5
    requires forall m :: 0 <= m < 5 && m != LevelIndex(v.level) ==> next[m] == lists[m]
    requires NoDup(next[LevelIndex(v.level)])
    requires Elems(next[LevelIndex(v.level)]) == Elems(lists[LevelIndex(v.level)]) + IpsOf(v.hosts)
    ensures IpsCollected(next, p + [v])
  {
    assert (p + [v])[..|p|] == p;
    forall l
      ensures NoDup(next[LevelIndex(l)])
      ensures Elems(next[LevelIndex(l)]) == AffectedIps(p + [v], l)
    {
      LevelIndexInjective(l, v.level);
    }
  }

  /** `_get_collections`: sorts the list in place, then counts. The
      counters describe the input list, whatever its order. */
  method GetCollections(a: array<Vulnerability>)
    returns (levels: map<Level, nat>, hostsByLevel: map<Level, nat>,
             byFamily: map<string, nat>, familyOrder: seq<string>)
    modifies a
    ensures a[..] == Collate(old(a[..]))
    ensures forall l :: CountOf(levels, l) == LevelCount(old(a[..]), l)
    ensures forall l :: l in levels <==> LevelCount(old(a[..]), l) > 0
    ensures forall l :: l in hostsByLevel && hostsByLevel[l] == |AffectedIps(old(a[..]), l)|
    ensures forall f :: CountOf(byFamily, f) == FamilyCount(old(a[..]), f)
    ensures byFamily.Keys == Elems(familyOrder)
    ensures familyOrder == FamilyOrder(a[..])
  {
    SortVulnerabilities(a);
    levels, hostsByLevel, byFamily, familyOrder := Tally(a[..]);
    CountersIgnoreOrder(a[..], old(a[..]));
  }
}
