/**
 * The orders the vulnerability list is sorted by. Python compares
 * strings lexicographically by code point; `list.sort(key=..., reverse=True)`
 * sorts by descending key and, being stable, keeps equal keys in order.
 */
module Ordering {
  import opened Entities
  import opened StableSort

  /** Python's `a < b` on `str`: lexicographic by code point, a proper
      prefix before the longer string. */
  predicate NameLt(a: string, b: string)
  {
    if |a| == 0 then |b| > 0
    else if |b| == 0 then false
    else if a[0] == b[0] then NameLt(a[1..], b[1..])
    else a[0] < b[0]
  }

  lemma {:induction false} NameLtIrreflexive(a: string)
    ensures !NameLt(a, a)
  {
    if |a| > 0 {
      NameLtIrreflexive(a[1..]);
    }
  }

  lemma {:induction false} NameLtTransitive(a: string, b: string, c: string)
    requires NameLt(a, b) && NameLt(b, c)
    ensures NameLt(a, c)
  {
    if |a| > 0 && |b| > 0 && |c| > 0 && a[0] == b[0] && b[0] == c[0] {
      NameLtTransitive(a[1..], b[1..], c[1..]);
    }
  }

  /** Any two different strings are ordered one way or the other. */
  lemma {:induction false} NameLtTotal(a: string, b: string)
    ensures a == b || NameLt(a, b) || NameLt(b, a)
    ensures !(NameLt(a, b) && NameLt(b, a))
  {
    if |a| > 0 && |b| > 0 && a[0] == b[0] {
      NameLtTotal(a[1..], b[1..]);
      if a[1..] == b[1..] {
        assert a == [a[0]] + a[1..] && b == [b[0]] + b[1..];
      }
    }
  }

  /** The keys the list is sorted by: the first pass (`key=name`), the
      second pass (`key=cvss, reverse=True`), and the combined order the
      two passes produce together. */
  datatype SortKey = ByName | ByCvssDesc | ByCvssDescThenName

  /** `x` must come strictly before `y` when sorting by `k`. */
  predicate Precedes(k: SortKey, x: Vulnerability, y: Vulnerability)
  {
    match k
    case ByName => NameLt(x.name, y.name)
    case ByCvssDesc => x.cvss > y.cvss
    case ByCvssDescThenName => x.cvss > y.cvss || (x.cvss == y.cvss && NameLt(x.name, y.name))
  }

  /** `x` and `y` have equal sort keys under `k`. */
  predicate SameKey(k: SortKey, x: Vulnerability, y: Vulnerability)
  {
    match k
    case ByName => x.name == y.name
    case ByCvssDesc => x.cvss == y.cvss
    case ByCvssDescThenName => x.cvss == y.cvss && x.name == y.name
  }

  /** `Precedes(k, _, _)` is a strict weak order whose incomparability
      relation is `SameKey(k, _, _)`: the laws a stable sort relies on. */
  lemma PrecedesIsStrictWeakOrder(k: SortKey, x: Vulnerability, y: Vulnerability, z: Vulnerability)
    ensures !Precedes(k, x, x)
    ensures Precedes(k, x, y) ==> !Precedes(k, y, x)
    ensures Precedes(k, x, y) && Precedes(k, y, z) ==> Precedes(k, x, z)
    ensures !Precedes(k, x, y) && !Precedes(k, y, x) <==> SameKey(k, x, y)
  {
    NameLtIrreflexive(x.name);
    NameLtTotal(x.name, y.name);
    if NameLt(x.name, y.name) && NameLt(y.name, z.name) {
      NameLtTransitive(x.name, y.name, z.name);
    }
  }

  /** Not preceding is transitive too (negative transitivity). */
  lemma NotPrecedesTransitive(k: SortKey, x: Vulnerability, y: Vulnerability, z: Vulnerability)
    requires !Precedes(k, x, y) && !Precedes(k, y, z)
    ensures !Precedes(k, x, z)
  {
    PrecedesIsStrictWeakOrder(k, x, y, z);
    PrecedesIsStrictWeakOrder(k, x, z, y);
    PrecedesIsStrictWeakOrder(k, z, x, y);
    PrecedesIsStrictWeakOrder(k, y, z, x);
    if Precedes(k, x, z) {
      NameLtTotal(x.name, y.name);
      NameLtTotal(y.name, z.name);
      if NameLt(x.name, z.name) {
        if NameLt(z.name, y.name) { NameLtTransitive(x.name, z.name, y.name); }
        if NameLt(y.name, x.name) { NameLtTransitive(y.name, x.name, z.name); }
      }
    }
  }

  /** The comparison a sort by `k` uses, as the order parameter of `SortBy`. */
  function Before(k: SortKey): (Vulnerability, Vulnerability) -> bool
  {
    (x, y) => Precedes(k, x, y)
  }

  /** Each of the three sort keys gives a strict weak order. */
  lemma BeforeIsStrictWeakOrder(k: SortKey)
    ensures StrictWeakOrder(Before(k))
  {
    var b := Before(k);
    forall x
      ensures !b(x, x)
    {
      PrecedesIsStrictWeakOrder(k, x, x, x);
    }
    forall x, y, z | b(x, y) && b(y, z)
      ensures b(x, z)
    {
      PrecedesIsStrictWeakOrder(k, x, y, z);
    }
    forall x, y, z | !b(x, y) && !b(y, z)
      ensures !b(x, z)
    {
      NotPrecedesTransitive(k, x, y, z);
    }
  }

  /** Elements are tied under `Before(k)` exactly when their keys are equal. */
  lemma TiedIsSameKey(k: SortKey, x: Vulnerability, y: Vulnerability)
    ensures Tied(Before(k), x, y) <==> SameKey(k, x, y)
  {
    PrecedesIsStrictWeakOrder(k, x, y, y);
  }
}
