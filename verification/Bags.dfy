/** Sums over the entries of a finite map, independent of the order in which they are taken. */
module Bags {

  ghost function Sum<T>(f: map<string, multiset<T>>): multiset<T> {
    if f == map[] then multiset{}
    else
      var k :| k in f;
      f[k] + Sum(f - {k})
  }

  ghost function Total(f: map<string, nat>): nat {
    if f == map[] then 0
    else
      var k :| k in f;
      f[k] + Total(f - {k})
  }

  lemma TwiceLess<T>(f: map<string, T>, k: string, p: string)
    ensures f - {k} - {p} == f - {p} - {k}
  {
  }

  /** Any entry may be taken first. */
  lemma {:induction false} SumTake<T>(f: map<string, multiset<T>>, k: string)
    requires k in f
    ensures Sum(f) == f[k] + Sum(f - {k})
    decreases |f|
  {
    var p :| p in f && Sum(f) == f[p] + Sum(f - {p});
    if p != k {
      SumTake(f - {p}, k);
      SumTake(f - {k}, p);
      TwiceLess(f, k, p);
    }
  }

  lemma {:induction false} TotalTake(f: map<string, nat>, k: string)
    requires k in f
    ensures Total(f) == f[k] + Total(f - {k})
    decreases |f|
  {
    var p :| p in f && Total(f) == f[p] + Total(f - {p});
    if p != k {
      TotalTake(f - {p}, k);
      TotalTake(f - {k}, p);
      TwiceLess(f, k, p);
    }
  }

  /** A sum is no larger than the total of its parts' bounds. */
  lemma {:induction false} SumBounded<T>(f: map<string, multiset<T>>, g: map<string, nat>)
    requires f.Keys == g.Keys && forall k :: k in f ==> |f[k]| <= g[k]
    ensures |Sum(f)| <= Total(g)
    decreases |f|
  {
    if f != map[] {
      var k :| k in f;
      SumTake(f, k);
      TotalTake(g, k);
      SumBounded(f - {k}, g - {k});
    }
  }

  /** A part split in two goes into two accumulators. */
  lemma Regroup<T>(done: multiset<T>, queued: multiset<T>, left: multiset<T>, all: multiset<T>,
                   e: multiset<T>, q: multiset<T>, rest: multiset<T>)
    requires done + queued + left == all && left == e + q + rest
    ensures (done + e) + (queued + q) + rest == all
  {
  }
}
