/** Lists put together row by row, as the checking loops put together their reports. */
module Reports {
  function Flatten<T>(rows: seq<seq<T>>): seq<T> { FlattenUpTo(rows, |rows|) }

  /** The first `n` rows in one. */
  function FlattenUpTo<T>(rows: seq<seq<T>>, n: nat): seq<T>
    requires n <= |rows|
  {
    if n == 0 then [] else FlattenUpTo(rows, n - 1) + rows[n - 1]
  }

  function When<T>(condition: bool, item: T): seq<T> {
    if condition then [item] else []
  }

  function Appended<T>(s: seq<T>, condition: bool, item: T): seq<T> { if condition then s + [item] else s }

  lemma TwoAppends<T>(s: seq<T>, a: bool, x: T, b: bool, y: T)
    ensures var s1 := if a then s + [x] else s; (if b then s1 + [y] else s1) == s + (When(a, x) + When(b, y))
  {
  }

  lemma FourAppends<T>(s: seq<T>, a: bool, x: T, b: bool, y: T, c: bool, z: T, d: bool, w: T)
    ensures Appended(Appended(Appended(Appended(s, a, x), b, y), c, z), d, w)
         == s + ((When(a, x) + When(b, y)) + (When(c, z) + When(d, w)))
  {
    var s2 := s + (When(a, x) + When(b, y));
    TwoAppends(s, a, x, b, y);
    TwoAppends(s2, c, z, d, w);
    Regrouped(s, When(a, x) + When(b, y), When(c, z) + When(d, w));
  }

  lemma Regrouped<T>(a: seq<T>, b: seq<T>, c: seq<T>)
    ensures (a + b) + c == a + (b + c)
  {
  }

  lemma {:induction false} FlattenMember<T>(rows: seq<seq<T>>, n: nat, x: T)
    requires n <= |rows|
    ensures x in FlattenUpTo(rows, n) <==> exists i :: 0 <= i < n && x in rows[i]
  {
    if n == 0 {
    } else {
      FlattenMember(rows, n - 1, x);
    }
  }

  lemma FlattenEmpty<T>(rows: seq<seq<T>>)
    ensures Flatten(rows) == [] <==> forall i :: 0 <= i < |rows| ==> rows[i] == []
  {
    if Flatten(rows) == [] {
      forall i | 0 <= i < |rows| ensures rows[i] == [] {
        if rows[i] != [] {
          FlattenMember(rows, |rows|, rows[i][0]);
        }
      }
    } else if forall i :: 0 <= i < |rows| ==> rows[i] == [] {
      FlattenMember(rows, |rows|, Flatten(rows)[0]);
    }
  }

  /** Only two neighbouring rows say anything. */
  lemma {:induction false} FlattenTwo<T>(rows: seq<seq<T>>, k: nat, n: nat)
    requires k < n <= |rows|
    requires forall i :: 0 <= i < n && i != k && i != k + 1 ==> rows[i] == []
    ensures FlattenUpTo(rows, n) == rows[k] + (if k + 1 < n then rows[k + 1] else [])
  {
    if n == k + 1 {
      FlattenNone(rows, k);
    } else {
      FlattenTwo(rows, k, n - 1);
    }
  }

  lemma {:induction false} FlattenNone<T>(rows: seq<seq<T>>, n: nat)
    requires n <= |rows| && forall i :: 0 <= i < n ==> rows[i] == []
    ensures FlattenUpTo(rows, n) == []
  {
    if n == 0 {
    } else {
      FlattenNone(rows, n - 1);
    }
  }

  lemma FlattenPair<T>(rows: seq<seq<T>>, k: nat, a: seq<T>, b: seq<T>)
    requires k < |rows| && rows[k] == a && b == (if k + 1 < |rows| then rows[k + 1] else [])
    requires forall i :: 0 <= i < |rows| && i != k && i != k + 1 ==> rows[i] == []
    ensures Flatten(rows) == a + b
  {
    FlattenTwo(rows, k, |rows|);
  }

  /** The numbers of `keep` in ascending order. */
  ghost predicate Enumerates(f: seq<nat>, keep: set<nat>) {
    (forall k, l :: 0 <= k < l < |f| ==> f[k] < f[l]) && forall i: nat :: i in keep <==> i in f
  }

  lemma EnumeratesNext(f: seq<nat>, keep: set<nat>, n: nat)
    requires Enumerates(f, keep) && forall i :: i in keep ==> i < n
    ensures Enumerates(f + [n], keep + {n})
  {
    forall k | 0 <= k < |f| ensures f[k] < n {
      assert f[k] in keep;
    }
  }
}
