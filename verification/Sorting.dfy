/** Python's `sorted` as a specification: the stable insertion sort, for any key order. */
module Sorting {

  /** A total preorder; `le` compares keys, so two different items may be equal in it. */
  ghost predicate TotalPreorder<T(!new)>(le: (T, T) -> bool) {
    && (forall a, b :: le(a, b) || le(b, a))
    && (forall a, b, c :: le(a, b) && le(b, c) ==> le(a, c))
  }

  ghost predicate Sorted<T>(le: (T, T) -> bool, s: seq<T>) {
    forall i, j :: 0 <= i < j < |s| ==> le(s[i], s[j])
  }

  function Insert<T>(le: (T, T) -> bool, x: T, s: seq<T>): (r: seq<T>)
    ensures |r| == |s| + 1
  {
    if s == [] then [x]
    else if le(s[|s| - 1], x) then s + [x]
    else Insert(le, x, s[..|s| - 1]) + [s[|s| - 1]]
  }

  function Sort<T>(le: (T, T) -> bool, s: seq<T>): (r: seq<T>)
    ensures |r| == |s|
  {
    if s == [] then [] else Insert(le, s[|s| - 1], Sort(le, s[..|s| - 1]))
  }

  lemma {:induction false} InsertSorted<T(!new)>(le: (T, T) -> bool, x: T, s: seq<T>)
    requires TotalPreorder(le) && Sorted(le, s)
    ensures Sorted(le, Insert(le, x, s))
    ensures multiset(Insert(le, x, s)) == multiset(s) + multiset{x}
  {
    if s == [] {
    } else {
      var front, last := s[..|s| - 1], s[|s| - 1];
      assert s == front + [last];
      if !le(last, x) {
        InsertSorted(le, x, front);
        AllBelow(le, x, front, Insert(le, x, front), last);
      } else {
        forall i | 0 <= i < |s| ensures le(s[i], x) {
          assert i < |s| - 1 ==> le(s[i], last);
        }
      }
    }
  }

  lemma AllBelow<T(!new)>(le: (T, T) -> bool, x: T, front: seq<T>, r: seq<T>, last: T)
    requires TotalPreorder(le) && multiset(r) == multiset(front) + multiset{x}
    requires !le(last, x) && forall i :: 0 <= i < |front| ==> le(front[i], last)
    ensures forall i :: 0 <= i < |r| ==> le(r[i], last)
  {
    forall i | 0 <= i < |r| ensures le(r[i], last) {
      assert r[i] in multiset(r);
      assert r[i] in multiset(front) || r[i] == x;
    }
  }

  lemma {:induction false} SortSorts<T(!new)>(le: (T, T) -> bool, s: seq<T>)
    requires TotalPreorder(le)
    ensures Sorted(le, Sort(le, s)) && multiset(Sort(le, s)) == multiset(s)
  {
    if s == [] {
    } else {
      var n := |s| - 1;
      SortSorts(le, s[..n]);
      InsertSorted(le, s[n], Sort(le, s[..n]));
      assert s == s[..n] + [s[n]];
    }
  }

  lemma SameItems<T>(s: seq<T>, t: seq<T>, x: T)
    requires multiset(s) == multiset(t)
    ensures x in s <==> x in t
  {
    assert x in s <==> x in multiset(s);
    assert x in t <==> x in multiset(t);
  }

  /** Items that compare equal are the same item. */
  ghost predicate KeysDecide<T(!new)>(le: (T, T) -> bool, s: seq<T>) {
    forall a, b :: a in s && b in s && le(a, b) && le(b, a) ==> a == b
  }

  /** Two sorted arrangements of the same items are equal when keys decide. */
  lemma SortedUnique<T(!new)>(le: (T, T) -> bool, s: seq<T>, t: seq<T>)
    requires Sorted(le, s) && Sorted(le, t) && multiset(s) == multiset(t) && KeysDecide(le, s)
    ensures s == t
  {
    SameLength(s, t);
    if s == [] {
    } else {
      var n := |s| - 1;
      LastAgree(le, s, t);
      DropLast(s);
      DropLast(t);
      assert multiset(s[..n]) == multiset(t[..n]);
      FrontDecides(le, s);
      SortedUnique(le, s[..n], t[..n]);
      SameEnds(s, t);
    }
  }

  lemma FrontDecides<T(!new)>(le: (T, T) -> bool, s: seq<T>)
    requires s != [] && KeysDecide(le, s)
    ensures KeysDecide(le, s[..|s| - 1])
  {
    forall a, b | a in s[..|s| - 1] && b in s[..|s| - 1] && le(a, b) && le(b, a) ensures a == b {
      assert a in s && b in s;
    }
  }

  lemma SameEnds<T>(s: seq<T>, t: seq<T>)
    requires 0 < |s| == |t| && s[..|s| - 1] == t[..|t| - 1] && s[|s| - 1] == t[|t| - 1]
    ensures s == t
  {
    assert s == s[..|s| - 1] + [s[|s| - 1]] && t == t[..|t| - 1] + [t[|t| - 1]];
  }

  lemma SameLength<T>(s: seq<T>, t: seq<T>)
    requires multiset(s) == multiset(t)
    ensures |s| == |t|
  {
    assert |s| == |multiset(s)| == |multiset(t)| == |t|;
  }

  lemma DropLast<T>(s: seq<T>)
    requires s != []
    ensures multiset(s[..|s| - 1]) == multiset(s) - multiset{s[|s| - 1]}
  {
    assert s == s[..|s| - 1] + [s[|s| - 1]];
  }

  lemma LastAgree<T(!new)>(le: (T, T) -> bool, s: seq<T>, t: seq<T>)
    requires Sorted(le, s) && Sorted(le, t) && multiset(s) == multiset(t) && KeysDecide(le, s)
    requires 0 < |s| == |t|
    ensures s[|s| - 1] == t[|t| - 1]
  {
    var n := |s| - 1;
    SameItems(s, t, s[n]);
    SameItems(s, t, t[n]);
    var i :| 0 <= i < |t| && t[i] == s[n];
    var j :| 0 <= j < |s| && s[j] == t[n];
    if i < n && j < n {
      assert le(t[i], t[n]) && le(s[j], s[n]);
    }
  }

  /** Sorting does not depend on the order of its input when keys decide... */
  lemma {:induction false} SortCanonical<T(!new)>(le: (T, T) -> bool, s: seq<T>, t: seq<T>)
    requires TotalPreorder(le) && multiset(s) == multiset(t) && KeysDecide(le, s)
    ensures Sort(le, s) == Sort(le, t)
  {
    SortSorts(le, s);
    SortSorts(le, t);
    forall a, b | a in Sort(le, s) && b in Sort(le, s) && le(a, b) && le(b, a) ensures a == b {
      SameItems(s, Sort(le, s), a);
      SameItems(s, Sort(le, s), b);
    }
    SortedUnique(le, Sort(le, s), Sort(le, t));
  }

  /** ... and, the sort being stable, only then. */
  lemma {:induction false} SortCanonicalOnlyIf<T(!new)>(le: (T, T) -> bool, s: seq<T>)
    requires TotalPreorder(le)
    ensures KeysDecide(le, s) <==> forall t :: multiset(t) == multiset(s) ==> Sort(le, t) == Sort(le, s)
  {
    if KeysDecide(le, s) {
      forall t | multiset(t) == multiset(s) ensures Sort(le, t) == Sort(le, s) {
        SortCanonical(le, s, t);
      }
    } else {
      var a, b :| a in s && b in s && le(a, b) && le(b, a) && a != b;
      var t, u := TwoOrders(le, s, a, b);
      assert Sort(le, t) != Sort(le, s) || Sort(le, u) != Sort(le, s);
    }
  }

  lemma TwoOrders<T(!new)>(le: (T, T) -> bool, s: seq<T>, a: T, b: T) returns (t: seq<T>, u: seq<T>)
    requires TotalPreorder(le) && a in s && b in s && le(a, b) && le(b, a) && a != b
    ensures multiset(t) == multiset(s) == multiset(u) && Sort(le, t) != Sort(le, u)
  {
    var rest := RestWithout(s, a, b);
    t, u := rest + [a] + [b], rest + [b] + [a];
    StableLast(le, rest, a, b);
    StableLast(le, rest, b, a);
  }

  lemma RestWithout<T(!new)>(s: seq<T>, a: T, b: T) returns (rest: seq<T>)
    requires a in s && b in s && a != b
    ensures multiset(rest) + multiset{a, b} == multiset(s)
  {
    var i :| 0 <= i < |s| && s[i] == a;
    var r := s[..i] + s[i + 1..];
    assert s == s[..i] + [s[i]] + s[i + 1..];
    assert multiset(r) + multiset{a} == multiset(s);
    assert b in multiset(s) && b in multiset(r);
    var j :| 0 <= j < |r| && r[j] == b;
    rest := r[..j] + r[j + 1..];
    assert r == r[..j] + [r[j]] + r[j + 1..];
  }

  /** Position of the last occurrence. */
  function LastIndex<T(==)>(s: seq<T>, x: T): int {
    if s == [] then -1 else if s[|s| - 1] == x then |s| - 1 else LastIndex(s[..|s| - 1], x)
  }

  /** Of two items with equal keys, the one read last ends up behind every other. */
  lemma {:induction false} StableLast<T(!new)>(le: (T, T) -> bool, rest: seq<T>, a: T, b: T)
    requires TotalPreorder(le) && le(a, b) && le(b, a) && a != b
    ensures LastIndex(Sort(le, rest + [a] + [b]), a) < LastIndex(Sort(le, rest + [a] + [b]), b)
  {
    var s := rest + [a];
    assert (s + [b])[..|s|] == s;
    SortSorts(le, s);
    InsertLast(le, b, a, Sort(le, s));
  }

  lemma {:induction false} InsertLast<T(!new)>(le: (T, T) -> bool, x: T, y: T, s: seq<T>)
    requires TotalPreorder(le) && le(y, x) && x != y
    ensures LastIndex(Insert(le, x, s), y) < LastIndex(Insert(le, x, s), x)
  {
    var r := Insert(le, x, s);
    if s == [] {
      assert r[..0] == [];
    } else {
      var n := |s| - 1;
      if le(s[n], x) {
        LastIndexBound(r[..|r| - 1], y);
      } else {
        assert s[n] != y && s[n] != x;
        InsertLast(le, x, y, s[..n]);
        assert r[..|r| - 1] == Insert(le, x, s[..n]);
      }
    }
  }

  lemma {:induction false} LastIndexBound<T>(s: seq<T>, x: T)
    ensures -1 <= LastIndex(s, x) < |s|
  {
    if s == [] {
    } else {
      LastIndexBound(s[..|s| - 1], x);
    }
  }

  /** The items of `s` that compare equal to `x`, in their order. */
  function Alike<T>(le: (T, T) -> bool, x: T, s: seq<T>): seq<T> {
    if s == [] then []
    else Alike(le, x, s[..|s| - 1]) + (if le(x, s[|s| - 1]) && le(s[|s| - 1], x) then [s[|s| - 1]] else [])
  }

  /** The sort is stable. */
  lemma {:induction false} SortStable<T(!new)>(le: (T, T) -> bool, x: T, s: seq<T>)
    requires TotalPreorder(le)
    ensures Alike(le, x, Sort(le, s)) == Alike(le, x, s)
  {
    if s == [] {
    } else {
      var n := |s| - 1;
      SortStable(le, x, s[..n]);
      SortSorts(le, s[..n]);
      InsertStable(le, x, s[n], Sort(le, s[..n]));
    }
  }

  lemma {:induction false} InsertStable<T(!new)>(le: (T, T) -> bool, x: T, y: T, s: seq<T>)
    requires TotalPreorder(le)
    ensures Alike(le, x, Insert(le, y, s))
         == Alike(le, x, s) + (if le(x, y) && le(y, x) then [y] else [])
  {
    if s == [] {
      assert [y][..0] == [];
    } else if le(s[|s| - 1], y) {
      assert (s + [y])[..|s|] == s;
    } else {
      var front, last := s[..|s| - 1], s[|s| - 1];
      InsertStable(le, x, y, front);
      assert Insert(le, y, s)[..|s|] == Insert(le, y, front);
      assert le(x, y) && le(y, x) ==> !(le(x, last) && le(last, x));
    }
  }

  // ---- lists without repetition

  ghost predicate NoRepeats<T>(s: seq<T>) {
    forall i, j :: 0 <= i < j < |s| ==> s[i] != s[j]
  }

  lemma OnceOnly<T>(s: seq<T>, x: T)
    requires NoRepeats(s)
    ensures multiset(s)[x] <= 1
  {
    if s == [] {
    } else {
      var n := |s| - 1;
      assert s == s[..n] + [s[n]];
      OnceOnly(s[..n], x);
      assert s[n] == x ==> x !in s[..n];
    }
  }

  /** A list is as long as the set of its items exactly when nothing repeats. */
  lemma CountDistinct<T>(s: seq<T>)
    ensures |set p | p in s| <= |s|
    ensures |set p | p in s| == |s| <==> NoRepeats(s)
  {
    if s == [] {
    } else {
      var n := |s| - 1;
      CountDistinct(s[..n]);
      assert s == s[..n] + [s[n]];
      assert (set p | p in s) == (set p | p in s[..n]) + {s[n]};
      if s[n] in s[..n] {
        assert (set p | p in s) == (set p | p in s[..n]);
        var i :| 0 <= i < n && s[..n][i] == s[n];
        assert s[i] == s[n];
      } else {
        forall i, j | 0 <= i < j < |s| && NoRepeats(s[..n]) ensures s[i] != s[j] {
          assert s[..n][i] == s[i];
          assert j < n ==> s[..n][j] == s[j];
        }
        if NoRepeats(s) {
          assert NoRepeats(s[..n]);
        }
      }
    }
  }

  lemma RearrangedOnce<T>(s: seq<T>, t: seq<T>)
    requires multiset(s) == multiset(t) && NoRepeats(s)
    ensures NoRepeats(t)
  {
    forall i, j | 0 <= i < j < |t| ensures t[i] != t[j] {
      if t[i] == t[j] {
        var u := t[..i] + t[i + 1..j] + t[j + 1..];
        assert t == t[..i] + [t[i]] + t[i + 1..j] + [t[j]] + t[j + 1..];
        assert multiset(t) == multiset(u) + multiset{t[i], t[j]};
        assert multiset(s)[t[i]] >= 2;
        OnceOnly(s, t[i]);
      }
    }
  }

  /** Two sorted lists without repetition of the same items are the same list. */
  lemma SortedOnceUnique<T(!new)>(le: (T, T) -> bool, a: seq<T>, b: seq<T>)
    requires Sorted(le, a) && Sorted(le, b) && NoRepeats(a) && NoRepeats(b)
    requires KeysDecide(le, a) && forall p :: p in a <==> p in b
    ensures a == b
  {
    forall p ensures multiset(a)[p] == multiset(b)[p] {
      OnceOnly(a, p);
      OnceOnly(b, p);
      assert p in a <==> p in multiset(a);
      assert p in b <==> p in multiset(b);
    }
    assert multiset(a) == multiset(b);
    SortedUnique(le, a, b);
  }

  // ---- strings, by code point

  predicate StringLe(a: string, b: string) {
    a == [] || (b != [] && (a[0] < b[0] || (a[0] == b[0] && StringLe(a[1..], b[1..]))))
  }

  lemma {:induction false} StringLeTotal(a: string, b: string)
    ensures StringLe(a, b) || StringLe(b, a)
    ensures StringLe(a, b) && StringLe(b, a) ==> a == b
    decreases |a|
  {
    if a != [] && b != [] && a[0] == b[0] {
      StringLeTotal(a[1..], b[1..]);
      assert a == [a[0]] + a[1..] && b == [b[0]] + b[1..];
    }
  }

  lemma {:induction false} StringLeTransitive(a: string, b: string, c: string)
    requires StringLe(a, b) && StringLe(b, c)
    ensures StringLe(a, c)
    decreases |a|
  {
    if a != [] && a[0] == b[0] && b[0] == c[0] {
      StringLeTransitive(a[1..], b[1..], c[1..]);
    }
  }

  /** Before it in code point order: a proper prefix of it, or smaller where the two first differ. */
  ghost predicate Precedes(a: string, b: string) {
    || (|a| < |b| && a == b[..|a|])
    || exists k :: 0 <= k < |a| && k < |b| && a[..k] == b[..k] && a[k] < b[k]
  }

  lemma {:induction false} StringLeExact(a: string, b: string)
    ensures StringLe(a, b) <==> a == b || Precedes(a, b)
    decreases |a|
  {
    if a == [] || b == [] {
    } else if a[0] == b[0] {
      StringLeExact(a[1..], b[1..]);
      PrecedesTail(a, b);
      assert a == [a[0]] + a[1..] && b == [b[0]] + b[1..];
    } else {
      forall k | 0 < k < |a| && k < |b| ensures a[..k] != b[..k] {
        assert a[..k][0] == a[0] && b[..k][0] == b[0];
      }
      assert a[..0] == b[..0];
      assert |a| < |b| ==> b[..|a|][0] == b[0];
    }
  }

  lemma PrecedesTail(a: string, b: string)
    requires a != [] && b != [] && a[0] == b[0]
    ensures Precedes(a, b) <==> Precedes(a[1..], b[1..])
  {
    var x, y := a[1..], b[1..];
    if |a| < |b| && a == b[..|a|] {
      assert x == y[..|x|];
    }
    if |x| < |y| && x == y[..|x|] {
      assert a == [a[0]] + x == b[..|a|];
    }
    if k :| 0 <= k < |a| && k < |b| && a[..k] == b[..k] && a[k] < b[k] {
      assert k > 0;
      assert x[..k - 1] == a[..k][1..] && y[..k - 1] == b[..k][1..];
      assert x[k - 1] < y[k - 1];
    }
    if k :| 0 <= k < |x| && k < |y| && x[..k] == y[..k] && x[k] < y[k] {
      assert a[..k + 1] == [a[0]] + x[..k] && b[..k + 1] == [b[0]] + y[..k];
      assert a[k + 1] < b[k + 1];
    }
  }

  /** Ascending, each item once. */
  ghost predicate Ascending(s: seq<string>) { forall i, j :: 0 <= i < j < |s| ==> Precedes(s[i], s[j]) }

  lemma SortedAscending(s: seq<string>)
    ensures Sorted(StringLe, s) && NoRepeats(s) <==> Ascending(s)
  {
    forall i, j | 0 <= i < j < |s| ensures Precedes(s[i], s[j]) <==> StringLe(s[i], s[j]) && s[i] != s[j] {
      StringLeExact(s[i], s[j]);
      NotBeforeItself(s[i]);
    }
  }

  lemma NotBeforeItself(a: string)
    ensures !Precedes(a, a)
  {
  }

  lemma StringOrder()
    ensures TotalPreorder(StringLe)
    ensures forall a, b :: StringLe(a, b) && StringLe(b, a) ==> a == b
  {
    forall a, b ensures StringLe(a, b) || StringLe(b, a) { StringLeTotal(a, b); }
    forall a, b | StringLe(a, b) && StringLe(b, a) ensures a == b { StringLeTotal(a, b); }
    forall a, b, c | StringLe(a, b) && StringLe(b, c) ensures StringLe(a, c) { StringLeTransitive(a, b, c); }
  }

  /** A pair of strings, as Python compares tuples. */
  predicate PairLe(a: (string, string), b: (string, string)) {
    if a.0 == b.0 then StringLe(a.1, b.1) else StringLe(a.0, b.0)
  }

  /** The first component decides, the second where the first is the same. */
  ghost predicate PairPrecedes(a: (string, string), b: (string, string)) {
    Precedes(a.0, b.0) || (a.0 == b.0 && Precedes(a.1, b.1))
  }

  lemma PairLeExact(a: (string, string), b: (string, string))
    ensures PairLe(a, b) <==> a == b || PairPrecedes(a, b)
  {
    StringLeExact(a.0, b.0);
    StringLeExact(a.1, b.1);
    NotBeforeItself(a.0);
  }

  ghost predicate AscendingPairs(s: seq<(string, string)>) {
    forall i, j :: 0 <= i < j < |s| ==> PairPrecedes(s[i], s[j])
  }

  lemma SortedAscendingPairs(s: seq<(string, string)>)
    ensures Sorted(PairLe, s) && NoRepeats(s) <==> AscendingPairs(s)
  {
    forall i, j | 0 <= i < j < |s| ensures PairPrecedes(s[i], s[j]) <==> PairLe(s[i], s[j]) && s[i] != s[j] {
      PairLeExact(s[i], s[j]);
      NotBeforeItself(s[i].0);
      NotBeforeItself(s[i].1);
    }
  }

  lemma PairOrder()
    ensures TotalPreorder(PairLe)
    ensures forall a, b :: PairLe(a, b) && PairLe(b, a) ==> a == b
  {
    StringOrder();
    forall a: (string, string), b: (string, string) | PairLe(a, b) && PairLe(b, a) ensures a == b {
    }
    forall a: (string, string), b: (string, string), c: (string, string) | PairLe(a, b) && PairLe(b, c)
      ensures PairLe(a, c) {
    }
  }
}
