/** String order and sorting, as Go's `sort.Strings` and `sort.Slice` provide them. */
module Ordering {

  /** Lexicographic order; on valid UTF-8 it agrees with Go's byte-wise `<=`. */
  predicate Leq(a: string, b: string) {
    a == [] || (b != [] && (a[0] < b[0] || (a[0] == b[0] && Leq(a[1..], b[1..]))))
  }

  lemma LeqTotal(a: string, b: string)
    ensures Leq(a, b) || Leq(b, a)
  {
    if a != [] && b != [] {
      LeqTotal(a[1..], b[1..]);
    }
  }

  lemma {:induction false} LeqAntisymmetric(a: string, b: string)
    requires Leq(a, b) && Leq(b, a)
    ensures a == b
  {
    if a != [] {
      LeqAntisymmetric(a[1..], b[1..]);
      assert a == [a[0]] + a[1..] && b == [b[0]] + b[1..];
    }
  }

  lemma {:induction false} LeqTransitive(a: string, b: string, c: string)
    requires Leq(a, b) && Leq(b, c)
    ensures Leq(a, c)
  {
    if a != [] && a[0] == b[0] == c[0] {
      LeqTransitive(a[1..], b[1..], c[1..]);
    }
  }

  /** a is a prefix of b, or smaller at the first place where they differ. */
  ghost predicate DictionaryLeq(a: string, b: string) {
    a <= b || exists k :: 0 <= k < |a| && k < |b| && a[..k] == b[..k] && a[k] < b[k]
  }

  lemma {:induction false} LeqIsDictionaryOrder(a: string, b: string)
    ensures Leq(a, b) <==> DictionaryLeq(a, b)
  {
    if a != [] && b != [] && a[0] == b[0] {
      LeqIsDictionaryOrder(a[1..], b[1..]);
      assert a == [a[0]] + a[1..] && b == [b[0]] + b[1..];
      if k :| 0 <= k < |a[1..]| && k < |b[1..]| && a[1..][..k] == b[1..][..k] && a[1..][k] < b[1..][k] {
        assert a[..k + 1] == [a[0]] + a[1..][..k] && b[..k + 1] == [b[0]] + b[1..][..k];
      }
      if k :| 0 <= k < |a| && k < |b| && a[..k] == b[..k] && a[k] < b[k] {
        assert k > 0;
        assert a[1..][..k - 1] == a[..k][1..] && b[1..][..k - 1] == b[..k][1..];
        assert a[1..][k - 1] < b[1..][k - 1];
      }
    } else if a != [] && b != [] {
      assert a[..0] == b[..0];
      if k :| 0 <= k < |a| && k < |b| && a[..k] == b[..k] && a[k] < b[k] {
        assert k > 0 ==> a[..k][0] == b[..k][0];
      }
    }
  }

  ghost predicate TotalPreorder<T(!new)>(leq: (T, T) -> bool) {
    && (forall x, y :: leq(x, y) || leq(y, x))
    && (forall x, y, z :: leq(x, y) && leq(y, z) ==> leq(x, z))
  }

  lemma LeqIsOrder()
    ensures TotalPreorder(Leq)
    ensures forall x, y :: Leq(x, y) && Leq(y, x) ==> x == y
  {
    forall x, y ensures Leq(x, y) || Leq(y, x) { LeqTotal(x, y); }
    forall x, y, z | Leq(x, y) && Leq(y, z) ensures Leq(x, z) { LeqTransitive(x, y, z); }
    forall x, y | Leq(x, y) && Leq(y, x) ensures x == y { LeqAntisymmetric(x, y); }
  }

  ghost predicate SortedBy<T(!new)>(s: seq<T>, leq: (T, T) -> bool) {
    forall i, j :: 0 <= i < j < |s| ==> leq(s[i], s[j])
  }

  predicate NoDup<T(==)>(s: seq<T>) {
    forall i, j :: 0 <= i < j < |s| ==> s[i] != s[j]
  }

  ghost function Elems<T>(s: seq<T>): set<T> {
    set x | x in s
  }

  /** The one library routine behind `sort.Strings` and `sort.Slice`. */
  function SortBy<T(!new)>(s: seq<T>, leq: (T, T) -> bool): (r: seq<T>)
    requires TotalPreorder(leq)
    ensures SortedBy(r, leq)
    ensures multiset(r) == multiset(s)
  {
    if s == [] then []
    else
      assert s == s[..|s| - 1] + [s[|s| - 1]];
      var init := SortBy(s[..|s| - 1], leq);
      InsertKeepsSorted(init, s[|s| - 1], leq);
      InsertBy(init, s[|s| - 1], leq)
  }

  function InsertBy<T(!new)>(s: seq<T>, x: T, leq: (T, T) -> bool): (r: seq<T>)
    ensures multiset(r) == multiset(s) + multiset{x}
  {
    if s == [] || leq(s[|s| - 1], x) then s + [x]
    else
      assert s == s[..|s| - 1] + [s[|s| - 1]];
      InsertBy(s[..|s| - 1], x, leq) + [s[|s| - 1]]
  }

  lemma {:induction false} InsertKeepsSorted<T(!new)>(s: seq<T>, x: T, leq: (T, T) -> bool)
    requires TotalPreorder(leq) && SortedBy(s, leq)
    ensures SortedBy(InsertBy(s, x, leq), leq)
  {
    if s != [] {
      var n := |s| - 1;
      if leq(s[n], x) {
        forall i | 0 <= i < |s| ensures leq(s[i], x) {
          assert i < n ==> leq(s[i], s[n]);
        }
      } else {
        InsertKeepsSorted(s[..n], x, leq);
        var init := InsertBy(s[..n], x, leq);
        forall y | y in init ensures leq(y, s[n]) {
          assert y in multiset(init);
          assert y == x || y in s[..n];
        }
      }
    }
  }

  /** `sort.Strings`. */
  function SortStrings(s: seq<string>): (r: seq<string>)
    ensures SortedBy(r, Leq)
    ensures multiset(r) == multiset(s)
  {
    LeqIsOrder();
    SortBy(s, Leq)
  }

  lemma SortedLast<T(!new)>(a: seq<T>, b: seq<T>, leq: (T, T) -> bool)
    requires SortedBy(a, leq) && SortedBy(b, leq)
    requires a != [] && multiset(a) == multiset(b)
    requires forall x, y :: x in a && y in a && leq(x, y) && leq(y, x) ==> x == y
    ensures |a| == |b| && a[|a| - 1] == b[|b| - 1]
  {
    assert |multiset(a)| == |multiset(b)|;
    var n := |a| - 1;
    assert a[n] in multiset(b) && b[n] in multiset(a);
    var i :| 0 <= i <= n && a[i] == b[n];
    var j :| 0 <= j <= n && b[j] == a[n];
    if i < n && j < n {
      assert leq(a[i], a[n]) && leq(b[j], b[n]);
    }
  }

  lemma MultisetInit<T>(s: seq<T>)
    requires s != []
    ensures multiset(s[..|s| - 1]) == multiset(s) - multiset{s[|s| - 1]}
  {
    assert s == s[..|s| - 1] + [s[|s| - 1]];
  }

  /** A sorted arrangement is determined by its contents when ties are impossible. */
  lemma {:induction false} SortedUnique<T(!new)>(a: seq<T>, b: seq<T>, leq: (T, T) -> bool)
    requires SortedBy(a, leq) && SortedBy(b, leq)
    requires multiset(a) == multiset(b)
    requires forall x, y :: x in a && y in a && leq(x, y) && leq(y, x) ==> x == y
    ensures a == b
  {
    if a == [] {
      assert |multiset(b)| == 0;
    } else {
      SortedLast(a, b, leq);
      MultisetInit(a);
      MultisetInit(b);
      var n := |a| - 1;
      SortedUnique(a[..n], b[..n], leq);
      assert a == a[..n] + [a[n]] && b == b[..n] + [b[n]];
    }
  }

  lemma {:induction false} NoDupMultiset<T>(a: seq<T>, b: seq<T>)
    requires NoDup(a) && NoDup(b)
    requires forall x :: x in a <==> x in b
    ensures multiset(a) == multiset(b)
  {
    forall x ensures multiset(a)[x] == multiset(b)[x] {
      NoDupCount(a, x);
      NoDupCount(b, x);
    }
  }

  lemma {:induction false} NoDupCount<T>(s: seq<T>, x: T)
    requires NoDup(s)
    ensures multiset(s)[x] == if x in s then 1 else 0
  {
    if s != [] {
      var n := |s| - 1;
      NoDupCount(s[..n], x);
      assert s == s[..n] + [s[n]];
    }
  }

  lemma RepeatCount<T>(s: seq<T>, i: nat, j: nat)
    requires i < j < |s| && s[i] == s[j]
    ensures multiset(s)[s[i]] >= 2
  {
    assert s == s[..j] + s[j..];
    assert s[i] in s[..j] && s[j] in s[j..];
  }

  lemma PermutationNoDup<T>(a: seq<T>, b: seq<T>)
    requires NoDup(a) && multiset(a) == multiset(b)
    ensures NoDup(b)
  {
    forall i, j | 0 <= i < j < |b| ensures b[i] != b[j] {
      if b[i] == b[j] {
        RepeatCount(b, i, j);
        NoDupCount(a, b[i]);
      }
    }
  }

  /** Keys of a map in `sort.Strings` order: what `range` plus sorting yields. */
  ghost function SortedKeys(s: set<string>): (r: seq<string>)
    ensures NoDup(r) && Elems(r) == s && SortedBy(r, Leq) && |r| == |s|
  {
    if s == {} then []
    else
      MaxExists(s);
      var m :| IsMax(m, s);
      var r := SortedKeys(s - {m});
      AppendMax(r, m, s);
      r + [m]
  }

  lemma AppendMax(r: seq<string>, m: string, s: set<string>)
    requires IsMax(m, s) && NoDup(r) && Elems(r) == s - {m} && SortedBy(r, Leq) && |r| == |s - {m}|
    ensures NoDup(r + [m]) && Elems(r + [m]) == s && SortedBy(r + [m], Leq) && |r + [m]| == |s|
  {
    forall i | 0 <= i < |r| ensures r[i] != m && Leq(r[i], m) {
      assert r[i] in Elems(r);
    }
    forall x ensures x in Elems(r + [m]) <==> x in s {
      assert x in r <==> x in Elems(r);
    }
  }

  lemma SameMembers<T>(a: seq<T>, b: seq<T>)
    requires multiset(a) == multiset(b)
    ensures forall x :: x in a <==> x in b
  {
    forall x ensures x in a <==> x in b {
      assert x in a <==> x in multiset(a);
      assert x in b <==> x in multiset(b);
    }
  }

  ghost predicate IsMax(m: string, s: set<string>) {
    m in s && forall x :: x in s ==> Leq(x, m)
  }

  lemma MaxExists(s: set<string>)
    requires s != {}
    ensures exists m :: IsMax(m, s)
  {
    var x :| x in s;
    LeqIsOrder();
    if s == {x} {
      assert IsMax(x, s);
    } else {
      MaxExists(s - {x});
      var m :| IsMax(m, s - {x});
      assert IsMax(if Leq(x, m) then m else x, s);
    }
  }

  /** Sorting any enumeration of a set without repeats gives `SortedKeys`. */
  lemma SortEnumeration(e: seq<string>, s: set<string>)
    requires NoDup(e) && Elems(e) == s
    ensures SortStrings(e) == SortedKeys(s)
  {
    LeqIsOrder();
    assert forall x :: x in e <==> x in Elems(e);
    assert forall x :: x in SortedKeys(s) <==> x in Elems(SortedKeys(s));
    NoDupMultiset(e, SortedKeys(s));
    SortedUnique(SortedKeys(s), SortStrings(e), Leq);
  }

  lemma SortDistinct(e: seq<string>)
    requires NoDup(e)
    ensures NoDup(SortStrings(e)) && |SortStrings(e)| == |e|
    ensures forall x :: x in SortStrings(e) <==> x in e
  {
    SortEnumeration(e, Elems(e));
    forall x ensures x in SortStrings(e) <==> x in e {
      assert x in e <==> x in multiset(e);
      assert x in SortStrings(e) <==> x in multiset(SortStrings(e));
    }
    assert |e| == |multiset(e)| == |SortStrings(e)|;
  }
}
