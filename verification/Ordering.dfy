/**
 Orders and sorting, as the generators use them: lexicographic comparison of sequences, a stable
 sort by a preorder, and the ascending listing of a set that iterating a `BTreeMap` or sorting and
 removing repeats both come to.
 */
module Ordering {

  // ---------------------------------------------------------------------------------------
  // Strict total orders
  // ---------------------------------------------------------------------------------------

  ghost predicate StrictTotal<T(!new)>(lt: (T, T) -> bool) {
    && (forall a :: !lt(a, a))
    && (forall a, b :: a == b || lt(a, b) || lt(b, a))
    && (forall a, b, c :: lt(a, b) && lt(b, c) ==> lt(a, c))
  }

  predicate CharBefore(a: char, b: char) { a < b }

  /** The order of sequences that compares them item by item, a proper prefix first. */
  predicate Before<T(==)>(lt: (T, T) -> bool, a: seq<T>, b: seq<T>) {
    if b == [] then false
    else if a == [] then true
    else lt(a[0], b[0]) || (a[0] == b[0] && Before(lt, a[1..], b[1..]))
  }

  /** `a` runs out, or comes first by `lt`, where the two sequences first part. */
  predicate Parts<T(==)>(lt: (T, T) -> bool, a: seq<T>, b: seq<T>, k: nat)
    requires k <= |a| && k < |b|
  {
    a[..k] == b[..k] && (k == |a| || lt(a[k], b[k]))
  }

  ghost predicate Precedes<T>(lt: (T, T) -> bool, a: seq<T>, b: seq<T>) {
    exists k | 0 <= k <= |a| && k < |b| :: Parts(lt, a, b, k)
  }

  lemma {:induction false} BeforeIff<T>(lt: (T, T) -> bool, a: seq<T>, b: seq<T>)
    ensures Before(lt, a, b) <==> Precedes(lt, a, b)
  {
    if a == [] && b != [] {
      assert Parts(lt, a, b, 0);
    } else if a != [] && b != [] {
      BeforeIff(lt, a[1..], b[1..]);
      if lt(a[0], b[0]) {
        assert Parts(lt, a, b, 0);
      } else if Before(lt, a, b) {
        var k :| 0 <= k <= |a[1..]| && k < |b[1..]| && Parts(lt, a[1..], b[1..], k);
        assert a[..k + 1] == [a[0]] + a[1..][..k] && b[..k + 1] == [b[0]] + b[1..][..k];
        assert Parts(lt, a, b, k + 1);
      } else if k :| 0 <= k <= |a| && k < |b| && Parts(lt, a, b, k) {
        assert k > 0 && a[0] == a[..k][0] == b[..k][0] == b[0];
        assert a[1..][..k - 1] == a[..k][1..] && b[1..][..k - 1] == b[..k][1..];
        assert Parts(lt, a[1..], b[1..], k - 1);
      }
    }
  }

  lemma {:induction false} BeforeIsIrreflexive<T(!new)>(lt: (T, T) -> bool, a: seq<T>)
    requires StrictTotal(lt)
    ensures !Before(lt, a, a)
  {
    if a != [] {
      BeforeIsIrreflexive(lt, a[1..]);
    }
  }

  lemma {:induction false} BeforeIsTotal<T(!new)>(lt: (T, T) -> bool, a: seq<T>, b: seq<T>)
    requires StrictTotal(lt)
    ensures a == b || Before(lt, a, b) || Before(lt, b, a)
  {
    if a != [] && b != [] && a[0] == b[0] {
      BeforeIsTotal(lt, a[1..], b[1..]);
      assert a == [a[0]] + a[1..] && b == [b[0]] + b[1..];
    }
  }

  lemma {:induction false} BeforeIsTransitive<T(!new)>(lt: (T, T) -> bool, a: seq<T>, b: seq<T>, c: seq<T>)
    requires StrictTotal(lt)
    requires Before(lt, a, b) && Before(lt, b, c)
    ensures Before(lt, a, c)
  {
    if a != [] && a[0] == b[0] && b[0] == c[0] {
      BeforeIsTransitive(lt, a[1..], b[1..], c[1..]);
    }
  }

  predicate StringBefore(a: string, b: string) { Before(CharBefore, a, b) }

  lemma StringBeforeIsStrictTotal()
    ensures StrictTotal(StringBefore)
  {
    forall a { BeforeIsIrreflexive(CharBefore, a); }
    forall a, b ensures a == b || StringBefore(a, b) || StringBefore(b, a) {
      BeforeIsTotal(CharBefore, a, b);
    }
    forall a, b, c | StringBefore(a, b) && StringBefore(b, c) ensures StringBefore(a, c) {
      BeforeIsTransitive(CharBefore, a, b, c);
    }
  }

  // ---------------------------------------------------------------------------------------
  // Stable sorting
  // ---------------------------------------------------------------------------------------

  ghost predicate TotalPreorder<T(!new)>(le: (T, T) -> bool) {
    && (forall a, b :: le(a, b) || le(b, a))
    && (forall a, b, c :: le(a, b) && le(b, c) ==> le(a, c))
  }

  predicate InOrder<T>(le: (T, T) -> bool, s: seq<T>) {
    forall i, j | 0 <= i < j < |s| :: le(s[i], s[j])
  }

  function Inserted<T>(le: (T, T) -> bool, x: T, s: seq<T>): seq<T> {
    if s == [] then [x] else if le(x, s[0]) then [x] + s else [s[0]] + Inserted(le, x, s[1..])
  }

  /** The stable sort: items that `le` ties keep the order they came in. */
  function Sorted<T>(le: (T, T) -> bool, s: seq<T>): seq<T> {
    if s == [] then [] else Inserted(le, s[0], Sorted(le, s[1..]))
  }

  lemma {:induction false} InsertedHolds<T>(le: (T, T) -> bool, x: T, s: seq<T>)
    ensures multiset(Inserted(le, x, s)) == multiset{x} + multiset(s)
  {
    if s != [] && !le(x, s[0]) {
      InsertedHolds(le, x, s[1..]);
      assert s == [s[0]] + s[1..];
    }
  }

  lemma {:induction false} SortedIsPermutation<T>(le: (T, T) -> bool, s: seq<T>)
    ensures multiset(Sorted(le, s)) == multiset(s)
  {
    if s != [] {
      SortedIsPermutation(le, s[1..]);
      InsertedHolds(le, s[0], Sorted(le, s[1..]));
      assert s == [s[0]] + s[1..];
    }
  }

  lemma SortedHasSame<T(!new)>(le: (T, T) -> bool, s: seq<T>)
    ensures |Sorted(le, s)| == |s|
    ensures forall x :: x in Sorted(le, s) <==> x in s
  {
    SortedIsPermutation(le, s);
    assert |multiset(Sorted(le, s))| == |multiset(s)|;
    forall x ensures x in Sorted(le, s) <==> x in s {
      assert x in Sorted(le, s) <==> x in multiset(Sorted(le, s));
    }
  }

  lemma {:induction false} InsertedInOrder<T(!new)>(le: (T, T) -> bool, x: T, s: seq<T>)
    requires TotalPreorder(le) && InOrder(le, s)
    ensures InOrder(le, Inserted(le, x, s))
  {
    if s != [] && !le(x, s[0]) {
      InsertedInOrder(le, x, s[1..]);
      InsertedHolds(le, x, s[1..]);
      var t := Inserted(le, x, s[1..]);
      forall j | 0 <= j < |t| ensures le(s[0], t[j]) {
        assert t[j] in multiset(t);
        assert t[j] == x || t[j] in s[1..];
      }
    }
  }

  lemma {:induction false} SortedIsInOrder<T(!new)>(le: (T, T) -> bool, s: seq<T>)
    requires TotalPreorder(le)
    ensures InOrder(le, Sorted(le, s))
  {
    if s != [] {
      SortedIsInOrder(le, s[1..]);
      InsertedInOrder(le, s[0], Sorted(le, s[1..]));
    }
  }

  /** Items that tie keep their order: for every item, the items tied with it come out as they went in. */
  function Ties<T>(le: (T, T) -> bool, x: T, s: seq<T>): seq<T> {
    if s == [] then []
    else (if le(x, s[0]) && le(s[0], x) then [s[0]] else []) + Ties(le, x, s[1..])
  }

  lemma {:induction false} InsertedIsStable<T(!new)>(le: (T, T) -> bool, x: T, y: T, s: seq<T>)
    requires TotalPreorder(le)
    ensures Ties(le, y, Inserted(le, x, s)) == Ties(le, y, [x] + s)
  {
    assert ([x] + s)[1..] == s;
    if s != [] && !le(x, s[0]) {
      InsertedIsStable(le, x, y, s[1..]);
      assert ([x] + s[1..])[1..] == s[1..];
    }
  }

  lemma {:induction false} SortedIsStable<T(!new)>(le: (T, T) -> bool, y: T, s: seq<T>)
    requires TotalPreorder(le)
    ensures Ties(le, y, Sorted(le, s)) == Ties(le, y, s)
  {
    if s != [] {
      SortedIsStable(le, y, s[1..]);
      InsertedIsStable(le, s[0], y, Sorted(le, s[1..]));
      assert ([s[0]] + Sorted(le, s[1..]))[1..] == Sorted(le, s[1..]);
    }
  }

  /** In order by `le`, and what `le` ties in order by `tie`. */
  predicate InOrderWithTies<T>(le: (T, T) -> bool, tie: (T, T) -> bool, s: seq<T>) {
    forall i, j | 0 <= i < j < |s| :: le(s[i], s[j]) && (le(s[j], s[i]) ==> tie(s[i], s[j]))
  }

  /** Sorting leaves what ties in the order it came in. */
  lemma {:induction false} SortedTies<T(!new)>(le: (T, T) -> bool, tie: (T, T) -> bool, s: seq<T>)
    requires TotalPreorder(le) && InOrder(tie, s)
    ensures InOrderWithTies(le, tie, Sorted(le, s))
  {
    if s != [] {
      SortedTies(le, tie, s[1..]);
      SortedHasSame(le, s[1..]);
      var t := Sorted(le, s[1..]);
      forall y | y in t ensures tie(s[0], y) {
        var k :| 0 <= k < |s[1..]| && s[1..][k] == y;
        assert s[k + 1] == y;
      }
      InsertedTies(le, tie, s[0], t);
    }
  }

  lemma {:induction false} InsertedTies<T(!new)>(le: (T, T) -> bool, tie: (T, T) -> bool, x: T, t: seq<T>)
    requires TotalPreorder(le) && InOrderWithTies(le, tie, t) && forall y | y in t :: tie(x, y)
    ensures InOrderWithTies(le, tie, Inserted(le, x, t))
  {
    if t == [] || le(x, t[0]) {
      assert forall j | 0 <= j < |t| :: t[j] == t[0] || le(t[0], t[j]);
    } else {
      InsertedTies(le, tie, x, t[1..]);
      InsertedHolds(le, x, t[1..]);
      var r := Inserted(le, x, t[1..]);
      forall j | 0 <= j < |r| ensures le(t[0], r[j]) && (le(r[j], t[0]) ==> tie(t[0], r[j])) {
        assert r[j] in multiset(r);
        if r[j] != x {
          var k :| 0 <= k < |t[1..]| && t[1..][k] == r[j];
          assert t[k + 1] == r[j];
        }
      }
    }
  }

  lemma AppendedInOrder<T>(le: (T, T) -> bool, s: seq<T>, x: T)
    requires InOrder(le, s) && forall i | 0 <= i < |s| :: le(s[i], x)
    ensures InOrder(le, s + [x])
  {}

  /** Sorting keeps whatever holds of every pair of positions, when it does not care which is first. */
  lemma {:induction false} SortedKeepsPairs<T(!new)>(le: (T, T) -> bool, rel: (T, T) -> bool, s: seq<T>)
    requires InOrder(rel, s)
    requires forall x, y | x in s && y in s :: rel(x, y) == rel(y, x)
    ensures InOrder(rel, Sorted(le, s))
  {
    if s != [] {
      SortedKeepsPairs(le, rel, s[1..]);
      SortedHasSame(le, s[1..]);
      forall y | y in Sorted(le, s[1..]) ensures rel(s[0], y) && rel(y, s[0]) {
        assert y in s[1..];
        var k :| 0 <= k < |s[1..]| && s[1..][k] == y;
        assert s[k + 1] == y;
      }
      InsertedKeepsPairs(le, rel, s[0], Sorted(le, s[1..]));
    }
  }

  lemma {:induction false} InsertedKeepsPairs<T(!new)>(le: (T, T) -> bool, rel: (T, T) -> bool, x: T, s: seq<T>)
    requires InOrder(rel, s)
    requires forall y | y in s :: rel(x, y) && rel(y, x)
    ensures InOrder(rel, Inserted(le, x, s))
  {
    if s != [] && !le(x, s[0]) {
      InsertedKeepsPairs(le, rel, x, s[1..]);
      InsertedHolds(le, x, s[1..]);
      var t := Inserted(le, x, s[1..]);
      forall j | 0 <= j < |t| ensures rel(s[0], t[j]) {
        assert t[j] in multiset(t);
        assert t[j] == x || t[j] in s[1..];
      }
    }
  }

  lemma {:induction false} InsertedCarriesLabels<T, L>(le: (T, T) -> bool, fits: (T, L) -> bool, x: T, mark: L, s: seq<T>, labels: seq<L>)
      returns (moved: seq<L>)
    requires |labels| == |s| && forall i | 0 <= i < |s| :: fits(s[i], labels[i])
    requires fits(x, mark)
    ensures |moved| == |s| + 1 == |Inserted(le, x, s)| && multiset(moved) == multiset{mark} + multiset(labels)
    ensures forall i | 0 <= i < |moved| :: fits(Inserted(le, x, s)[i], moved[i])
  {
    if s == [] || le(x, s[0]) {
      moved := [mark] + labels;
    } else {
      var rest := InsertedCarriesLabels(le, fits, x, mark, s[1..], labels[1..]);
      moved := [labels[0]] + rest;
      assert labels == [labels[0]] + labels[1..];
    }
  }

  /** Labels that fit the items of a sequence can be moved along with them when it is sorted. */
  lemma {:induction false} SortedCarriesLabels<T, L>(le: (T, T) -> bool, fits: (T, L) -> bool, s: seq<T>, labels: seq<L>)
      returns (moved: seq<L>)
    requires |labels| == |s| && forall i | 0 <= i < |s| :: fits(s[i], labels[i])
    ensures |moved| == |s| == |Sorted(le, s)| && multiset(moved) == multiset(labels)
    ensures forall i | 0 <= i < |s| :: fits(Sorted(le, s)[i], moved[i])
  {
    if s == [] {
      moved := [];
    } else {
      var rest := SortedCarriesLabels(le, fits, s[1..], labels[1..]);
      moved := InsertedCarriesLabels(le, fits, s[0], labels[0], Sorted(le, s[1..]), rest);
      assert labels == [labels[0]] + labels[1..];
    }
  }

  // ---------------------------------------------------------------------------------------
  // A set in ascending order
  // ---------------------------------------------------------------------------------------

  ghost predicate Least<T(!new)>(lt: (T, T) -> bool, x: T, s: set<T>) {
    x in s && forall y | y in s :: x == y || lt(x, y)
  }

  lemma {:induction false} LeastExists<T(!new)>(lt: (T, T) -> bool, s: set<T>)
    requires StrictTotal(lt) && s != {}
    ensures exists x :: Least(lt, x, s)
    decreases |s|
  {
    var y :| y in s;
    if s == {y} {
      assert Least(lt, y, s);
    } else {
      LeastExists(lt, s - {y});
      var x :| Least(lt, x, s - {y});
      if lt(y, x) {
        forall z | z in s ensures y == z || lt(y, z) {
          if z != y {
            assert z in s - {y};
          }
        }
        assert Least(lt, y, s);
      } else {
        assert Least(lt, x, s);
      }
    }
  }

  /** The members of a set, each once and in order. */
  function Ascending<T(==, !new)>(lt: (T, T) -> bool, s: set<T>): (r: seq<T>)
    requires StrictTotal(lt)
    ensures forall x :: x in r <==> x in s
    ensures InOrder(lt, r)
    decreases |s|
  {
    if s == {} then [] else
      LeastExists(lt, s);
      var x :| x in s && forall y | y in s :: x == y || lt(x, y);
      [x] + Ascending(lt, s - {x})
  }

  /** An ascending sequence is settled by its members. */
  lemma {:induction false} AscendingIsUnique<T(!new)>(lt: (T, T) -> bool, a: seq<T>, b: seq<T>)
    requires StrictTotal(lt) && InOrder(lt, a) && InOrder(lt, b)
    requires forall x :: x in a <==> x in b
    ensures a == b
  {
    assert a != [] ==> a[0] in b;
    assert b != [] ==> b[0] in a;
    if a != [] {
      assert a[0] == b[0];
      forall x ensures x in a[1..] <==> x in b[1..] {
        assert x in a <==> x == a[0] || x in a[1..];
        assert x in b <==> x == b[0] || x in b[1..];
      }
      AscendingIsUnique(lt, a[1..], b[1..]);
      assert a == [a[0]] + a[1..] && b == [b[0]] + b[1..];
    }
  }

  /** A sequence without the items that repeat the one in front of them. */
  function Deduped<T(==)>(s: seq<T>): seq<T> {
    if |s| < 2 then s
    else if s[0] == s[1] then Deduped(s[1..])
    else [s[0]] + Deduped(s[1..])
  }

  predicate NotAfter<T(==)>(lt: (T, T) -> bool, a: T, b: T) { a == b || lt(a, b) }

  lemma {:induction false} DedupedHasSame<T>(s: seq<T>)
    ensures forall x :: x in Deduped(s) <==> x in s
  {
    if |s| >= 2 {
      DedupedHasSame(s[1..]);
      assert s == [s[0]] + s[1..];
    }
  }

  lemma {:induction false} DedupedAscends<T(!new)>(lt: (T, T) -> bool, s: seq<T>)
    requires StrictTotal(lt)
    requires forall i, j | 0 <= i < j < |s| :: NotAfter(lt, s[i], s[j])
    ensures InOrder(lt, Deduped(s))
  {
    if |s| >= 2 {
      var rest := s[1..];
      assert forall i, j | 0 <= i < j < |rest| :: rest[i] == s[i + 1] && rest[j] == s[j + 1];
      DedupedAscends(lt, rest);
      if s[0] != s[1] {
        DedupedHasSame(rest);
        var t := Deduped(rest);
        forall j | 0 <= j < |t| ensures lt(s[0], t[j]) {
          assert t[j] in rest;
          var k :| 0 <= k < |rest| && rest[k] == t[j];
          assert NotAfter(lt, s[1], s[k + 1]) || k == 0;
        }
      }
    }
  }
}
