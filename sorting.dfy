/** The ordering the reducers sort with: `Array.prototype.sort` called with a
    comparator built on `String.prototype.localeCompare`. */
module Sorting {

  /** The two guarantees of a consistent comparator that sorting relies on:
      any two strings are ordered one way or the other, and "does not come
      after" is transitive. */
  ghost predicate Consistent(compare: (string, string) -> int) {
    && (forall a, b {:trigger Pair(a, b)} :: compare(a, b) <= 0 || compare(b, a) <= 0)
    && (forall a, b, c {:trigger Triple(a, b, c)} ::
          compare(a, b) <= 0 && compare(b, c) <= 0 ==> compare(a, c) <= 0)
  }

  /** Names for the strings a law of `Consistent` is applied to. The laws are
      used only where `Total` and `Transitive` below are called, which keeps
      them from being applied to every pair of strings in every proof. */
  ghost predicate Pair(a: string, b: string) { true }
  ghost predicate Triple(a: string, b: string, c: string) { true }

  lemma Total(compare: Collation, a: string, b: string)
    ensures compare(a, b) <= 0 || compare(b, a) <= 0
  {
    assert Pair(a, b);
  }

  lemma Transitive(compare: Collation, a: string, b: string, c: string)
    requires compare(a, b) <= 0 && compare(b, c) <= 0
    ensures compare(a, c) <= 0
  {
    assert Triple(a, b, c);
  }

  /** `localeCompare` under the locale the browser happens to run in: negative,
      zero or positive. No particular collation is assumed. */
  type Collation = compare: (string, string) -> int | Consistent(compare)
    witness (a: string, b: string) => 0

  /** Every element's key does not come after any later element's key. */
  ghost predicate SortedBy<T>(s: seq<T>, key: T -> string, compare: Collation) {
    forall i, j :: 0 <= i < j < |s| ==> compare(key(s[i]), key(s[j])) <= 0
  }

  /** Every element of `s` does not come after `x`. */
  ghost predicate AllBefore<T>(s: seq<T>, x: T, key: T -> string, compare: Collation) {
    forall i :: 0 <= i < |s| ==> compare(key(s[i]), key(x)) <= 0
  }

  /** Places `x` after every element that does not compare greater, so equal
      keys keep their order of arrival. */
  function InsertSorted<T>(x: T, s: seq<T>, key: T -> string, compare: Collation): (r: seq<T>)
    ensures multiset(r) == multiset(s) + multiset{x}
  {
    if s == [] || compare(key(s[0]), key(x)) > 0 then
      [x] + s
    else
      assert s == [s[0]] + s[1..];
      [s[0]] + InsertSorted(x, s[1..], key, compare)
  }

  /** Inserting into an ordered list keeps it ordered. */
  lemma {:induction false} InsertSortedKeepsOrder<T>(x: T, s: seq<T>, key: T -> string, compare: Collation)
    requires SortedBy(s, key, compare)
    ensures SortedBy(InsertSorted(x, s, key, compare), key, compare)
  {
    var r := InsertSorted(x, s, key, compare);
    if s == [] {
    } else if compare(key(s[0]), key(x)) > 0 {
      Total(compare, key(s[0]), key(x));
      forall j | 0 <= j < |s| ensures compare(key(x), key(s[j])) <= 0 {
        if j > 0 {
          assert compare(key(s[0]), key(s[j])) <= 0;
          Transitive(compare, key(x), key(s[0]), key(s[j]));
        }
      }
      assert r == [x] + s;
    } else {
      var rest := InsertSorted(x, s[1..], key, compare);
      InsertSortedKeepsOrder(x, s[1..], key, compare);
      assert r == [s[0]] + rest;
      forall j | 0 <= j < |rest| ensures compare(key(s[0]), key(rest[j])) <= 0 {
        var y := rest[j];
        assert y in multiset(rest);
        assert y == x || y in multiset(s[1..]);
        if y != x {
          var k :| 0 <= k < |s[1..]| && s[1..][k] == y;
          assert s[k + 1] == y;
        }
      }
    }
  }

  /** A stable sort: the result is ordered by key and holds the same elements. */
  function SortBy<T>(s: seq<T>, key: T -> string, compare: Collation): (r: seq<T>)
    ensures multiset(r) == multiset(s)
    ensures SortedBy(r, key, compare)
  {
    if s == [] then []
    else
      assert s == s[..|s| - 1] + [s[|s| - 1]];
      var init := SortBy(s[..|s| - 1], key, compare);
      InsertSortedKeepsOrder(s[|s| - 1], init, key, compare);
      InsertSorted(s[|s| - 1], init, key, compare)
  }

  lemma {:induction false} InsertAfterAll<T>(x: T, s: seq<T>, key: T -> string, compare: Collation)
    requires AllBefore(s, x, key, compare)
    ensures InsertSorted(x, s, key, compare) == s + [x]
  {
    if s != [] {
      InsertAfterAll(x, s[1..], key, compare);
    }
  }

  /** Matching the head of `s` with an equal element `t[k]` of a permutation
      `t` leaves permutations of each other once both are taken out. */
  lemma PermutationTail<T>(s: seq<T>, t: seq<T>, k: nat)
    requires multiset(s) == multiset(t) && s != [] && k < |t| && t[k] == s[0]
    ensures multiset(s[1..]) == multiset(t[..k] + t[k + 1..])
  {
    assert t == t[..k] + [t[k]] + t[k + 1..];
    assert s == [s[0]] + s[1..];
    var rest := t[..k] + t[k + 1..];
    assert multiset(t) == multiset(t[..k]) + multiset{t[k]} + multiset(t[k + 1..]);
    assert multiset(rest) == multiset(t[..k]) + multiset(t[k + 1..]);
    assert multiset(s) == multiset{s[0]} + multiset(s[1..]);
    assert multiset(s[1..]) == multiset(s) - multiset{s[0]};
    assert multiset(rest) == multiset(t) - multiset{s[0]};
  }

  /** Sorting a list that is already in order leaves it as it is. */
  lemma {:induction false} SortSorted<T>(s: seq<T>, key: T -> string, compare: Collation)
    requires SortedBy(s, key, compare)
    ensures SortBy(s, key, compare) == s
  {
    if s != [] {
      var init := s[..|s| - 1];
      var last := s[|s| - 1];
      assert SortedBy(init, key, compare) by {
        forall i, j | 0 <= i < j < |init| ensures compare(key(init[i]), key(init[j])) <= 0 {
          assert init[i] == s[i] && init[j] == s[j];
        }
      }
      assert AllBefore(init, last, key, compare) by {
        forall i | 0 <= i < |init| ensures compare(key(init[i]), key(last)) <= 0 {
          assert init[i] == s[i];
        }
      }
      SortSorted(init, key, compare);
      InsertAfterAll(last, init, key, compare);
      assert init + [last] == s;
    }
  }

  // ----- stability -----

  /** Neither key comes after the other: `localeCompare` calls them equal. */
  predicate Ties(compare: Collation, a: string, b: string) {
    compare(a, b) <= 0 && compare(b, a) <= 0
  }

  /** The elements of `s` whose key ties with `k`, in the order of `s`. */
  function TiedWith<T>(s: seq<T>, key: T -> string, compare: Collation, k: string): seq<T> {
    if s == [] then []
    else (if Ties(compare, key(s[0]), k) then [s[0]] else []) + TiedWith(s[1..], key, compare, k)
  }

  lemma TiedWithCons<T>(a: T, b: seq<T>, key: T -> string, compare: Collation, k: string)
    ensures TiedWith([a] + b, key, compare, k)
         == (if Ties(compare, key(a), k) then [a] else []) + TiedWith(b, key, compare, k)
  {
    assert ([a] + b)[0] == a && ([a] + b)[1..] == b;
  }

  lemma ConcatAssoc<T>(a: seq<T>, b: seq<T>, c: seq<T>)
    ensures a + (b + c) == (a + b) + c
  {
  }

  lemma {:induction false} TiedWithAppend<T>(a: seq<T>, b: seq<T>, key: T -> string, compare: Collation, k: string)
    ensures TiedWith(a + b, key, compare, k) == TiedWith(a, key, compare, k) + TiedWith(b, key, compare, k)
  {
    if a == [] {
      assert a + b == b;
    } else {
      var head := if Ties(compare, key(a[0]), k) then [a[0]] else [];
      assert a + b == [a[0]] + (a[1..] + b);
      TiedWithCons(a[0], a[1..] + b, key, compare, k);
      TiedWithAppend(a[1..], b, key, compare, k);
      TiedWithCons(a[0], a[1..], key, compare, k);
      assert [a[0]] + a[1..] == a;
      ConcatAssoc(head, TiedWith(a[1..], key, compare, k), TiedWith(b, key, compare, k));
    }
  }

  /** No element of a sorted list that is headed by a key after `x`'s ties
      with `x`'s key. */
  lemma {:induction false} NoneTied<T>(s: seq<T>, x: T, key: T -> string, compare: Collation, k: string)
    requires SortedBy(s, key, compare) && s != [] && compare(key(s[0]), key(x)) > 0
    requires Ties(compare, key(x), k)
    ensures TiedWith(s, key, compare, k) == []
  {
    if !Ties(compare, key(s[0]), k) {
      if |s| > 1 {
        assert compare(key(s[0]), key(s[1])) <= 0;
        assert compare(key(s[1]), key(x)) > 0 by {
          if compare(key(s[1]), key(x)) <= 0 {
            Transitive(compare, key(s[0]), key(s[1]), key(x));
          }
        }
        NoneTied(s[1..], x, key, compare, k);
      }
    } else {
      Transitive(compare, key(s[0]), k, key(x));
    }
  }

  lemma SortedTail<T>(s: seq<T>, key: T -> string, compare: Collation)
    requires SortedBy(s, key, compare) && s != []
    ensures SortedBy(s[1..], key, compare)
  {
    forall i, j | 0 <= i < j < |s| - 1 ensures compare(key(s[1..][i]), key(s[1..][j])) <= 0 {
      assert s[1..][i] == s[i + 1] && s[1..][j] == s[j + 1];
    }
  }

  /** The case where `x` goes in front: no later element ties with it. */
  lemma InsertTiedFront<T>(x: T, s: seq<T>, key: T -> string, compare: Collation, k: string)
    requires SortedBy(s, key, compare) && s != [] && compare(key(s[0]), key(x)) > 0
    ensures TiedWith(InsertSorted(x, s, key, compare), key, compare, k)
         == TiedWith(s, key, compare, k) + (if Ties(compare, key(x), k) then [x] else [])
  {
    assert InsertSorted(x, s, key, compare) == [x] + s;
    TiedWithCons(x, s, key, compare, k);
    if Ties(compare, key(x), k) {
      NoneTied(s, x, key, compare, k);
    }
  }

  /** The case where `x` goes after the head, given the claim for the tail. */
  lemma InsertTiedBehind<T>(x: T, s: seq<T>, key: T -> string, compare: Collation, k: string)
    requires s != [] && compare(key(s[0]), key(x)) <= 0
    requires TiedWith(InsertSorted(x, s[1..], key, compare), key, compare, k)
          == TiedWith(s[1..], key, compare, k) + (if Ties(compare, key(x), k) then [x] else [])
    ensures TiedWith(InsertSorted(x, s, key, compare), key, compare, k)
         == TiedWith(s, key, compare, k) + (if Ties(compare, key(x), k) then [x] else [])
  {
    var rest := InsertSorted(x, s[1..], key, compare);
    assert InsertSorted(x, s, key, compare) == [s[0]] + rest;
    TiedWithCons(s[0], rest, key, compare, k);
    TiedWithCons(s[0], s[1..], key, compare, k);
    assert [s[0]] + s[1..] == s;
    ConcatAssoc(if Ties(compare, key(s[0]), k) then [s[0]] else [],
                TiedWith(s[1..], key, compare, k),
                if Ties(compare, key(x), k) then [x] else []);
  }

  /** Inserting `x` puts it after the elements tied with it and changes
      nothing else about any class of tied elements. */
  lemma {:induction false} InsertTied<T>(x: T, s: seq<T>, key: T -> string, compare: Collation, k: string)
    requires SortedBy(s, key, compare)
    ensures TiedWith(InsertSorted(x, s, key, compare), key, compare, k)
         == TiedWith(s, key, compare, k) + (if Ties(compare, key(x), k) then [x] else [])
  {
    if s == [] {
      assert InsertSorted(x, s, key, compare) == [x] + [];
      TiedWithCons(x, [], key, compare, k);
    } else if compare(key(s[0]), key(x)) > 0 {
      InsertTiedFront(x, s, key, compare, k);
    } else {
      SortedTail(s, key, compare);
      InsertTied(x, s[1..], key, compare, k);
      InsertTiedBehind(x, s, key, compare, k);
    }
  }

  /** `SortBy` is stable: the elements whose keys tie with any given key
      appear in the result in the order they had in the input. */
  lemma {:induction false} SortStable<T>(s: seq<T>, key: T -> string, compare: Collation, k: string)
    ensures TiedWith(SortBy(s, key, compare), key, compare, k) == TiedWith(s, key, compare, k)
  {
    if s != [] {
      var init, last := s[..|s| - 1], s[|s| - 1];
      var sortedInit := SortBy(init, key, compare);
      assert s == init + [last];
      assert SortBy(s, key, compare) == InsertSorted(last, sortedInit, key, compare);
      SortStable(init, key, compare, k);
      InsertTied(last, sortedInit, key, compare, k);
      TiedWithAppend(init, [last], key, compare, k);
      TiedWithCons(last, [], key, compare, k);
      assert [last] + [] == [last];
    }
  }

}
