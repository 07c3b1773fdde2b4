/**
 * Sorting by a string key, as `Array.prototype.sort` does with a comparator
 * that answers -1, 1 or 0 from `<` and `>` on the keys. The sort is stable
 * (elements with equal keys keep their order), as the ECMAScript standard has
 * required since its 2019 edition.
 */
module Ordering {
  import opened Text

  /** Keys never decrease along the sequence. */
  predicate Sorted<T>(s: seq<T>, key: T -> string) {
    forall i, j :: 0 <= i < j < |s| ==> !Less(key(s[j]), key(s[i]))
  }

  /** Places `x` after every leading element whose key is not greater than its own. */
  function Insert<T>(x: T, s: seq<T>, key: T -> string): seq<T> {
    if |s| == 0 then [x]
    else if Less(key(x), key(s[0])) then [x] + s
    else [s[0]] + Insert(x, s[1..], key)
  }

  /** Insertion sort, taking the input from left to right. */
  function Sort<T>(s: seq<T>, key: T -> string): seq<T> {
    if |s| == 0 then [] else Insert(s[|s| - 1], Sort(s[..|s| - 1], key), key)
  }

  /** The elements whose key is `k`, in their order. */
  function Matching<T>(s: seq<T>, key: T -> string, k: string): seq<T> {
    if |s| == 0 then []
    else (if key(s[0]) == k then [s[0]] else []) + Matching(s[1..], key, k)
  }

  lemma {:induction false} InsertElements<T>(x: T, s: seq<T>, key: T -> string)
    ensures multiset(Insert(x, s, key)) == multiset(s) + multiset{x}
  {
    if |s| > 0 && !Less(key(x), key(s[0])) {
      InsertElements(x, s[1..], key);
      assert s == [s[0]] + s[1..];
    }
  }

  lemma {:induction false} InsertSorted<T>(x: T, s: seq<T>, key: T -> string)
    requires Sorted(s, key)
    ensures Sorted(Insert(x, s, key), key)
  {
    if |s| == 0 {
    } else if Less(key(x), key(s[0])) {
      var r := [x] + s;
      forall j | 1 <= j < |r| ensures !Less(key(r[j]), key(x)) {
        if Less(key(r[j]), key(x)) {
          LessTransitive(key(r[j]), key(x), key(s[0]));
          if j == 1 {
            LessIrreflexive(key(s[0]));
          }
          assert false;
        }
      }
    } else {
      var rest := Insert(x, s[1..], key);
      InsertSorted(x, s[1..], key);
      InsertElements(x, s[1..], key);
      var r := [s[0]] + rest;
      forall j | 1 <= j < |r| ensures !Less(key(r[j]), key(s[0])) {
        assert r[j] in multiset(rest);
        assert r[j] in multiset(s[1..]) || r[j] == x;
        if r[j] != x {
          var i :| 0 <= i < |s[1..]| && s[1..][i] == r[j];
          assert s[i + 1] == r[j];
        }
      }
    }
  }

  /** The sort rearranges its input into key order. */
  lemma {:induction false} SortSorted<T>(s: seq<T>, key: T -> string)
    ensures Sorted(Sort(s, key), key)
    ensures multiset(Sort(s, key)) == multiset(s)
  {
    if |s| > 0 {
      var init := s[..|s| - 1];
      SortSorted(init, key);
      InsertSorted(s[|s| - 1], Sort(init, key), key);
      InsertElements(s[|s| - 1], Sort(init, key), key);
      assert s == init + [s[|s| - 1]];
    }
  }

  lemma {:induction false} MatchingAppend<T>(a: seq<T>, b: seq<T>, key: T -> string, k: string)
    ensures Matching(a + b, key, k) == Matching(a, key, k) + Matching(b, key, k)
  {
    if |a| > 0 {
      assert (a + b)[1..] == a[1..] + b;
      MatchingAppend(a[1..], b, key, k);
    } else {
      assert a + b == b;
    }
  }

  lemma {:induction false} MatchingNone<T>(s: seq<T>, key: T -> string, k: string)
    requires forall i :: 0 <= i < |s| ==> key(s[i]) != k
    ensures Matching(s, key, k) == []
  {
    if |s| > 0 {
      MatchingNone(s[1..], key, k);
    }
  }

  /** Inserting into a sorted sequence puts `x` after every element of equal key. */
  lemma {:induction false} InsertMatching<T>(x: T, s: seq<T>, key: T -> string, k: string)
    requires Sorted(s, key)
    ensures Matching(Insert(x, s, key), key, k)
         == Matching(s, key, k) + (if key(x) == k then [x] else [])
  {
    if |s| == 0 {
    } else if Less(key(x), key(s[0])) {
      assert ([x] + s)[1..] == s;
      if key(x) == k {
        forall i | 0 <= i < |s| ensures key(s[i]) != k {
          if key(s[i]) == k {
            if i == 0 {
              LessIrreflexive(k);
            }
            assert false;
          }
        }
        MatchingNone(s, key, k);
      }
    } else {
      InsertMatching(x, s[1..], key, k);
      assert ([s[0]] + Insert(x, s[1..], key))[1..] == Insert(x, s[1..], key);
      var head := if key(s[0]) == k then [s[0]] else [];
      assert Matching(Insert(x, s, key), key, k) == head + Matching(Insert(x, s[1..], key), key, k);
      assert Matching(s, key, k) == head + Matching(s[1..], key, k);
    }
  }

  /** Stability: for every key, the elements carrying it come out in their input order. */
  lemma {:induction false} SortStable<T>(s: seq<T>, key: T -> string, k: string)
    ensures Matching(Sort(s, key), key, k) == Matching(s, key, k)
  {
    if |s| > 0 {
      var init := s[..|s| - 1];
      var x := s[|s| - 1];
      SortStable(init, key, k);
      SortSorted(init, key);
      InsertMatching(x, Sort(init, key), key, k);
      assert s == init + [x];
      MatchingAppend(init, [x], key, k);
    }
  }
}
