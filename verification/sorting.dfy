/** Python's `sorted(xs, key=k)` for a string-valued key: a stable sort by
    the lexicographic order of the keys, modelled as an insertion sort. */
module Sorting {
  import opened TextOps
  import opened Seqs

  /** Keys never decrease along `s`. */
  predicate SortedBy<T>(s: seq<T>, key: T -> string) {
    forall i, j :: 0 <= i < j < |s| ==> LexLe(key(s[i]), key(s[j]))
  }

  /** The elements of `s` whose key is exactly `k`, in their order in `s`.
      A sort is stable when it leaves every such class in place. */
  function WithKey<T>(s: seq<T>, key: T -> string, k: string): seq<T>
    decreases |s|
  {
    if s == [] then []
    else (if key(s[0]) == k then [s[0]] else []) + WithKey(s[1..], key, k)
  }

  /** Prepending an element no larger than anything in a sorted list keeps
      it sorted. */
  lemma SortedCons<T>(h: T, t: seq<T>, key: T -> string)
    requires SortedBy(t, key)
    requires forall j :: 0 <= j < |t| ==> LexLe(key(h), key(t[j]))
    ensures SortedBy([h] + t, key)
  {
    var s := [h] + t;
    forall i, j | 0 <= i < j < |s|
      ensures LexLe(key(s[i]), key(s[j]))
    {
      if i > 0 {
        assert s[i] == t[i - 1] && s[j] == t[j - 1];
      } else {
        assert s[j] == t[j - 1];
      }
    }
  }

  /** Inserts `x` before the first element whose key is not smaller, i.e.
      after every element with a smaller key and before every element with
      an equal or larger one. */
  function Insert<T(!new)>(x: T, s: seq<T>, key: T -> string): (r: seq<T>)
    requires SortedBy(s, key)
    ensures multiset(r) == multiset(s) + multiset{x}
    ensures SortedBy(r, key)
    decreases |s|
  {
    if s == [] then
      [x]
    else if LexLe(key(x), key(s[0])) then
      forall j | 0 <= j < |s| ensures LexLe(key(x), key(s[j])) {
        if j > 0 { LexLeTransitive(key(x), key(s[0]), key(s[j])); }
      }
      SortedCons(x, s, key);
      [x] + s
    else
      var rest := Insert(x, s[1..], key);
      assert s == [s[0]] + s[1..];
      LexLeTotal(key(x), key(s[0]));
      forall j | 0 <= j < |rest| ensures LexLe(key(s[0]), key(rest[j])) {
        assert rest[j] in multiset(rest);
        if rest[j] != x {
          assert rest[j] in multiset(s[1..]);
          var m :| 0 <= m < |s[1..]| && s[1..][m] == rest[j];
          assert s[m + 1] == rest[j];
        }
      }
      SortedCons(s[0], rest, key);
      [s[0]] + rest
  }

  /** `sorted(s, key=key)`: a sorted permutation of `s`. */
  function SortBy<T(!new)>(s: seq<T>, key: T -> string): (r: seq<T>)
    ensures multiset(r) == multiset(s)
    ensures SortedBy(r, key)
    decreases |s|
  {
    if s == [] then
      []
    else
      assert s == [s[0]] + s[1..];
      Insert(s[0], SortBy(s[1..], key), key)
  }

  lemma WithKeyAppend<T>(a: seq<T>, b: seq<T>, key: T -> string, k: string)
    ensures WithKey(a + b, key, k) == WithKey(a, key, k) + WithKey(b, key, k)
    decreases |a|
  {
    if a != [] {
      var h := if key(a[0]) == k then [a[0]] else [];
      assert (a + b)[0] == a[0];
      assert (a + b)[1..] == a[1..] + b;
      WithKeyAppend(a[1..], b, key, k);
      assert WithKey(a + b, key, k) == h + WithKey(a[1..] + b, key, k);
      assert WithKey(a, key, k) == h + WithKey(a[1..], key, k);
    } else {
      assert a + b == b;
    }
  }

  /** Inserting `x` puts it in front of the elements sharing its key. */
  lemma {:induction false} InsertWithKey<T(!new)>(x: T, s: seq<T>, key: T -> string, k: string)
    requires SortedBy(s, key)
    ensures WithKey(Insert(x, s, key), key, k)
         == (if key(x) == k then [x] else []) + WithKey(s, key, k)
    decreases |s|
  {
    if s == [] {
    } else if LexLe(key(x), key(s[0])) {
      assert Insert(x, s, key) == [x] + s;
      WithKeyAppend([x], s, key, k);
    } else {
      var rest := Insert(x, s[1..], key);
      InsertPastHead(x, s, key);
      InsertWithKey(x, s[1..], key, k);
      WithKeyAppend([s[0]], rest, key, k);
      assert s == [s[0]] + s[1..];
      WithKeyAppend([s[0]], s[1..], key, k);
    }
  }

  /** An element whose key is larger than the head's goes into the tail. */
  lemma InsertPastHead<T(!new)>(x: T, s: seq<T>, key: T -> string)
    requires SortedBy(s, key) && s != [] && !LexLe(key(x), key(s[0]))
    ensures SortedBy(s[1..], key)
    ensures Insert(x, s, key) == [s[0]] + Insert(x, s[1..], key)
    ensures key(x) != key(s[0])
  {
    LexLeReflexive(key(x));
  }

  /** `sorted` is stable: within each key, the original order survives. */
  lemma {:induction false} SortByStable<T(!new)>(s: seq<T>, key: T -> string, k: string)
    ensures WithKey(SortBy(s, key), key, k) == WithKey(s, key, k)
    decreases |s|
  {
    if s != [] {
      SortByStable(s[1..], key, k);
      InsertWithKey(s[0], SortBy(s[1..], key), key, k);
    }
  }

  lemma WithKeyHead<T>(s: seq<T>, key: T -> string)
    requires s != []
    ensures WithKey(s, key, key(s[0])) == [s[0]] + WithKey(s[1..], key, key(s[0]))
  {
  }

  lemma WithKeyMember<T>(s: seq<T>, key: T -> string, k: string, i: nat)
    requires i < |s| && key(s[i]) == k
    ensures WithKey(s, key, k) != []
    decreases i
  {
    if i > 0 {
      if key(s[0]) != k {
        WithKeyMember(s[1..], key, k, i - 1);
      }
    }
  }

  lemma WithKeyInhabitant<T>(s: seq<T>, key: T -> string, k: string) returns (i: nat)
    requires WithKey(s, key, k) != []
    ensures i < |s| && key(s[i]) == k
    decreases |s|
  {
    if key(s[0]) == k {
      i := 0;
    } else {
      var j := WithKeyInhabitant(s[1..], key, k);
      i := j + 1;
    }
  }

  /** A sorted list and a stable reordering of it agree: there is only one
      stable sorted arrangement, so `SortBy` is exactly Python's `sorted`. */
  lemma {:induction false} StableSortUnique<T>(a: seq<T>, b: seq<T>, key: T -> string)
    requires SortedBy(a, key) && SortedBy(b, key)
    requires forall k :: WithKey(a, key, k) == WithKey(b, key, k)
    ensures a == b
    decreases |a|
  {
    if a != [] { WithKeyMember(a, key, key(a[0]), 0); }
    if b != [] { WithKeyMember(b, key, key(b[0]), 0); }
    if a == [] || b == [] {
    } else {
      var ka, kb := key(a[0]), key(b[0]);
      WithKeyMember(a, key, ka, 0);
      var ib := WithKeyInhabitant(b, key, ka);
      WithKeyMember(b, key, kb, 0);
      var ia := WithKeyInhabitant(a, key, kb);
      LexLeReflexive(ka);
      assert LexLe(ka, kb) by {
        if ia > 0 { assert LexLe(key(a[0]), key(a[ia])); }
      }
      assert LexLe(kb, ka) by {
        if ib > 0 { assert LexLe(key(b[0]), key(b[ib])); }
      }
      LexLeAntisymmetric(ka, kb);
      WithKeyHead(a, key);
      WithKeyHead(b, key);
      assert WithKey(a, key, ka) == WithKey(b, key, ka);
      assert a[0] == WithKey(a, key, ka)[0] == WithKey(b, key, ka)[0] == b[0];
      forall k ensures WithKey(a[1..], key, k) == WithKey(b[1..], key, k) {
        assert WithKey(a, key, k) == WithKey(b, key, k);
        if k != ka {
          assert WithKey(a, key, k) == WithKey(a[1..], key, k);
          assert WithKey(b, key, k) == WithKey(b[1..], key, k);
        } else {
          assert WithKey(a, key, k)[1..] == WithKey(a[1..], key, k);
          assert WithKey(b, key, k)[1..] == WithKey(b[1..], key, k);
        }
      }
      assert SortedBy(a[1..], key) && SortedBy(b[1..], key);
      StableSortUnique(a[1..], b[1..], key);
      assert a == [a[0]] + a[1..] && b == [b[0]] + b[1..];
    }
  }

  /** Any stable sorted rearrangement of `s` is `SortBy(s, key)`. */
  lemma SortByCharacterised<T(!new)>(s: seq<T>, r: seq<T>, key: T -> string)
    requires SortedBy(r, key)
    requires forall k :: WithKey(r, key, k) == WithKey(s, key, k)
    ensures r == SortBy(s, key)
  {
    forall k ensures WithKey(r, key, k) == WithKey(SortBy(s, key), key, k) {
      SortByStable(s, key, k);
    }
    StableSortUnique(r, SortBy(s, key), key);
  }

  /** Stability for every key at once. */
  lemma SortByStableAll<T(!new)>(s: seq<T>, key: T -> string)
    ensures forall k :: WithKey(SortBy(s, key), key, k) == WithKey(s, key, k)
  {
    forall k ensures WithKey(SortBy(s, key), key, k) == WithKey(s, key, k) {
      SortByStable(s, key, k);
    }
  }

  /** Sorting a list that is already in order changes nothing. */
  lemma SortBySortedIsIdentity<T(!new)>(s: seq<T>, key: T -> string)
    requires SortedBy(s, key)
    ensures SortBy(s, key) == s
  {
    SortByCharacterised(s, s, key);
  }

  /** Dropping elements from a sorted list leaves it sorted. */
  lemma {:induction false} FilterKeepsSorted<T(!new)>(s: seq<T>, p: T -> bool, key: T -> string)
    requires SortedBy(s, key)
    ensures SortedBy(Filter(s, p), key)
    decreases |s|
  {
    if s != [] {
      assert SortedBy(s[1..], key);
      FilterKeepsSorted(s[1..], p, key);
      var rest := Filter(s[1..], p);
      if p(s[0]) {
        forall j | 0 <= j < |rest| ensures LexLe(key(s[0]), key(rest[j])) {
          assert rest[j] in multiset(rest);
          assert rest[j] in multiset(s[1..]);
          var m :| 0 <= m < |s[1..]| && s[1..][m] == rest[j];
          assert s[m + 1] == rest[j];
        }
        SortedCons(s[0], rest, key);
      }
    }
  }
}
