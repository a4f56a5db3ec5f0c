/** Sorting by an integer key, newest first.  Every date sort of the newsroom
    is `list.sort((a, b) => key(b) - key(a))`; JavaScript's sort is stable, so
    records with equal keys keep their input order.  The model is a stable
    insertion sort, characterised below by three properties that together
    determine its result. */
module Ordering {
  import opened Sequences

  /** Keys never increase along `s`. */
  predicate SortedDesc<T>(s: seq<T>, key: T -> int)
  {
    forall i, j :: 0 <= i < j < |s| ==> key(s[i]) >= key(s[j])
  }

  /** The filter test "has key `k`". */
  function HasKey<T>(key: T -> int, k: int): T -> bool
  {
    x => key(x) == k
  }

  /** The records of `s` whose key is `k`, in their order in `s`. */
  function KeyClass<T>(s: seq<T>, key: T -> int, k: int): seq<T>
  {
    Filter(s, HasKey(key, k))
  }

  /** Places `x` in front of the first record of `r` whose key is not larger. */
  function Insert<T>(x: T, r: seq<T>, key: T -> int): seq<T>
  {
    if r == [] || key(x) >= key(r[0]) then [x] + r
    else [r[0]] + Insert(x, r[1..], key)
  }

  function SortDesc<T>(s: seq<T>, key: T -> int): seq<T>
  {
    if s == [] then [] else Insert(s[0], SortDesc(s[1..], key), key)
  }

  // ---------------------------------------------------------------------
  // Insert

  lemma {:induction false} InsertPermutation<T>(x: T, r: seq<T>, key: T -> int)
    ensures multiset(Insert(x, r, key)) == multiset(r) + multiset{x}
  {
    if r != [] && key(x) < key(r[0]) {
      InsertPermutation(x, r[1..], key);
      assert r == [r[0]] + r[1..];
    }
  }

  lemma SortedCons<T>(h: T, t: seq<T>, key: T -> int)
    requires SortedDesc(t, key)
    requires forall y :: y in t ==> key(y) <= key(h)
    ensures SortedDesc([h] + t, key)
  {
  }

  lemma {:induction false} InsertSorted<T>(x: T, r: seq<T>, key: T -> int)
    requires SortedDesc(r, key)
    ensures SortedDesc(Insert(x, r, key), key)
  {
    if r == [] || key(x) >= key(r[0]) {
      forall y | y in r ensures key(y) <= key(x) {
        var j :| 0 <= j < |r| && r[j] == y;
      }
      SortedCons(x, r, key);
    } else {
      var t := r[1..];
      assert SortedDesc(t, key);
      InsertSorted(x, t, key);
      InsertPermutation(x, t, key);
      forall y | y in Insert(x, t, key) ensures key(y) <= key(r[0]) {
        assert y in multiset(t) + multiset{x};
        if y != x {
          var j :| 0 <= j < |t| && t[j] == y;
          assert r[j + 1] == y;
        }
      }
      SortedCons(r[0], Insert(x, t, key), key);
    }
  }

  /** Insertion passes over larger keys only, so among the records that share
      a key, `x` lands in front. */
  lemma {:induction false} InsertClass<T>(x: T, r: seq<T>, key: T -> int, k: int)
    ensures KeyClass(Insert(x, r, key), key, k)
         == (if key(x) == k then [x] else []) + KeyClass(r, key, k)
  {
    if r == [] || key(x) >= key(r[0]) {
      FilterConcat([x], r, HasKey(key, k));
    } else {
      InsertClass(x, r[1..], key, k);
      FilterConcat([r[0]], Insert(x, r[1..], key), HasKey(key, k));
      FilterConcat([r[0]], r[1..], HasKey(key, k));
      assert r == [r[0]] + r[1..];
    }
  }

  // ---------------------------------------------------------------------
  // SortDesc

  /** The sort is a permutation of its input. */
  lemma {:induction false} SortPermutation<T>(s: seq<T>, key: T -> int)
    ensures multiset(SortDesc(s, key)) == multiset(s)
  {
    if s != [] {
      SortPermutation(s[1..], key);
      InsertPermutation(s[0], SortDesc(s[1..], key), key);
      assert s == [s[0]] + s[1..];
    }
  }

  /** The sort puts the newest first. */
  lemma {:induction false} SortOrdered<T>(s: seq<T>, key: T -> int)
    ensures SortedDesc(SortDesc(s, key), key)
  {
    if s != [] {
      SortOrdered(s[1..], key);
      InsertSorted(s[0], SortDesc(s[1..], key), key);
    }
  }

  /** The sort is stable: the records that share a key keep their input order. */
  lemma {:induction false} SortStable<T>(s: seq<T>, key: T -> int, k: int)
    ensures KeyClass(SortDesc(s, key), key, k) == KeyClass(s, key, k)
  {
    if s != [] {
      SortStable(s[1..], key, k);
      InsertClass(s[0], SortDesc(s[1..], key), key, k);
      FilterConcat([s[0]], s[1..], HasKey(key, k));
      assert s == [s[0]] + s[1..];
    }
  }

  lemma ClassMember<T>(s: seq<T>, key: T -> int, k: int, i: nat)
    requires i < |s| && key(s[i]) == k
    ensures KeyClass(s, key, k) != []
  {
    FilterMembers(s, HasKey(key, k));
    assert s[i] in KeyClass(s, key, k);
  }

  /** The sort's first record is the first record of largest key. */
  lemma SortHead<T>(s: seq<T>, key: T -> int) returns (i: nat)
    requires s != []
    ensures SortDesc(s, key) != []
    ensures i < |s| && SortDesc(s, key)[0] == s[i]
    ensures forall j :: 0 <= j < |s| ==> key(s[j]) <= key(s[i])
    ensures forall j :: 0 <= j < i ==> key(s[j]) < key(s[i])
  {
    var r := SortDesc(s, key);
    SortPermutation(s, key);
    assert s[0] in multiset(r);
    var m := key(r[0]);
    SortOrdered(s, key);
    forall j | 0 <= j < |s| ensures key(s[j]) <= m {
      assert s[j] in multiset(r);
      var k :| 0 <= k < |r| && r[k] == s[j];
    }
    SortStable(s, key, m);
    FilterConcat([r[0]], r[1..], HasKey(key, m));
    assert r == [r[0]] + r[1..];
    assert KeyClass(r, key, m)[0] == r[0];
    i := FilterFirst(s, HasKey(key, m));
  }

  /** Two non-empty sequences ordered newest first that agree on every key
      class start with the same record. */
  lemma SameHead<T>(r: seq<T>, t: seq<T>, key: T -> int)
    requires r != [] && t != []
    requires SortedDesc(r, key) && SortedDesc(t, key)
    requires forall k :: KeyClass(r, key, k) == KeyClass(t, key, k)
    ensures r[0] == t[0]
  {
    var m, n := key(r[0]), key(t[0]);
    FilterMembers(r, HasKey(key, n));
    FilterMembers(t, HasKey(key, m));
    ClassMember(r, key, m, 0);
    ClassMember(t, key, n, 0);
    var a := KeyClass(t, key, m)[0];
    assert a in KeyClass(t, key, m);
    var ia :| 0 <= ia < |t| && t[ia] == a;
    var b := KeyClass(r, key, n)[0];
    assert b in KeyClass(r, key, n);
    var ib :| 0 <= ib < |r| && r[ib] == b;
    assert n >= m && m >= n;
    assert r == [r[0]] + r[1..] && t == [t[0]] + t[1..];
    FilterConcat([r[0]], r[1..], HasKey(key, m));
    FilterConcat([t[0]], t[1..], HasKey(key, m));
  }

  /** Dropping a common first record keeps the key classes equal. */
  lemma TailClasses<T>(r: seq<T>, t: seq<T>, key: T -> int, k: int)
    requires r != [] && t != [] && r[0] == t[0]
    requires KeyClass(r, key, k) == KeyClass(t, key, k)
    ensures KeyClass(r[1..], key, k) == KeyClass(t[1..], key, k)
  {
    FilterConcat([r[0]], r[1..], HasKey(key, k));
    FilterConcat([t[0]], t[1..], HasKey(key, k));
    var h := Filter([r[0]], HasKey(key, k));
    assert [r[0]] + r[1..] == r && [t[0]] + t[1..] == t;
    assert KeyClass(r[1..], key, k) == (h + KeyClass(r[1..], key, k))[|h|..];
  }

  /** Two sequences that are ordered newest first and agree on every key
      class are equal. */
  lemma {:induction false} SortedClassesDetermine<T>(r: seq<T>, t: seq<T>, key: T -> int)
    requires SortedDesc(r, key) && SortedDesc(t, key)
    requires forall k :: KeyClass(r, key, k) == KeyClass(t, key, k)
    ensures r == t
  {
    if r == [] || t == [] {
      var u := if r == [] then t else r;
      if u != [] {
        ClassMember(u, key, key(u[0]), 0);
      }
    } else {
      SameHead(r, t, key);
      forall k ensures KeyClass(r[1..], key, k) == KeyClass(t[1..], key, k) {
        TailClasses(r, t, key, k);
      }
      SortedClassesDetermine(r[1..], t[1..], key);
    }
  }

  /** Being ordered newest first and stable characterises the sort: any such
      rearrangement of `s` is `SortDesc(s, key)`. */
  lemma SortUnique<T>(s: seq<T>, r: seq<T>, key: T -> int)
    requires SortedDesc(r, key)
    requires forall k :: KeyClass(r, key, k) == KeyClass(s, key, k)
    ensures r == SortDesc(s, key)
  {
    SortOrdered(s, key);
    forall k ensures KeyClass(r, key, k) == KeyClass(SortDesc(s, key), key, k) {
      SortStable(s, key, k);
    }
    SortedClassesDetermine(r, SortDesc(s, key), key);
  }
}
