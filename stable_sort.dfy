/**
 * Python's `sorted(items, key=...)` where every key is a list of ints: a
 * stable sort by lexicographic comparison of the keys.  Items travel
 * together with their keys.
 */
module StableSort {
  import opened Lex

  datatype Keyed<T> = Keyed(key: seq<int>, item: T)

  ghost predicate Sorted<T>(s: seq<Keyed<T>>)
  {
    forall i, j :: 0 <= i < j < |s| ==> LexLe(s[i].key, s[j].key)
  }

  /** The elements of s whose key is k, in the order of s. */
  function WithKey<T>(s: seq<Keyed<T>>, k: seq<int>): seq<Keyed<T>>
  {
    if s == [] then []
    else (if s[0].key == k then [s[0]] else []) + WithKey(s[1..], k)
  }

  /** Puts x before the first element whose key is not smaller than x's. */
  function Insert<T>(x: Keyed<T>, s: seq<Keyed<T>>): seq<Keyed<T>>
  {
    if s == [] then [x]
    else if LexLe(x.key, s[0].key) then [x] + s
    else [s[0]] + Insert(x, s[1..])
  }

  /** Insertion sort; each item goes in front of the later items with an equal key. */
  function SortByKey<T>(s: seq<Keyed<T>>): seq<Keyed<T>>
  {
    if s == [] then [] else Insert(s[0], SortByKey(s[1..]))
  }

  /** The items of a keyed list, keys dropped. */
  function Items<T>(s: seq<Keyed<T>>): (r: seq<T>)
    ensures |r| == |s| && forall i :: 0 <= i < |s| ==> r[i] == s[i].item
  {
    seq(|s|, i requires 0 <= i < |s| => s[i].item)
  }

  lemma {:induction false} InsertPermutes<T>(x: Keyed<T>, s: seq<Keyed<T>>)
    ensures multiset(Insert(x, s)) == multiset(s) + multiset{x}
    decreases |s|
  {
    if s != [] && !LexLe(x.key, s[0].key) {
      InsertPermutes(x, s[1..]);
      assert s == [s[0]] + s[1..];
    }
  }

  /** A sorted list stays sorted with an element in front that is not above any of it. */
  lemma ConsSorted<T>(h: Keyed<T>, rest: seq<Keyed<T>>)
    requires Sorted(rest)
    requires forall j :: 0 <= j < |rest| ==> LexLe(h.key, rest[j].key)
    ensures Sorted([h] + rest)
  {
    var r := [h] + rest;
    forall i, j | 0 <= i < j < |r| ensures LexLe(r[i].key, r[j].key) {
      if i == 0 {
        assert r[j] == rest[j - 1];
      } else {
        assert r[i] == rest[i - 1] && r[j] == rest[j - 1];
      }
    }
  }

  /** Every element of Insert(x, s) is x or an element of s. */
  lemma InsertFrom<T>(x: Keyed<T>, s: seq<Keyed<T>>, j: nat)
    requires j < |Insert(x, s)|
    ensures Insert(x, s)[j] == x || exists k :: 0 <= k < |s| && s[k] == Insert(x, s)[j]
  {
    InsertPermutes(x, s);
    var y := Insert(x, s)[j];
    assert y in multiset(Insert(x, s));
    if y != x {
      assert y in multiset(s);
      assert y in s;
    }
  }

  lemma {:induction false} InsertSorted<T>(x: Keyed<T>, s: seq<Keyed<T>>)
    requires Sorted(s)
    ensures Sorted(Insert(x, s))
    decreases |s|
  {
    if s == [] {
    } else if LexLe(x.key, s[0].key) {
      forall j | 0 <= j < |s| ensures LexLe(x.key, s[j].key) {
        if j > 0 {
          LexLeTransitive(x.key, s[0].key, s[j].key);
        }
      }
      ConsSorted(x, s);
    } else {
      LexLeTotal(x.key, s[0].key);
      var rest := Insert(x, s[1..]);
      InsertSorted(x, s[1..]);
      forall j | 0 <= j < |rest| ensures LexLe(s[0].key, rest[j].key) {
        InsertFrom(x, s[1..], j);
        if rest[j] != x {
          var k :| 0 <= k < |s[1..]| && s[1..][k] == rest[j];
          assert s[k + 1] == rest[j];
        }
      }
      ConsSorted(s[0], rest);
    }
  }

  lemma {:induction false} InsertWithKey<T>(x: Keyed<T>, s: seq<Keyed<T>>, k: seq<int>)
    ensures WithKey(Insert(x, s), k) == (if x.key == k then [x] else []) + WithKey(s, k)
    decreases |s|
  {
    if s == [] {
    } else if LexLe(x.key, s[0].key) {
      assert ([x] + s)[1..] == s;
    } else {
      LexLeReflexive(x.key);
      assert s[0].key != x.key;
      var rest := Insert(x, s[1..]);
      InsertWithKey(x, s[1..], k);
      assert ([s[0]] + rest)[1..] == rest;
      var head := if s[0].key == k then [s[0]] else [];
      assert WithKey(Insert(x, s), k) == head + WithKey(rest, k);
      assert WithKey(s, k) == head + WithKey(s[1..], k);
    }
  }

  /**
   * The result holds the same items, ordered by key, and items with equal
   * keys keep the order they had in the input.
   */
  lemma SortByKeyIsStableSort<T>(s: seq<Keyed<T>>)
    ensures multiset(SortByKey(s)) == multiset(s)
    ensures Sorted(SortByKey(s))
    ensures forall k :: WithKey(SortByKey(s), k) == WithKey(s, k)
  {
    SortByKeyPermutes(s);
    SortByKeySorted(s);
    forall k ensures WithKey(SortByKey(s), k) == WithKey(s, k) {
      SortByKeyStable(s, k);
    }
  }

  lemma {:induction false} SortByKeyPermutes<T>(s: seq<Keyed<T>>)
    ensures multiset(SortByKey(s)) == multiset(s)
    decreases |s|
  {
    if s != [] {
      SortByKeyPermutes(s[1..]);
      InsertPermutes(s[0], SortByKey(s[1..]));
      assert s == [s[0]] + s[1..];
      assert multiset(s) == multiset{s[0]} + multiset(s[1..]);
    }
  }

  lemma {:induction false} SortByKeySorted<T>(s: seq<Keyed<T>>)
    ensures Sorted(SortByKey(s))
    decreases |s|
  {
    if s != [] {
      SortByKeySorted(s[1..]);
      InsertSorted(s[0], SortByKey(s[1..]));
    }
  }

  lemma {:induction false} SortByKeyStable<T>(s: seq<Keyed<T>>, k: seq<int>)
    ensures WithKey(SortByKey(s), k) == WithKey(s, k)
    decreases |s|
  {
    if s != [] {
      SortByKeyStable(s[1..], k);
      InsertWithKey(s[0], SortByKey(s[1..]), k);
    }
  }

  /** The items of a list whose key, computed by f, is k, in list order. */
  function ItemsWithKey<T>(items: seq<T>, f: T -> seq<int>, k: seq<int>): seq<T>
  {
    if items == [] then []
    else (if f(items[0]) == k then [items[0]] else []) + ItemsWithKey(items[1..], f, k)
  }

  /** Every key was computed from its item by f. */
  ghost predicate KeyedBy<T>(s: seq<Keyed<T>>, f: T -> seq<int>)
  {
    forall i :: 0 <= i < |s| ==> s[i].key == f(s[i].item)
  }

  lemma ItemsConcat<T>(a: seq<Keyed<T>>, b: seq<Keyed<T>>)
    ensures Items(a + b) == Items(a) + Items(b)
  {
  }

  lemma CancelOne<T>(x: T, m: multiset<T>, n: multiset<T>)
    requires multiset{x} + m == multiset{x} + n
    ensures m == n
  {
    forall y ensures m[y] == n[y] {
      assert (multiset{x} + m)[y] == (multiset{x} + n)[y];
    }
  }

  /** Dropping the keys of two permutations of each other leaves two permutations. */
  lemma {:induction false} ItemsPermutes<T>(a: seq<Keyed<T>>, b: seq<Keyed<T>>)
    requires multiset(a) == multiset(b)
    ensures multiset(Items(a)) == multiset(Items(b))
    decreases |a|
  {
    if a != [] {
      assert a[0] in multiset(b);
      var j :| 0 <= j < |b| && b[j] == a[0];
      var b' := b[..j] + b[j + 1..];
      assert b == b[..j] + [b[j]] + b[j + 1..];
      assert a == [a[0]] + a[1..];
      assert multiset(b) == multiset{a[0]} + multiset(b') by {
        assert multiset(b) == multiset(b[..j]) + multiset{b[j]} + multiset(b[j + 1..]);
        assert multiset(b') == multiset(b[..j]) + multiset(b[j + 1..]);
      }
      assert multiset(a) == multiset{a[0]} + multiset(a[1..]);
      CancelOne(a[0], multiset(a[1..]), multiset(b'));
      ItemsPermutes(a[1..], b');
      ItemsConcat(b[..j], b[j + 1..]);
      ItemsConcat(b[..j] + [b[j]], b[j + 1..]);
      ItemsConcat(b[..j], [b[j]]);
      ItemsConcat([a[0]], a[1..]);
    }
  }

  lemma KeyedByPermutes<T>(a: seq<Keyed<T>>, b: seq<Keyed<T>>, f: T -> seq<int>)
    requires KeyedBy(a, f) && multiset(a) == multiset(b)
    ensures KeyedBy(b, f)
  {
    forall i | 0 <= i < |b| ensures b[i].key == f(b[i].item) {
      assert b[i] in multiset(a);
    }
  }

  /** Filtering by key commutes with dropping the keys, when the keys come from f. */
  lemma {:induction false} WithKeyItems<T>(s: seq<Keyed<T>>, f: T -> seq<int>, k: seq<int>)
    requires KeyedBy(s, f)
    ensures Items(WithKey(s, k)) == ItemsWithKey(Items(s), f, k)
    decreases |s|
  {
    if s != [] {
      WithKeyItems(s[1..], f, k);
      assert Items(s)[1..] == Items(s[1..]);
      ItemsConcat(if s[0].key == k then [s[0]] else [], WithKey(s[1..], k));
    }
  }
}
