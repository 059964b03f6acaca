/** The stable sort that `Array.prototype.sort` performs (ECMA-262, 2019 and
    later, section 23.1.3.30 requires stability), for a comparator that
    orders elements by an integer key: insertion sort, proved sorted, a
    permutation and stable, and shown to be the ONLY sequence that is sorted
    and stable, so any conforming engine produces exactly this result. */
module Sorting {

  predicate Sorted<T>(s: seq<T>, key: T -> int) {
    forall i, j :: 0 <= i < j < |s| ==> key(s[i]) <= key(s[j])
  }

  /** The elements of `s` whose key is `k`, in their order in `s`. A sort
      is stable when it leaves every such subsequence as it was. */
  function KeyFilter<T>(s: seq<T>, key: T -> int, k: int): seq<T> {
    if s == [] then []
    else (if key(s[0]) == k then [s[0]] else []) + KeyFilter(s[1..], key, k)
  }

  /** Places `x` before the first element whose key is not smaller, so
      that `x` precedes the elements of equal key that follow it in the
      input. */
  function Insert<T>(x: T, t: seq<T>, key: T -> int): seq<T> {
    if t == [] || key(x) <= key(t[0]) then [x] + t
    else [t[0]] + Insert(x, t[1..], key)
  }

  /** Inserting adds `x` and loses nothing. */
  lemma {:induction false} InsertPermutes<T>(x: T, t: seq<T>, key: T -> int)
    ensures multiset(Insert(x, t, key)) == multiset(t) + multiset{x}
  {
    if t != [] && key(x) > key(t[0]) {
      InsertPermutes(x, t[1..], key);
      assert t == [t[0]] + t[1..];
    }
  }

  lemma {:induction false} InsertSorted<T>(x: T, t: seq<T>, key: T -> int)
    requires Sorted(t, key)
    ensures Sorted(Insert(x, t, key), key)
  {
    if t != [] && key(x) > key(t[0]) {
      var rest := Insert(x, t[1..], key);
      InsertSorted(x, t[1..], key);
      assert rest[0] == x || rest[0] == t[1];
      assert key(t[0]) <= key(rest[0]);
      var r := Insert(x, t, key);
      assert r == [t[0]] + rest;
      forall i, j | 0 <= i < j < |r| ensures key(r[i]) <= key(r[j]) {
        if i > 0 {
          assert r[i] == rest[i - 1] && r[j] == rest[j - 1];
        } else {
          assert r[j] == rest[j - 1];
          assert key(rest[0]) <= key(rest[j - 1]);
        }
      }
    }
  }

  function Sort<T>(s: seq<T>, key: T -> int): (r: seq<T>)
    ensures Sorted(r, key)
    ensures multiset(r) == multiset(s)
  {
    if s == [] then []
    else
      assert s == [s[0]] + s[1..];
      InsertSorted(s[0], Sort(s[1..], key), key);
      InsertPermutes(s[0], Sort(s[1..], key), key);
      Insert(s[0], Sort(s[1..], key), key)
  }

  lemma {:induction false} KeyFilterElements<T>(s: seq<T>, key: T -> int, k: int, x: T)
    ensures x in KeyFilter(s, key, k) <==> x in s && key(x) == k
  {
    if s != [] {
      KeyFilterElements(s[1..], key, k, x);
      assert s == [s[0]] + s[1..];
    }
  }

  lemma {:induction false} KeyFilterConcat<T>(a: seq<T>, b: seq<T>, key: T -> int, k: int)
    ensures KeyFilter(a + b, key, k) == KeyFilter(a, key, k) + KeyFilter(b, key, k)
  {
    if a != [] {
      assert (a + b)[1..] == a[1..] + b;
      KeyFilterConcat(a[1..], b, key, k);
    } else {
      assert a + b == b;
    }
  }

  lemma KeyFilterSingle<T>(x: T, key: T -> int, k: int)
    ensures KeyFilter([x], key, k) == if key(x) == k then [x] else []
  {
    assert [x][1..] == [];
  }

  lemma {:induction false} InsertKeyFilter<T>(x: T, t: seq<T>, key: T -> int, k: int)
    ensures KeyFilter(Insert(x, t, key), key, k)
         == (if key(x) == k then [x] else []) + KeyFilter(t, key, k)
  {
    KeyFilterSingle(x, key, k);
    if t == [] || key(x) <= key(t[0]) {
      assert Insert(x, t, key) == [x] + t;
      KeyFilterConcat([x], t, key, k);
    } else {
      var rest := Insert(x, t[1..], key);
      var head, own, tail := KeyFilter([t[0]], key, k), KeyFilter([x], key, k), KeyFilter(t[1..], key, k);
      calc {
        KeyFilter(Insert(x, t, key), key, k);
        { assert Insert(x, t, key) == [t[0]] + rest; }
        KeyFilter([t[0]] + rest, key, k);
        { KeyFilterConcat([t[0]], rest, key, k); }
        head + KeyFilter(rest, key, k);
        { InsertKeyFilter(x, t[1..], key, k); }
        head + (own + tail);
        { KeyFilterSingle(t[0], key, k); assert head == [] || own == []; }
        own + (head + tail);
        { KeyFilterConcat([t[0]], t[1..], key, k); assert [t[0]] + t[1..] == t; }
        own + KeyFilter(t, key, k);
      }
    }
  }

  /** Elements of equal key leave the sort in their input order. */
  lemma {:induction false} SortIsStable<T>(s: seq<T>, key: T -> int, k: int)
    ensures KeyFilter(Sort(s, key), key, k) == KeyFilter(s, key, k)
  {
    if s != [] {
      SortIsStable(s[1..], key, k);
      InsertKeyFilter(s[0], Sort(s[1..], key), key, k);
      KeyFilterConcat([s[0]], s[1..], key, k);
      assert [s[0]] + s[1..] == s;
    }
  }

  lemma KeyFilterUnfold<T>(c: seq<T>, key: T -> int, k: int)
    requires c != []
    ensures key(c[0]) == k ==> KeyFilter(c, key, k) == [c[0]] + KeyFilter(c[1..], key, k)
    ensures key(c[0]) != k ==> KeyFilter(c, key, k) == KeyFilter(c[1..], key, k)
  {
    assert [] + KeyFilter(c[1..], key, k) == KeyFilter(c[1..], key, k);
  }

  lemma SortedHeadIsLeast<T>(s: seq<T>, key: T -> int, x: T)
    requires Sorted(s, key) && x in s
    ensures key(s[0]) <= key(x)
  {
    var j :| 0 <= j < |s| && s[j] == x;
    if j > 0 {
      assert key(s[0]) <= key(s[j]);
    }
  }

  /** Two sorted sequences with the same key filters start with the same element. */
  lemma SameFiltersSameHead<T>(a: seq<T>, b: seq<T>, key: T -> int)
    requires a != [] && b != []
    requires Sorted(a, key) && Sorted(b, key)
    requires KeyFilter(a, key, key(a[0])) == KeyFilter(b, key, key(a[0]))
    requires KeyFilter(a, key, key(b[0])) == KeyFilter(b, key, key(b[0]))
    ensures a[0] == b[0]
  {
    KeyFilterElements(a, key, key(a[0]), a[0]);
    KeyFilterElements(b, key, key(a[0]), a[0]);
    SortedHeadIsLeast(b, key, a[0]);
    KeyFilterElements(b, key, key(b[0]), b[0]);
    KeyFilterElements(a, key, key(b[0]), b[0]);
    SortedHeadIsLeast(a, key, b[0]);
    KeyFilterUnfold(a, key, key(a[0]));
    KeyFilterUnfold(b, key, key(a[0]));
    assert a[0] == KeyFilter(a, key, key(a[0]))[0];
  }

  lemma SameFiltersSameTail<T>(a: seq<T>, b: seq<T>, key: T -> int, k: int)
    requires a != [] && b != [] && a[0] == b[0]
    requires KeyFilter(a, key, k) == KeyFilter(b, key, k)
    ensures KeyFilter(a[1..], key, k) == KeyFilter(b[1..], key, k)
  {
    KeyFilterUnfold(a, key, k);
    KeyFilterUnfold(b, key, k);
    if key(a[0]) == k {
      assert KeyFilter(a[1..], key, k) == KeyFilter(a, key, k)[1..];
      assert KeyFilter(b[1..], key, k) == KeyFilter(b, key, k)[1..];
    }
  }

  lemma {:induction false} SortedWithSameFiltersAreEqual<T>(a: seq<T>, b: seq<T>, key: T -> int)
    requires Sorted(a, key) && Sorted(b, key)
    requires forall k :: KeyFilter(a, key, k) == KeyFilter(b, key, k)
    ensures a == b
    decreases |a|
  {
    if a == [] && b != [] {
      assert false;
    } else if a != [] && b == [] {
      KeyFilterUnfold(a, key, key(a[0]));
      assert false;
    } else if a != [] {
      SameFiltersSameHead(a, b, key);
      forall k ensures KeyFilter(a[1..], key, k) == KeyFilter(b[1..], key, k) {
        SameFiltersSameTail(a, b, key, k);
      }
      SortedWithSameFiltersAreEqual(a[1..], b[1..], key);
      assert a == [a[0]] + a[1..];
      assert b == [b[0]] + b[1..];
    }
  }

  /** Any sorted output that keeps equal-key elements in input order is the
      one `Sort` computes. */
  lemma StableSortIsUnique<T>(s: seq<T>, t: seq<T>, key: T -> int)
    requires Sorted(t, key)
    requires forall k :: KeyFilter(t, key, k) == KeyFilter(s, key, k)
    ensures t == Sort(s, key)
  {
    forall k ensures KeyFilter(t, key, k) == KeyFilter(Sort(s, key), key, k) {
      SortIsStable(s, key, k);
    }
    SortedWithSameFiltersAreEqual(t, Sort(s, key), key);
  }
}
