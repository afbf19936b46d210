/**
 * A stable sort by a key, the model of `Array.prototype.sort` with a
 * consistent comparator (ECMAScript requires the sort to be stable). Keys
 * are integer sequences compared lexicographically, so one definition serves
 * a numeric comparator (`[date]`, `[-views]`) and a length-then-alphabetical
 * one (`[-|name|] + code points`).
 */
module StableSort {

  /** Lexicographic order on integer sequences; a proper prefix comes first. */
  predicate KeyLe(a: seq<int>, b: seq<int>)
    decreases |a|
  {
    a == [] || (b != [] && (a[0] < b[0] || (a[0] == b[0] && KeyLe(a[1..], b[1..]))))
  }

  lemma {:induction false} KeyLeReflexive(a: seq<int>)
    ensures KeyLe(a, a)
    decreases |a|
  {
    if a != [] {
      KeyLeReflexive(a[1..]);
    }
  }

  lemma {:induction false} KeyLeTotal(a: seq<int>, b: seq<int>)
    ensures KeyLe(a, b) || KeyLe(b, a)
    decreases |a|
  {
    if a != [] && b != [] && a[0] == b[0] {
      KeyLeTotal(a[1..], b[1..]);
    }
  }

  lemma {:induction false} KeyLeTransitive(a: seq<int>, b: seq<int>, c: seq<int>)
    requires KeyLe(a, b) && KeyLe(b, c)
    ensures KeyLe(a, c)
    decreases |a|
  {
    if a != [] && a[0] == b[0] && b[0] == c[0] {
      KeyLeTransitive(a[1..], b[1..], c[1..]);
    }
  }

  lemma {:induction false} KeyLeAntisymmetric(a: seq<int>, b: seq<int>)
    requires KeyLe(a, b) && KeyLe(b, a)
    ensures a == b
    decreases |a|
  {
    if a != [] {
      KeyLeAntisymmetric(a[1..], b[1..]);
      assert a == [a[0]] + a[1..] && b == [b[0]] + b[1..];
    }
  }

  /** On one-element keys the order is the integer order. */
  lemma KeyLeSingleton(x: int, y: int)
    ensures KeyLe([x], [y]) <==> x <= y
  {
    assert [x][1..] == [] && [y][1..] == [];
  }

  predicate SortedBy<T>(xs: seq<T>, key: T -> seq<int>) {
    forall i, j :: 0 <= i < j < |xs| ==> KeyLe(key(xs[i]), key(xs[j]))
  }

  /** The elements of `xs` whose key is `k`, in order: what stability preserves. */
  function WithKey<T>(xs: seq<T>, key: T -> seq<int>, k: seq<int>): seq<T> {
    if xs == [] then []
    else if key(xs[0]) == k then [xs[0]] + WithKey(xs[1..], key, k)
    else WithKey(xs[1..], key, k)
  }

  /** Inserts `x` before the first element whose key is not below `key(x)`. */
  function Insert<T>(x: T, xs: seq<T>, key: T -> seq<int>): (r: seq<T>)
    requires SortedBy(xs, key)
    ensures SortedBy(r, key)
    ensures multiset(r) == multiset(xs) + multiset{x}
  {
    if xs == [] || KeyLe(key(x), key(xs[0])) then
      assert SortedBy([x] + xs, key) by {
        forall j | 0 < j < |xs| ensures KeyLe(key(x), key(xs[j])) {
          KeyLeTransitive(key(x), key(xs[0]), key(xs[j]));
        }
      }
      [x] + xs
    else
      var rest := Insert(x, xs[1..], key);
      var r := [xs[0]] + rest;
      assert xs == [xs[0]] + xs[1..];
      assert SortedBy(r, key) by {
        KeyLeTotal(key(x), key(xs[0]));
        forall j | 0 <= j < |rest| ensures KeyLe(key(xs[0]), key(rest[j])) {
          assert rest[j] in multiset(rest);
          if rest[j] == x {
          } else {
            assert rest[j] in multiset(xs[1..]);
            var m :| 0 <= m < |xs[1..]| && xs[1..][m] == rest[j];
            assert xs[m + 1] == rest[j];
          }
        }
      }
      r
  }

  /** Insertion sort: sorted by `key`, a permutation of its input. */
  function Sort<T>(xs: seq<T>, key: T -> seq<int>): (r: seq<T>)
    ensures SortedBy(r, key)
    ensures multiset(r) == multiset(xs)
  {
    if xs == [] then []
    else
      assert xs == [xs[0]] + xs[1..];
      Insert(xs[0], Sort(xs[1..], key), key)
  }

  lemma {:induction false} InsertWithKey<T>(x: T, xs: seq<T>, key: T -> seq<int>, k: seq<int>)
    requires SortedBy(xs, key)
    ensures WithKey(Insert(x, xs, key), key, k)
      == if key(x) == k then [x] + WithKey(xs, key, k) else WithKey(xs, key, k)
    decreases |xs|
  {
    if xs == [] || KeyLe(key(x), key(xs[0])) {
      assert ([x] + xs)[1..] == xs;
    } else {
      var rest := Insert(x, xs[1..], key);
      assert ([xs[0]] + rest)[1..] == rest;
      InsertWithKey(x, xs[1..], key, k);
      if key(x) == k {
        KeyLeReflexive(k);
        assert key(xs[0]) != k;
      }
    }
  }

  /** Stability: sorting keeps the relative order of the elements of each key. */
  lemma {:induction false} SortStable<T>(xs: seq<T>, key: T -> seq<int>, k: seq<int>)
    ensures WithKey(Sort(xs, key), key, k) == WithKey(xs, key, k)
    decreases |xs|
  {
    if xs != [] {
      SortStable(xs[1..], key, k);
      InsertWithKey(xs[0], Sort(xs[1..], key), key, k);
    }
  }

  /** Sorting an already sorted sequence leaves it unchanged. */
  lemma {:induction false} SortSorted<T>(xs: seq<T>, key: T -> seq<int>)
    requires SortedBy(xs, key)
    ensures Sort(xs, key) == xs
    decreases |xs|
  {
    if xs != [] {
      assert SortedBy(xs[1..], key) by {
        forall i, j | 0 <= i < j < |xs[1..]| ensures KeyLe(key(xs[1..][i]), key(xs[1..][j])) {
          assert xs[1..][i] == xs[i + 1] && xs[1..][j] == xs[j + 1];
        }
      }
      SortSorted(xs[1..], key);
      if |xs| > 1 {
        assert KeyLe(key(xs[0]), key(xs[1..][0]));
      }
      assert [xs[0]] + xs[1..] == xs;
    }
  }

  lemma WithKeyHead<T>(xs: seq<T>, key: T -> seq<int>)
    requires xs != []
    ensures WithKey(xs, key, key(xs[0])) == [xs[0]] + WithKey(xs[1..], key, key(xs[0]))
  {
  }

  lemma {:induction false} WithKeyMember<T>(xs: seq<T>, key: T -> seq<int>, k: seq<int>)
    requires WithKey(xs, key, k) != []
    ensures exists j :: 0 <= j < |xs| && key(xs[j]) == k
    decreases |xs|
  {
    if key(xs[0]) != k {
      WithKeyMember(xs[1..], key, k);
      var j :| 0 <= j < |xs[1..]| && key(xs[1..][j]) == k;
      assert xs[j + 1] == xs[1..][j];
    }
  }

  lemma SortedTail<T>(xs: seq<T>, key: T -> seq<int>)
    requires xs != [] && SortedBy(xs, key)
    ensures SortedBy(xs[1..], key)
  {
    forall i, j | 0 <= i < j < |xs[1..]| ensures KeyLe(key(xs[1..][i]), key(xs[1..][j])) {
      assert xs[1..][i] == xs[i + 1] && xs[1..][j] == xs[j + 1];
    }
  }

  /** The head of a non-empty sorted sequence has a key no greater than that of any element. */
  lemma SortedHeadLeast<T>(xs: seq<T>, key: T -> seq<int>, j: nat)
    requires j < |xs| && SortedBy(xs, key)
    ensures KeyLe(key(xs[0]), key(xs[j]))
  {
    if j == 0 {
      KeyLeReflexive(key(xs[0]));
    }
  }

  /**
   * A sorted sequence is determined by the order of the elements of each key:
   * two sorted sequences that agree on every key's elements are equal.
   */
  lemma {:induction false} SortedUnique<T>(a: seq<T>, b: seq<T>, key: T -> seq<int>)
    requires SortedBy(a, key) && SortedBy(b, key)
    requires forall k :: WithKey(a, key, k) == WithKey(b, key, k)
    ensures a == b
    decreases |a| + |b|
  {
    if a == [] && b == [] {
    } else if a == [] {
      WithKeyHead(b, key);
      assert false;
    } else if b == [] {
      WithKeyHead(a, key);
      assert false;
    } else {
      var ka, kb := key(a[0]), key(b[0]);
      WithKeyHead(a, key);
      WithKeyHead(b, key);
      assert WithKey(b, key, ka) != [];
      WithKeyMember(b, key, ka);
      var jb :| 0 <= jb < |b| && key(b[jb]) == ka;
      SortedHeadLeast(b, key, jb);
      assert WithKey(a, key, kb) != [];
      WithKeyMember(a, key, kb);
      var ja :| 0 <= ja < |a| && key(a[ja]) == kb;
      SortedHeadLeast(a, key, ja);
      KeyLeAntisymmetric(ka, kb);
      assert a[0] == b[0] by {
        assert WithKey(a, key, ka)[0] == WithKey(b, key, ka)[0];
      }
      SortedTail(a, key);
      SortedTail(b, key);
      forall k ensures WithKey(a[1..], key, k) == WithKey(b[1..], key, k) {
        if k == ka {
          assert WithKey(a, key, k)[1..] == WithKey(b, key, k)[1..];
        } else {
          assert WithKey(a, key, k) == WithKey(b, key, k);
        }
      }
      SortedUnique(a[1..], b[1..], key);
      assert a == [a[0]] + a[1..] && b == [b[0]] + b[1..];
    }
  }

  /**
   * Any stable sort agrees with `Sort`: a sorted arrangement of `xs` that
   * keeps each key's elements in their input order is `Sort(xs, key)`.
   */
  lemma StableSortIsSort<T>(xs: seq<T>, ys: seq<T>, key: T -> seq<int>)
    requires SortedBy(ys, key)
    requires forall k :: WithKey(ys, key, k) == WithKey(xs, key, k)
    ensures ys == Sort(xs, key)
  {
    forall k ensures WithKey(ys, key, k) == WithKey(Sort(xs, key), key, k) {
      SortStable(xs, key, k);
    }
    SortedUnique(ys, Sort(xs, key), key);
  }
}
