/** `list.sort(key=…, reverse=True)`: a stable sort by decreasing key. Elements with equal
    keys keep their original relative order. */
module Sorting {

  /** Keys never increase along `s`. */
  predicate SortedDesc<T>(key: T -> int, s: seq<T>) {
    forall i, j :: 0 <= i < j < |s| ==> key(s[i]) >= key(s[j])
  }

  /** The elements of `s` whose key is `k`, in their order in `s`. */
  function WithKey<T>(key: T -> int, s: seq<T>, k: int): (r: seq<T>) {
    if s == [] then []
    else WithKey(key, s[..|s| - 1], k) + (if key(s[|s| - 1]) == k then [s[|s| - 1]] else [])
  }

  /** Places `x` after every element of `s` whose key is at least its own. */
  function Insert<T>(key: T -> int, x: T, s: seq<T>): (r: seq<T>)
    ensures |r| == |s| + 1
  {
    if s == [] then [x]
    else if key(s[|s| - 1]) >= key(x) then s + [x]
    else Insert(key, x, s[..|s| - 1]) + [s[|s| - 1]]
  }

  /** The stable descending sort, inserting the elements one by one in input order; it
      keeps the length. */
  function SortDesc<T>(key: T -> int, s: seq<T>): (r: seq<T>)
    ensures |r| == |s|
  {
    if s == [] then [] else Insert(key, s[|s| - 1], SortDesc(key, s[..|s| - 1]))
  }

  lemma {:induction false} InsertPerm<T>(key: T -> int, x: T, s: seq<T>)
    ensures multiset(Insert(key, x, s)) == multiset(s) + multiset{x}
  {
    if s != [] && key(s[|s| - 1]) < key(x) {
      var init := s[..|s| - 1];
      InsertPerm(key, x, init);
      assert s == init + [s[|s| - 1]];
    }
  }

  lemma InsertMembers<T>(key: T -> int, x: T, s: seq<T>, y: T)
    requires y in Insert(key, x, s)
    ensures y == x || y in s
  {
    InsertPerm(key, x, s);
    assert y in multiset(Insert(key, x, s));
  }

  lemma {:induction false} InsertSorted<T>(key: T -> int, x: T, s: seq<T>)
    requires SortedDesc(key, s)
    ensures SortedDesc(key, Insert(key, x, s))
  {
    if s != [] {
      var init := s[..|s| - 1];
      var last := s[|s| - 1];
      if key(last) < key(x) {
        assert SortedDesc(key, init);
        InsertSorted(key, x, init);
        var ins := Insert(key, x, init);
        forall i | 0 <= i < |ins| ensures key(ins[i]) >= key(last) {
          InsertMembers(key, x, init, ins[i]);
          if ins[i] != x {
            var k :| 0 <= k < |init| && init[k] == ins[i];
            assert s[k] == init[k];
          }
        }
        assert Insert(key, x, s) == ins + [last];
      }
    }
  }

  lemma {:induction false} WithKeyAppend<T>(key: T -> int, a: seq<T>, b: seq<T>, k: int)
    ensures WithKey(key, a + b, k) == WithKey(key, a, k) + WithKey(key, b, k)
    decreases |b|
  {
    if b == [] {
      assert a + b == a;
    } else {
      var init := b[..|b| - 1];
      assert (a + b)[..|a + b| - 1] == a + init;
      assert (a + b)[|a + b| - 1] == b[|b| - 1];
      WithKeyAppend(key, a, init, k);
    }
  }

  lemma WithKeyOne<T>(key: T -> int, x: T, k: int)
    ensures WithKey(key, [x], k) == if key(x) == k then [x] else []
  {
    assert [x][..0] == [];
  }

  /** Inserting into a sorted list keeps the order among equal keys: `x` comes after
      every element already there with its key. */
  lemma {:induction false} InsertStable<T>(key: T -> int, x: T, s: seq<T>, k: int)
    ensures WithKey(key, Insert(key, x, s), k) == WithKey(key, s, k) + WithKey(key, [x], k)
  {
    if s == [] {
      assert [] + [x] == [x];
    } else if key(s[|s| - 1]) >= key(x) {
      WithKeyAppend(key, s, [x], k);
    } else {
      var init := s[..|s| - 1];
      var last := s[|s| - 1];
      var ins := Insert(key, x, init);
      InsertStable(key, x, init, k);
      WithKeyAppend(key, ins, [last], k);
      WithKeyAppend(key, init, [last], k);
      assert init + [last] == s;
      WithKeyOne(key, x, k);
      WithKeyOne(key, last, k);
      var wx := WithKey(key, [x], k);
      var wl := WithKey(key, [last], k);
      assert wx == [] || wl == [];
      assert wx + wl == wl + wx;
      calc {
        WithKey(key, Insert(key, x, s), k);
        WithKey(key, ins, k) + wl;
        WithKey(key, init, k) + wx + wl;
        WithKey(key, init, k) + wl + wx;
        WithKey(key, s, k) + wx;
      }
    }
  }

  /** The sort orders by decreasing key. */
  lemma {:induction false} SortDescSorted<T>(key: T -> int, s: seq<T>)
    ensures SortedDesc(key, SortDesc(key, s))
  {
    if s != [] {
      SortDescSorted(key, s[..|s| - 1]);
      InsertSorted(key, s[|s| - 1], SortDesc(key, s[..|s| - 1]));
    }
  }

  /** The sort is a permutation of its input. */
  lemma {:induction false} SortDescPerm<T>(key: T -> int, s: seq<T>)
    ensures multiset(SortDesc(key, s)) == multiset(s)
  {
    if s != [] {
      var init := s[..|s| - 1];
      SortDescPerm(key, init);
      InsertPerm(key, s[|s| - 1], SortDesc(key, init));
      assert s == init + [s[|s| - 1]];
    }
  }

  /** The sort is stable: the elements of each key come out in input order. */
  lemma {:induction false} SortDescStable<T>(key: T -> int, s: seq<T>, k: int)
    ensures WithKey(key, SortDesc(key, s), k) == WithKey(key, s, k)
  {
    if s != [] {
      var init := s[..|s| - 1];
      var last := s[|s| - 1];
      SortDescStable(key, init, k);
      InsertStable(key, last, SortDesc(key, init), k);
      WithKeyAppend(key, init, [last], k);
      assert init + [last] == s;
    }
  }
}
