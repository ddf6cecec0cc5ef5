/** Order-preserving deduplication: Python's `list(dict.fromkeys(xs))` and the
    "seen set" comprehension both compute `Distinct`. */
module Seqs {
  import opened Wrappers

  // Every list deduplicated in the source is a list of strings.

  predicate NoDup(s: seq<string>) {
    forall i, j :: 0 <= i < j < |s| ==> s[i] != s[j]
  }

  /** Keeps the first occurrence of every element, in order. */
  function Distinct(s: seq<string>): (r: seq<string>)
    ensures NoDup(r)
    ensures forall x :: x in r <==> x in s
    ensures |r| <= |s|
  {
    if s == [] then []
    else
      var d := Distinct(s[..|s| - 1]);
      assert forall x :: x in s <==> x in s[..|s| - 1] || x == s[|s| - 1];
      if s[|s| - 1] in d then d else d + [s[|s| - 1]]
  }

  /** Position of the first occurrence of `x` in `s`. */
  function FirstIndex(s: seq<string>, x: string): (i: nat)
    requires x in s
    ensures i < |s| && s[i] == x && x !in s[..i]
  {
    if s[0] == x then 0 else 1 + FirstIndex(s[1..], x)
  }

  lemma FirstIndexPrefix(s: seq<string>, n: nat, x: string)
    requires n <= |s| && x in s[..n]
    ensures FirstIndex(s[..n], x) == FirstIndex(s, x)
  {
    var i := FirstIndex(s[..n], x);
    var j := FirstIndex(s, x);
    assert s[..n][..i] == s[..i] && s[..n][i] == s[i];
  }

  /** `Distinct(s)` lists the distinct elements of `s` by increasing first occurrence. */
  lemma {:induction false} DistinctOrder(s: seq<string>)
    ensures forall i, j :: 0 <= i < j < |Distinct(s)| ==>
              FirstIndex(s, Distinct(s)[i]) < FirstIndex(s, Distinct(s)[j])
  {
    if s != [] {
      var init := s[..|s| - 1];
      var d := Distinct(init);
      DistinctOrder(init);
      forall x | x in init ensures FirstIndex(init, x) == FirstIndex(s, x) {
        assert init == s[..|s| - 1];
        FirstIndexPrefix(s, |s| - 1, x);
      }
      var r := Distinct(s);
      forall i, j | 0 <= i < j < |r| ensures FirstIndex(s, r[i]) < FirstIndex(s, r[j]) {
        if j < |d| {
          assert r[i] == d[i] && r[j] == d[j];
        } else {
          assert r[j] == s[|s| - 1] && r[j] !in init;
          assert r[i] == d[i] && d[i] in init;
          assert FirstIndex(s, r[j]) == |s| - 1;
        }
      }
    }
  }

  /** A list that already has no duplicates is left as it is. */
  lemma {:induction false} DistinctOfNoDup(s: seq<string>)
    requires NoDup(s)
    ensures Distinct(s) == s
  {
    if s != [] {
      var init := s[..|s| - 1];
      assert NoDup(init);
      DistinctOfNoDup(init);
      assert s[|s| - 1] !in init;
      assert init + [s[|s| - 1]] == s;
    }
  }

  /** `f` applied to every element of `s`, in order. */
  function Map<A, B>(f: A -> B, s: seq<A>): (r: seq<B>)
    ensures |r| == |s|
    ensures forall i :: 0 <= i < |s| ==> r[i] == f(s[i])
  {
    seq(|s|, i requires 0 <= i < |s| => f(s[i]))
  }

  lemma MapAppend<A, B>(f: A -> B, a: seq<A>, b: seq<A>)
    ensures Map(f, a + b) == Map(f, a) + Map(f, b)
  {
    var l := Map(f, a + b);
    var r := Map(f, a) + Map(f, b);
    forall i | 0 <= i < |l| ensures l[i] == r[i] {
      if i < |a| {
        assert (a + b)[i] == a[i];
      } else {
        assert (a + b)[i] == b[i - |a|];
      }
    }
  }

  /** Mapping a prefix one element longer adds that element's image. */
  lemma MapPrefixStep<A, B>(f: A -> B, s: seq<A>, n: nat)
    requires n < |s|
    ensures Map(f, s[..n + 1]) == Map(f, s[..n]) + [f(s[n])]
  {
    assert s[..n + 1] == s[..n] + [s[n]];
    MapAppend(f, s[..n], [s[n]]);
  }

  /** Position of the first element satisfying `P`, or `|s|` when there is none. */
  function FirstWhere<T>(P: T -> bool, s: seq<T>): (n: nat)
    ensures n <= |s|
    ensures forall i :: 0 <= i < n ==> !P(s[i])
    ensures n < |s| ==> P(s[n])
  {
    if s == [] || P(s[0]) then 0
    else
      var r := FirstWhere(P, s[1..]);
      assert forall i :: 1 <= i < r + 1 ==> s[i] == s[1..][i - 1];
      1 + r
  }

  /** The first position is the only one with no match before it and a match at it. */
  lemma FirstWhereIs<T>(P: T -> bool, s: seq<T>, i: nat)
    requires i <= |s|
    requires forall j :: 0 <= j < i ==> !P(s[j])
    requires i < |s| ==> P(s[i])
    ensures FirstWhere(P, s) == i
  {
  }

  /** The first `n` lists of `ps`, concatenated in order. */
  function Flatten<T>(ps: seq<seq<T>>, n: nat): (r: seq<T>)
    requires n <= |ps|
  {
    if n == 0 then [] else Flatten(ps, n - 1) + ps[n - 1]
  }

  /** Concatenating more lists only extends the result. */
  lemma {:induction false} FlattenGrows<T>(ps: seq<seq<T>>, m: nat, n: nat)
    requires m <= n <= |ps|
    ensures Flatten(ps, m) <= Flatten(ps, n)
    decreases n - m
  {
    if m < n {
      FlattenGrows(ps, m, n - 1);
      var mid := Flatten(ps, n - 1);
      assert (mid + ps[n - 1])[..|mid|] == mid;
    }
  }

  /** Only the first `n` lists matter. */
  lemma {:induction false} FlattenAgree<T>(xs: seq<seq<T>>, ys: seq<seq<T>>, n: nat)
    requires n <= |xs| && n <= |ys|
    requires forall i :: 0 <= i < n ==> xs[i] == ys[i]
    ensures Flatten(xs, n) == Flatten(ys, n)
  {
    if n > 0 {
      FlattenAgree(xs, ys, n - 1);
    }
  }

  /** Concatenation distributes over appending the lists. */
  lemma {:induction false} FlattenAppend<T>(xs: seq<seq<T>>, ys: seq<seq<T>>, n: nat)
    requires n <= |ys|
    ensures Flatten(xs + ys, |xs| + n) == Flatten(xs, |xs|) + Flatten(ys, n)
  {
    if n == 0 {
      FlattenAgree(xs + ys, xs, |xs|);
    } else {
      FlattenAppend(xs, ys, n - 1);
      assert (xs + ys)[|xs| + n - 1] == ys[n - 1];
    }
  }

  /** One more input contributes its image at the end. */
  lemma FlattenMapStep<A, B>(f: A -> seq<B>, s: seq<A>, i: nat)
    requires i < |s|
    ensures Flatten(Map(f, s), i + 1) == Flatten(Map(f, s), i) + f(s[i])
  {
  }

  /** Mapping and concatenating distributes over appending the inputs. */
  lemma FlattenMapAppend<A, B>(f: A -> seq<B>, a: seq<A>, b: seq<A>)
    ensures Flatten(Map(f, a + b), |a + b|) == Flatten(Map(f, a), |a|) + Flatten(Map(f, b), |b|)
  {
    MapAppend(f, a, b);
    FlattenAppend(Map(f, a), Map(f, b), |b|);
  }

  /** Concatenating empty lists gives the empty list. */
  lemma {:induction false} FlattenEmpty<T>(ps: seq<seq<T>>, n: nat)
    requires n <= |ps|
    requires forall i :: 0 <= i < n ==> ps[i] == []
    ensures Flatten(ps, n) == []
  {
    if n > 0 {
      FlattenEmpty(ps, n - 1);
    }
  }

  /** Every element of the concatenation comes from one of the lists. */
  lemma {:induction false} FlattenMembers<T>(ps: seq<seq<T>>, n: nat, x: T)
    requires n <= |ps|
    ensures x in Flatten(ps, n) <==> exists i :: 0 <= i < n && x in ps[i]
  {
    if n > 0 {
      FlattenMembers(ps, n - 1, x);
      if x in ps[n - 1] {
        assert 0 <= n - 1 < n && x in ps[n - 1];
      }
      if i :| 0 <= i < n && x in ps[i] {
        if i < n - 1 {
          assert 0 <= i < n - 1 && x in ps[i];
        }
      }
    }
  }

  /** The last present value among the first `n` entries of `xs`. */
  function LastSome<T>(xs: seq<Option<T>>, n: nat): (r: Option<T>)
    requires n <= |xs|
  {
    if n == 0 then None
    else if xs[n - 1].Some? then xs[n - 1]
    else LastSome(xs, n - 1)
  }

  /** An entry followed only by absent ones is the last present value. */
  lemma {:induction false} LastSomeIs<T>(xs: seq<Option<T>>, n: nat, i: nat)
    requires i < n <= |xs| && xs[i].Some?
    requires forall j :: i < j < n ==> xs[j].None?
    ensures LastSome(xs, n) == xs[i]
  {
    if n - 1 > i {
      LastSomeIs(xs, n - 1, i);
    }
  }

  /** There is no present value exactly when every entry is absent. */
  lemma {:induction false} LastSomeNone<T>(xs: seq<Option<T>>, n: nat)
    requires n <= |xs|
    ensures LastSome(xs, n).None? <==> forall j :: 0 <= j < n ==> xs[j].None?
  {
    if n > 0 {
      LastSomeNone(xs, n - 1);
    }
  }
}
