/** Sequence vocabulary shared by the catalog and the request-data model:
    duplicate-free lists, first occurrences, order-preserving filters. */
module Seqs {

  /** No element occurs twice. */
  predicate NoDuplicates<T(==)>(s: seq<T>) {
    forall i, j :: 0 <= i < j < |s| ==> s[i] != s[j]
  }

  /** `a` is `b` with some elements dropped, the rest kept in order. */
  predicate Subsequence<T(==)>(a: seq<T>, b: seq<T>)
    decreases |b|
  {
    if a == [] then true
    else if b == [] then false
    else if a[0] == b[0] then Subsequence(a[1..], b[1..])
    else Subsequence(a, b[1..])
  }

  /** Position of the first occurrence of `x` in `s`. */
  function FirstIndex<T(==)>(s: seq<T>, x: T): (i: nat)
    requires x in s
    ensures i < |s| && s[i] == x && x !in s[..i]
  {
    if s[0] == x then 0
    else
      var k := FirstIndex(s[1..], x);
      assert s[1..][..k] == s[1..k + 1];
      1 + k
  }

  /** Position of the first element of `s` that fails `ok`, or `|s|` when
      every element passes. */
  function FirstFailure<T>(s: seq<T>, ok: T -> bool): (i: nat)
    ensures i <= |s|
    ensures forall j :: 0 <= j < i ==> ok(s[j])
    ensures i < |s| ==> !ok(s[i])
    decreases |s|
  {
    if s == [] || !ok(s[0]) then 0
    else
      var k := FirstFailure(s[1..], ok);
      assert forall j :: 0 <= j < k ==> s[1..][j] == s[j + 1];
      k + 1
  }

  /** The concatenation of a list of lists, in order. */
  function Flatten<T>(ss: seq<seq<T>>): seq<T>
    decreases |ss|
  {
    if ss == [] then [] else ss[0] + Flatten(ss[1..])
  }

  /** The accumulating loop `foreach (xs as x) if (!in_array(x, acc)) acc[] = x;`. */
  function AppendNew<T(==)>(acc: seq<T>, xs: seq<T>): seq<T>
    decreases |xs|
  {
    if xs == [] then acc
    else AppendNew(if xs[0] in acc then acc else acc + [xs[0]], xs[1..])
  }

  /** Reference definition: the elements of `xs` at their first occurrence, in order. */
  function Firsts<T(==)>(xs: seq<T>): seq<T>
    decreases |xs|
  {
    if xs == [] then []
    else
      var init := xs[..|xs| - 1];
      var x := xs[|xs| - 1];
      Firsts(init) + (if x in init then [] else [x])
  }

  /** Elements of `xs` not listed in `drop`, in their original order. */
  function Exclude<T(==,!new)>(xs: seq<T>, drop: seq<T>): (r: seq<T>)
    ensures forall x :: x in r <==> x in xs && x !in drop
    ensures Subsequence(r, xs)
    ensures drop == [] ==> r == xs
    ensures |r| <= |xs|
    ensures NoDuplicates(xs) ==> NoDuplicates(r)
    decreases |xs|
  {
    if xs == [] then []
    else if xs[0] in drop then
      var r := Exclude(xs[1..], drop);
      assert r == [] || r[0] != xs[0];
      r
    else [xs[0]] + Exclude(xs[1..], drop)
  }

  lemma {:induction false} FlattenMembership<T>(ss: seq<seq<T>>, x: T)
    ensures x in Flatten(ss) <==> exists t :: 0 <= t < |ss| && x in ss[t]
    decreases |ss|
  {
    if ss != [] {
      FlattenMembership(ss[1..], x);
      if x in Flatten(ss[1..]) {
        var t :| 0 <= t < |ss[1..]| && x in ss[1..][t];
        assert x in ss[t + 1];
      }
      forall t | 0 < t < |ss| && x in ss[t]
        ensures x in Flatten(ss[1..])
      {
        assert ss[1..][t - 1] == ss[t];
      }
    }
  }

  /** Any position that holds the first occurrence is `FirstIndex`. */
  lemma FirstIndexUnique<T>(s: seq<T>, x: T, i: nat)
    requires i < |s| && s[i] == x && x !in s[..i]
    ensures FirstIndex(s, x) == i
  {
    var j := FirstIndex(s, x);
    assert forall k :: 0 <= k < i ==> s[k] != x by {
      forall k | 0 <= k < i ensures s[k] != x { assert s[..i][k] == s[k]; }
    }
    assert forall k :: 0 <= k < j ==> s[k] != x by {
      forall k | 0 <= k < j ensures s[k] != x { assert s[..j][k] == s[k]; }
    }
  }

  lemma FirstIndexExtend<T>(p: seq<T>, s: seq<T>, x: T)
    requires x in p
    ensures FirstIndex(p + s, x) == FirstIndex(p, x)
  {
    var i := FirstIndex(p, x);
    assert (p + s)[..i] == p[..i];
    FirstIndexUnique(p + s, x, i);
  }

  /** `Firsts` has no duplicates, has exactly the elements of its input, and
      lists them in the order of their first occurrence. */
  lemma {:induction false} FirstsSpec<T>(xs: seq<T>)
    ensures NoDuplicates(Firsts(xs))
    ensures forall x :: x in Firsts(xs) <==> x in xs
    ensures forall i, j :: 0 <= i < j < |Firsts(xs)| ==>
              Firsts(xs)[i] in xs && Firsts(xs)[j] in xs &&
              FirstIndex(xs, Firsts(xs)[i]) < FirstIndex(xs, Firsts(xs)[j])
    decreases |xs|
  {
    if xs != [] {
      var init := xs[..|xs| - 1];
      var x := xs[|xs| - 1];
      assert xs == init + [x];
      FirstsSpec(init);
      var f := Firsts(init);
      var r := Firsts(xs);
      assert forall y :: y in xs <==> y in init || y == x;
      forall y | y in init
        ensures FirstIndex(xs, y) == FirstIndex(init, y)
      {
        FirstIndexExtend(init, [x], y);
      }
      if x !in init {
        assert r == f + [x];
        FirstIndexUnique(xs, x, |init|);
        forall i, j | 0 <= i < j < |r|
          ensures FirstIndex(xs, r[i]) < FirstIndex(xs, r[j])
        {
          if j < |f| {
            assert r[i] == f[i] && r[j] == f[j];
          } else {
            assert r[i] == f[i] && f[i] in f;
            assert FirstIndex(init, f[i]) < |init|;
          }
        }
      } else {
        assert r == f;
      }
    }
  }

  lemma FirstsMembers<T>(xs: seq<T>)
    ensures forall x :: x in Firsts(xs) <==> x in xs
  {
    FirstsSpec(xs);
  }

  /** `Firsts` has no duplicates. */
  lemma FirstsDistinct<T>(xs: seq<T>)
    ensures NoDuplicates(Firsts(xs))
  {
    FirstsSpec(xs);
  }

  lemma FirstsSnoc<T>(p: seq<T>, x: T)
    ensures Firsts(p + [x]) == Firsts(p) + (if x in p then [] else [x])
  {
    var p' := p + [x];
    assert p'[..|p'| - 1] == p;
  }

  /** The accumulating loop computes the first occurrences of everything it has seen. */
  lemma {:induction false} AppendNewIsFirsts<T>(p: seq<T>, s: seq<T>)
    ensures AppendNew(Firsts(p), s) == Firsts(p + s)
    decreases |s|
  {
    if s == [] {
      assert p + s == p;
    } else {
      var x := s[0];
      assert AppendNew(Firsts(p), s) == AppendNew(Firsts(p + [x]), s[1..]) by {
        FirstsMembers(p);
        FirstsSnoc(p, x);
        var acc := if x in Firsts(p) then Firsts(p) else Firsts(p) + [x];
        assert acc == Firsts(p + [x]);
      }
      AppendNewIsFirsts(p + [x], s[1..]);
      assert p + [x] + s[1..] == p + s;
    }
  }

  /** The loop keeps what it started with, in front, and adds exactly the new elements. */
  lemma {:induction false} AppendNewSpec<T>(acc: seq<T>, xs: seq<T>)
    ensures forall x :: x in AppendNew(acc, xs) <==> x in acc || x in xs
    ensures acc <= AppendNew(acc, xs)
    ensures NoDuplicates(acc) ==> NoDuplicates(AppendNew(acc, xs))
    decreases |xs|
  {
    if xs != [] {
      var acc' := if xs[0] in acc then acc else acc + [xs[0]];
      AppendNewSpec(acc', xs[1..]);
      assert forall x :: x in xs <==> x == xs[0] || x in xs[1..];
    }
  }

  /** Starting from an empty accumulator, the loop yields `Firsts`. */
  lemma AppendNewFromEmpty<T>(xs: seq<T>)
    ensures AppendNew([], xs) == Firsts(xs)
  {
    AppendNewIsFirsts([], xs);
    assert [] + xs == xs;
  }

  /** A list without duplicates is its own first occurrences. */
  lemma {:induction false} FirstsOfDistinct<T>(xs: seq<T>)
    requires NoDuplicates(xs)
    ensures Firsts(xs) == xs
    decreases |xs|
  {
    if xs != [] {
      var init := xs[..|xs| - 1];
      assert xs[|xs| - 1] !in init;
      FirstsOfDistinct(init);
      assert init + [xs[|xs| - 1]] == xs;
    }
  }

  /** From a duplicate-free start, the loop yields the first occurrences of
      the start followed by everything it reads. */
  lemma AppendNewFromDistinct<T>(acc: seq<T>, xs: seq<T>)
    requires NoDuplicates(acc)
    ensures AppendNew(acc, xs) == Firsts(acc + xs)
  {
    FirstsOfDistinct(acc);
    AppendNewIsFirsts(acc, xs);
  }

  /** Dropping elements keeps a list free of duplicates. */
  lemma {:induction false} SubsequenceKeepsDistinct<T>(a: seq<T>, b: seq<T>)
    requires Subsequence(a, b) && NoDuplicates(b)
    ensures NoDuplicates(a)
    decreases |b|
  {
    if a != [] && b != [] {
      if a[0] == b[0] {
        SubsequenceKeepsDistinct(a[1..], b[1..]);
        SubsequenceMembers(a[1..], b[1..]);
        assert a[0] !in b[1..];
      } else {
        SubsequenceKeepsDistinct(a, b[1..]);
      }
    }
  }

  /** A subsequence holds only elements of the whole. */
  lemma {:induction false} SubsequenceMembers<T>(a: seq<T>, b: seq<T>)
    requires Subsequence(a, b)
    ensures forall x :: x in a ==> x in b
    decreases |b|
  {
    if a != [] && b != [] {
      if a[0] == b[0] {
        SubsequenceMembers(a[1..], b[1..]);
        assert forall x :: x in a ==> x == a[0] || x in a[1..];
        assert forall x :: x in b[1..] ==> x in b;
      } else {
        SubsequenceMembers(a, b[1..]);
      }
    }
  }
}
