/** Sequence helpers that mirror Python list operations (`list.count`,
    `list.remove`, list comprehensions) and the facts the proofs need about them. */
module Seqs {

  /** Number of occurrences of `x` in `s` (Python `s.count(x)`). */
  function Count<T(==)>(s: seq<T>, x: T): (n: nat)
    ensures n <= |s|
    ensures n > 0 <==> x in s
  {
    if s == [] then 0 else (if s[0] == x then 1 else 0) + Count(s[1..], x)
  }

  lemma {:induction false} CountAppend<T>(a: seq<T>, b: seq<T>, x: T)
    ensures Count(a + b, x) == Count(a, x) + Count(b, x)
  {
    if a == [] {
      assert a + b == b;
    } else {
      assert (a + b)[1..] == a[1..] + b;
      CountAppend(a[1..], b, x);
    }
  }

  /** `CountAppend` for every element at once. */
  lemma CountAppendAll<T>(a: seq<T>, b: seq<T>)
    ensures forall x :: Count(a + b, x) == Count(a, x) + Count(b, x)
  {
    forall x ensures Count(a + b, x) == Count(a, x) + Count(b, x) {
      CountAppend(a, b, x);
    }
  }

  /** `n` copies of `x` (`[x] * n`). */
  function Repeat<T>(x: T, n: nat): (r: seq<T>)
    ensures |r| == n
    ensures forall i :: 0 <= i < n ==> r[i] == x
  {
    if n == 0 then [] else [x] + Repeat(x, n - 1)
  }

  lemma {:induction false} CountRepeat<T>(x: T, n: nat, y: T)
    ensures Count(Repeat(x, n), y) == if x == y then n else 0
  {
    if n > 0 {
      assert Repeat(x, n)[1..] == Repeat(x, n - 1);
      CountRepeat(x, n - 1, y);
    }
  }

  /** Position of the first occurrence of `x` (Python `s.index(x)`). */
  function FirstIndex<T(==)>(s: seq<T>, x: T): (i: nat)
    requires x in s
    ensures i < |s| && s[i] == x && x !in s[..i]
  {
    if s[0] == x then 0
    else
      var j := FirstIndex(s[1..], x);
      assert s[..j + 1] == [s[0]] + s[1..][..j];
      j + 1
  }

  /** Python `list.remove(x)` guarded by `x in s`: drops the FIRST occurrence
      of `x`; leaves `s` alone when `x` does not occur. */
  function RemoveFirst<T(==)>(s: seq<T>, x: T): (r: seq<T>)
  {
    if x in s then s[..FirstIndex(s, x)] + s[FirstIndex(s, x) + 1..] else s
  }

  lemma CountRemoveFirst<T>(s: seq<T>, x: T, y: T)
    ensures Count(RemoveFirst(s, x), y) == Count(s, y) - (if y == x && x in s then 1 else 0)
  {
    if x in s {
      var i := FirstIndex(s, x);
      assert s == s[..i] + ([s[i]] + s[i + 1..]);
      CountAppend(s[..i], [s[i]] + s[i + 1..], y);
      CountAppend([s[i]], s[i + 1..], y);
      CountAppend(s[..i], s[i + 1..], y);
    }
  }

  /** No element occurs twice (what a Python dict guarantees of its keys). */
  ghost predicate Distinct<T>(s: seq<T>)
  {
    forall i, j :: 0 <= i < j < |s| ==> s[i] != s[j]
  }

  /** Cutting one entry out of a duplicate-free sequence removes exactly that
      value and leaves the rest duplicate-free. */
  lemma DistinctCut<T>(s: seq<T>, i: nat)
    requires Distinct(s) && i < |s|
    ensures Distinct(s[..i] + s[i + 1..])
    ensures forall x :: x in s[..i] + s[i + 1..] <==> x in s && x != s[i]
  {
    var r := s[..i] + s[i + 1..];
    assert forall j :: 0 <= j < |r| ==> r[j] == s[if j < i then j else j + 1];
    forall x ensures x in r <==> x in s && x != s[i] {
      if x in s && x != s[i] {
        var j :| 0 <= j < |s| && s[j] == x;
        assert r[if j < i then j else j - 1] == x;
      }
    }
  }

  /** A duplicate-free sequence drawn from a finite set is no longer than the set. */
  lemma {:induction false} DistinctBound<T>(s: seq<T>, bound: set<T>)
    requires Distinct(s)
    requires forall i :: 0 <= i < |s| ==> s[i] in bound
    ensures |s| <= |bound|
  {
    if s != [] {
      var last := s[|s| - 1];
      var init := s[..|s| - 1];
      assert forall i :: 0 <= i < |init| ==> init[i] in bound - {last} by {
        forall i | 0 <= i < |init|
          ensures init[i] in bound - {last}
        {
          assert init[i] == s[i];
        }
      }
      DistinctBound(init, bound - {last});
    }
  }

  /** A duplicate-free sequence that covers a set and stays inside it has the set's size. */
  lemma DistinctCover<T>(s: seq<T>, cover: set<T>)
    requires Distinct(s)
    requires forall x :: x in s <==> x in cover
    ensures |s| == |cover|
  {
    DistinctBound(s, cover);
    CoverBound(s, cover);
  }

  lemma {:induction false} CoverBound<T>(s: seq<T>, cover: set<T>)
    requires forall x :: x in cover ==> x in s
    ensures |cover| <= |s|
  {
    if s == [] {
      assert cover == {};
    } else {
      var rest := cover - {s[0]};
      assert forall x :: x in rest ==> x in s[1..] by {
        forall x | x in rest
          ensures x in s[1..]
        {
          assert x in s && x != s[0];
          var i :| 0 <= i < |s| && s[i] == x;
          assert s[1..][i - 1] == x;
        }
      }
      CoverBound(s[1..], rest);
    }
  }

  /** How many entries of `s` do not occur in `excl` (duplicates counted). */
  function CountNotIn<T(==)>(s: seq<T>, excl: seq<T>): (n: nat)
    ensures n <= |s|
    ensures n == 0 <==> forall x :: x in s ==> x in excl
  {
    if s == [] then 0
    else
      assert s == [s[0]] + s[1..];
      (if s[0] in excl then 0 else 1) + CountNotIn(s[1..], excl)
  }

  /** Moving `u` into the excluded part lowers the count by `u`'s multiplicity. */
  lemma {:induction false} CountNotInExtend<T>(s: seq<T>, excl: seq<T>, u: T)
    requires u !in excl
    ensures CountNotIn(s, excl + [u]) == CountNotIn(s, excl) - Count(s, u)
  {
    if s != [] {
      CountNotInExtend(s[1..], excl, u);
    }
  }

  /** `xs` is `ys` with some entries deleted: an order-preserving sublist. */
  ghost predicate Sublist<T>(xs: seq<T>, ys: seq<T>)
    decreases |ys|
  {
    if xs == [] then true
    else if ys == [] then false
    else (xs[0] == ys[0] && Sublist(xs[1..], ys[1..])) || Sublist(xs, ys[1..])
  }

  /** A sublist draws its entries from the whole. */
  lemma {:induction false} SublistMembers<T>(xs: seq<T>, ys: seq<T>)
    requires Sublist(xs, ys)
    ensures forall x :: x in xs ==> x in ys
    decreases |ys|
  {
    if xs != [] && ys != [] {
      if xs[0] == ys[0] && Sublist(xs[1..], ys[1..]) {
        SublistMembers(xs[1..], ys[1..]);
        assert xs == [xs[0]] + xs[1..];
      } else {
        SublistMembers(xs, ys[1..]);
      }
    }
  }
}
