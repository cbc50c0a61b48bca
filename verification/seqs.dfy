/** Sequence vocabulary shared by the model: duplicate-freedom, order-preserving
    filtering, first-appearance de-duplication, first-occurrence index. Every
    recursive definition peels the LAST element, so that a `for` loop over a
    prefix `s[..i]` extends it by one unfolding. */
module Seqs {

  predicate NoDup<T(==)>(s: seq<T>) {
    forall i, j | 0 <= i < j < |s| :: s[i] != s[j]
  }

  function Last<T>(s: seq<T>): T
    requires |s| > 0
  {
    s[|s| - 1]
  }

  function DropLast<T>(s: seq<T>): seq<T>
    requires |s| > 0
  {
    s[..|s| - 1]
  }

  /** The elements of `s` that satisfy `p`, in their order in `s`
      (a Python list comprehension with an `if`). */
  function Filter<T(!new)>(s: seq<T>, p: T -> bool): (r: seq<T>)
    ensures |r| <= |s|
    ensures forall x :: x in r <==> x in s && p(x)
    decreases |s|
  {
    if s == [] then []
    else Filter(DropLast(s), p) + (if p(Last(s)) then [Last(s)] else [])
  }

  lemma DropLastSnoc<T>(s: seq<T>)
    requires |s| > 0
    ensures DropLast(s) + [Last(s)] == s
  {
  }

  lemma SplitAt<T>(s: seq<T>, n: nat)
    requires n <= |s|
    ensures s == s[..n] + s[n..]
  {
  }

  lemma PrefixSnoc<T>(a: seq<T>, q: seq<T>, x: T)
    requires |a| <= |q| && q[..|a|] == a
    ensures |a| <= |q + [x]| && (q + [x])[..|a|] == a
  {
    assert (q + [x])[..|a|] == q[..|a|];
  }

  lemma PrefixMultiset<T>(s: seq<T>, i: nat)
    requires i <= |s|
    ensures multiset(s[..i]) <= multiset(s)
  {
    assert s == s[..i] + s[i..];
  }

  lemma ConcatAssoc<T>(a: seq<T>, b: seq<T>, c: seq<T>)
    ensures a + b + c == a + (b + c)
  {
  }

  /** Extending the tail of `a + q0` keeps every prefix of it. */
  lemma PrefixExtend<T>(a: seq<T>, q0: seq<T>, q: seq<T>, s: seq<T>)
    requires |q0| <= |q| && q[..|q0|] == q0
    requires |s| <= |a + q0| && (a + q0)[..|s|] == s
    ensures |s| <= |a + q| && (a + q)[..|s|] == s
  {
    assert forall i | 0 <= i < |s| :: (a + q)[i] == (a + q0)[i];
  }

  lemma FilterSnoc<T(!new)>(s: seq<T>, x: T, p: T -> bool)
    ensures Filter(s + [x], p) == Filter(s, p) + (if p(x) then [x] else [])
  {
    assert DropLast(s + [x]) == s;
  }

  lemma {:induction false} FilterNoDup<T(!new)>(s: seq<T>, p: T -> bool)
    requires NoDup(s)
    ensures NoDup(Filter(s, p))
    decreases |s|
  {
    if s != [] {
      FilterNoDup(DropLast(s), p);
      assert Last(s) !in DropLast(s);
    }
  }

  /** Filtering keeps the relative order of the elements it keeps. */
  lemma {:induction false} FilterKeepsOrder<T(!new)>(s: seq<T>, p: T -> bool, x: T, y: T)
    requires x in s && y in s && p(x) && p(y)
    requires IndexOf(s, x) < IndexOf(s, y)
    ensures IndexOf(Filter(s, p), x) < IndexOf(Filter(s, p), y)
    decreases |s|
  {
    var s' := DropLast(s);
    assert s == s' + [Last(s)];
    FilterSnoc(s', Last(s), p);
    var f := Filter(s', p);
    if y in s' {
      IndexOfSnocIn(s', Last(s), y);
      assert s'[IndexOf(s, x)] == x;
      IndexOfSnocIn(s', Last(s), x);
      FilterKeepsOrder(s', p, x, y);
      if p(Last(s)) {
        IndexOfSnocIn(f, Last(s), x);
        IndexOfSnocIn(f, Last(s), y);
      } else {
        assert Filter(s, p) == f + [] == f;
      }
    } else {
      IndexOfSnocNew(s', Last(s));
      assert s'[IndexOf(s, x)] == x;
      IndexOfSnocIn(s', Last(s), x);
      IndexOfSnocIn(f, y, x);
      IndexOfSnocNew(f, y);
    }
  }

  /** The distinct elements of `s` in order of first appearance (keys of an
      insertion-ordered dictionary filled from `s`). */
  function Dedup<T(==,!new)>(s: seq<T>): (r: seq<T>)
    ensures NoDup(r)
    ensures forall x :: x in r <==> x in s
    ensures |r| <= |s|
    decreases |s|
  {
    if s == [] then []
    else
      var d := Dedup(DropLast(s));
      if Last(s) in DropLast(s) then d else d + [Last(s)]
  }

  lemma DedupSnoc<T(!new)>(s: seq<T>, x: T)
    ensures Dedup(s + [x]) == if x in s then Dedup(s) else Dedup(s) + [x]
  {
    assert DropLast(s + [x]) == s;
  }

  lemma {:induction false} DedupOfNoDup<T(!new)>(s: seq<T>)
    requires NoDup(s)
    ensures Dedup(s) == s
    decreases |s|
  {
    if s != [] {
      DedupOfNoDup(DropLast(s));
      assert s == DropLast(s) + [Last(s)];
    }
  }

  /** Index of the first occurrence of `x` in `s`. */
  function IndexOf<T(==)>(s: seq<T>, x: T): (i: nat)
    requires x in s
    ensures i < |s| && s[i] == x
    ensures forall j | 0 <= j < i :: s[j] != x
  {
    if s[0] == x then 0 else 1 + IndexOf(s[1..], x)
  }

  lemma IndexOfSnocIn<T>(s: seq<T>, y: T, x: T)
    requires x in s
    ensures x in s + [y] && IndexOf(s + [y], x) == IndexOf(s, x)
  {
    var i := IndexOf(s, x);
    var k := IndexOf(s + [y], x);
    assert (s + [y])[i] == x;
  }

  lemma IndexOfSnocNew<T>(s: seq<T>, x: T)
    requires x !in s
    ensures IndexOf(s + [x], x) == |s|
  {
    assert (s + [x])[|s|] == x;
  }

  /** Pigeonhole: a sequence drawn from a finite set and longer than it
      repeats an element. */
  lemma {:induction false} Pigeonhole<T>(s: seq<T>, universe: set<T>)
    requires forall i | 0 <= i < |s| :: s[i] in universe
    requires |s| > |universe|
    ensures !NoDup(s)
    decreases |s|
  {
    if NoDup(s) {
      var x := Last(s);
      var rest := DropLast(s);
      assert forall i | 0 <= i < |rest| :: rest[i] in universe - {x} by {
        forall i | 0 <= i < |rest| ensures rest[i] in universe - {x} {
          assert rest[i] == s[i];
        }
      }
      assert NoDup(rest);
      Pigeonhole(rest, universe - {x});
    }
  }

  lemma {:induction false} NoDupMultiset<T>(s: seq<T>, x: T)
    requires NoDup(s)
    ensures multiset(s)[x] == if x in s then 1 else 0
    decreases |s|
  {
    if s != [] {
      assert s == DropLast(s) + [Last(s)];
      NoDupMultiset(DropLast(s), x);
    }
  }

  /** Two duplicate-free sequences with the same elements are permutations
      of each other. */
  lemma SameElementsPermutation<T>(s: seq<T>, t: seq<T>)
    requires NoDup(s) && NoDup(t)
    requires forall x :: x in s <==> x in t
    ensures multiset(s) == multiset(t)
  {
    forall x ensures multiset(s)[x] == multiset(t)[x] {
      NoDupMultiset(s, x);
      NoDupMultiset(t, x);
    }
  }
}
