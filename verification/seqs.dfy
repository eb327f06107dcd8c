/** Sequence helpers shared by the engine: order-preserving filtering,
    duplicate-freedom and sums of counters. */
module Seqs {

  /** The elements of `xs` that satisfy `p`, in their original order
      (the behaviour of JavaScript's `Array.prototype.filter`). */
  function Filter<T(!new)>(xs: seq<T>, p: T -> bool): (r: seq<T>)
    ensures |r| <= |xs|
    ensures forall x :: x in r <==> x in xs && p(x)
  {
    if |xs| == 0 then []
    else
      assert xs == [xs[0]] + xs[1..];
      (if p(xs[0]) then [xs[0]] else []) + Filter(xs[1..], p)
  }

  /** Filtering a non-empty sequence: its head, then its tail. */
  lemma FilterHead<T(!new)>(s: seq<T>, p: T -> bool)
    requires |s| > 0
    ensures Filter(s, p) == Filter([s[0]], p) + Filter(s[1..], p)
  {
    assert s == [s[0]] + s[1..];
    FilterConcat([s[0]], s[1..], p);
  }

  /** Filtering keeps a sequence whose elements all pass. */
  lemma {:induction false} FilterAll<T(!new)>(xs: seq<T>, p: T -> bool)
    requires forall x :: x in xs ==> p(x)
    ensures Filter(xs, p) == xs
  {
    if |xs| > 0 {
      assert xs == [xs[0]] + xs[1..];
      FilterAll(xs[1..], p);
    }
  }

  /** Filtering out one element that fails, between runs that pass,
      closes the gap and keeps both runs in order. */
  lemma FilterDropOne<T(!new)>(a: seq<T>, x: T, b: seq<T>, p: T -> bool)
    requires forall y :: y in a ==> p(y)
    requires forall y :: y in b ==> p(y)
    requires !p(x)
    ensures Filter(a + [x] + b, p) == a + b
  {
    FilterConcat(a + [x], b, p);
    FilterConcat(a, [x], p);
    FilterAll(a, p);
    FilterAll(b, p);
    assert [x][1..] == [];
    assert Filter([x], p) == [];
    assert a + [] == a;
  }

  /** Filtering a duplicate-free sequence leaves it duplicate-free. */
  lemma {:induction false} FilterNoDup<T(!new)>(xs: seq<T>, p: T -> bool)
    requires NoDup(xs)
    ensures NoDup(Filter(xs, p))
  {
    if |xs| > 0 {
      var rest := xs[1..];
      assert NoDup(rest) by {
        forall i, j | 0 <= i < j < |rest| ensures rest[i] != rest[j] {
          assert rest[i] == xs[i + 1] && rest[j] == xs[j + 1];
        }
      }
      FilterNoDup(rest, p);
      if p(xs[0]) {
        assert xs[0] !in rest by {
          forall i | 0 <= i < |rest| ensures rest[i] != xs[0] {
            assert xs[i + 1] != xs[0];
          }
        }
        var r := Filter(rest, p);
        forall i, j | 0 <= i < j < |[xs[0]] + r| ensures ([xs[0]] + r)[i] != ([xs[0]] + r)[j] {
          if i == 0 {
            assert ([xs[0]] + r)[j] in r;
          }
        }
      }
    }
  }

  /** Filtering keeps every occurrence of a kept element and none of the others. */
  lemma {:induction false} FilterCount<T(!new)>(xs: seq<T>, p: T -> bool, x: T)
    ensures multiset(Filter(xs, p))[x] == if p(x) then multiset(xs)[x] else 0
  {
    if |xs| > 0 {
      assert xs == [xs[0]] + xs[1..];
      FilterCount(xs[1..], p, x);
    }
  }

  /** Filtering distributes over concatenation: it never reorders. */
  lemma {:induction false} FilterConcat<T(!new)>(a: seq<T>, b: seq<T>, p: T -> bool)
    ensures Filter(a + b, p) == Filter(a, p) + Filter(b, p)
  {
    if |a| == 0 {
      assert a + b == b;
    } else {
      assert (a + b)[1..] == a[1..] + b;
      FilterConcat(a[1..], b, p);
    }
  }

  /** Where `xs` and `ys` line up and every kept element of `xs` is matched
      by a kept element of `ys`, `ys` keeps at least as many. */
  lemma {:induction false} FilterPointwise<T(!new)>(xs: seq<T>, ys: seq<T>, p: T -> bool)
    requires |xs| == |ys|
    requires forall i :: 0 <= i < |xs| && p(xs[i]) ==> p(ys[i])
    ensures |Filter(xs, p)| <= |Filter(ys, p)|
  {
    if |xs| > 0 {
      FilterPointwise(xs[1..], ys[1..], p);
    }
  }

  /** No element occurs twice. */
  predicate NoDup<T(==)>(s: seq<T>) {
    forall i, j :: 0 <= i < j < |s| ==> s[i] != s[j]
  }

  /** Appending an absent element keeps a sequence duplicate-free. */
  lemma AppendNoDup<T>(s: seq<T>, x: T)
    requires NoDup(s) && x !in s
    ensures NoDup(s + [x])
  {
    forall i, j | 0 <= i < j < |s + [x]|
      ensures (s + [x])[i] != (s + [x])[j]
    {
      if j == |s| {
        assert s[i] in s;
      }
    }
  }

  /** A duplicate-free sequence has as many distinct elements as entries. */
  lemma {:induction false} NoDupCard<T>(s: seq<T>)
    requires NoDup(s)
    ensures |set x | x in s| == |s|
  {
    if |s| > 0 {
      var t := s[..|s| - 1];
      var last := s[|s| - 1];
      assert s == t + [last];
      assert NoDup(t);
      NoDupCard(t);
      assert last !in t by {
        forall i | 0 <= i < |t| ensures t[i] != last {
          assert s[i] != s[|s| - 1];
        }
      }
      assert (set x | x in s) == (set x | x in t) + {last};
    }
  }

  /** A sequence never has more distinct elements than entries. */
  lemma {:induction false} CardAtMostLength<T>(s: seq<T>)
    ensures |set x | x in s| <= |s|
  {
    if |s| > 0 {
      var t := s[1..];
      assert s == [s[0]] + t;
      CardAtMostLength(t);
      assert (set x | x in s) == (set x | x in t) + {s[0]};
    }
  }

  /** Total of a sequence of counters (the poll's `votes`). */
  function Sum(s: seq<nat>): nat {
    if |s| == 0 then 0 else s[0] + Sum(s[1..])
  }

  /** Incrementing one counter increments the total by exactly one. */
  lemma {:induction false} SumIncrement(s: seq<nat>, i: nat)
    requires i < |s|
    ensures Sum(s[i := s[i] + 1]) == Sum(s) + 1
  {
    if i == 0 {
      assert s[i := s[i] + 1][1..] == s[1..];
    } else {
      assert s[i := s[i] + 1][1..] == s[1..][i - 1 := s[i] + 1];
      SumIncrement(s[1..], i - 1);
    }
  }
}
