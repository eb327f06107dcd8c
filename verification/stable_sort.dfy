/** A stable insertion sort by descending integer key, with its complete
    characterisation: the result is ordered by non-increasing key and, for
    every key, lists the elements carrying that key in input order. */
module StableSort {
  import opened Seqs

  /** Keys never increase from left to right. */
  predicate SortedDesc<T>(s: seq<T>, key: T -> int) {
    forall i, j :: 0 <= i < j < |s| ==> key(s[i]) >= key(s[j])
  }

  /** The test "has key `k`", as a value for `Filter`. */
  function HasKey<T>(key: T -> int, k: int): T -> bool {
    x => key(x) == k
  }

  /** Insert `x` behind every element whose key is at least `x`'s. */
  function Insert<T(!new)>(x: T, s: seq<T>, key: T -> int): (r: seq<T>)
    ensures multiset(r) == multiset(s) + multiset{x}
  {
    if |s| == 0 then [x]
    else if key(s[0]) < key(x) then
      assert s == [s[0]] + s[1..];
      [x] + s
    else
      assert s == [s[0]] + s[1..];
      [s[0]] + Insert(x, s[1..], key)
  }

  /** Inserting into a sorted sequence keeps it sorted. */
  lemma {:induction false} InsertSorted<T(!new)>(x: T, s: seq<T>, key: T -> int)
    requires SortedDesc(s, key)
    ensures SortedDesc(Insert(x, s, key), key)
  {
    if |s| > 0 && key(s[0]) >= key(x) {
      var rest := Insert(x, s[1..], key);
      InsertSorted(x, s[1..], key);
      var r := [s[0]] + rest;
      InsertBelowHead(x, s, key);
      forall i, j | 0 <= i < j < |r| ensures key(r[i]) >= key(r[j]) {
        if i == 0 {
          assert r[j] == rest[j - 1];
        } else {
          assert r[i] == rest[i - 1] && r[j] == rest[j - 1];
        }
      }
    }
  }

  /** When `x` goes behind the head of a sorted sequence, nothing inserted
      after the head has a greater key than the head. */
  lemma InsertBelowHead<T(!new)>(x: T, s: seq<T>, key: T -> int)
    requires SortedDesc(s, key) && |s| > 0 && key(s[0]) >= key(x)
    ensures forall k :: 0 <= k < |Insert(x, s[1..], key)| ==> key(Insert(x, s[1..], key)[k]) <= key(s[0])
  {
    var rest := Insert(x, s[1..], key);
    forall k | 0 <= k < |rest| ensures key(rest[k]) <= key(s[0]) {
      var y := rest[k];
      assert y in multiset(rest);
      assert y == x || y in multiset(s[1..]);
      if y != x {
        var m :| 0 <= m < |s[1..]| && s[1..][m] == y;
        assert s[m + 1] == y;
      }
    }
  }

  /** Stable sort: each element is inserted behind all earlier elements of
      equal or greater key (the order JavaScript's stable array sort gives
      when it compares by descending key). */
  function Sort<T(!new)>(xs: seq<T>, key: T -> int): (r: seq<T>)
    ensures multiset(r) == multiset(xs)
    ensures SortedDesc(r, key)
  {
    if |xs| == 0 then []
    else
      var init := Sort(xs[..|xs| - 1], key);
      assert xs == xs[..|xs| - 1] + [xs[|xs| - 1]];
      InsertSorted(xs[|xs| - 1], init, key);
      Insert(xs[|xs| - 1], init, key)
  }

  /** Nothing satisfies the test, so nothing is kept. */
  lemma FilterNone<T(!new)>(s: seq<T>, p: T -> bool)
    requires forall y :: y in s ==> !p(y)
    ensures Filter(s, p) == []
  {
    if Filter(s, p) != [] {
      assert Filter(s, p)[0] in Filter(s, p);
    }
  }

  /** One step of `Insert` past an element of at least `x`'s key. */
  lemma InsertUnfold<T(!new)>(x: T, s: seq<T>, key: T -> int)
    requires |s| > 0 && key(s[0]) >= key(x)
    ensures Insert(x, s, key) == [s[0]] + Insert(x, s[1..], key)
  {
  }

  /** Inserting `x` into a sorted sequence puts it last among the elements
      that share its key and moves no element of another key. */
  lemma {:induction false} InsertStable<T(!new)>(x: T, s: seq<T>, key: T -> int, k: int)
    requires SortedDesc(s, key)
    ensures Filter(Insert(x, s, key), HasKey(key, k)) == Filter(s, HasKey(key, k)) + Filter([x], HasKey(key, k))
  {
    if |s| == 0 {
      assert Insert(x, s, key) == [x];
    } else if key(s[0]) < key(x) {
      InsertInFront(x, s, key, k);
    } else {
      var rest := s[1..];
      assert SortedDesc(rest, key) by {
        forall i, j | 0 <= i < j < |rest| ensures key(rest[i]) >= key(rest[j]) {
          assert rest[i] == s[i + 1] && rest[j] == s[j + 1];
        }
      }
      InsertStable(x, rest, key, k);
      InsertBehindHead(x, s, key, k);
    }
  }

  /** `x` outranks the whole sorted `s`, so no element of `s` shares its key. */
  lemma InsertInFront<T(!new)>(x: T, s: seq<T>, key: T -> int, k: int)
    requires SortedDesc(s, key)
    requires |s| > 0 && key(s[0]) < key(x)
    ensures Filter(Insert(x, s, key), HasKey(key, k)) == Filter(s, HasKey(key, k)) + Filter([x], HasKey(key, k))
  {
    var p := HasKey(key, k);
    assert Insert(x, s, key) == [x] + s;
    FilterConcat([x], s, p);
    if key(x) == k {
      NoneBelowHead(s, key, k);
      assert Filter(s, p) + Filter([x], p) == Filter([x], p) + Filter(s, p);
    } else {
      assert Filter([x], p) == [];
    }
  }

  /** A sorted sequence whose head is below `k` holds nothing with key `k`. */
  lemma NoneBelowHead<T(!new)>(s: seq<T>, key: T -> int, k: int)
    requires SortedDesc(s, key)
    requires |s| > 0 && key(s[0]) < k
    ensures Filter(s, HasKey(key, k)) == []
  {
    var p := HasKey(key, k);
    forall y | y in s ensures !p(y) {
      var m :| 0 <= m < |s| && s[m] == y;
      assert key(s[m]) <= key(s[0]);
    }
    FilterNone(s, p);
  }

  /** The inductive step: `x` goes past the head of `s`. */
  lemma InsertBehindHead<T(!new)>(x: T, s: seq<T>, key: T -> int, k: int)
    requires |s| > 0 && key(s[0]) >= key(x)
    requires Filter(Insert(x, s[1..], key), HasKey(key, k)) == Filter(s[1..], HasKey(key, k)) + Filter([x], HasKey(key, k))
    ensures Filter(Insert(x, s, key), HasKey(key, k)) == Filter(s, HasKey(key, k)) + Filter([x], HasKey(key, k))
  {
    var p := HasKey(key, k);
    var ins := Insert(x, s[1..], key);
    calc {
      Filter(Insert(x, s, key), p);
    == { InsertUnfold(x, s, key); }
      Filter([s[0]] + ins, p);
    == { FilterConcat([s[0]], ins, p); }
      Filter([s[0]], p) + Filter(ins, p);
    ==
      Filter([s[0]], p) + (Filter(s[1..], p) + Filter([x], p));
    == { SeqAssoc(Filter([s[0]], p), Filter(s[1..], p), Filter([x], p)); }
      (Filter([s[0]], p) + Filter(s[1..], p)) + Filter([x], p);
    == { FilterHead(s, p); }
      Filter(s, p) + Filter([x], p);
    }
  }

  lemma SeqAssoc<T>(a: seq<T>, b: seq<T>, c: seq<T>)
    ensures a + (b + c) == (a + b) + c
  {
  }

  /** Stability: for every key, the elements with that key appear in the
      sorted output exactly as they appear in the input. */
  lemma {:induction false} SortStable<T(!new)>(xs: seq<T>, key: T -> int, k: int)
    ensures Filter(Sort(xs, key), HasKey(key, k)) == Filter(xs, HasKey(key, k))
  {
    if |xs| > 0 {
      var init := xs[..|xs| - 1];
      var last := xs[|xs| - 1];
      SortStable(init, key, k);
      InsertStable(last, Sort(init, key), key, k);
      assert xs == init + [last];
      FilterConcat(init, [last], HasKey(key, k));
    }
  }

  /** `a` and `b` agree, key by key, on the elements carrying that key. */
  ghost predicate SameClasses<T(!new)>(a: seq<T>, b: seq<T>, key: T -> int) {
    forall k :: Filter(a, HasKey(key, k)) == Filter(b, HasKey(key, k))
  }

  /** In a sorted sequence the head carries the largest key. */
  lemma HeadIsMax<T>(s: seq<T>, key: T -> int, y: T)
    requires SortedDesc(s, key) && y in s
    ensures key(y) <= key(s[0])
  {
    var m :| 0 <= m < |s| && s[m] == y;
    assert key(s[m]) <= key(s[0]);
  }

  /** Agreeing sorted sequences start with the same element. */
  lemma SameHead<T(!new)>(a: seq<T>, b: seq<T>, key: T -> int)
    requires SortedDesc(a, key) && SortedDesc(b, key) && SameClasses(a, b, key)
    requires |a| > 0
    ensures |b| > 0 && a[0] == b[0]
  {
    var ka := key(a[0]);
    HeadInClass(a, key);
    assert Filter(b, HasKey(key, ka)) == Filter(a, HasKey(key, ka));
    assert a[0] in Filter(b, HasKey(key, ka));
    HeadIsMax(b, key, a[0]);
    var kb := key(b[0]);
    HeadInClass(b, key);
    assert Filter(a, HasKey(key, kb)) == Filter(b, HasKey(key, kb));
    assert b[0] in Filter(a, HasKey(key, kb));
    HeadIsMax(a, key, b[0]);
    assert ka == kb;
  }

  /** Agreeing sequences with a common head agree on their tails. */
  lemma SameTails<T(!new)>(a: seq<T>, b: seq<T>, key: T -> int)
    requires SameClasses(a, b, key)
    requires |a| > 0 && |b| > 0 && a[0] == b[0]
    ensures SameClasses(a[1..], b[1..], key)
  {
    forall k
      ensures Filter(a[1..], HasKey(key, k)) == Filter(b[1..], HasKey(key, k))
    {
      var p := HasKey(key, k);
      FilterHead(a, p);
      FilterHead(b, p);
      assert Filter(a, p) == Filter(b, p);
      var h := Filter([a[0]], p);
      assert h + Filter(a[1..], p) == h + Filter(b[1..], p);
      assert Filter(a[1..], p) == (h + Filter(a[1..], p))[|h|..];
      assert Filter(b[1..], p) == (h + Filter(b[1..], p))[|h|..];
    }
  }

  /** Two sequences sorted by descending key that agree, key by key, on
      the elements carrying that key are the same sequence. */
  lemma {:induction false} SortedClassesDetermine<T(!new)>(a: seq<T>, b: seq<T>, key: T -> int)
    requires SortedDesc(a, key) && SortedDesc(b, key)
    requires SameClasses(a, b, key)
    ensures a == b
  {
    if |a| > 0 {
      SameHead(a, b, key);
    } else if |b| > 0 {
      SameHead(b, a, key);
    }
    if |a| > 0 {
      SameTails(a, b, key);
      assert SortedDesc(a[1..], key) by {
        forall i, j | 0 <= i < j < |a[1..]| ensures key(a[1..][i]) >= key(a[1..][j]) {
          assert a[1..][i] == a[i + 1] && a[1..][j] == a[j + 1];
        }
      }
      assert SortedDesc(b[1..], key) by {
        forall i, j | 0 <= i < j < |b[1..]| ensures key(b[1..][i]) >= key(b[1..][j]) {
          assert b[1..][i] == b[i + 1] && b[1..][j] == b[j + 1];
        }
      }
      SortedClassesDetermine(a[1..], b[1..], key);
      assert a == [a[0]] + a[1..];
      assert b == [b[0]] + b[1..];
    }
  }

  /** The first element heads the class of its own key. */
  lemma HeadInClass<T(!new)>(s: seq<T>, key: T -> int)
    requires |s| > 0
    ensures Filter(s, HasKey(key, key(s[0]))) == [s[0]] + Filter(s[1..], HasKey(key, key(s[0])))
  {
  }

  /** The sort is characterised completely: a sequence is the stable sort
      of `xs` exactly when it is sorted by descending key and agrees with
      `xs` on the elements of each key. */
  lemma SortCharacterization<T(!new)>(xs: seq<T>, ys: seq<T>, key: T -> int)
    ensures ys == Sort(xs, key) <==>
      SortedDesc(ys, key) && SameClasses(ys, xs, key)
  {
    forall k ensures Filter(Sort(xs, key), HasKey(key, k)) == Filter(xs, HasKey(key, k)) {
      SortStable(xs, key, k);
    }
    if SortedDesc(ys, key) && SameClasses(ys, xs, key) {
      SortedClassesDetermine(ys, Sort(xs, key), key);
    }
  }
}
