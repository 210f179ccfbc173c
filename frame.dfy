/**
 * The handful of dataframe operations the dashboard relies on, stated over
 * sequences: boolean-mask selection, column sums and means, `unique()`,
 * `groupby(...).mean()`, `value_counts()`, and `sort_values(ascending=False)`
 * followed by `head(n)`.
 *
 * Row order is kept where the dataframe library keeps it (mask selection).
 * The library sorts group keys by default and breaks ties in an unstable
 * sort as it likes; the model neither models nor asserts either order.
 */
module Frame {

  // ---------------------------------------------------------------------
  // Boolean-mask selection: df[mask]
  // ---------------------------------------------------------------------

  /** The elements of `s` for which `keep` holds, in their original order. */
  function Mask<T(==,!new)>(s: seq<T>, keep: T -> bool): (r: seq<T>)
    ensures |r| <= |s|
    ensures forall x :: x in r <==> x in s && keep(x)
  {
    if s == [] then []
    else
      assert forall x :: x in s <==> x == s[0] || x in s[1..];
      if keep(s[0]) then [s[0]] + Mask(s[1..], keep) else Mask(s[1..], keep)
  }

  /** Each row occurs in the selection as often as in the input if the mask
      holds on it, and not at all otherwise. */
  lemma {:induction false} MaskCount<T(!new)>(s: seq<T>, keep: T -> bool, x: T)
    ensures multiset(Mask(s, keep))[x] == if keep(x) then multiset(s)[x] else 0
  {
    if s != [] {
      assert s == [s[0]] + s[1..];
      MaskCount(s[1..], keep, x);
    }
  }

  /** `sub` can be obtained from `s` by deleting elements (order kept). */
  predicate IsSubsequence<T(==,!new)>(sub: seq<T>, s: seq<T>)
    decreases |s|
  {
    if sub == [] then true
    else if s == [] then false
    else (sub[0] == s[0] && IsSubsequence(sub[1..], s[1..])) || IsSubsequence(sub, s[1..])
  }

  /** Mask selection only deletes rows: what is left is in the original order. */
  lemma {:induction false} MaskIsSubsequence<T(!new)>(s: seq<T>, keep: T -> bool)
    ensures IsSubsequence(Mask(s, keep), s)
  {
    if s != [] {
      MaskIsSubsequence(s[1..], keep);
      var r := Mask(s, keep);
      if keep(s[0]) {
        assert r[0] == s[0] && r[1..] == Mask(s[1..], keep);
      } else {
        assert r == Mask(s[1..], keep);
      }
    }
  }

  /** A mask that holds on every row selects everything. */
  lemma {:induction false} MaskKeepsAll<T(!new)>(s: seq<T>, keep: T -> bool)
    requires forall x :: x in s ==> keep(x)
    ensures Mask(s, keep) == s
  {
    if s != [] {
      assert forall x :: x in s[1..] ==> x in s;
      MaskKeepsAll(s[1..], keep);
    }
  }

  /** Applying the same mask twice is the same as applying it once. */
  lemma MaskIdempotent<T(!new)>(s: seq<T>, keep: T -> bool)
    ensures Mask(Mask(s, keep), keep) == Mask(s, keep)
  {
    MaskKeepsAll(Mask(s, keep), keep);
  }

  /** Two masks applied in turn select what their conjunction selects. */
  lemma {:induction false} MaskThenMask<T(!new)>(s: seq<T>, p: T -> bool, q: T -> bool, both: T -> bool)
    requires forall x :: x in s ==> (both(x) <==> p(x) && q(x))
    ensures Mask(Mask(s, p), q) == Mask(s, both)
  {
    if s != [] {
      assert forall x :: x in s[1..] ==> x in s;
      MaskThenMask(s[1..], p, q, both);
      if p(s[0]) {
        assert Mask(s, p) == [s[0]] + Mask(s[1..], p);
        assert ([s[0]] + Mask(s[1..], p))[1..] == Mask(s[1..], p);
      }
    }
  }

  /** Masks that agree on every row of `s` select the same rows. */
  lemma {:induction false} MaskCongruent<T(!new)>(s: seq<T>, p: T -> bool, q: T -> bool)
    requires forall x :: x in s ==> p(x) == q(x)
    ensures Mask(s, p) == Mask(s, q)
  {
    if s != [] {
      assert forall x :: x in s[1..] ==> x in s;
      MaskCongruent(s[1..], p, q);
    }
  }

  // ---------------------------------------------------------------------
  // Column sums and means
  // ---------------------------------------------------------------------

  /** The sum of column `val` over the rows of `s`. */
  function Sum<T(==,!new)>(s: seq<T>, val: T -> real): real
  {
    if s == [] then 0.0 else val(s[0]) + Sum(s[1..], val)
  }

  /** The arithmetic mean of column `val` over a non-empty set of rows. */
  function Average<T(==,!new)>(s: seq<T>, val: T -> real): (m: real)
    requires |s| > 0
    ensures m * |s| as real == Sum(s, val)
  {
    Sum(s, val) / |s| as real
  }

  lemma {:induction false} SumConcat<T(!new)>(a: seq<T>, b: seq<T>, val: T -> real)
    ensures Sum(a + b, val) == Sum(a, val) + Sum(b, val)
  {
    if a == [] {
      assert a + b == b;
    } else {
      assert (a + b)[0] == a[0];
      assert (a + b)[1..] == a[1..] + b;
      SumConcat(a[1..], b, val);
    }
  }

  /** Taking one element out of a sequence takes it out of the multiset. */
  lemma MultisetRemove<T(!new)>(b: seq<T>, i: nat)
    requires i < |b|
    ensures multiset(b[..i] + b[i + 1..]) == multiset(b) - multiset{b[i]}
  {
    assert b == b[..i] + [b[i]] + b[i + 1..];
    assert multiset(b) == multiset(b[..i]) + multiset{b[i]} + multiset(b[i + 1..]);
  }

  lemma SumCons<T(!new)>(x: T, t: seq<T>, val: T -> real)
    ensures Sum([x] + t, val) == val(x) + Sum(t, val)
  {
    assert ([x] + t)[1..] == t;
  }

  /** Taking one element out of a sequence takes its value out of the sum. */
  lemma SumRemove<T(!new)>(b: seq<T>, i: nat, val: T -> real)
    requires i < |b|
    ensures Sum(b, val) == val(b[i]) + Sum(b[..i] + b[i + 1..], val)
  {
    var left, right := b[..i], b[i + 1..];
    assert Sum(b, val) == Sum(left + [b[i]], val) + Sum(right, val) by {
      assert b == (left + [b[i]]) + right;
      SumConcat(left + [b[i]], right, val);
    }
    assert Sum(left + [b[i]], val) == Sum(left, val) + val(b[i]) by {
      SumConcat(left, [b[i]], val);
      SumCons(b[i], [], val);
      assert [b[i]] + [] == [b[i]];
    }
    SumConcat(left, right, val);
  }

  /** Where `b` holds the first element of its rearrangement `a`, and what
      is left of `b` once it is taken out. */
  lemma MatchFirst<T(!new)>(a: seq<T>, b: seq<T>) returns (i: nat)
    requires |a| > 0 && multiset(a) == multiset(b)
    ensures i < |b| && b[i] == a[0]
    ensures multiset(a[1..]) == multiset(b[..i] + b[i + 1..])
  {
    assert a[0] in multiset(b);
    i :| 0 <= i < |b| && b[i] == a[0];
    assert multiset(a[1..]) == multiset(a) - multiset{a[0]} by {
      MultisetRemove(a, 0);
      assert a[..0] + a[1..] == a[1..];
    }
    MultisetRemove(b, i);
  }

  /** Sums do not depend on row order. */
  lemma {:induction false} SumPermutation<T(!new)>(a: seq<T>, b: seq<T>, val: T -> real)
    requires multiset(a) == multiset(b)
    ensures Sum(a, val) == Sum(b, val)
    decreases |a|
  {
    if a == [] {
      assert |b| == |multiset(b)| == 0;
    } else {
      var i := MatchFirst(a, b);
      var rest := b[..i] + b[i + 1..];
      SumPermutation(a[1..], rest, val);
      SumRemove(b, i, val);
    }
  }

  /** `x` added to itself `n` times: `n * x` without a nonlinear product. */
  function Times(n: nat, x: real): real
  {
    if n == 0 then 0.0 else x + Times(n - 1, x)
  }

  lemma {:induction false} TimesIsProduct(n: nat, x: real)
    ensures Times(n, x) == n as real * x
  {
    if n > 0 {
      TimesIsProduct(n - 1, x);
      assert n as real * x == (n - 1) as real * x + x;
    }
  }

  /** Where one column is `c` minus another, so are their sums, `|s|` times over. */
  lemma {:induction false} SumComplement<T(!new)>(s: seq<T>, f: T -> real, g: T -> real, c: real)
    requires forall x :: x in s ==> f(x) == c - g(x)
    ensures Sum(s, f) == Times(|s|, c) - Sum(s, g)
  {
    if s != [] {
      assert s[0] in s;
      assert forall x :: x in s[1..] ==> x in s;
      SumComplement(s[1..], f, g, c);
    }
  }

  /** If every value lies in [lo, hi], the sum lies in [n * lo, n * hi]. */
  lemma {:induction false} SumBounds<T(!new)>(s: seq<T>, val: T -> real, lo: real, hi: real)
    requires forall x :: x in s ==> lo <= val(x) <= hi
    ensures Times(|s|, lo) <= Sum(s, val) <= Times(|s|, hi)
  {
    if s != [] {
      assert forall x :: x in s[1..] ==> x in s;
      assert s[0] in s;
      SumBounds(s[1..], val, lo, hi);
      assert |s[1..]| == |s| - 1;
    }
  }

  /** The mean of values that all lie in [lo, hi] lies in [lo, hi]. */
  lemma AverageBounds<T(!new)>(s: seq<T>, val: T -> real, lo: real, hi: real)
    requires |s| > 0
    requires forall x :: x in s ==> lo <= val(x) <= hi
    ensures lo <= Average(s, val) <= hi
  {
    SumBounds(s, val, lo, hi);
    TimesIsProduct(|s|, lo);
    TimesIsProduct(|s|, hi);
    QuotientWithin(Sum(s, val), |s| as real, lo, hi);
  }

  /** A total between `n * lo` and `n * hi`, divided by `n`, lies in [lo, hi]. */
  lemma QuotientWithin(total: real, n: real, lo: real, hi: real)
    requires n > 0.0
    requires n * lo <= total <= n * hi
    ensures lo <= total / n <= hi
  {
    var q := total / n;
    assert total == n * q;
    assert n * (q - lo) >= 0.0 && n * (hi - q) >= 0.0;
  }

  /** A sum of strictly positive values over a non-empty set is positive. */
  lemma {:induction false} SumPositive<T(!new)>(s: seq<T>, val: T -> real)
    requires |s| > 0
    requires forall x :: x in s ==> val(x) > 0.0
    ensures Sum(s, val) > 0.0
  {
    assert forall x :: x in s[1..] ==> x in s;
    if |s| > 1 { SumPositive(s[1..], val); }
  }

  /** Column `val` divided by `a`. */
  function DividedBy<T(==,!new)>(val: T -> real, a: real): T -> real
    requires a != 0.0
  {
    x => val(x) / a
  }

  /** Dividing every value by `a` divides the sum by `a`. */
  lemma {:induction false} SumDividedBy<T(!new)>(s: seq<T>, val: T -> real, a: real)
    requires a != 0.0
    ensures Sum(s, DividedBy(val, a)) * a == Sum(s, val)
  {
    if s != [] {
      SumDividedBy(s[1..], val, a);
      var d := DividedBy(val, a);
      assert d(s[0]) * a == val(s[0]);
      assert (d(s[0]) + Sum(s[1..], d)) * a == d(s[0]) * a + Sum(s[1..], d) * a;
    }
  }

  /** The mean of strictly positive values is positive. */
  lemma AveragePositive<T(!new)>(s: seq<T>, val: T -> real)
    requires |s| > 0
    requires forall x :: x in s ==> val(x) > 0.0
    ensures Average(s, val) > 0.0
  {
    SumPositive(s, val);
    var n := |s| as real;
    assert Average(s, val) * n > 0.0 && n > 0.0;
  }

  /** Values divided by their own mean add up to their count. */
  lemma SumDividedByMean<T(!new)>(g: seq<T>, val: T -> real)
    requires |g| > 0 && Average(g, val) > 0.0
    ensures Sum(g, DividedBy(val, Average(g, val))) == |g| as real
  {
    var a := Average(g, val);
    var x := Sum(g, DividedBy(val, a));
    SumDividedBy(g, val, a);
    Cancel(x, |g| as real, a);
  }

  /** A non-zero factor cancels. */
  lemma Cancel(x: real, y: real, a: real)
    requires a != 0.0
    requires x * a == y * a
    ensures x == y
  {
    assert (x - y) * a == 0.0;
  }

  /** Values average to one exactly when they add up to their count. */
  lemma AverageOfCount<T(!new)>(s: seq<T>, val: T -> real)
    requires |s| > 0
    ensures Average(s, val) == 1.0 <==> Sum(s, val) == |s| as real
  {
    var n := |s| as real;
    if Sum(s, val) == n {
      Cancel(Average(s, val), 1.0, n);
    }
  }

  /** Two minus values that average to one also average to one. */
  lemma ComplementAverage<T(!new)>(s: seq<T>, f: T -> real, g: T -> real)
    requires |s| > 0 && Average(s, g) == 1.0
    requires forall x :: x in s ==> f(x) == 2.0 - g(x)
    ensures Average(s, f) == 1.0
  {
    AverageOfCount(s, g);
    SumComplement(s, f, g, 2.0);
    TimesIsProduct(|s|, 2.0);
    AverageOfCount(s, f);
  }

  /** `min()` of column `val`: attained by some row and no larger than any. */
  function MinOf<T(==,!new)>(s: seq<T>, val: T -> real): (m: real)
    requires |s| > 0
    ensures forall x :: x in s ==> m <= val(x)
    ensures exists x :: x in s && val(x) == m
  {
    if |s| == 1 then val(s[0])
    else
      var rest := MinOf(s[1..], val);
      assert forall x :: x in s ==> x == s[0] || x in s[1..];
      if val(s[0]) <= rest then val(s[0]) else rest
  }

  /** `max()` of column `val`: attained by some row and no smaller than any. */
  function MaxOf<T(==,!new)>(s: seq<T>, val: T -> real): (m: real)
    requires |s| > 0
    ensures forall x :: x in s ==> val(x) <= m
    ensures exists x :: x in s && val(x) == m
  {
    if |s| == 1 then val(s[0])
    else
      var rest := MaxOf(s[1..], val);
      assert forall x :: x in s ==> x == s[0] || x in s[1..];
      if val(s[0]) >= rest then val(s[0]) else rest
  }

  // ---------------------------------------------------------------------
  // unique() and grouping by a key column
  // ---------------------------------------------------------------------

  /** The set of values column `key` takes over `s`. */
  function KeySet<T(==,!new), K(==,!new)>(s: seq<T>, key: T -> K): set<K>
  {
    set x | x in s :: key(x)
  }

  predicate Distinct<K(==,!new)>(ks: seq<K>)
  {
    forall i, j :: 0 <= i < j < |ks| ==> ks[i] != ks[j]
  }

  /** `unique()`: every value of column `key`, each once (first-occurrence order). */
  function Unique<T(==,!new), K(==,!new)>(s: seq<T>, key: T -> K): (ks: seq<K>)
    ensures Distinct(ks)
    ensures forall k :: k in ks <==> k in KeySet(s, key)
  {
    if s == [] then []
    else
      var init := s[..|s| - 1];
      var last := s[|s| - 1];
      assert s == init + [last];
      assert forall x :: x in s <==> x in init || x == last;
      var ks := Unique(init, key);
      if key(last) in ks then ks else ks + [key(last)]
  }

  lemma {:induction false} DistinctCardinality<K(!new)>(ks: seq<K>)
    requires Distinct(ks)
    ensures |set k | k in ks| == |ks|
  {
    if ks != [] {
      var tail := ks[1..];
      DistinctCardinality(tail);
      assert (set k | k in ks) == {ks[0]} + (set k | k in tail);
      assert ks[0] !in (set k | k in tail);
    }
  }

  /** `len(unique())` is the number of distinct values in the column. */
  lemma UniqueSize<T(!new), K(!new)>(s: seq<T>, key: T -> K)
    ensures |Unique(s, key)| == |KeySet(s, key)|
  {
    var ks := Unique(s, key);
    DistinctCardinality(ks);
    assert (set k | k in ks) == KeySet(s, key);
  }

  /** The rows whose column `key` equals `k`: one group of `groupby(key)`. */
  function GroupOf<T(==,!new), K(==,!new)>(s: seq<T>, key: T -> K, k: K): (g: seq<T>)
    ensures forall x :: x in g <==> x in s && key(x) == k
    ensures k in KeySet(s, key) ==> |g| > 0
  {
    Mask(s, (x: T) => key(x) == k)
  }

  /** A group keeps each of its rows as often as it occurs in the input, so
      two equal rows both count towards the group's mean. */
  lemma GroupCount<T(!new), K(!new)>(s: seq<T>, key: T -> K, k: K, x: T)
    ensures multiset(GroupOf(s, key, k))[x] == if key(x) == k then multiset(s)[x] else 0
  {
    MaskCount(s, (y: T) => key(y) == k, x);
  }

  // ---------------------------------------------------------------------
  // groupby(key)[val].mean()
  // ---------------------------------------------------------------------

  predicate DistinctKeys<K(==,!new), V(==,!new)>(g: seq<(K, V)>)
  {
    forall i, j :: 0 <= i < j < |g| ==> g[i].0 != g[j].0
  }

  /** Some entry of `g` is keyed `k`. */
  predicate HasKey<K(==,!new), V(==,!new)>(g: seq<(K, V)>, k: K)
  {
    exists i :: 0 <= i < |g| && g[i].0 == k
  }

  /** One entry per key of `ks` with the mean of column `val` over its group. */
  function MeansOver<T(==,!new), K(==,!new)>(s: seq<T>, key: T -> K, val: T -> real, ks: seq<K>): (g: seq<(K, real)>)
    requires forall k :: k in ks ==> k in KeySet(s, key)
    ensures |g| == |ks|
    ensures forall i :: 0 <= i < |g| ==> g[i].0 == ks[i] && g[i].1 == Average(GroupOf(s, key, ks[i]), val)
  {
    if ks == [] then []
    else [(ks[0], Average(GroupOf(s, key, ks[0]), val))] + MeansOver(s, key, val, ks[1..])
  }

  /** `groupby(key)[val].mean()`: the distinct keys, each with its group's mean. */
  function GroupMeans<T(==,!new), K(==,!new)>(s: seq<T>, key: T -> K, val: T -> real): (g: seq<(K, real)>)
    ensures DistinctKeys(g)
    ensures |g| == |KeySet(s, key)|
    ensures forall k :: k in KeySet(s, key) <==> HasKey(g, k)
    ensures forall i :: 0 <= i < |g| ==> g[i].0 in KeySet(s, key)
    ensures forall i :: 0 <= i < |g| ==> g[i].1 == Average(GroupOf(s, key, g[i].0), val)
  {
    var ks := Unique(s, key);
    var g := MeansOver(s, key, val, ks);
    assert |g| == |KeySet(s, key)| by {
      UniqueSize(s, key);
    }
    assert DistinctKeys(g) by {
      assert forall i :: 0 <= i < |g| ==> g[i].0 == ks[i];
    }
    assert forall k :: k in KeySet(s, key) <==> HasKey(g, k) by {
      forall k ensures k in KeySet(s, key) <==> HasKey(g, k) {
        if k in KeySet(s, key) {
          var i :| 0 <= i < |ks| && ks[i] == k;
          assert g[i].0 == k;
        }
      }
    }
    g
  }

  /** The sum of column `val` over the groups of the keys `ks`, group by group. */
  function SumOverKeys<T(==,!new), K(==,!new)>(s: seq<T>, key: T -> K, val: T -> real, ks: seq<K>): real
  {
    if ks == [] then 0.0 else Sum(GroupOf(s, key, ks[0]), val) + SumOverKeys(s, key, val, ks[1..])
  }

  lemma {:induction false} SumOverKeysOfNothing<T(!new), K(!new)>(key: T -> K, val: T -> real, ks: seq<K>)
    ensures SumOverKeys([], key, val, ks) == 0.0
  {
    if ks != [] {
      assert GroupOf([], key, ks[0]) == [];
      SumOverKeysOfNothing(key, val, ks[1..]);
    }
  }

  lemma GroupOfCons<T(!new), K(!new)>(x: T, t: seq<T>, key: T -> K, k: K)
    ensures GroupOf([x] + t, key, k) == (if key(x) == k then [x] else []) + GroupOf(t, key, k)
  {
    assert ([x] + t)[1..] == t;
  }

  /** Adding one row to the frame adds its value to exactly the group of its key. */
  lemma {:induction false} SumOverKeysCons<T(!new), K(!new)>(x: T, t: seq<T>, key: T -> K, val: T -> real, ks: seq<K>)
    requires Distinct(ks)
    ensures SumOverKeys([x] + t, key, val, ks)
         == (if key(x) in ks then val(x) else 0.0) + SumOverKeys(t, key, val, ks)
  {
    if ks != [] {
      assert Distinct(ks[1..]);
      SumOverKeysCons(x, t, key, val, ks[1..]);
      GroupOfCons(x, t, key, ks[0]);
      SumConcat(if key(x) == ks[0] then [x] else [], GroupOf(t, key, ks[0]), val);
      assert key(x) in ks <==> key(x) == ks[0] || key(x) in ks[1..];
      assert key(x) == ks[0] ==> key(x) !in ks[1..];
    }
  }

  /** The groups partition the rows: their sums add up to the column's total. */
  lemma {:induction false} GroupSumsPartition<T(!new), K(!new)>(s: seq<T>, key: T -> K, val: T -> real, ks: seq<K>)
    requires Distinct(ks)
    requires forall x :: x in s ==> key(x) in ks
    ensures SumOverKeys(s, key, val, ks) == Sum(s, val)
  {
    if s == [] {
      SumOverKeysOfNothing(key, val, ks);
    } else {
      assert s == [s[0]] + s[1..];
      assert forall x :: x in s[1..] ==> x in s;
      GroupSumsPartition(s[1..], key, val, ks);
      SumOverKeysCons(s[0], s[1..], key, val, ks);
    }
  }

  /** Group means weighted by group sizes, over the entries of `g`. */
  function WeightedTotal<T(==,!new), K(==,!new)>(s: seq<T>, key: T -> K, g: seq<(K, real)>): real
  {
    if g == [] then 0.0 else Weighted(s, key, g[0]) + WeightedTotal(s, key, g[1..])
  }

  /** One entry's value times the size of its group. */
  function Weighted<T(==,!new), K(==,!new)>(s: seq<T>, key: T -> K, e: (K, real)): real
  {
    e.1 * |GroupOf(s, key, e.0)| as real
  }

  lemma {:induction false} WeightedTotalOfMeans<T(!new), K(!new)>(s: seq<T>, key: T -> K, val: T -> real, ks: seq<K>)
    requires forall k :: k in ks ==> k in KeySet(s, key)
    ensures WeightedTotal(s, key, MeansOver(s, key, val, ks)) == SumOverKeys(s, key, val, ks)
  {
    if ks != [] {
      var g := MeansOver(s, key, val, ks);
      var rest := WeightedTotal(s, key, g[1..]);
      assert rest == SumOverKeys(s, key, val, ks[1..]) by {
        assert g[1..] == MeansOver(s, key, val, ks[1..]);
        WeightedTotalOfMeans(s, key, val, ks[1..]);
      }
      assert g[0] == (ks[0], Average(GroupOf(s, key, ks[0]), val));
      WeightedMean(s, key, val, ks[0]);
    }
  }

  /** A group's mean weighted by the group's size is the group's sum. */
  lemma WeightedMean<T(!new), K(!new)>(s: seq<T>, key: T -> K, val: T -> real, k: K)
    requires k in KeySet(s, key)
    ensures Weighted(s, key, (k, Average(GroupOf(s, key, k), val))) == Sum(GroupOf(s, key, k), val)
  {
  }

  /** The group means, weighted by group sizes, add up to the ungrouped total. */
  lemma GroupMeansConsistent<T(!new), K(!new)>(s: seq<T>, key: T -> K, val: T -> real)
    ensures WeightedTotal(s, key, GroupMeans(s, key, val)) == Sum(s, val)
  {
    var ks := Unique(s, key);
    WeightedTotalOfMeans(s, key, val, ks);
    GroupSumsPartition(s, key, val, ks);
  }

  // ---------------------------------------------------------------------
  // sort_values(ascending=False) and head(n)
  // ---------------------------------------------------------------------

  predicate NonIncreasing<T(==,!new)>(s: seq<T>, score: T -> real)
  {
    forall i, j :: 0 <= i < j < |s| ==> score(s[i]) >= score(s[j])
  }

  /** The first element of a non-increasing sequence scores at least as
      high as every later one. */
  lemma HeadDominates<T(!new)>(s: seq<T>, score: T -> real)
    requires NonIncreasing(s, score) && |s| > 0
    ensures forall y :: y in s[1..] ==> score(s[0]) >= score(y)
  {
    forall y | y in s[1..] ensures score(s[0]) >= score(y) {
      var k :| 0 <= k < |s[1..]| && s[1..][k] == y;
      assert s[k + 1] == y;
    }
  }

  /** Every element of a sequence with multiset `m + {x}` is `x` or in `m`. */
  lemma MembersOfInsert<T(!new)>(r: seq<T>, s: seq<T>, x: T)
    requires multiset(r) == multiset(s) + multiset{x}
    ensures forall y :: y in r ==> y == x || y in s
  {
    forall y | y in r ensures y == x || y in s {
      assert y in multiset(r);
    }
  }

  /** An element scoring at least as high as everything in a non-increasing
      sequence can be put in front of it. */
  lemma ConsNonIncreasing<T(!new)>(h: T, rest: seq<T>, score: T -> real)
    requires NonIncreasing(rest, score)
    requires forall y :: y in rest ==> score(h) >= score(y)
    ensures NonIncreasing([h] + rest, score)
  {
    var r := [h] + rest;
    forall i, j | 0 <= i < j < |r| ensures score(r[i]) >= score(r[j]) {
      assert r[j] == rest[j - 1] && rest[j - 1] in rest;
      if i > 0 {
        assert r[i] == rest[i - 1];
      }
    }
  }

  /** The recursive step of `Insert`: the head stays in front of the tail
      with `x` inserted into it. */
  lemma InsertStep<T(!new)>(x: T, s: seq<T>, rest: seq<T>, score: T -> real)
    requires |s| > 0 && NonIncreasing(s, score)
    requires NonIncreasing(rest, score)
    requires score(x) < score(s[0])
    requires multiset(rest) == multiset(s[1..]) + multiset{x}
    ensures NonIncreasing([s[0]] + rest, score)
    ensures multiset([s[0]] + rest) == multiset(s) + multiset{x}
  {
    assert s == [s[0]] + s[1..];
    HeadDominates(s, score);
    MembersOfInsert(rest, s[1..], x);
    ConsNonIncreasing(s[0], rest, score);
  }

  /** An element scoring at least as high as the head of a non-increasing
      sequence can be put in front of it. */
  lemma PrependDominant<T(!new)>(x: T, s: seq<T>, score: T -> real)
    requires NonIncreasing(s, score)
    requires s == [] || score(x) >= score(s[0])
    ensures NonIncreasing([x] + s, score)
  {
    if s != [] {
      HeadDominates(s, score);
      assert s == [s[0]] + s[1..];
      ConsNonIncreasing(x, s, score);
    }
  }

  function Insert<T(==,!new)>(x: T, s: seq<T>, score: T -> real): (r: seq<T>)
    requires NonIncreasing(s, score)
    ensures multiset(r) == multiset(s) + multiset{x}
    ensures NonIncreasing(r, score)
  {
    if s == [] || score(x) >= score(s[0]) then
      PrependDominant(x, s, score);
      [x] + s
    else
      var rest := Insert(x, s[1..], score);
      InsertStep(x, s, rest, score);
      [s[0]] + rest
  }

  /** `sort_values(ascending=False)`: a rearrangement of `s`, largest score first. */
  function SortDescending<T(==,!new)>(s: seq<T>, score: T -> real): (r: seq<T>)
    ensures multiset(r) == multiset(s)
    ensures |r| == |s|
    ensures NonIncreasing(r, score)
  {
    if s == [] then []
    else
      assert s == [s[0]] + s[1..];
      var r := Insert(s[0], SortDescending(s[1..], score), score);
      assert |r| == |multiset(r)| == |multiset(s)| == |s|;
      r
  }

  lemma {:induction false} CountAtMostOne<K(!new), V(!new)>(g: seq<(K, V)>, p: (K, V))
    requires DistinctKeys(g)
    ensures multiset(g)[p] <= 1
  {
    if g != [] {
      assert g == [g[0]] + g[1..];
      assert DistinctKeys(g[1..]);
      CountAtMostOne(g[1..], p);
      if p == g[0] {
        assert p !in g[1..];
      }
    }
  }

  lemma CountAtLeastTwo<T(!new)>(s: seq<T>, i: int, j: int)
    requires 0 <= i < j < |s| && s[i] == s[j]
    ensures multiset(s)[s[i]] >= 2
  {
    assert s == s[..j] + s[j..];
    assert s[i] in s[..j];
    assert s[j] == s[j..][0];
  }

  /** Entries drawn (without repetition) from entries with distinct keys have distinct keys. */
  lemma DistinctKeysSubMultiset<K(!new), V(!new)>(a: seq<(K, V)>, b: seq<(K, V)>)
    requires DistinctKeys(a)
    requires multiset(b) <= multiset(a)
    ensures DistinctKeys(b)
  {
    forall i, j | 0 <= i < j < |b| ensures b[i].0 != b[j].0 {
      if b[i] == b[j] {
        CountAtLeastTwo(b, i, j);
        CountAtMostOne(a, b[i]);
      } else {
        assert b[i] in multiset(b) && b[j] in multiset(b);
        assert b[i] in multiset(a) && b[j] in multiset(a);
        var p :| 0 <= p < |a| && a[p] == b[i];
        var q :| 0 <= q < |a| && a[q] == b[j];
        assert p != q;
      }
    }
  }

  /** Rearranging a sequence does not change which elements it holds. */
  lemma PermutationMembers<T(!new)>(a: seq<T>, b: seq<T>)
    requires multiset(a) == multiset(b)
    ensures forall x :: x in a <==> x in b
  {
    forall x ensures x in a <==> x in b {
      assert x in a <==> x in multiset(a);
      assert x in b <==> x in multiset(b);
    }
  }

  /** In a non-increasing sequence, everything before position m scores at
      least as high as everything from m on. */
  lemma PrefixDominates<T(!new)>(s: seq<T>, score: T -> real, m: nat)
    requires NonIncreasing(s, score)
    requires m <= |s|
    ensures forall x, y :: x in s[m..] && y in s[..m] ==> score(y) >= score(x)
  {
    forall x, y | x in s[m..] && y in s[..m] ensures score(y) >= score(x) {
      var i :| 0 <= i < |s[m..]| && s[m..][i] == x;
      var j :| 0 <= j < m && s[..m][j] == y;
      assert s[m + i] == x && s[j] == y;
    }
  }

  /** `sort_values(score, ascending=False).head(n)`. */
  function Top<T(==,!new)>(s: seq<T>, score: T -> real, n: nat): (t: seq<T>)
    ensures |t| == if n < |s| then n else |s|
    ensures NonIncreasing(t, score)
    ensures multiset(t) <= multiset(s)
    ensures forall x :: x in t ==> x in s
    ensures forall x, y :: x in s && x !in t && y in t ==> score(y) >= score(x)
  {
    var sorted := SortDescending(s, score);
    var m := if n < |s| then n else |s|;
    PermutationMembers(s, sorted);
    PrefixDominates(sorted, score, m);
    assert sorted == sorted[..m] + sorted[m..];
    assert multiset(sorted) == multiset(sorted[..m]) + multiset(sorted[m..]);
    assert forall x :: x in sorted ==> x in sorted[..m] || x in sorted[m..];
    sorted[..m]
  }

  /** The value of a keyed entry, as a sort score. */
  function EntryValue<K(==,!new)>(p: (K, real)): real
  {
    p.1
  }

  /** A key whose entry is left out of the top `n` has a value no higher than
      any entry that is shown. */
  lemma TopLeavesOutLower<K(!new)>(g: seq<(K, real)>, n: nat, j: nat)
    requires j < |g|
    requires !HasKey(Top(g, EntryValue, n), g[j].0)
    ensures forall i :: 0 <= i < |Top(g, EntryValue, n)| ==> Top(g, EntryValue, n)[i].1 >= g[j].1
  {
    var t := Top(g, EntryValue, n);
    assert g[j] !in t;
    forall i | 0 <= i < |t| ensures t[i].1 >= g[j].1 {
      assert t[i] in t && g[j] in g;
      assert EntryValue(t[i]) >= EntryValue(g[j]);
    }
  }

  /** The top `n` group means are group means: distinct keys, each present in
      the data and paired with the mean of its own group. */
  lemma TopOfGroupMeans<T(!new), K(!new)>(s: seq<T>, key: T -> K, val: T -> real, n: nat)
    ensures var t := Top(GroupMeans(s, key, val), EntryValue, n);
      && DistinctKeys(t)
      && forall i :: 0 <= i < |t| ==> t[i].0 in KeySet(s, key) && t[i].1 == Average(GroupOf(s, key, t[i].0), val)
  {
    var g := GroupMeans(s, key, val);
    var t := Top(g, EntryValue, n);
    assert DistinctKeys(t) by {
      DistinctKeysSubMultiset(g, t);
    }
    forall i | 0 <= i < |t|
      ensures t[i].0 in KeySet(s, key) && t[i].1 == Average(GroupOf(s, key, t[i].0), val)
    {
      assert t[i] in g by {
        assert t[i] in t;
      }
      var j :| 0 <= j < |g| && g[j] == t[i];
    }
  }

  // ---------------------------------------------------------------------
  // value_counts()
  // ---------------------------------------------------------------------

  function CountsOver<T(==,!new), K(==,!new)>(s: seq<T>, key: T -> K, ks: seq<K>): (c: seq<(K, nat)>)
    ensures |c| == |ks|
    ensures forall i :: 0 <= i < |c| ==> c[i] == (ks[i], |GroupOf(s, key, ks[i])|)
  {
    if ks == [] then [] else [(ks[0], |GroupOf(s, key, ks[0])|)] + CountsOver(s, key, ks[1..])
  }

  function CountOf<K(==,!new)>(p: (K, nat)): real
  {
    p.1 as real
  }

  function One<T(==,!new)>(x: T): real
  {
    1.0
  }

  lemma {:induction false} SumOfOnes<T(!new)>(s: seq<T>)
    ensures Sum(s, One) == |s| as real
  {
    if s != [] { SumOfOnes(s[1..]); }
  }

  lemma {:induction false} CountsOverTotal<T(!new), K(!new)>(s: seq<T>, key: T -> K, ks: seq<K>)
    ensures Sum(CountsOver(s, key, ks), CountOf) == SumOverKeys(s, key, One, ks)
  {
    if ks != [] {
      var c := CountsOver(s, key, ks);
      assert c[1..] == CountsOver(s, key, ks[1..]);
      CountsOverTotal(s, key, ks[1..]);
      SumOfOnes(GroupOf(s, key, ks[0]));
    }
  }

  /** Any rearrangement of the per-key counts has one entry per key. */
  lemma RearrangedCountsKeys<T(!new), K(!new)>(s: seq<T>, key: T -> K, c: seq<(K, nat)>)
    requires multiset(c) == multiset(CountsOver(s, key, Unique(s, key)))
    ensures DistinctKeys(c)
    ensures |c| == |KeySet(s, key)|
  {
    var ks := Unique(s, key);
    var unsorted := CountsOver(s, key, ks);
    assert |c| == |KeySet(s, key)| by {
      UniqueSize(s, key);
      assert |c| == |multiset(c)| == |multiset(unsorted)| == |unsorted|;
    }
    assert forall i :: 0 <= i < |unsorted| ==> unsorted[i].0 == ks[i];
    DistinctKeysSubMultiset(unsorted, c);
  }

  /** In any rearrangement of the per-key counts, each key present in the
      data has an entry, and each entry holds the size of its key's group. */
  lemma RearrangedCountsEntries<T(!new), K(!new)>(s: seq<T>, key: T -> K, c: seq<(K, nat)>)
    requires forall p :: p in c <==> p in CountsOver(s, key, Unique(s, key))
    ensures forall k :: k in KeySet(s, key) <==> HasKey(c, k)
    ensures forall i :: 0 <= i < |c| ==> c[i].1 == |GroupOf(s, key, c[i].0)| && c[i].1 > 0
  {
    var ks := Unique(s, key);
    var unsorted := CountsOver(s, key, ks);
    forall i | 0 <= i < |c| ensures c[i].1 == |GroupOf(s, key, c[i].0)| && c[i].1 > 0 {
      assert c[i] in unsorted;
      var j :| 0 <= j < |unsorted| && unsorted[j] == c[i];
      assert ks[j] in ks;
    }
    forall k | k in KeySet(s, key) ensures HasKey(c, k) {
      var i :| 0 <= i < |ks| && ks[i] == k;
      assert unsorted[i] in unsorted;
      var j :| 0 <= j < |c| && c[j] == unsorted[i];
    }
    forall k | HasKey(c, k) ensures k in KeySet(s, key) {
      var i :| 0 <= i < |c| && c[i].0 == k;
      assert c[i] in unsorted;
      var j :| 0 <= j < |unsorted| && unsorted[j] == c[i];
      assert ks[j] in ks;
    }
  }

  /** Any rearrangement of the per-key counts adds up to the number of rows. */
  lemma RearrangedCountsTotal<T(!new), K(!new)>(s: seq<T>, key: T -> K, c: seq<(K, nat)>)
    requires multiset(c) == multiset(CountsOver(s, key, Unique(s, key)))
    ensures Sum(c, CountOf) == |s| as real
  {
    var ks := Unique(s, key);
    SumPermutation(CountsOver(s, key, ks), c, CountOf);
    CountsOverTotal(s, key, ks);
    GroupSumsPartition(s, key, One, ks);
    SumOfOnes(s);
  }

  /** `value_counts()`: each distinct key with its number of rows, most frequent first. */
  function ValueCounts<T(==,!new), K(==,!new)>(s: seq<T>, key: T -> K): (c: seq<(K, nat)>)
    ensures DistinctKeys(c)
    ensures |c| == |KeySet(s, key)|
    ensures forall k :: k in KeySet(s, key) <==> HasKey(c, k)
    ensures forall i :: 0 <= i < |c| ==> c[i].1 == |GroupOf(s, key, c[i].0)| && c[i].1 > 0
    ensures NonIncreasing(c, CountOf)
    ensures Sum(c, CountOf) == |s| as real
  {
    var c := SortDescending(CountsOver(s, key, Unique(s, key)), CountOf);
    RearrangedCountsKeys(s, key, c);
    PermutationMembers(CountsOver(s, key, Unique(s, key)), c);
    RearrangedCountsEntries(s, key, c);
    RearrangedCountsTotal(s, key, c);
    c
  }
}
