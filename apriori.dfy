/**
 * The output contract of `apriori(onehot, min_support = 0.001, max_len = 3,
 * use_colnames = True)`: every itemset of one to three columns whose support
 * (the fraction of rows with all its columns true) is at least 0.001, each with
 * its support. The itemsets are produced here by a reference enumerator over all
 * combinations of columns, level by level, rather than by the library's
 * candidate generation; anti-monotonicity of support is what makes the two agree.
 */
module Apriori {
  import opened Orders
  import opened Encoding

  /** The script's `min_support`. */
  const MinSupport: real := 0.001

  /** The script's `max_len`. */
  const MaxLen: nat := 3

  /** The elements of a sequence. */
  function Elems(v: seq<Item>): set<Item>
  {
    set x | x in v
  }

  /** The number of rows whose true columns include every item of s. */
  function Count(columns: seq<Item>, rows: seq<seq<bool>>, s: set<Item>): (n: nat)
    ensures n <= |rows|
  {
    if rows == [] then 0
    else (if s <= ItemsOf(columns, rows[0]) then 1 else 0) + Count(columns, rows[1..], s)
  }

  /** Support: the fraction of rows that contain the itemset (0 for a frame without rows). */
  function Support(f: Frame, s: set<Item>): real
  {
    if |f.rows| == 0 then 0.0 else Count(f.columns, f.rows, s) as real / |f.rows| as real
  }

  /** A row that contains t contains every subset of t. */
  lemma {:induction false} CountAntiMonotone(columns: seq<Item>, rows: seq<seq<bool>>, s: set<Item>, t: set<Item>)
    requires s <= t
    ensures Count(columns, rows, t) <= Count(columns, rows, s)
    decreases |rows|
  {
    if rows != [] {
      CountAntiMonotone(columns, rows[1..], s, t);
    }
  }

  lemma RatioMonotone(a: nat, b: nat, n: nat)
    requires a <= b && n > 0
    ensures a as real / n as real <= b as real / n as real
  {
    assert a as real / n as real * n as real == a as real;
    assert b as real / n as real * n as real == b as real;
  }

  lemma RatioBounds(a: nat, n: nat)
    requires a <= n && n > 0
    ensures 0.0 <= a as real / n as real <= 1.0
  {
    assert a as real / n as real * n as real == a as real;
  }

  /** Support is a fraction. */
  lemma SupportBounds(f: Frame, s: set<Item>)
    ensures 0.0 <= Support(f, s) <= 1.0
  {
    if |f.rows| > 0 {
      RatioBounds(Count(f.columns, f.rows, s), |f.rows|);
    }
  }

  /** Support is anti-monotone: a superset's support never exceeds a subset's. */
  lemma SupportAntiMonotone(f: Frame, s: set<Item>, t: set<Item>)
    requires s <= t
    ensures Support(f, t) <= Support(f, s)
  {
    if |f.rows| > 0 {
      CountAntiMonotone(f.columns, f.rows, s, t);
      RatioMonotone(Count(f.columns, f.rows, t), Count(f.columns, f.rows, s), |f.rows|);
    }
  }

  /** Support at least the threshold means some row contains the itemset, so the support is positive. */
  lemma FrequentSupportPositive(f: Frame, s: set<Item>)
    requires Support(f, s) >= MinSupport
    ensures |f.rows| > 0 && Count(f.columns, f.rows, s) >= 1
    ensures Support(f, s) > 0.0
  {
  }

  /** The number of orders whose products include every item of s. */
  function CountCovering(ts: seq<seq<Item>>, s: set<Item>): (n: nat)
    ensures n <= |ts|
  {
    if ts == [] then 0
    else (if s <= Elems(ts[0]) then 1 else 0) + CountCovering(ts[1..], s)
  }

  lemma {:induction false} TransformCount(vocab: seq<Item>, ts: seq<seq<Item>>, s: set<Item>)
    requires forall r, y :: 0 <= r < |ts| && y in ts[r] ==> y in vocab
    ensures Count(vocab, Transform(vocab, ts), s) == CountCovering(ts, s)
    decreases |ts|
  {
    if ts != [] {
      TransformRowItems(vocab, ts, 0);
      assert ItemsOf(vocab, Transform(vocab, ts)[0]) == Elems(ts[0]);
      assert Transform(vocab, ts)[1..] == Transform(vocab, ts[1..]);
      TransformCount(vocab, ts[1..], s);
    }
  }

  /** On the encoded orders, support is the fraction of orders holding every product of the itemset. */
  lemma SupportOfOrders(ts: seq<seq<Item>>, s: set<Item>)
    requires |ts| > 0
    ensures Support(Encode(ts), s) == CountCovering(ts, s) as real / |ts| as real
  {
    var vocab := Fit(ts);
    forall r, y | 0 <= r < |ts| && y in ts[r] ensures y in vocab {
      assert Occurs(ts, y);
    }
    TransformCount(vocab, ts, s);
  }

  /** Adds x to each set of a list. */
  function AddToEach(x: Item, cs: seq<set<Item>>): (r: seq<set<Item>>)
    ensures |r| == |cs|
    ensures forall i :: 0 <= i < |cs| ==> r[i] == {x} + cs[i]
  {
    seq(|cs|, i requires 0 <= i < |cs| => {x} + cs[i])
  }

  lemma AddToEachMember(x: Item, cs: seq<set<Item>>, t: set<Item>)
    requires t in cs
    ensures {x} + t in AddToEach(x, cs)
  {
    var i :| 0 <= i < |cs| && cs[i] == t;
    assert AddToEach(x, cs)[i] == {x} + t;
  }

  /**
   * All k-element sets of columns, in lexicographic order of their column positions
   * (the order `itertools.combinations` yields them).
   */
  function Combos(columns: seq<Item>, k: nat): seq<set<Item>>
    decreases |columns|
  {
    if k == 0 then [{}]
    else if columns == [] then []
    else AddToEach(columns[0], Combos(columns[1..], k - 1)) + Combos(columns[1..], k)
  }

  lemma ElemsTail(columns: seq<Item>)
    requires columns != [] && Distinct(columns)
    ensures Elems(columns) == {columns[0]} + Elems(columns[1..])
    ensures columns[0] !in Elems(columns[1..])
    ensures Distinct(columns[1..])
  {
    assert columns == [columns[0]] + columns[1..];
  }

  /** One unfolding of the enumerator. */
  lemma CombosStep(columns: seq<Item>, k: nat)
    requires columns != [] && k > 0
    ensures Combos(columns, k) == AddToEach(columns[0], Combos(columns[1..], k - 1)) + Combos(columns[1..], k)
  {
  }

  /** Adding an element that is not there grows a set by one. */
  lemma AddCard(x: Item, t: set<Item>)
    requires x !in t
    ensures |{x} + t| == |t| + 1
  {
    assert {x} + t == t + {x};
  }

  /** Removing an element that is there shrinks a set by one. */
  lemma RemoveCard(x: Item, s: set<Item>)
    requires x in s
    ensures |s - {x}| == |s| - 1 && {x} + (s - {x}) == s
  {
    AddCard(x, s - {x});
    assert {x} + (s - {x}) == s;
  }

  /** Two duplicate-free lists with no common element concatenate to a duplicate-free list. */
  lemma ConcatDistinct<T>(a: seq<T>, b: seq<T>)
    requires Distinct(a) && Distinct(b)
    requires forall i, j :: 0 <= i < |a| && 0 <= j < |b| ==> a[i] != b[j]
    ensures Distinct(a + b)
  {
    var ab := a + b;
    forall i, j | 0 <= i < j < |ab| ensures ab[i] != ab[j] {
      if j < |a| {
        assert ab[i] == a[i] && ab[j] == a[j];
      } else if i >= |a| {
        assert ab[i] == b[i - |a|] && ab[j] == b[j - |a|];
      } else {
        assert ab[i] == a[i] && ab[j] == b[j - |a|];
      }
    }
  }

  /** Adding an element none of the sets holds keeps a duplicate-free list duplicate-free. */
  lemma AddToEachDistinct(x: Item, cs: seq<set<Item>>)
    requires Distinct(cs)
    requires forall i :: 0 <= i < |cs| ==> x !in cs[i]
    ensures Distinct(AddToEach(x, cs))
  {
    var r := AddToEach(x, cs);
    forall i, j | 0 <= i < j < |r| ensures r[i] != r[j] {
      assert r[i] - {x} == cs[i];
      assert r[j] - {x} == cs[j];
    }
  }

  /** A set of k - 1 later columns with the first column added is a set of k columns. */
  lemma HeadSound(columns: seq<Item>, k: nat, t: set<Item>)
    requires columns != [] && Distinct(columns) && k > 0
    requires t <= Elems(columns[1..]) && |t| == k - 1
    ensures {columns[0]} + t <= Elems(columns) && |{columns[0]} + t| == k
  {
    ElemsTail(columns);
    AddCard(columns[0], t);
  }

  /** Every set of the list is a k-element subset of u. */
  predicate SetsOf(cs: seq<set<Item>>, u: set<Item>, k: nat)
  {
    forall j :: 0 <= j < |cs| ==> cs[j] <= u && |cs[j]| == k
  }

  lemma ConcatSetsOf(a: seq<set<Item>>, b: seq<set<Item>>, u: set<Item>, k: nat)
    requires SetsOf(a, u, k) && SetsOf(b, u, k)
    ensures SetsOf(a + b, u, k)
  {
    var ab := a + b;
    forall j | 0 <= j < |ab| ensures ab[j] <= u && |ab[j]| == k {
      if j < |a| {
        assert ab[j] == a[j];
      } else {
        assert ab[j] == b[j - |a|];
      }
    }
  }

  lemma AddToEachSetsOf(x: Item, cs: seq<set<Item>>, u: set<Item>, v: set<Item>, k: nat)
    requires x !in u && SetsOf(cs, u, k) && x in v && u <= v
    ensures SetsOf(AddToEach(x, cs), v, k + 1)
  {
    var r := AddToEach(x, cs);
    forall j | 0 <= j < |r| ensures r[j] <= v && |r[j]| == k + 1 {
      AddCard(x, cs[j]);
    }
  }

  lemma WidenSetsOf(cs: seq<set<Item>>, u: set<Item>, v: set<Item>, k: nat)
    requires u <= v && SetsOf(cs, u, k)
    ensures SetsOf(cs, v, k)
  {
  }

  /** Every listed set is a set of k columns, stated position by position. */
  lemma {:induction false} CombosSoundAt(columns: seq<Item>, k: nat)
    requires Distinct(columns)
    ensures SetsOf(Combos(columns, k), Elems(columns), k)
    decreases |columns|
  {
    if k > 0 && columns != [] {
      var x, rest := columns[0], columns[1..];
      var lower, without := Combos(rest, k - 1), Combos(rest, k);
      CombosStep(columns, k);
      ElemsTail(columns);
      CombosSoundAt(rest, k - 1);
      CombosSoundAt(rest, k);
      SetsOfStep(x, lower, without, Elems(rest), Elems(columns), k);
    } else {
      CombosBase(columns, k);
    }
  }

  lemma CombosBase(columns: seq<Item>, k: nat)
    requires k == 0 || columns == []
    ensures SetsOf(Combos(columns, k), Elems(columns), k)
  {
    if k == 0 {
      assert Combos(columns, k) == [{}];
    } else {
      assert Combos(columns, k) == [];
    }
  }

  /** The sets with x added and the sets without it, from sets of the other columns, are sets of all columns. */
  lemma SetsOfStep(x: Item, lower: seq<set<Item>>, without: seq<set<Item>>, u: set<Item>, v: set<Item>, k: nat)
    requires k > 0 && x !in u && x in v && u <= v
    requires SetsOf(lower, u, k - 1) && SetsOf(without, u, k)
    ensures SetsOf(AddToEach(x, lower) + without, v, k)
  {
    AddToEachSetsOf(x, lower, u, v, k - 1);
    WidenSetsOf(without, u, v, k);
    ConcatSetsOf(AddToEach(x, lower), without, v, k);
  }

  /** Every listed set is a set of k columns. */
  lemma CombosSound(columns: seq<Item>, k: nat, s: set<Item>)
    requires Distinct(columns)
    requires s in Combos(columns, k)
    ensures s <= Elems(columns) && |s| == k
  {
    CombosSoundAt(columns, k);
  }

  /** Every set of k columns is listed. */
  lemma {:induction false} CombosComplete(columns: seq<Item>, k: nat, s: set<Item>)
    requires Distinct(columns)
    requires s <= Elems(columns) && |s| == k
    ensures s in Combos(columns, k)
    decreases |columns|
  {
    if k == 0 || columns == [] {
      assert s == {};
    } else {
      var x, rest := columns[0], columns[1..];
      ElemsTail(columns);
      CombosStep(columns, k);
      if x in s {
        var t := s - {x};
        RemoveCard(x, s);
        CombosComplete(rest, k - 1, t);
        AddToEachMember(x, Combos(rest, k - 1), t);
      } else {
        CombosComplete(rest, k, s);
      }
    }
  }

  /** The enumerator lists exactly the k-element sets of columns. */
  lemma CombosExact(columns: seq<Item>, k: nat, s: set<Item>)
    requires Distinct(columns)
    ensures s in Combos(columns, k) <==> s <= Elems(columns) && |s| == k
  {
    if s in Combos(columns, k) {
      CombosSound(columns, k, s);
    }
    if s <= Elems(columns) && |s| == k {
      CombosComplete(columns, k, s);
    }
  }

  /** A value that is not a column is in no listed set. */
  lemma CombosAvoid(columns: seq<Item>, k: nat, x: Item)
    requires Distinct(columns) && x !in Elems(columns)
    ensures forall i :: 0 <= i < |Combos(columns, k)| ==> x !in Combos(columns, k)[i]
  {
    CombosSoundAt(columns, k);
  }

  /** Sets with x added and sets without x, each list duplicate-free, share no set. */
  lemma AddToEachConcatDistinct(x: Item, lower: seq<set<Item>>, without: seq<set<Item>>)
    requires Distinct(lower) && Distinct(without)
    requires forall i :: 0 <= i < |lower| ==> x !in lower[i]
    requires forall j :: 0 <= j < |without| ==> x !in without[j]
    ensures Distinct(AddToEach(x, lower) + without)
  {
    var with := AddToEach(x, lower);
    AddToEachDistinct(x, lower);
    forall i, j | 0 <= i < |with| && 0 <= j < |without| ensures with[i] != without[j] {
      assert x in with[i];
    }
    ConcatDistinct(with, without);
  }

  /** No set is listed twice. */
  lemma {:induction false} CombosDistinct(columns: seq<Item>, k: nat)
    requires Distinct(columns)
    ensures Distinct(Combos(columns, k))
    decreases |columns|
  {
    if k > 0 && columns != [] {
      var x, rest := columns[0], columns[1..];
      ElemsTail(columns);
      CombosStep(columns, k);
      CombosDistinct(rest, k - 1);
      CombosDistinct(rest, k);
      CombosAvoid(rest, k - 1, x);
      CombosAvoid(rest, k, x);
      AddToEachConcatDistinct(x, Combos(rest, k - 1), Combos(rest, k));
    } else {
      assert Combos(columns, k) == if k == 0 then [{}] else [];
    }
  }

  /** All sets of one up to k columns: first the singletons, then the pairs, and so on. */
  function Levels(columns: seq<Item>, k: nat): seq<set<Item>>
  {
    if k == 0 then [] else Levels(columns, k - 1) + Combos(columns, k)
  }

  lemma {:induction false} LevelsExact(columns: seq<Item>, k: nat, s: set<Item>)
    requires Distinct(columns)
    ensures s in Levels(columns, k) <==> s <= Elems(columns) && 1 <= |s| <= k
  {
    if k > 0 {
      LevelsStep(columns, k);
      LevelsExact(columns, k - 1, s);
      CombosExact(columns, k, s);
      InConcat(s, Levels(columns, k - 1), Combos(columns, k));
      LevelBounds(s in Levels(columns, k), s in Levels(columns, k - 1), s in Combos(columns, k),
        s <= Elems(columns), |s|, k);
    }
  }

  lemma LevelBounds(inAll: bool, inLow: bool, inTop: bool, sub: bool, n: nat, k: nat)
    requires k > 0
    requires inAll <==> inLow || inTop
    requires inLow <==> sub && 1 <= n <= k - 1
    requires inTop <==> sub && n == k
    ensures inAll <==> sub && 1 <= n <= k
  {
  }

  /** One unfolding of the levels. */
  lemma LevelsStep(columns: seq<Item>, k: nat)
    requires k > 0
    ensures Levels(columns, k) == Levels(columns, k - 1) + Combos(columns, k)
  {
  }

  lemma InConcat<T>(x: T, a: seq<T>, b: seq<T>)
    ensures x in a + b <==> x in a || x in b
  {
  }

  /** Every set listed at level k has k elements. */
  lemma CombosSizes(columns: seq<Item>, k: nat)
    requires Distinct(columns)
    ensures forall j :: 0 <= j < |Combos(columns, k)| ==> |Combos(columns, k)[j]| == k
  {
    var top := Combos(columns, k);
    forall j | 0 <= j < |top| ensures |top[j]| == k {
      CombosSound(columns, k, top[j]);
    }
  }

  /** Every set listed up to level k has fewer than k + 1 elements. */
  lemma LevelsSizes(columns: seq<Item>, k: nat)
    requires Distinct(columns)
    ensures forall i :: 0 <= i < |Levels(columns, k)| ==> |Levels(columns, k)[i]| <= k
  {
    var low := Levels(columns, k);
    forall i | 0 <= i < |low| ensures |low[i]| <= k {
      LevelsExact(columns, k, low[i]);
    }
  }

  lemma {:induction false} LevelsDistinct(columns: seq<Item>, k: nat)
    requires Distinct(columns)
    ensures Distinct(Levels(columns, k))
  {
    if k > 0 {
      LevelsStep(columns, k);
      LevelsDistinct(columns, k - 1);
      CombosDistinct(columns, k);
      LevelsSizes(columns, k - 1);
      CombosSizes(columns, k);
      SizesApartDistinct(Levels(columns, k - 1), Combos(columns, k), k);
    }
  }

  /** Smaller sets followed by k-element sets, each list duplicate-free, have no repeat. */
  lemma SizesApartDistinct(low: seq<set<Item>>, top: seq<set<Item>>, k: nat)
    requires Distinct(low) && Distinct(top)
    requires forall i :: 0 <= i < |low| ==> |low[i]| < k
    requires forall j :: 0 <= j < |top| ==> |top[j]| == k
    ensures Distinct(low + top)
  {
    ConcatDistinct(low, top);
  }

  /** One row of apriori's result: the itemset and its support. */
  datatype Itemset = Itemset(items: set<Item>, support: real)

  /** Keeps the candidates whose support reaches the threshold, paired with that support. */
  function KeepFrequent(f: Frame, candidates: seq<set<Item>>): (r: seq<Itemset>)
    ensures forall e :: e in r <==> e.items in candidates && e.support == Support(f, e.items) && e.support >= MinSupport
  {
    if candidates == [] then []
    else
      var c := candidates[0];
      var rest := KeepFrequent(f, candidates[1..]);
      assert forall e: Itemset :: e.items in candidates <==> e.items == c || e.items in candidates[1..];
      if Support(f, c) >= MinSupport then [Itemset(c, Support(f, c))] + rest else rest
  }

  lemma {:induction false} KeepFrequentDistinct(f: Frame, candidates: seq<set<Item>>)
    requires Distinct(candidates)
    ensures Distinct(KeepFrequent(f, candidates))
  {
    if candidates != [] {
      var rest := KeepFrequent(f, candidates[1..]);
      assert Distinct(candidates[1..]);
      KeepFrequentDistinct(f, candidates[1..]);
      forall e | e in rest ensures e.items != candidates[0] {
        assert e.items in candidates[1..];
      }
    }
  }

  /** What makes an itemset frequent in the script's apriori call. */
  predicate IsFrequent(f: Frame, s: set<Item>)
  {
    s <= Elems(f.columns) && 1 <= |s| <= MaxLen && Support(f, s) >= MinSupport
  }

  /** The frequent itemsets with their supports, singletons first, then pairs, then triples. */
  function FrequentItemsets(f: Frame): seq<Itemset>
  {
    KeepFrequent(f, Levels(f.columns, MaxLen))
  }

  /**
   * Exactly the frequent itemsets are listed, each with its support and each once:
   * every listed itemset has one to three columns and support at least 0.001, and
   * every such itemset is listed.
   */
  lemma FrequentItemsetsExact(f: Frame)
    requires WellFormed(f)
    ensures forall e :: e in FrequentItemsets(f) <==> IsFrequent(f, e.items) && e.support == Support(f, e.items)
    ensures Distinct(FrequentItemsets(f))
  {
    forall e ensures e in FrequentItemsets(f) <==> IsFrequent(f, e.items) && e.support == Support(f, e.items) {
      LevelsExact(f.columns, MaxLen, e.items);
    }
    LevelsDistinct(f.columns, MaxLen);
    KeepFrequentDistinct(f, Levels(f.columns, MaxLen));
  }

  /**
   * The table is empty exactly when no single column reaches the threshold: with no
   * orders, with only NULL orders, or when every product is in fewer than 0.1% of them.
   */
  lemma NoFrequentItemsets(f: Frame)
    requires WellFormed(f)
    ensures FrequentItemsets(f) == [] <==> forall x :: x in f.columns ==> Support(f, {x}) < MinSupport
  {
    FrequentItemsetsExact(f);
    if FrequentItemsets(f) != [] {
      var e := FrequentItemsets(f)[0];
      assert e in FrequentItemsets(f);
      var x :| x in e.items;
      FrequentSubset(f, e.items, {x});
      assert x in Elems(f.columns);
    }
    forall x | x in f.columns && Support(f, {x}) >= MinSupport ensures FrequentItemsets(f) != [] {
      assert IsFrequent(f, {x});
      assert Itemset({x}, Support(f, {x})) in FrequentItemsets(f);
    }
  }

  /** Every non-empty subset of a frequent itemset is itself frequent. */
  lemma FrequentSubset(f: Frame, s: set<Item>, a: set<Item>)
    requires IsFrequent(f, s)
    requires a <= s && a != {}
    ensures IsFrequent(f, a)
  {
    SupportAntiMonotone(f, a, s);
    assert |a| <= |s| by {
      SubsetCardinality(a, s);
    }
    NonEmptyCardinality(a);
  }

  lemma SubsetCardinality(a: set<Item>, b: set<Item>)
    requires a <= b
    ensures |a| <= |b|
  {
    assert b == a + (b - a);
  }

  lemma StrictSubsetCardinality(a: set<Item>, b: set<Item>)
    requires a <= b && a != b
    ensures |a| < |b|
  {
    assert b == a + (b - a);
    assert b - a != {};
    var x :| x in b - a;
    SubsetCardinality(a, b - {x});
  }

  lemma NonEmptyCardinality(a: set<Item>)
    requires a != {}
    ensures |a| >= 1
  {
    var x :| x in a;
    SubsetCardinality({x}, a);
  }
}
