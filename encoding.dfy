/**
 * The transaction encoder: fitting the vocabulary of distinct products, one-hot
 * encoding the orders over it, and the column means that the script uses as support.
 *
 * The encoder sorts its vocabulary with Python's ordering of strings, so the
 * columns come out in lexicographic order of code points.
 */
module Encoding {
  import opened Orders

  /** Python's `<` on str: code point by code point, a proper prefix first. */
  predicate StrLess(a: string, b: string)
    decreases |a|
  {
    if a == [] then b != []
    else if b == [] then false
    else if a[0] != b[0] then a[0] < b[0]
    else StrLess(a[1..], b[1..])
  }

  lemma {:induction false} StrLessIrreflexive(a: string)
    ensures !StrLess(a, a)
    decreases |a|
  {
    if a != [] {
      StrLessIrreflexive(a[1..]);
    }
  }

  lemma {:induction false} StrLessTransitive(a: string, b: string, c: string)
    requires StrLess(a, b) && StrLess(b, c)
    ensures StrLess(a, c)
    decreases |a|
  {
    if a != [] && a[0] == b[0] && b[0] == c[0] {
      StrLessTransitive(a[1..], b[1..], c[1..]);
    }
  }

  lemma {:induction false} StrLessTotal(a: string, b: string)
    ensures a == b || StrLess(a, b) || StrLess(b, a)
    decreases |a|
  {
    if a != [] && b != [] && a[0] == b[0] {
      StrLessTotal(a[1..], b[1..]);
      if a[1..] == b[1..] {
        assert a == [a[0]] + a[1..] && b == [b[0]] + b[1..];
      }
    }
  }

  lemma {:induction false} StrLessAsymmetric(a: string, b: string)
    requires StrLess(a, b)
    ensures !StrLess(b, a)
    decreases |a|
  {
    if b != [] && a != [] && a[0] == b[0] {
      StrLessAsymmetric(a[1..], b[1..]);
    }
  }

  /** Strictly increasing, hence without repetitions. */
  predicate Sorted(v: seq<Item>)
  {
    forall i, j :: 0 <= i < j < |v| ==> StrLess(v[i], v[j])
  }

  predicate Distinct<T(==)>(v: seq<T>)
  {
    forall i, j :: 0 <= i < j < |v| ==> v[i] != v[j]
  }

  lemma SortedDistinct(v: seq<Item>)
    requires Sorted(v)
    ensures Distinct(v)
  {
    forall i, j | 0 <= i < j < |v| ensures v[i] != v[j] {
      if v[i] == v[j] {
        StrLessIrreflexive(v[i]);
      }
    }
  }

  /** Two sorted sequences with the same elements are the same sequence. */
  lemma {:induction false} SortedUnique(a: seq<Item>, b: seq<Item>)
    requires Sorted(a) && Sorted(b)
    requires forall y :: y in a <==> y in b
    ensures a == b
    decreases |a|
  {
    if a == [] {
      assert forall k :: 0 <= k < |b| ==> b[k] in a;
    } else {
      assert a[0] in a;
      assert b != [];
      assert b[0] in b;
      if a[0] != b[0] {
        var k :| 0 <= k < |b| && b[k] == a[0];
        var m :| 0 <= m < |a| && a[m] == b[0];
        assert StrLess(b[0], a[0]);
        assert StrLess(a[0], b[0]);
        StrLessAsymmetric(a[0], b[0]);
      }
      SortedDistinct(a);
      SortedDistinct(b);
      forall y ensures y in a[1..] <==> y in b[1..] {
        if y in a[1..] {
          var m :| 1 <= m < |a| && a[m] == y;
          assert y != a[0];
          assert y in a;
        }
        if y in b[1..] {
          var k :| 1 <= k < |b| && b[k] == y;
          assert y != b[0];
          assert y in b;
        }
      }
      SortedUnique(a[1..], b[1..]);
      assert a == [a[0]] + a[1..] && b == [b[0]] + b[1..];
    }
  }

  /** Adds one item to a sorted vocabulary (no change when it is already there). */
  function Insert(v: seq<Item>, x: Item): (r: seq<Item>)
    requires Sorted(v)
    ensures Sorted(r)
    ensures forall y :: y in r <==> y in v || y == x
    decreases |v|
  {
    if v == [] then [x]
    else if x == v[0] then v
    else if StrLess(x, v[0]) then
      assert Sorted([x] + v) by {
        forall j | 0 <= j < |v| ensures StrLess(x, v[j]) {
          if j > 0 {
            StrLessTransitive(x, v[0], v[j]);
          }
        }
      }
      [x] + v
    else
      assert StrLess(v[0], x) by {
        StrLessTotal(x, v[0]);
      }
      var rest := Insert(v[1..], x);
      assert Sorted([v[0]] + rest) by {
        forall j | 0 <= j < |rest| ensures StrLess(v[0], rest[j]) {
          assert rest[j] in rest;
          if rest[j] != x {
            var k :| 0 <= k < |v[1..]| && v[1..][k] == rest[j];
            assert rest[j] == v[k + 1];
          }
        }
      }
      assert v == [v[0]] + v[1..];
      [v[0]] + rest
  }

  /** Adds the items of one transaction. */
  function AddAll(v: seq<Item>, t: seq<Item>): (r: seq<Item>)
    requires Sorted(v)
    ensures Sorted(r)
    ensures forall y :: y in r <==> y in v || y in t
    decreases |t|
  {
    if t == [] then v else AddAll(Insert(v, t[0]), t[1..])
  }

  /** Item y occurs in some transaction. */
  predicate Occurs(ts: seq<seq<Item>>, y: Item)
  {
    exists r :: 0 <= r < |ts| && y in ts[r]
  }

  /**
   * `TransactionEncoder().fit(ts).columns_`: every item that occurs in some
   * transaction, each once, in sorted order.
   */
  function Fit(ts: seq<seq<Item>>): (vocab: seq<Item>)
    ensures Sorted(vocab)
    ensures forall y :: y in vocab <==> Occurs(ts, y)
    decreases |ts|
  {
    if ts == [] then []
    else
      var v := AddAll(Fit(ts[1..]), ts[0]);
      assert forall y :: y in v <==> Occurs(ts, y) by {
        forall y ensures y in v <==> Occurs(ts, y) {
          if Occurs(ts[1..], y) {
            var r :| 0 <= r < |ts[1..]| && y in ts[1..][r];
            assert y in ts[r + 1];
          }
          if Occurs(ts, y) && y !in ts[0] {
            var r :| 0 <= r < |ts| && y in ts[r];
            assert y in ts[1..][r - 1];
          }
        }
      }
      v
  }

  /** The membership matrix handed to the miner: named boolean columns, one row per order. */
  datatype Frame = Frame(columns: seq<Item>, rows: seq<seq<bool>>)

  /** Distinct column names and every row as wide as the header. */
  predicate WellFormed(f: Frame)
  {
    && Distinct(f.columns)
    && forall r :: 0 <= r < |f.rows| ==> |f.rows[r]| == |f.columns|
  }

  /** `encoder.transform(ts)` over a fitted vocabulary. */
  function Transform(vocab: seq<Item>, ts: seq<seq<Item>>): (rows: seq<seq<bool>>)
    ensures |rows| == |ts|
    ensures forall r :: 0 <= r < |ts| ==> |rows[r]| == |vocab|
    ensures forall r, i :: 0 <= r < |ts| && 0 <= i < |vocab| ==> (rows[r][i] <==> vocab[i] in ts[r])
  {
    seq(|ts|, r requires 0 <= r < |ts| => seq(|vocab|, i requires 0 <= i < |vocab| => vocab[i] in ts[r]))
  }

  /** Fit and transform on the same transactions, as the one-hot DataFrame. */
  function Encode(ts: seq<seq<Item>>): (f: Frame)
    ensures WellFormed(f)
    ensures Sorted(f.columns)
    ensures forall y :: y in f.columns <==> Occurs(ts, y)
    ensures |f.rows| == |ts|
    ensures forall r, i :: 0 <= r < |ts| && 0 <= i < |f.columns| ==> (f.rows[r][i] <==> f.columns[i] in ts[r])
  {
    var vocab := Fit(ts);
    SortedDistinct(vocab);
    Frame(vocab, Transform(vocab, ts))
  }

  /** The products a row marks present: the columns whose cell is true. */
  function ItemsOf(columns: seq<Item>, row: seq<bool>): set<Item>
  {
    set i | 0 <= i < |columns| && i < |row| && row[i] :: columns[i]
  }

  /** Each encoded row holds exactly the products of its order, so a repeated product makes no difference. */
  lemma EncodedRowItems(ts: seq<seq<Item>>, r: nat)
    requires r < |ts|
    ensures r < |Encode(ts).rows|
    ensures forall y :: y in ItemsOf(Encode(ts).columns, Encode(ts).rows[r]) <==> y in ts[r]
  {
    TransformRowItems(Fit(ts), ts, r);
  }

  /** Over a vocabulary that covers the transactions, a transformed row holds exactly its transaction's items. */
  lemma TransformRowItems(vocab: seq<Item>, ts: seq<seq<Item>>, r: nat)
    requires r < |ts|
    requires forall y :: y in ts[r] ==> y in vocab
    ensures forall y :: y in ItemsOf(vocab, Transform(vocab, ts)[r]) <==> y in ts[r]
  {
    forall y | y in ts[r] ensures y in ItemsOf(vocab, Transform(vocab, ts)[r]) {
      var i :| 0 <= i < |vocab| && vocab[i] == y;
    }
  }

  /** A NULL order (the empty transaction) gives an all-false row. */
  lemma EmptyOrderRow(ts: seq<seq<Item>>, r: nat)
    requires r < |ts| && ts[r] == []
    ensures forall i :: 0 <= i < |Encode(ts).columns| ==> !Encode(ts).rows[r][i]
  {
  }

  /**
   * The encoding depends only on which products each order holds: reordering or
   * repeating products within orders leaves the frame unchanged.
   */
  lemma EncodeIgnoresMultiplicity(ts: seq<seq<Item>>, us: seq<seq<Item>>)
    requires |ts| == |us|
    requires forall r, y :: 0 <= r < |ts| ==> (y in ts[r] <==> y in us[r])
    ensures Encode(ts) == Encode(us)
  {
    var a, b := Encode(ts).columns, Encode(us).columns;
    forall y ensures y in a <==> y in b {
      if Occurs(ts, y) {
        var r :| 0 <= r < |ts| && y in ts[r];
        assert y in us[r];
      }
      if Occurs(us, y) {
        var r :| 0 <= r < |us| && y in us[r];
        assert y in ts[r];
      }
    }
    SortedUnique(a, b);
    var rt, ru := Transform(a, ts), Transform(a, us);
    forall r | 0 <= r < |ts| ensures rt[r] == ru[r] {
      assert |rt[r]| == |ru[r]|;
      forall i | 0 <= i < |a| ensures rt[r][i] == ru[r][i] {
        assert a[i] in ts[r] <==> a[i] in us[r];
      }
    }
    assert rt == ru;
  }

  /** A product repeated within one order gives the same frame as a single occurrence. */
  lemma RepeatedProduct(ts: seq<seq<Item>>, r: nat, x: Item)
    requires r < |ts| && x in ts[r]
    ensures Encode(ts[r := ts[r] + [x]]) == Encode(ts)
  {
    EncodeIgnoresMultiplicity(ts[r := ts[r] + [x]], ts);
  }

  /** The number of rows whose cell in column i is true. */
  function ColumnCount(rows: seq<seq<bool>>, i: nat): (n: nat)
    ensures n <= |rows|
  {
    if rows == [] then 0
    else (if i < |rows[0]| && rows[0][i] then 1 else 0) + ColumnCount(rows[1..], i)
  }

  /** The number of transactions that contain item y. */
  function CountContaining(ts: seq<seq<Item>>, y: Item): (n: nat)
    ensures n <= |ts|
  {
    if ts == [] then 0
    else (if y in ts[0] then 1 else 0) + CountContaining(ts[1..], y)
  }

  lemma {:induction false} CountContainingPositive(ts: seq<seq<Item>>, y: Item)
    requires Occurs(ts, y)
    ensures CountContaining(ts, y) >= 1
    decreases |ts|
  {
    if y !in ts[0] {
      var r :| 0 <= r < |ts| && y in ts[r];
      assert y in ts[1..][r - 1];
      CountContainingPositive(ts[1..], y);
    }
  }

  lemma {:induction false} TransformColumnCount(vocab: seq<Item>, ts: seq<seq<Item>>, i: nat)
    requires i < |vocab|
    ensures ColumnCount(Transform(vocab, ts), i) == CountContaining(ts, vocab[i])
    decreases |ts|
  {
    if ts != [] {
      assert Transform(vocab, ts)[1..] == Transform(vocab, ts[1..]);
      TransformColumnCount(vocab, ts[1..], i);
    }
  }

  /** `onehot.mean()` for column i, as an exact ratio; a frame with no rows has no mean to speak of and gives 0. */
  function ColumnMean(f: Frame, i: nat): real
  {
    if |f.rows| == 0 then 0.0 else ColumnCount(f.rows, i) as real / |f.rows| as real
  }

  /**
   * The support of vocabulary item i is the number of orders containing it over the
   * number of orders, which lies in (0, 1].
   */
  lemma ItemSupport(ts: seq<seq<Item>>, i: nat)
    requires i < |Encode(ts).columns|
    ensures |ts| > 0
    ensures ColumnMean(Encode(ts), i) == CountContaining(ts, Encode(ts).columns[i]) as real / |ts| as real
    ensures 0.0 < ColumnMean(Encode(ts), i) <= 1.0
  {
    var f := Encode(ts);
    var y := f.columns[i];
    assert Occurs(ts, y) by {
      assert y in f.columns;
    }
    CountContainingPositive(ts, y);
    TransformColumnCount(f.columns, ts, i);
    RatioInUnit(CountContaining(ts, y), |ts|);
  }

  /** A count of at least one out of n lies in (0, 1]. */
  lemma RatioInUnit(c: nat, n: nat)
    requires 1 <= c <= n
    ensures 0.0 < c as real / n as real <= 1.0
  {
    assert c as real / n as real * n as real == c as real;
  }
}
