/**
 * The multi-window support table: per window, the support of every product (the
 * column means of that window's one-hot frame), then the all-time table left-joined
 * on `product` with the 30, 90, 180, 365 and 730 day tables, each join suffixing the
 * clashing `support` column of the right table, and finally `support` renamed to
 * `support_all`.
 */
module SupportAnalysis {
  import opened Results
  import opened Orders
  import opened Encoding
  import opened Columns

  /** One row of a support table: the `product` key and the value columns (None is NaN). */
  datatype Row = Row(product: Item, values: seq<Option<real>>)

  /** A table keyed by `product`; `columns` names the value columns, in order. */
  datatype Table = Table(columns: seq<string>, rows: seq<Row>)

  /** A window table and the suffix its `support` column gets in the join. */
  datatype Window = Window(suffix: string, table: Table)

  /** `onehot.mean().reset_index()` with its columns set to product, support. */
  function WindowTable(f: Frame): (t: Table)
    ensures t.columns == ["support"]
    ensures |t.rows| == |f.columns|
    ensures forall i :: 0 <= i < |f.columns| ==> t.rows[i] == Row(f.columns[i], [Some(ColumnMean(f, i))])
  {
    Table(["support"], seq(|f.columns|, i requires 0 <= i < |f.columns| => Row(f.columns[i], [Some(ColumnMean(f, i))])))
  }

  /** One window's support table, from that window's order values. */
  function WindowSupport(orders: seq<OrderValue>): Table
  {
    WindowTable(Encode(Transactions(orders)))
  }

  /** No two rows share a key. */
  predicate UniqueKeys(rows: seq<Row>)
  {
    forall i, j :: 0 <= i < j < |rows| ==> rows[i].product != rows[j].product
  }

  /** The first row with the given key. */
  function Find(rows: seq<Row>, key: Item): (r: Option<Row>)
    ensures r.Some? ==> r.value in rows && r.value.product == key
    ensures r.None? ==> forall m :: m in rows ==> m.product != key
  {
    if rows == [] then None
    else if rows[0].product == key then Some(rows[0])
    else Find(rows[1..], key)
  }

  /** The rows with the given key, in table order. */
  function Matches(rows: seq<Row>, key: Item): (r: seq<Row>)
    ensures forall m :: m in r ==> m in rows && m.product == key
  {
    if rows == [] then []
    else if rows[0].product == key then [rows[0]] + Matches(rows[1..], key)
    else Matches(rows[1..], key)
  }

  /** With unique keys, the matches are the one found row or nothing. */
  lemma {:induction false} MatchesUnique(rows: seq<Row>, key: Item)
    requires UniqueKeys(rows)
    ensures Matches(rows, key) == match Find(rows, key) case None => [] case Some(m) => [m]
  {
    if rows != [] {
      MatchesUnique(rows[1..], key);
      if rows[0].product == key {
        assert Find(rows[1..], key).None? by {
          forall m | m in rows[1..] ensures m.product != key {
            var j :| 0 <= j < |rows[1..]| && rows[1..][j] == m;
            assert rows[j + 1] == m;
          }
        }
      }
    }
  }

  /** n missing values. */
  function Nones(n: nat): (r: seq<Option<real>>)
    ensures |r| == n
    ensures forall i :: 0 <= i < n ==> r[i] == None
  {
    seq(n, i => None)
  }

  /** One left row joined with its matches; without a match it is kept with missing values. */
  function JoinRow(l: Row, ms: seq<Row>, width: nat): seq<Row>
  {
    if ms == [] then [Row(l.product, l.values + Nones(width))]
    else seq(|ms|, k requires 0 <= k < |ms| => Row(l.product, l.values + ms[k].values))
  }

  /** The rows of a left join, in the order of the left rows. */
  function JoinRows(left: seq<Row>, right: seq<Row>, width: nat): seq<Row>
  {
    if left == [] then []
    else JoinRow(left[0], Matches(right, left[0].product), width) + JoinRows(left[1..], right, width)
  }

  /** The value columns a table contributes, suffixed where the other table has the same name. */
  function Suffixed(columns: seq<string>, other: seq<string>, suffix: string): (r: seq<string>)
    ensures |r| == |columns|
    ensures forall i :: 0 <= i < |columns| ==> r[i] == (if columns[i] in other then columns[i] + suffix else columns[i])
  {
    seq(|columns|, i requires 0 <= i < |columns| => if columns[i] in other then columns[i] + suffix else columns[i])
  }

  /** `left.merge(right, on = 'product', how = 'left', suffixes = (leftSuffix, rightSuffix))`. */
  function LeftMerge(left: Table, right: Table, leftSuffix: string, rightSuffix: string): Table
  {
    Table(
      Suffixed(left.columns, right.columns, leftSuffix) + Suffixed(right.columns, left.columns, rightSuffix),
      JoinRows(left.rows, right.rows, |right.columns|))
  }

  /** `rename(columns = {from: to})` on a table. */
  function Rename(t: Table, from: string, to: string): Table
  {
    Table(Renamed(t.columns, from, to), t.rows)
  }

  /** The values a left row gets from the right table: the matching row's values, or all missing. */
  function CellsFor(right: Table, key: Item): seq<Option<real>>
  {
    match Find(right.rows, key)
    case None => Nones(|right.columns|)
    case Some(m) => m.values
  }

  /**
   * Against a right table with unique keys the left join neither adds nor drops rows:
   * row i keeps its key and its values and gains the right table's values for that key.
   */
  lemma {:induction false} LeftMergeRows(left: seq<Row>, right: Table)
    requires UniqueKeys(right.rows)
    ensures |JoinRows(left, right.rows, |right.columns|)| == |left|
    ensures forall i :: 0 <= i < |left| ==>
      JoinRows(left, right.rows, |right.columns|)[i] == Row(left[i].product, left[i].values + CellsFor(right, left[i].product))
  {
    if left != [] {
      MatchesUnique(right.rows, left[0].product);
      LeftMergeRows(left[1..], right);
    }
  }

  /** A window table: one value column, unique keys, one value per row. */
  predicate WindowShaped(t: Table)
  {
    |t.columns| == 1 && UniqueKeys(t.rows) && forall m :: m in t.rows ==> |m.values| == 1
  }

  /** The window's value for a key, or None when the key is not in the window. */
  function Value(t: Table, key: Item): Option<real>
  {
    match Find(t.rows, key)
    case None => None
    case Some(m) => if |m.values| == 0 then None else m.values[0]
  }

  /** The successive merges, as a fold over the window list from its first element. */
  function MergeWindows(base: Table, windows: seq<Window>): Table
  {
    if windows == [] then base
    else
      var last := windows[|windows| - 1];
      LeftMerge(MergeWindows(base, windows[..|windows| - 1]), last.table, "", last.suffix)
  }

  /** The merged table after the rename. */
  function SupportFrame(all: Table, windows: seq<Window>): Table
  {
    Rename(MergeWindows(all, windows), "support", "support_all")
  }

  /** The value every window has for a key, in window order. */
  function WindowValues(windows: seq<Window>, key: Item): (r: seq<Option<real>>)
    ensures |r| == |windows|
    ensures forall j :: 0 <= j < |windows| ==> r[j] == Value(windows[j].table, key)
  {
    if windows == [] then []
    else WindowValues(windows[..|windows| - 1], key) + [Value(windows[|windows| - 1].table, key)]
  }

  /** Against a window table, a left row gains exactly the window's value for its key. */
  lemma CellsForWindow(t: Table, key: Item)
    requires WindowShaped(t)
    ensures CellsFor(t, key) == [Value(t, key)]
  {
    match Find(t.rows, key)
    case None =>
    case Some(m) =>
      assert |m.values| == 1;
  }

  /**
   * The fold keeps the base rows, in order, with their own values, and appends to
   * each the value every window has for its key (None where the window lacks it).
   */
  lemma {:induction false} MergeWindowsRows(base: Table, windows: seq<Window>)
    requires forall j :: 0 <= j < |windows| ==> WindowShaped(windows[j].table)
    ensures |MergeWindows(base, windows).rows| == |base.rows|
    ensures forall i :: 0 <= i < |base.rows| ==>
      MergeWindows(base, windows).rows[i] ==
        Row(base.rows[i].product, base.rows[i].values + WindowValues(windows, base.rows[i].product))
    decreases |windows|
  {
    if windows != [] {
      var n := |windows| - 1;
      var front, last := windows[..n], windows[n].table;
      MergeWindowsRows(base, front);
      var acc := MergeWindows(base, front);
      LeftMergeRows(acc.rows, last);
      forall i | 0 <= i < |base.rows|
        ensures MergeWindows(base, windows).rows[i] ==
          Row(base.rows[i].product, base.rows[i].values + WindowValues(windows, base.rows[i].product))
      {
        var key := base.rows[i].product;
        CellsForWindow(last, key);
        calc {
          MergeWindows(base, windows).rows[i];
          Row(key, acc.rows[i].values + CellsFor(last, key));
          Row(key, (base.rows[i].values + WindowValues(front, key)) + [Value(last, key)]);
          Row(key, base.rows[i].values + WindowValues(windows, key));
        }
      }
    }
  }

  /** The names the windows' `support` columns get, in window order. */
  function SuffixedNames(windows: seq<Window>): (r: seq<string>)
    ensures |r| == |windows|
    ensures forall j :: 0 <= j < |windows| ==> r[j] == "support" + windows[j].suffix
  {
    if windows == [] then []
    else SuffixedNames(windows[..|windows| - 1]) + ["support" + windows[|windows| - 1].suffix]
  }

  /** The empty left suffix leaves the left columns as they are. */
  lemma SuffixedEmpty(columns: seq<string>, other: seq<string>)
    ensures Suffixed(columns, other, "") == columns
  {
    forall i | 0 <= i < |columns| ensures columns[i] + "" == columns[i] {
      assert columns[i] + [] == columns[i];
    }
  }

  /**
   * With the all-time table's single `support` column, the value columns are `support`
   * followed by `support` plus each window's suffix.
   */
  lemma {:induction false} MergeWindowsColumns(base: Table, windows: seq<Window>)
    requires base.columns == ["support"]
    requires forall j :: 0 <= j < |windows| ==> windows[j].table.columns == ["support"]
    ensures MergeWindows(base, windows).columns == ["support"] + SuffixedNames(windows)
    decreases |windows|
  {
    if windows != [] {
      var n := |windows| - 1;
      var front, last := windows[..n], windows[n];
      assert forall j :: 0 <= j < |front| ==> front[j] == windows[j];
      MergeWindowsColumns(base, front);
      var acc := MergeWindows(base, front);
      MergeStepColumns(acc, last, SuffixedNames(front));
      assert SuffixedNames(windows) == SuffixedNames(front) + ["support" + last.suffix];
    }
  }

  /** One merge adds the window's suffixed `support` column after the columns so far. */
  lemma MergeStepColumns(acc: Table, last: Window, names: seq<string>)
    requires acc.columns == ["support"] + names
    requires last.table.columns == ["support"]
    ensures LeftMerge(acc, last.table, "", last.suffix).columns == ["support"] + names + ["support" + last.suffix]
  {
    assert acc.columns[0] == "support";
    SuffixedEmpty(acc.columns, ["support"]);
    assert Suffixed(["support"], acc.columns, last.suffix) == ["support" + last.suffix];
  }

  /** A well-formed frame gives a window table: its columns are distinct, so its keys are unique. */
  lemma WindowTableShaped(f: Frame)
    requires WellFormed(f)
    ensures WindowShaped(WindowTable(f))
  {
    var t := WindowTable(f);
    forall m | m in t.rows ensures |m.values| == 1 {
      var i :| 0 <= i < |t.rows| && t.rows[i] == m;
    }
  }

  /**
   * The support a product has among a window's orders, defined from the orders alone:
   * the fraction of orders listing it, or missing when no order does.
   */
  function SupportIn(orders: seq<OrderValue>, key: Item): (r: Option<real>)
    ensures r.Some? <==> Occurs(Transactions(orders), key)
    ensures r.Some? ==> 0.0 < r.value <= 1.0
  {
    var ts := Transactions(orders);
    if Occurs(ts, key) then
      CountContainingPositive(ts, key);
      RatioInUnit(CountContaining(ts, key), |ts|);
      Some(CountContaining(ts, key) as real / |ts| as real)
    else None
  }

  /** A key of a row of a table with unique keys is found at that row. */
  lemma FindAt(rows: seq<Row>, i: nat)
    requires UniqueKeys(rows) && i < |rows|
    ensures Find(rows, rows[i].product) == Some(rows[i])
  {
    var r := Find(rows, rows[i].product);
    var j :| 0 <= j < |rows| && rows[j] == r.value;
    assert !(j < i || i < j);
  }

  /**
   * Looking a product up in a window's support table gives that window's support for
   * it when some order of the window lists it, and a missing value otherwise.
   */
  lemma WindowSupportValue(orders: seq<OrderValue>, key: Item)
    ensures WindowShaped(WindowSupport(orders))
    ensures Value(WindowSupport(orders), key) == SupportIn(orders, key)
  {
    var ts := Transactions(orders);
    var f := Encode(ts);
    var t := WindowTable(f);
    WindowTableShaped(f);
    if key in f.columns {
      var i :| 0 <= i < |f.columns| && f.columns[i] == key;
      FindAt(t.rows, i);
      ItemSupport(ts, i);
    } else {
      assert Find(t.rows, key).None? by {
        forall m | m in t.rows ensures m.product != key {
          var i :| 0 <= i < |t.rows| && t.rows[i] == m;
        }
      }
    }
  }

  /** Two order values list the same products, in whatever order and multiplicity. */
  ghost predicate SameProducts(u: OrderValue, v: OrderValue)
  {
    forall y :: y in Tokenise(u) <==> y in Tokenise(v)
  }

  /**
   * A windowed query only adds a date filter, so each order it returns is an order of
   * the whole history, though the aggregated product string may list the products in
   * another order. Then every product with a support in the window has a row in the
   * all-time table, and the left join drops no window value.
   */
  lemma WindowWithinAll(all: seq<OrderValue>, window: seq<OrderValue>, key: Item)
    requires forall v :: v in window ==> exists u :: u in all && SameProducts(u, v)
    requires SupportIn(window, key).Some?
    ensures SupportIn(all, key).Some?
    ensures exists i :: 0 <= i < |WindowSupport(all).rows| && WindowSupport(all).rows[i].product == key
  {
    var ws, ts := Transactions(window), Transactions(all);
    assert Occurs(ws, key);
    var r :| 0 <= r < |ws| && key in ws[r];
    assert window[r] in window;
    var u :| u in all && SameProducts(u, window[r]);
    var k :| 0 <= k < |all| && all[k] == u;
    assert key in ts[k];
    assert Occurs(ts, key);
    var f := Encode(ts);
    assert key in f.columns;
    var i :| 0 <= i < |f.columns| && f.columns[i] == key;
    assert WindowSupport(all).rows[i].product == key;
  }

  /** A product's support in each of a list of windows, in window order. */
  function SupportsIn(orders: seq<seq<OrderValue>>, key: Item): (r: seq<Option<real>>)
    ensures |r| == |orders|
    ensures forall j :: 0 <= j < |orders| ==> r[j] == SupportIn(orders[j], key)
  {
    seq(|orders|, j requires 0 <= j < |orders| => SupportIn(orders[j], key))
  }

  /** Looking a product up in every window table gives its support in every window. */
  lemma WindowValuesOfOrders(orders: seq<seq<OrderValue>>, ws: seq<Window>, key: Item)
    requires |ws| == |orders|
    requires forall j :: 0 <= j < |ws| ==> ws[j].table == WindowSupport(orders[j])
    ensures WindowValues(ws, key) == SupportsIn(orders, key)
  {
    forall j | 0 <= j < |ws| ensures WindowValues(ws, key)[j] == SupportsIn(orders, key)[j] {
      WindowSupportValue(orders[j], key);
    }
  }

  /**
   * The merged and renamed table over window tables built from order lists: one row
   * per all-time vocabulary item, in order, holding its all-time support followed by
   * its support in each window.
   */
  lemma SupportFrameRows(all: seq<OrderValue>, orders: seq<seq<OrderValue>>, ws: seq<Window>)
    requires |ws| == |orders|
    requires forall j :: 0 <= j < |ws| ==> ws[j].table == WindowSupport(orders[j])
    ensures |SupportFrame(WindowSupport(all), ws).rows| == |Fit(Transactions(all))|
    ensures forall i :: 0 <= i < |Fit(Transactions(all))| ==>
      var key := Fit(Transactions(all))[i];
      SupportFrame(WindowSupport(all), ws).rows[i] == Row(key, [SupportIn(all, key)] + SupportsIn(orders, key))
  {
    var base := WindowSupport(all);
    forall j | 0 <= j < |ws| ensures WindowShaped(ws[j].table) {
      WindowSupportValue(orders[j], "");
    }
    MergeWindowsRows(base, ws);
    forall i | 0 <= i < |Fit(Transactions(all))|
      ensures var key := Fit(Transactions(all))[i];
        SupportFrame(base, ws).rows[i] == Row(key, [SupportIn(all, key)] + SupportsIn(orders, key))
    {
      var key := Fit(Transactions(all))[i];
      ItemSupport(Transactions(all), i);
      assert base.rows[i].values == [SupportIn(all, key)];
      WindowValuesOfOrders(orders, ws, key);
    }
  }

  /** The five window tables in the order the script merges them, with their suffixes. */
  function Windows(t30: Table, t90: Table, t180: Table, t365: Table, t730: Table): seq<Window>
  {
    [Window("_30", t30), Window("_90", t90), Window("_180", t180), Window("_365", t365), Window("_730", t730)]
  }

  /** Folding one more window merges it onto the fold of the ones before. */
  lemma MergeWindowsSnoc(base: Table, windows: seq<Window>, w: Window)
    ensures MergeWindows(base, windows + [w]) == LeftMerge(MergeWindows(base, windows), w.table, "", w.suffix)
  {
    assert (windows + [w])[..|windows|] == windows;
  }

  /** The fold over the five windows is the script's chain of five merges. */
  lemma MergeFive(base: Table, t30: Table, t90: Table, t180: Table, t365: Table, t730: Table)
    ensures MergeWindows(base, Windows(t30, t90, t180, t365, t730)) ==
      LeftMerge(LeftMerge(LeftMerge(LeftMerge(LeftMerge(base, t30, "", "_30"), t90, "", "_90"),
        t180, "", "_180"), t365, "", "_365"), t730, "", "_730")
  {
    var w30, w90, w180 := Window("_30", t30), Window("_90", t90), Window("_180", t180);
    var w365, w730 := Window("_365", t365), Window("_730", t730);
    MergeWindowsSnoc(base, [], w30);
    MergeWindowsSnoc(base, [w30], w90);
    MergeWindowsSnoc(base, [w30, w90], w180);
    MergeWindowsSnoc(base, [w30, w90, w180], w365);
    MergeWindowsSnoc(base, [w30, w90, w180, w365], w730);
    WindowsPrefixes(w30, w90, w180, w365, w730);
  }

  /** The window list as successive appends. */
  lemma WindowsPrefixes(w30: Window, w90: Window, w180: Window, w365: Window, w730: Window)
    ensures [] + [w30] == [w30]
    ensures [w30] + [w90] == [w30, w90]
    ensures [w30, w90] + [w180] == [w30, w90, w180]
    ensures [w30, w90, w180] + [w365] == [w30, w90, w180, w365]
    ensures [w30, w90, w180, w365] + [w730] == [w30, w90, w180, w365, w730]
  {
  }

  /** Renaming the leading `support` column leaves the differently named columns after it. */
  lemma RenamedHead(names: seq<string>)
    requires "support" !in names
    ensures Renamed(["support"] + names, "support", "support_all") == ["support_all"] + names
  {
    var r := Renamed(["support"] + names, "support", "support_all");
    forall i | 1 <= i < |r| ensures r[i] == names[i - 1] {
      assert (["support"] + names)[i] == names[i - 1];
    }
  }

  /** The window columns the script's five suffixes give. */
  lemma SuffixedFive(t30: Table, t90: Table, t180: Table, t365: Table, t730: Table)
    ensures SuffixedNames(Windows(t30, t90, t180, t365, t730)) ==
      ["support_30", "support_90", "support_180", "support_365", "support_730"]
  {
    var names := SuffixedNames(Windows(t30, t90, t180, t365, t730));
    assert names[0] == "support_30" && names[1] == "support_90" && names[2] == "support_180";
    assert names[3] == "support_365" && names[4] == "support_730";
  }

  /** After the merges and the rename, the all-time column is support_all and the window columns keep their names. */
  lemma SupportFrameNames(base: Table, windows: seq<Window>, names: seq<string>)
    requires base.columns == ["support"]
    requires forall j :: 0 <= j < |windows| ==> windows[j].table.columns == ["support"]
    requires SuffixedNames(windows) == names && "support" !in names
    ensures SupportFrame(base, windows).columns == ["support_all"] + names
  {
    MergeWindowsColumns(base, windows);
    RenamedHead(names);
  }

  /** After the suffix chain and the rename the value columns are named after their windows. */
  lemma SupportFrameColumns(base: Table, t30: Table, t90: Table, t180: Table, t365: Table, t730: Table)
    requires base.columns == ["support"]
    requires t30.columns == t90.columns == t180.columns == t365.columns == t730.columns == ["support"]
    ensures SupportFrame(base, Windows(t30, t90, t180, t365, t730)).columns ==
      ["support_all", "support_30", "support_90", "support_180", "support_365", "support_730"]
  {
    var ws := Windows(t30, t90, t180, t365, t730);
    var names := ["support_30", "support_90", "support_180", "support_365", "support_730"];
    SuffixedFive(t30, t90, t180, t365, t730);
    assert "support" !in names;
    assert forall j :: 0 <= j < |ws| ==> ws[j].table.columns == ["support"];
    SupportFrameNames(base, ws, names);
  }

  /** The rows of the five-window support frame, one value per window. */
  lemma SupportFrameFive(all: seq<OrderValue>, w30: seq<OrderValue>, w90: seq<OrderValue>,
                         w180: seq<OrderValue>, w365: seq<OrderValue>, w730: seq<OrderValue>)
    ensures var t := SupportFrame(WindowSupport(all), Windows(WindowSupport(w30), WindowSupport(w90),
                                  WindowSupport(w180), WindowSupport(w365), WindowSupport(w730)));
      |t.rows| == |Fit(Transactions(all))| &&
      forall i :: 0 <= i < |t.rows| ==>
        var key := Fit(Transactions(all))[i];
        t.rows[i] == Row(key, [SupportIn(all, key), SupportIn(w30, key), SupportIn(w90, key),
                               SupportIn(w180, key), SupportIn(w365, key), SupportIn(w730, key)])
  {
    var ws := Windows(WindowSupport(w30), WindowSupport(w90), WindowSupport(w180), WindowSupport(w365), WindowSupport(w730));
    var orders := [w30, w90, w180, w365, w730];
    assert forall j :: 0 <= j < |ws| ==> ws[j].table == WindowSupport(orders[j]);
    SupportFrameRows(all, orders, ws);
    forall i | 0 <= i < |Fit(Transactions(all))| {
      FiveValues(all, w30, w90, w180, w365, w730, Fit(Transactions(all))[i]);
    }
  }

  /** A value followed by five values, written out. */
  lemma SixValues<T>(head: T, vs: seq<T>)
    requires |vs| == 5
    ensures [head] + vs == [head, vs[0], vs[1], vs[2], vs[3], vs[4]]
  {
  }

  /** The per-window values of one product, spelled out for the five windows. */
  lemma FiveValues(all: seq<OrderValue>, w30: seq<OrderValue>, w90: seq<OrderValue>,
                   w180: seq<OrderValue>, w365: seq<OrderValue>, w730: seq<OrderValue>, key: Item)
    ensures [SupportIn(all, key)] + SupportsIn([w30, w90, w180, w365, w730], key) ==
        [SupportIn(all, key), SupportIn(w30, key), SupportIn(w90, key),
         SupportIn(w180, key), SupportIn(w365, key), SupportIn(w730, key)]
  {
    var vs := SupportsIn([w30, w90, w180, w365, w730], key);
    SixValues(SupportIn(all, key), vs);
  }

  /**
   * The support table of the script: every window's support table, the suffix chain of
   * left joins onto the all-time table, and the rename of `support` to `support_all`.
   * It has one row per product of the all-time vocabulary, in vocabulary order, and
   * each row holds the product's support in every window, missing where the window
   * has none.
   */
  method SupportTable(all: seq<OrderValue>, w30: seq<OrderValue>, w90: seq<OrderValue>,
                      w180: seq<OrderValue>, w365: seq<OrderValue>, w730: seq<OrderValue>)
    returns (supportDf: Table)
    ensures supportDf.columns == ["support_all", "support_30", "support_90", "support_180", "support_365", "support_730"]
    ensures |supportDf.rows| == |Fit(Transactions(all))|
    ensures forall i :: 0 <= i < |supportDf.rows| ==>
      var key := Fit(Transactions(all))[i];
      supportDf.rows[i] ==
        Row(key, [SupportIn(all, key), SupportIn(w30, key), SupportIn(w90, key),
                  SupportIn(w180, key), SupportIn(w365, key), SupportIn(w730, key)])
  {
    var supportAll := WindowSupport(all);
    var support30 := WindowSupport(w30);
    var support90 := WindowSupport(w90);
    var support180 := WindowSupport(w180);
    var support365 := WindowSupport(w365);
    var support730 := WindowSupport(w730);

    supportDf := LeftMerge(supportAll, support30, "", "_30");
    supportDf := LeftMerge(supportDf, support90, "", "_90");
    supportDf := LeftMerge(supportDf, support180, "", "_180");
    supportDf := LeftMerge(supportDf, support365, "", "_365");
    supportDf := LeftMerge(supportDf, support730, "", "_730");
    supportDf := Rename(supportDf, "support", "support_all");

    MergeFive(supportAll, support30, support90, support180, support365, support730);
    SupportFrameColumns(supportAll, support30, support90, support180, support365, support730);
    SupportFrameFive(all, w30, w90, w180, w365, w730);
  }
}
