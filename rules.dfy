/**
 * The output contract of `association_rules(frequent_itemsets, metric = "support",
 * min_threshold = 0.00)`: for every frequent itemset of two or more items, every
 * split into a non-empty antecedent and the non-empty rest as consequent, with the
 * three supports looked up in the frequent-itemset table, confidence and lift.
 */
module AssociationRules {
  import opened Results
  import opened Orders
  import opened Encoding
  import opened Apriori

  /** The script's `min_threshold` for the metric "support". */
  const MinThreshold: real := 0.0

  /** One row of the rule table (the extra metric columns the script never uses are left out). */
  datatype Rule = Rule(
    antecedent: set<Item>,
    consequent: set<Item>,
    antecedentSupport: real,
    consequentSupport: real,
    support: real,
    confidence: real,
    lift: real)

  /**
   * The library's errors: the ValueError it raises on an empty frequent-itemset table,
   * and the KeyError it raises when a needed subset is missing from the table.
   */
  datatype RuleError = EmptyItemsets | MissingItemset(items: set<Item>)

  /** A frequent itemset and the antecedent chosen from it. */
  datatype RuleSplit = RuleSplit(whole: Itemset, antecedent: set<Item>)

  /** The columns that belong to s, in frame order. */
  function InColumnOrder(columns: seq<Item>, s: set<Item>): (r: seq<Item>)
    ensures Elems(r) == Elems(columns) * s
    ensures Distinct(columns) ==> Distinct(r)
  {
    if columns == [] then []
    else
      var rest := InColumnOrder(columns[1..], s);
      assert Elems(columns) == {columns[0]} + Elems(columns[1..]) by {
        assert columns == [columns[0]] + columns[1..];
      }
      if columns[0] in s then
        var r := [columns[0]] + rest;
        assert Elems(r) == {columns[0]} + Elems(rest);
        assert Distinct(columns) ==> Distinct(r) by {
          if Distinct(columns) {
            ElemsTail(columns);
          }
        }
        r
      else rest
  }

  /** Pairs every antecedent with the itemset it is taken from. */
  function SplitsWith(e: Itemset, antecedents: seq<set<Item>>): (r: seq<RuleSplit>)
    ensures |r| == |antecedents|
    ensures forall i :: 0 <= i < |r| ==> r[i] == RuleSplit(e, antecedents[i])
  {
    seq(|antecedents|, i requires 0 <= i < |antecedents| => RuleSplit(e, antecedents[i]))
  }

  /** The antecedents of sizes k, k - 1, ..., 1 taken from e, largest first. */
  function SplitsOfSize(columns: seq<Item>, e: Itemset, k: nat): seq<RuleSplit>
  {
    if k == 0 then []
    else SplitsWith(e, Combos(InColumnOrder(columns, e.items), k)) + SplitsOfSize(columns, e, k - 1)
  }

  /** Every way to split one itemset: antecedents of |e| - 1 items down to one item. */
  function SplitsOf(columns: seq<Item>, e: Itemset): seq<RuleSplit>
  {
    if |e.items| == 0 then [] else SplitsOfSize(columns, e, |e.items| - 1)
  }

  /** The splits of every itemset of the table, in table order. */
  function AllSplits(columns: seq<Item>, table: seq<Itemset>): seq<RuleSplit>
  {
    if table == [] then [] else SplitsOf(columns, table[0]) + AllSplits(columns, table[1..])
  }

  /** The antecedents of size at most k are exactly the non-empty subsets of that size. */
  lemma {:induction false} SplitsOfSizeExact(columns: seq<Item>, e: Itemset, k: nat, sp: RuleSplit)
    requires Distinct(columns) && e.items <= Elems(columns)
    ensures sp in SplitsOfSize(columns, e, k) <==>
      sp.whole == e && sp.antecedent <= e.items && 1 <= |sp.antecedent| <= k
  {
    if k > 0 {
      var order := InColumnOrder(columns, e.items);
      assert Elems(order) == e.items;
      var top := SplitsWith(e, Combos(order, k));
      SplitsOfSizeExact(columns, e, k - 1, sp);
      CombosExact(order, k, sp.antecedent);
      if sp in top {
        var i :| 0 <= i < |top| && top[i] == sp;
        assert sp.antecedent == Combos(order, k)[i];
      }
      if sp.whole == e && sp.antecedent in Combos(order, k) {
        var i :| 0 <= i < |Combos(order, k)| && Combos(order, k)[i] == sp.antecedent;
        assert top[i] == sp;
      }
    }
  }

  lemma SplitsOfExact(columns: seq<Item>, e: Itemset, sp: RuleSplit)
    requires Distinct(columns) && e.items <= Elems(columns)
    ensures sp in SplitsOf(columns, e) <==>
      sp.whole == e && sp.antecedent <= e.items && 1 <= |sp.antecedent| < |e.items|
  {
    if |e.items| > 0 {
      SplitsOfSizeExact(columns, e, |e.items| - 1, sp);
    }
  }

  /** The splits are exactly the choices of a non-empty proper subset of a listed itemset. */
  lemma {:induction false} AllSplitsExact(columns: seq<Item>, table: seq<Itemset>, sp: RuleSplit)
    requires Distinct(columns)
    requires forall e :: e in table ==> e.items <= Elems(columns)
    ensures sp in AllSplits(columns, table) <==>
      sp.whole in table && sp.antecedent <= sp.whole.items && 1 <= |sp.antecedent| < |sp.whole.items|
  {
    if table != [] {
      var e := table[0];
      assert e in table;
      assert AllSplits(columns, table) == SplitsOf(columns, e) + AllSplits(columns, table[1..]);
      assert forall q :: q in table[1..] ==> q in table;
      AllSplitsExact(columns, table[1..], sp);
      SplitsOfExact(columns, e, sp);
      assert sp.whole in table <==> sp.whole == e || sp.whole in table[1..];
    }
  }

  /** `frequent_items_dict[s]`: the support recorded for s, or None when s is not listed. */
  function Lookup(table: seq<Itemset>, s: set<Item>): (r: Option<real>)
    ensures r.Some? ==> Itemset(s, r.value) in table
    ensures r.None? ==> forall e :: e in table ==> e.items != s
  {
    if table == [] then None
    else if table[0].items == s then Some(table[0].support)
    else Lookup(table[1..], s)
  }

  /** Every recorded support is positive, as in any table apriori returns with a positive threshold. */
  predicate PositiveSupports(table: seq<Itemset>)
  {
    forall e :: e in table ==> e.support > 0.0
  }

  /** The rule of one split, or the KeyError the library raises when a side is not in the table. */
  function RuleFor(table: seq<Itemset>, sp: RuleSplit): Result<Rule, RuleError>
    requires PositiveSupports(table)
  {
    var a := sp.antecedent;
    var c := sp.whole.items - a;
    match Lookup(table, a)
    case None => Failure(MissingItemset(a))
    case Some(sA) =>
      match Lookup(table, c)
      case None => Failure(MissingItemset(c))
      case Some(sC) =>
        var sAC := sp.whole.support;
        var confidence := sAC / sA;
        Success(Rule(a, c, sA, sC, sAC, confidence, confidence / sC))
  }

  /** Builds the rules of the splits in order and keeps those whose support reaches the threshold. */
  function Generate(table: seq<Itemset>, splits: seq<RuleSplit>): (r: Result<seq<Rule>, RuleError>)
    requires PositiveSupports(table)
    ensures r.Failure? ==> r.error.MissingItemset?
  {
    if splits == [] then Success([])
    else
      match RuleFor(table, splits[0])
      case Failure(err) => Failure(err)
      case Success(r) =>
        match Generate(table, splits[1..])
        case Failure(err) => Failure(err)
        case Success(rest) => Success(if r.support >= MinThreshold then [r] + rest else rest)
  }

  /**
   * `association_rules(frequent_itemsets, metric = "support", min_threshold = 0.00)`,
   * which first refuses an empty table.
   */
  function Rules(columns: seq<Item>, table: seq<Itemset>): (r: Result<seq<Rule>, RuleError>)
    requires PositiveSupports(table)
    ensures r == Failure(EmptyItemsets) <==> table == []
  {
    if table == [] then Failure(EmptyItemsets) else Generate(table, AllSplits(columns, table))
  }

  /** The rule the frame itself determines for antecedent a and consequent c. */
  function IdealRule(f: Frame, a: set<Item>, c: set<Item>): Rule
  {
    var sA, sC, sAC := Support(f, a), Support(f, c), Support(f, a + c);
    var confidence := if sA == 0.0 then 0.0 else sAC / sA;
    Rule(a, c, sA, sC, sAC, confidence, if sC == 0.0 then 0.0 else confidence / sC)
  }

  /** The rules of all splits computed from the frame directly. */
  function IdealRules(f: Frame, splits: seq<RuleSplit>): (r: seq<Rule>)
    ensures |r| == |splits|
    ensures forall i :: 0 <= i < |splits| ==>
      r[i] == IdealRule(f, splits[i].antecedent, splits[i].whole.items - splits[i].antecedent)
  {
    seq(|splits|, i requires 0 <= i < |splits| =>
      IdealRule(f, splits[i].antecedent, splits[i].whole.items - splits[i].antecedent))
  }

  /** The table records the frame's support for both sides and for the whole of a split. */
  predicate TableAgrees(f: Frame, table: seq<Itemset>, sp: RuleSplit)
  {
    var a, c := sp.antecedent, sp.whole.items - sp.antecedent;
    && sp.antecedent <= sp.whole.items
    && sp.whole.support == Support(f, sp.whole.items)
    && Lookup(table, a) == Some(Support(f, a))
    && Lookup(table, c) == Some(Support(f, c))
  }

  /**
   * When every needed support is in the table, no KeyError is raised, no rule is
   * dropped by the threshold, and each rule carries the frame's supports.
   */
  lemma {:induction false} GenerateAgrees(f: Frame, table: seq<Itemset>, splits: seq<RuleSplit>)
    requires PositiveSupports(table)
    requires forall sp :: sp in splits ==> TableAgrees(f, table, sp)
    ensures Generate(table, splits) == Success(IdealRules(f, splits))
  {
    if splits != [] {
      var sp := splits[0];
      var a, c := sp.antecedent, sp.whole.items - sp.antecedent;
      assert sp in splits;
      assert a + c == sp.whole.items;
      var sA := Support(f, a);
      assert sA > 0.0 && Support(f, c) > 0.0 by {
        assert Itemset(a, sA) in table;
        assert Itemset(c, Support(f, c)) in table;
      }
      SupportBounds(f, sp.whole.items);
      assert RuleFor(table, sp) == Success(IdealRule(f, a, c));
      assert forall q :: q in splits[1..] ==> q in splits;
      GenerateAgrees(f, table, splits[1..]);
      assert IdealRules(f, splits) == [IdealRule(f, a, c)] + IdealRules(f, splits[1..]);
    }
  }

  /** Everything the script relies on about one emitted rule. */
  predicate ValidRule(f: Frame, r: Rule)
  {
    var a, c := r.antecedent, r.consequent;
    && a != {} && c != {} && a !! c
    && IsFrequent(f, a + c) && |a + c| >= 2
    && r.support == Support(f, a + c)
    && r.antecedentSupport == Support(f, a) && r.antecedentSupport > 0.0
    && r.consequentSupport == Support(f, c) && r.consequentSupport > 0.0
    && r.confidence == r.support / r.antecedentSupport && r.confidence <= 1.0
    && r.lift == r.confidence / r.consequentSupport
  }

  /** The frequent-itemset table records the support of every frequent itemset. */
  lemma LookupFrequent(f: Frame, s: set<Item>)
    requires WellFormed(f) && IsFrequent(f, s)
    ensures Lookup(FrequentItemsets(f), s) == Some(Support(f, s))
  {
    FrequentItemsetsExact(f);
    assert Itemset(s, Support(f, s)) in FrequentItemsets(f);
    var r := Lookup(FrequentItemsets(f), s);
    assert Itemset(s, r.value) in FrequentItemsets(f);
  }

  lemma FrequentPositive(f: Frame)
    requires WellFormed(f)
    ensures PositiveSupports(FrequentItemsets(f))
    ensures forall e :: e in FrequentItemsets(f) ==> e.items <= Elems(f.columns)
  {
    FrequentItemsetsExact(f);
  }

  /** A quotient of a support by a larger positive support is at most one. */
  lemma QuotientAtMostOne(x: real, y: real)
    requires 0.0 <= x <= y && y > 0.0
    ensures x / y <= 1.0
  {
    assert x / y * y == x;
  }

  /** Each split of a frequent itemset satisfies what the rule built from it needs. */
  lemma SplitOfFrequent(f: Frame, sp: RuleSplit)
    requires WellFormed(f)
    requires sp in AllSplits(f.columns, FrequentItemsets(f))
    ensures TableAgrees(f, FrequentItemsets(f), sp)
    ensures ValidRule(f, IdealRule(f, sp.antecedent, sp.whole.items - sp.antecedent))
  {
    var table := FrequentItemsets(f);
    FrequentPositive(f);
    AllSplitsExact(f.columns, table, sp);
    FrequentItemsetsExact(f);
    var w, a := sp.whole.items, sp.antecedent;
    var c := w - a;
    assert IsFrequent(f, w);
    assert a + c == w;
    assert c != {} by {
      assert |c| == |w| - |a|;
    }
    FrequentSubset(f, w, a);
    FrequentSubset(f, w, c);
    LookupFrequent(f, a);
    LookupFrequent(f, c);
    FrequentSupportPositive(f, a);
    FrequentSupportPositive(f, c);
    SupportAntiMonotone(f, a, w);
    SupportBounds(f, w);
    QuotientAtMostOne(Support(f, w), Support(f, a));
  }

  /** Every non-empty proper subset of a frequent itemset is the antecedent of some split. */
  lemma SplitListed(f: Frame, w: set<Item>, a: set<Item>) returns (sp: RuleSplit)
    requires WellFormed(f)
    requires IsFrequent(f, w) && a <= w && a != {} && a != w
    ensures sp in AllSplits(f.columns, FrequentItemsets(f))
    ensures sp.antecedent == a && sp.whole.items == w
  {
    sp := RuleSplit(Itemset(w, Support(f, w)), a);
    FrequentItemsetsExact(f);
    FrequentPositive(f);
    StrictSubsetCardinality(a, w);
    NonEmptyCardinality(a);
    AllSplitsExact(f.columns, FrequentItemsets(f), sp);
  }

  lemma SplitsWithDistinct(e: Itemset, antecedents: seq<set<Item>>)
    requires Distinct(antecedents)
    ensures Distinct(SplitsWith(e, antecedents))
  {
    var r := SplitsWith(e, antecedents);
    forall i, j | 0 <= i < j < |r| ensures r[i] != r[j] {
      assert r[i].antecedent == antecedents[i] && r[j].antecedent == antecedents[j];
    }
  }

  /** One unfolding of the antecedent levels. */
  lemma SplitsOfSizeStep(columns: seq<Item>, e: Itemset, k: nat)
    requires k > 0
    ensures SplitsOfSize(columns, e, k) ==
      SplitsWith(e, Combos(InColumnOrder(columns, e.items), k)) + SplitsOfSize(columns, e, k - 1)
  {
  }

  /** The antecedents listed from level k down have at most k items. */
  lemma SplitsOfSizeBound(columns: seq<Item>, e: Itemset, k: nat)
    requires Distinct(columns) && e.items <= Elems(columns)
    ensures forall j :: 0 <= j < |SplitsOfSize(columns, e, k)| ==> |SplitsOfSize(columns, e, k)[j].antecedent| <= k
  {
    var r := SplitsOfSize(columns, e, k);
    forall j | 0 <= j < |r| ensures |r[j].antecedent| <= k {
      assert r[j] in r;
      SplitsOfSizeExact(columns, e, k, r[j]);
    }
  }

  /** The antecedents at level k have k items. */
  lemma SplitsWithSizes(e: Itemset, level: seq<set<Item>>, u: set<Item>, k: nat)
    requires SetsOf(level, u, k)
    ensures forall i :: 0 <= i < |SplitsWith(e, level)| ==> |SplitsWith(e, level)[i].antecedent| == k
  {
  }

  /** Splits with k-item antecedents followed by smaller ones, each list duplicate-free, have no repeat. */
  lemma AntecedentSizesApart(top: seq<RuleSplit>, rest: seq<RuleSplit>, k: nat)
    requires Distinct(top) && Distinct(rest)
    requires forall i :: 0 <= i < |top| ==> |top[i].antecedent| == k
    requires forall j :: 0 <= j < |rest| ==> |rest[j].antecedent| < k
    ensures Distinct(top + rest)
  {
    ConcatDistinct(top, rest);
  }

  /** The antecedents of one itemset are listed once each. */
  lemma {:induction false} SplitsOfSizeDistinct(columns: seq<Item>, e: Itemset, k: nat)
    requires Distinct(columns) && e.items <= Elems(columns)
    ensures Distinct(SplitsOfSize(columns, e, k))
  {
    if k > 0 {
      var order := InColumnOrder(columns, e.items);
      var level := Combos(order, k);
      SplitsOfSizeStep(columns, e, k);
      CombosDistinct(order, k);
      SplitsWithDistinct(e, level);
      SplitsOfSizeDistinct(columns, e, k - 1);
      CombosSoundAt(order, k);
      SplitsWithSizes(e, level, Elems(order), k);
      SplitsOfSizeBound(columns, e, k - 1);
      AntecedentSizesApart(SplitsWith(e, level), SplitsOfSize(columns, e, k - 1), k);
    } else {
      assert SplitsOfSize(columns, e, k) == [];
    }
  }

  /** Every split of one itemset has that itemset as its whole. */
  lemma SplitsOfWhole(columns: seq<Item>, e: Itemset)
    requires Distinct(columns) && e.items <= Elems(columns)
    ensures forall i :: 0 <= i < |SplitsOf(columns, e)| ==> SplitsOf(columns, e)[i].whole == e
  {
    var r := SplitsOf(columns, e);
    forall i | 0 <= i < |r| ensures r[i].whole == e {
      assert r[i] in r;
      SplitsOfExact(columns, e, r[i]);
    }
  }

  /** Every split of a table has one of its itemsets as its whole. */
  lemma AllSplitsWhole(columns: seq<Item>, table: seq<Itemset>)
    requires Distinct(columns)
    requires forall e :: e in table ==> e.items <= Elems(columns)
    ensures forall j :: 0 <= j < |AllSplits(columns, table)| ==> AllSplits(columns, table)[j].whole in table
  {
    var r := AllSplits(columns, table);
    forall j | 0 <= j < |r| ensures r[j].whole in table {
      assert r[j] in r;
      AllSplitsExact(columns, table, r[j]);
    }
  }

  /** Splits of e followed by splits of itemsets other than e, each list duplicate-free, have no repeat. */
  lemma WholesApart(here: seq<RuleSplit>, rest: seq<RuleSplit>, e: Itemset, others: seq<Itemset>)
    requires Distinct(here) && Distinct(rest) && e !in others
    requires forall i :: 0 <= i < |here| ==> here[i].whole == e
    requires forall j :: 0 <= j < |rest| ==> rest[j].whole in others
    ensures Distinct(here + rest)
  {
    ConcatDistinct(here, rest);
  }

  /** The head and tail of a duplicate-free table. */
  lemma TableTail(table: seq<Itemset>)
    requires table != [] && Distinct(table)
    ensures table[0] in table && table[0] !in table[1..] && Distinct(table[1..])
    ensures forall q :: q in table[1..] ==> q in table
  {
    forall q | q in table[1..] ensures q in table && q != table[0] {
      var j :| 0 <= j < |table[1..]| && table[1..][j] == q;
      assert table[j + 1] == q;
    }
  }

  /** No split is listed twice, when no itemset is. */
  lemma {:induction false} AllSplitsDistinct(columns: seq<Item>, table: seq<Itemset>)
    requires Distinct(columns) && Distinct(table)
    requires forall e :: e in table ==> e.items <= Elems(columns)
    ensures Distinct(AllSplits(columns, table))
  {
    if table != [] {
      var e, others := table[0], table[1..];
      TableTail(table);
      AllSplitsDistinct(columns, others);
      if |e.items| > 0 {
        SplitsOfSizeDistinct(columns, e, |e.items| - 1);
      }
      SplitsOfWhole(columns, e);
      AllSplitsWhole(columns, others);
      WholesApart(SplitsOf(columns, e), AllSplits(columns, others), e, others);
    }
  }

  /** Two splits whose rules agree have the same itemset and antecedent. */
  lemma SameRuleSameSplit(f: Frame, p: RuleSplit, q: RuleSplit)
    requires p.antecedent <= p.whole.items && q.antecedent <= q.whole.items
    requires p.whole.support == Support(f, p.whole.items) && q.whole.support == Support(f, q.whole.items)
    requires IdealRule(f, p.antecedent, p.whole.items - p.antecedent) == IdealRule(f, q.antecedent, q.whole.items - q.antecedent)
    ensures p == q
  {
    var rp := IdealRule(f, p.antecedent, p.whole.items - p.antecedent);
    var rq := IdealRule(f, q.antecedent, q.whole.items - q.antecedent);
    assert rp.antecedent == p.antecedent && rq.antecedent == q.antecedent;
    assert rp.consequent == p.whole.items - p.antecedent && rq.consequent == q.whole.items - q.antecedent;
    assert p.whole.items == p.antecedent + (p.whole.items - p.antecedent);
    assert q.whole.items == q.antecedent + (q.whole.items - q.antecedent);
  }

  /** Distinct splits whose wholes carry the frame's support give distinct rules. */
  lemma IdealRulesDistinct(f: Frame, splits: seq<RuleSplit>)
    requires Distinct(splits)
    requires forall sp :: sp in splits ==>
      sp.antecedent <= sp.whole.items && sp.whole.support == Support(f, sp.whole.items)
    ensures Distinct(IdealRules(f, splits))
  {
    var rs := IdealRules(f, splits);
    forall i, j | 0 <= i < j < |rs| ensures rs[i] != rs[j] {
      assert splits[i] in splits && splits[j] in splits;
      if rs[i] == rs[j] {
        SameRuleSameSplit(f, splits[i], splits[j]);
      }
    }
  }

  /**
   * Distinct splits of apriori's table give distinct rules: a rule's two sides
   * determine the itemset, and the itemset its support.
   */
  lemma RulesOfSplitsDistinct(f: Frame)
    requires WellFormed(f)
    ensures Distinct(IdealRules(f, AllSplits(f.columns, FrequentItemsets(f))))
  {
    var table := FrequentItemsets(f);
    var splits := AllSplits(f.columns, table);
    FrequentItemsetsExact(f);
    FrequentPositive(f);
    AllSplitsDistinct(f.columns, table);
    forall sp | sp in splits
      ensures sp.antecedent <= sp.whole.items && sp.whole.support == Support(f, sp.whole.items)
    {
      AllSplitsExact(f.columns, table, sp);
    }
    IdealRulesDistinct(f, splits);
  }

  /**
   * On apriori's table the library raises its ValueError exactly when the table is
   * empty; otherwise no KeyError is raised and the threshold drops nothing: the
   * rules are exactly one per split of a frequent itemset of two or more items into a
   * non-empty antecedent and the non-empty rest, each listed once, with the frame's
   * supports, confidence at most one and lift as confidence over consequent support.
   */
  lemma RulesOfFrequentItemsets(f: Frame) returns (rs: seq<Rule>)
    requires WellFormed(f)
    ensures PositiveSupports(FrequentItemsets(f))
    ensures Rules(f.columns, FrequentItemsets(f)) == if FrequentItemsets(f) == [] then Failure(EmptyItemsets) else Success(rs)
    ensures Distinct(rs)
    ensures forall r :: r in rs ==> ValidRule(f, r)
    ensures forall w, a :: IsFrequent(f, w) && a <= w && a != {} && a != w ==> IdealRule(f, a, w - a) in rs
  {
    var table := FrequentItemsets(f);
    FrequentPositive(f);
    var splits := AllSplits(f.columns, table);
    forall sp | sp in splits ensures TableAgrees(f, table, sp) {
      SplitOfFrequent(f, sp);
    }
    GenerateAgrees(f, table, splits);
    rs := IdealRules(f, splits);
    RulesOfSplitsDistinct(f);
    forall r | r in rs ensures ValidRule(f, r) {
      var i :| 0 <= i < |rs| && rs[i] == r;
      SplitOfFrequent(f, splits[i]);
    }
    forall w, a | IsFrequent(f, w) && a <= w && a != {} && a != w ensures IdealRule(f, a, w - a) in rs {
      var sp := SplitListed(f, w, a);
      var i :| 0 <= i < |splits| && splits[i] == sp;
      assert rs[i] == IdealRule(f, a, w - a);
    }
  }
}
