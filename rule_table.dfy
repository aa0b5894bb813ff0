/**
 * The rules DataFrame after `association_rules`: two in-place renames of the support
 * columns, the antecedent and consequent columns cast to their printed form, and the
 * printed frozensets replaced by the labels `extract_content` takes out of them.
 */
module RuleTable {
  import opened Results
  import opened Orders
  import opened Encoding
  import opened Apriori
  import opened AssociationRules
  import opened Labels
  import opened Columns

  /** A cell of the antecedents or consequents column: a frozenset, a string, or Python's None. */
  datatype Cell = Frozen(items: set<Item>) | Str(text: string) | NoneValue

  datatype Side = Antecedents | Consequents

  /** The columns the model keeps from `association_rules`' result, in its order. */
  const LibraryColumns: seq<string> :=
    ["antecedents", "consequents", "antecedent support", "consequent support", "support", "confidence", "lift"]

  /** The same columns after the two renames. */
  const StoredColumns: seq<string> :=
    ["antecedents", "consequents", "antecedent_support", "consequent_support", "support", "confidence", "lift"]

  /**
   * `astype(str)` on one cell: a frozenset is printed by `render` (whose element order
   * Python does not fix), None prints as "None", and a string stays as it is.
   */
  function AsStr(c: Cell, render: set<Item> -> string): (r: Cell)
    ensures r.Str?
    ensures c.Str? ==> r == c
    ensures c.Frozen? ==> r.text == render(c.items)
  {
    match c
    case Frozen(items) => Str(render(items))
    case Str(_) => c
    case NoneValue => Str("None")
  }

  /** `extract_content` applied to a printed cell: the label it finds, or None. */
  function Label(s: string): (r: Cell)
    ensures r.Str? <==> ExtractContent(s).Some?
    ensures r.Str? ==> r.text == ExtractContent(s).value
    ensures r.NoneValue? || r.Str?
  {
    match ExtractContent(s)
    case Some(x) => Str(x)
    case None => NoneValue
  }

  /** Labels that print and parse back unchanged inside a frozenset. */
  predicate Printable(labels: seq<string>)
  {
    && labels != []
    && (forall x :: x in labels ==> PlainLabel(x))
    && var j := JoinQuoted(labels); j == [] || (j[0] != '\'' && j[|j| - 1] != '\'')
  }

  /** A frozenset printed as its quoted labels gets exactly those labels, comma separated. */
  lemma LabelOfRendered(labels: seq<string>)
    requires Printable(labels)
    ensures Label(Render(labels)) == Str(JoinQuoted(labels))
  {
    ExtractRendered(labels);
  }

  /** `astype(str)` on a whole column. */
  function CastAll(cells: seq<Cell>, render: set<Item> -> string): (r: seq<Cell>)
    ensures |r| == |cells|
    ensures forall i :: 0 <= i < |cells| ==> r[i] == AsStr(cells[i], render)
  {
    seq(|cells|, i requires 0 <= i < |cells| => AsStr(cells[i], render))
  }

  /** `apply(extract_content)` on a whole column of strings. */
  function LabelAll(cells: seq<Cell>): (r: seq<Cell>)
    requires forall i :: 0 <= i < |cells| ==> cells[i].Str?
    ensures |r| == |cells|
    ensures forall i :: 0 <= i < |cells| ==> r[i] == Label(cells[i].text)
  {
    seq(|cells|, i requires 0 <= i < |cells| => Label(cells[i].text))
  }

  /** The mutable part of the rules DataFrame; the numeric columns are never written. */
  class RuleFrame {
    var columns: seq<string>
    var antecedents: seq<Cell>
    var consequents: seq<Cell>
    const rules: seq<Rule>

    /** One antecedent and one consequent cell per rule. */
    ghost predicate Valid()
      reads this
    {
      |antecedents| == |rules| && |consequents| == |rules|
    }

    /** The frame as `association_rules` returns it: the itemsets are frozensets. */
    constructor (rs: seq<Rule>)
      ensures Valid()
      ensures columns == LibraryColumns && rules == rs
      ensures forall i :: 0 <= i < |rs| ==> antecedents[i] == Frozen(rs[i].antecedent)
      ensures forall i :: 0 <= i < |rs| ==> consequents[i] == Frozen(rs[i].consequent)
    {
      columns := LibraryColumns;
      rules := rs;
      antecedents := seq(|rs|, i requires 0 <= i < |rs| => Frozen(rs[i].antecedent));
      consequents := seq(|rs|, i requires 0 <= i < |rs| => Frozen(rs[i].consequent));
    }

    /** `rename(columns = {from: to}, inplace = True)`: only the header changes. */
    method Rename(from: string, to: string)
      requires Valid()
      modifies this
      ensures Valid()
      ensures columns == Renamed(old(columns), from, to)
      ensures antecedents == old(antecedents) && consequents == old(consequents)
    {
      columns := Renamed(columns, from, to);
    }

    /** `rules[side] = rules[side].astype(str)`: the other column and the header are untouched. */
    method CastToStr(side: Side, render: set<Item> -> string)
      requires Valid()
      modifies this
      ensures Valid() && columns == old(columns)
      ensures antecedents == if side == Antecedents then CastAll(old(antecedents), render) else old(antecedents)
      ensures consequents == if side == Consequents then CastAll(old(consequents), render) else old(consequents)
    {
      if side == Antecedents {
        antecedents := CastAll(antecedents, render);
      } else {
        consequents := CastAll(consequents, render);
      }
    }

    /**
     * `rules[side] = rules[side].apply(extract_content)`; `re.match` needs a string,
     * so every cell of that column must already be one.
     */
    method ExtractLabels(side: Side)
      requires Valid()
      requires side == Antecedents ==> forall i :: 0 <= i < |antecedents| ==> antecedents[i].Str?
      requires side == Consequents ==> forall i :: 0 <= i < |consequents| ==> consequents[i].Str?
      modifies this
      ensures Valid() && columns == old(columns)
      ensures antecedents == if side == Antecedents then LabelAll(old(antecedents)) else old(antecedents)
      ensures consequents == if side == Consequents then LabelAll(old(consequents)) else old(consequents)
    {
      if side == Antecedents {
        antecedents := LabelAll(antecedents);
      } else {
        consequents := LabelAll(consequents);
      }
    }
  }

  /**
   * The steps between `association_rules` and the upload: the two renames, the casts
   * to the printed form and the label extraction. The rules keep their order and
   * statistics; each itemset cell holds what `extract_content` finds in its printed form.
   */
  method StoreRules(rs: seq<Rule>, render: set<Item> -> string) returns (frame: RuleFrame)
    ensures fresh(frame) && frame.Valid()
    ensures frame.rules == rs && frame.columns == StoredColumns
    ensures forall i :: 0 <= i < |rs| ==>
      && frame.antecedents[i] == Label(render(rs[i].antecedent))
      && frame.consequents[i] == Label(render(rs[i].consequent))
  {
    frame := new RuleFrame(rs);
    ghost var antecedents, consequents := frame.antecedents, frame.consequents;
    frame.Rename("antecedent support", "antecedent_support");
    frame.Rename("consequent support", "consequent_support");
    assert frame.columns == StoredColumns;
    frame.CastToStr(Antecedents, render);
    frame.CastToStr(Consequents, render);
    frame.ExtractLabels(Antecedents);
    frame.ExtractLabels(Consequents);
    StoredLabels(antecedents, render);
    StoredLabels(consequents, render);
  }

  /** Casting a column of frozensets and extracting the labels gives the label of each printed set. */
  lemma StoredLabels(cells: seq<Cell>, render: set<Item> -> string)
    requires forall i :: 0 <= i < |cells| ==> cells[i].Frozen?
    ensures forall i :: 0 <= i < |cells| ==> CastAll(cells, render)[i].Str?
    ensures forall i :: 0 <= i < |cells| ==> LabelAll(CastAll(cells, render))[i] == Label(render(cells[i].items))
  {
  }

  /**
   * The association-rules script from the order values to the table it uploads. It
   * stops with `association_rules`' ValueError exactly when no product is in 0.1% of
   * the orders, since apriori then finds no itemset. Otherwise the rules are exactly
   * the splits of the frequent itemsets, each once and with the statistics the script
   * stores, under the renamed header, and each itemset cell holds what
   * `extract_content` takes out of the printed frozenset.
   */
  method RulesTable(orders: seq<OrderValue>, render: set<Item> -> string) returns (result: Result<RuleFrame, RuleError>)
    ensures var f := Encode(Transactions(orders));
      result.Failure? <==> forall x :: x in f.columns ==> Support(f, {x}) < MinSupport
    ensures result.Failure? ==> result.error == EmptyItemsets
    ensures result.Success? ==> fresh(result.value) && result.value.Valid()
    ensures result.Success? ==> result.value.columns == StoredColumns
    ensures result.Success? ==> var f, frame := Encode(Transactions(orders)), result.value;
      && Distinct(frame.rules)
      && (forall r :: r in frame.rules ==> ValidRule(f, r))
      && (forall w, a :: IsFrequent(f, w) && a <= w && a != {} && a != w ==> IdealRule(f, a, w - a) in frame.rules)
    ensures result.Success? ==> var frame := result.value;
      forall i :: 0 <= i < |frame.rules| ==>
        && frame.antecedents[i] == Label(render(frame.rules[i].antecedent))
        && frame.consequents[i] == Label(render(frame.rules[i].consequent))
  {
    var transactions := Transactions(orders);
    var onehot := Encode(transactions);
    var frequentItemsets := FrequentItemsets(onehot);
    ghost var rs := RulesOfFrequentItemsets(onehot);
    NoFrequentItemsets(onehot);
    var rules := Rules(onehot.columns, frequentItemsets);
    match rules
    case Failure(err) =>
      result := Failure(err);
    case Success(value) =>
      var frame := StoreRules(value, render);
      result := Success(frame);
  }
}
