# Market-basket support and association rules, modelled in Dafny

This project models two warehouse scripts of a web shop.

`support_analysis.py` computes, for the whole order history and for the last 730,
365, 180, 90 and 30 days, how often each base product appears in an order. Each
order's products come from BigQuery as one aggregated string. The script:

- splits that string on `", "`;
- one-hot encodes the orders with `TransactionEncoder`;
- takes the column means as supports;
- left-joins the six support tables on `product` into one wide table.

`assocation_rules.py` runs the same tokenising and encoding once. It then calls:

- `apriori` with `min_support = 0.001` and `max_len = 3`;
- `association_rules` with metric `support` and threshold `0.00`.

It renames two columns and casts the antecedent and consequent frozensets to
strings. Finally `extract_content`, a regular-expression parser, turns the printed
`frozenset({...})` into a storable label or `None`.

Modules, one per file:

- `Results` (`results.dfy`): `Option` and `Result`.
- `Orders` (`orders.dfy`): `str.split(', ')` as an exact splitter with a joining inverse. A NULL, i.e. non-string, order value becomes the empty transaction.
- `Encoding` (`encoding.dfy`):
  - the `TransactionEncoder` contract: a vocabulary sorted in code-point order, holding exactly the products that occur;
  - one-hot cells;
  - column counts and exact-ratio column means.
- `Apriori` (`apriori.dfy`):
  - support of an itemset as the fraction of rows that contain it;
  - a reference enumerator of all itemsets of one to three columns;
  - the frequent-itemset table (support at least 0.001).
- `AssociationRules` (`rules.dfy`): every antecedent/consequent split of every table entry, in the library's order of antecedent sizes. It has:
  - the library's `ValueError` on an empty frequent-itemset table;
  - support lookups that fail like the library's `KeyError`;
  - confidence and lift;
  - the support threshold.
- `Labels` (`labels.dfy`): `extract_content`. The pattern `frozenset\({(.+?)}\)` is anchored at the start, the lazy group needs at least one character, `.` does not match a line break, and `strip("'")` follows.
- `Columns` (`columns.dfy`): `DataFrame.rename(columns = {from: to})` on a header.
- `SupportAnalysis` (`support_analysis.dfy`):
  - the per-window support table;
  - pandas' keyed left merge with suffixes `('', sfx)`;
  - the chain of five merges as a fold over the window list, and the final rename;
  - the method `SupportTable`, which performs the script's statements in order.
- `RuleTable` (`rule_table.dfy`): the rules DataFrame as a class whose methods make the script's in-place changes:
  - two renames;
  - two `astype(str)` casts;
  - two `apply(extract_content)`.

  The method `RulesTable` runs the whole association-rules script from the order values, including the stop when no itemset is frequent.

Supports are exact rationals (`count / n` as `real`).

The enumerator stands in for the library's candidate generation, and the frequent itemsets are proved to be exactly those of one to three items whose support reaches the threshold. So any correct Apriori gives the same table, up to row order.

Choices the code makes that the model keeps:

- **Labels.** The code parses the printed form of a frozenset with a regular expression and returns `None` when it does not match (`Labels.ExtractContent`). A typed normaliser working on the set itself is not modelled.
- **Multi-item labels.** A multi-item set keeps the `', '` separators of the printed form, in Python's iteration order (`Labels.ExtractRendered`).
- **Labels with an apostrophe.** Python prints such a label in double quotes, and the code keeps those quotes (`Labels.ExtractDoubleQuoted`).
- **Missing window supports.** The code's left join leaves a product missing from a window as NaN, and the model uses `None` for it (`SupportAnalysis.SupportIn`). Products that are present always have a positive support, so a missing support and a zero support never meet.
- **No frequent itemset.** When no product is in 0.1% of the orders, `association_rules` raises its `ValueError` and the script stops before the upload (`RuleTable.RulesTable`).

## Model

| member | source | states |
|---|---|---|
| Orders.Split | support_analysis.py:46 | splitting on `", "` gives at least one piece; the pieces joined with `", "` give back the string; no piece contains the separator |
| Orders.SplitJoin | support_analysis.py:46 | splitting the join of separator-free pieces gives back exactly those pieces |
| Orders.Tokenise | support_analysis.py:46 | a NULL (non-string) order value becomes the empty transaction; a string becomes separator-free pieces that re-join to it |
| Orders.Transactions | support_analysis.py:46-49 | one transaction per order, in order, each the tokenised order value |
| Encoding.StrLessTotal | support_analysis.py:52 | any two different product names are ordered one way or the other |
| Encoding.StrLessTransitive | support_analysis.py:52 | code-point order is transitive |
| Encoding.SortedUnique | support_analysis.py:52 | two strictly sorted vocabularies with the same products are equal, so the fitted columns are determined by the set of products |
| Encoding.Insert | support_analysis.py:52 | inserting into a sorted vocabulary keeps it sorted and adds exactly the new product |
| Encoding.Fit | support_analysis.py:52 | the vocabulary is strictly sorted (each product once) and holds exactly the products occurring in some order |
| Encoding.Transform | support_analysis.py:55 | one row per order, as wide as the vocabulary; a cell is set exactly when the column's product is in the order |
| Encoding.Encode | support_analysis.py:52-58 | the frame is well formed, its columns are the sorted occurring products, it has one row per order, and cell (r, i) is true exactly when product i occurs in order r |
| Encoding.EncodedRowItems | support_analysis.py:55-58 | the products marked in row r are exactly the products of order r |
| Encoding.EmptyOrderRow | assocation_rules.py:49-61 | an empty (NULL) order gives an all-false row |
| Encoding.EncodeIgnoresMultiplicity | support_analysis.py:55-58 | orders with the same product sets encode to the same frame, whatever the order and repetition of products |
| Encoding.RepeatedProduct | support_analysis.py:55-58 | repeating a product inside one order changes nothing |
| Encoding.CountContainingPositive | support_analysis.py:61 | a product that occurs is contained in at least one order |
| Encoding.TransformColumnCount | support_analysis.py:55-61 | the true cells of column i count the orders containing product i |
| Encoding.ItemSupport | support_analysis.py:61 | `ColumnMean`, the `mean()` of column i: for every vocabulary product, the number of orders containing it over the number of orders, in (0, 1] |
| Apriori.CountAntiMonotone | assocation_rules.py:64-65 | a superset is contained in no more rows than a subset |
| Apriori.SupportBounds | assocation_rules.py:64-65 | `Support`, the support apriori computes, lies in [0, 1] |
| Apriori.SupportAntiMonotone | assocation_rules.py:64-65 | a superset's support never exceeds a subset's |
| Apriori.FrequentSupportPositive | assocation_rules.py:64-65 | support at least 0.001 means some row contains the itemset and the support is positive |
| Apriori.SupportOfOrders | assocation_rules.py:49-65 | on the encoded orders, `Support` of an itemset is the fraction of orders that hold all its products |
| Apriori.CombosSoundAt | assocation_rules.py:64-65 | every set the enumerator lists at level k is a k-element set of columns |
| Apriori.CombosComplete | assocation_rules.py:64-65 | every k-element set of columns is listed at level k |
| Apriori.CombosExact | assocation_rules.py:64-65 | level k lists exactly the k-element sets of columns |
| Apriori.CombosDistinct | assocation_rules.py:64-65 | no set is listed twice at one level |
| Apriori.LevelsExact | assocation_rules.py:64-65 | levels 1 to k list exactly the sets of one to k columns |
| Apriori.LevelsDistinct | assocation_rules.py:64-65 | no candidate itemset is listed twice |
| Apriori.KeepFrequent | assocation_rules.py:64-65 | an entry is kept exactly when its itemset is a candidate, its support is the frame's, and that support is at least 0.001 |
| Apriori.KeepFrequentDistinct | assocation_rules.py:64-65 | distinct candidates give distinct table entries |
| Apriori.FrequentItemsetsExact | assocation_rules.py:64-65 | `FrequentItemsets`, the `apriori` call: the table holds an entry for s exactly when s is a set of one to three columns with support at least 0.001, with that support; no itemset appears twice |
| Apriori.FrequentSubset | assocation_rules.py:64-65 | every non-empty subset of a frequent itemset is frequent |
| AssociationRules.InColumnOrder | assocation_rules.py:68-70 | the listed columns are exactly the columns of the itemset, without repeats |
| AssociationRules.SplitsOfSizeExact | assocation_rules.py:68-70 | the antecedents of sizes k down to 1 are exactly the non-empty subsets of at most k items |
| AssociationRules.SplitsOfExact | assocation_rules.py:68-70 | the splits of one itemset are exactly its non-empty proper subsets as antecedents |
| AssociationRules.AllSplitsExact | assocation_rules.py:68-70 | a split is listed exactly when its itemset is in the table and its antecedent is a non-empty proper subset of it |
| AssociationRules.Lookup | assocation_rules.py:68-70 | a found support is the table's entry for that itemset; not found means no entry has those items |
| AssociationRules.Generate | assocation_rules.py:68-70 | the only error the rule loop raises is the `KeyError` of a subset missing from the table |
| AssociationRules.GenerateAgrees | assocation_rules.py:68-70 | `Generate` over `RuleFor`: when the table records the frame's supports of both sides, no lookup fails, threshold 0 drops no rule, and each rule is the one the frame defines |
| AssociationRules.Rules | assocation_rules.py:68-70 | `association_rules` raises its empty-table `ValueError` exactly when the frequent-itemset table is empty |
| AssociationRules.LookupFrequent | assocation_rules.py:68-70 | the lookup of a frequent itemset in the apriori table yields its support |
| AssociationRules.FrequentPositive | assocation_rules.py:64-70 | every support in the apriori table is positive and every itemset in it is a set of columns |
| AssociationRules.SplitOfFrequent | assocation_rules.py:68-70 | the table holds the frame's supports for both sides of every split it gives rise to, and the rule the frame defines for the split is valid |
| AssociationRules.SplitListed | assocation_rules.py:68-70 | every split of a frequent itemset into a non-empty proper antecedent is enumerated |
| AssociationRules.SplitsOfSizeDistinct | assocation_rules.py:68-70 | no antecedent of one itemset is enumerated twice |
| AssociationRules.AllSplitsDistinct | assocation_rules.py:68-70 | over a table without repeated itemsets, no split is enumerated twice |
| AssociationRules.RulesOfSplitsDistinct | assocation_rules.py:64-70 | the rules of apriori's table are pairwise different |
| AssociationRules.RulesOfFrequentItemsets | assocation_rules.py:64-70 | `association_rules` raises its `ValueError` exactly when apriori found no itemset, and otherwise succeeds; every rule has non-empty disjoint sides whose union is frequent with at least two items; its supports are the frame's; confidence is support over antecedent support and at most 1; lift is confidence over consequent support; every split of every frequent itemset appears; and no rule appears twice |
| Labels.ScanClose | assocation_rules.py:80 | the scan finds the lazy group's end exactly when the pattern has a match, and finds it |
| Labels.StripLeading | assocation_rules.py:83 | removes exactly the leading run of `'` |
| Labels.StripTrailing | assocation_rules.py:83 | removes exactly the trailing run of `'` |
| Labels.StripQuotes | assocation_rules.py:83 | `strip("'")` leaves a string no longer than its input that neither begins nor ends with `'` |
| Labels.StripQuotesExact | assocation_rules.py:83 | `strip("'")` leaves the piece of the string between a leading run and a trailing run of `'` |
| Labels.ExtractContent | assocation_rules.py:79-85 | a label is returned exactly when the string starts with `frozenset({`, then at least one character without a line break, then `})`; the label is the text up to the first such `})`, stripped of `'` at both ends |
| Labels.ExtractIgnoresSuffix | assocation_rules.py:80 | text after the closing `})` does not change the result |
| Labels.ExtractEmptySet | assocation_rules.py:80-85 | `frozenset()` and `frozenset({})` give None |
| Labels.ExtractWrapped | assocation_rules.py:80-83 | the prefix, a group without `})` or line break, and `})` give the stripped group |
| Labels.ExtractRendered | assocation_rules.py:80-83 | a printed set of labels without `})` or line breaks gives those labels joined with `', '` |
| Labels.ExtractSingle | assocation_rules.py:80-83 | `frozenset({'X'})` gives exactly X, when X fits the pattern and does not begin or end with `'` |
| Labels.ExtractDoubleQuoted | assocation_rules.py:80-83 | `frozenset({"X"})`, Python's form for a label with an apostrophe, gives X with its double quotes still around it |
| Columns.Renamed | support_analysis.py:308 | every column named `from` is named `to`, the others keep names and places |
| Columns.RenamedBack | support_analysis.py:308 | renaming to an unused name is undone by renaming back |
| SupportAnalysis.WindowTable | support_analysis.py:61-65 | one row per vocabulary product, in column order, holding its column mean under the single column `support` |
| SupportAnalysis.Find | support_analysis.py:303-307 | a found row is in the table with the key; not found means no row has the key |
| SupportAnalysis.Suffixed | support_analysis.py:303-307 | a column name clashing with the other table's gets the suffix, the others stay |
| SupportAnalysis.LeftMergeRows | support_analysis.py:303-307 | `LeftMerge` against a right table with unique keys keeps every left row in order with its values and appends the right values for its key, or missing values |
| SupportAnalysis.MergeWindowsRows | support_analysis.py:303-307 | `MergeWindows`, the chain of merges, keeps exactly the all-time rows, in order, with their support, followed by each window's value for the product |
| SupportAnalysis.MergeWindowsColumns | support_analysis.py:303-307 | after the merges the value columns are `support` followed by `support` plus each window's suffix |
| SupportAnalysis.WindowTableShaped | support_analysis.py:61-65 | a window table has unique product keys and one value per row |
| SupportAnalysis.SupportIn | support_analysis.py:46-65 | a window's support for a product is defined exactly when some order of the window lists it, and then lies in (0, 1] |
| SupportAnalysis.WindowSupportValue | support_analysis.py:46-65 | `WindowSupport` gives a table with unique keys, and looking a product up in it gives the product's support in the window, or missing when no order of the window lists it |
| SupportAnalysis.WindowWithinAll | support_analysis.py:24-77 | when each window order lists the same products as some all-time order (the all-time query has no date filter, each window query adds one), every product with a window support has an all-time row, so no window value is lost |
| SupportAnalysis.SupportFrameRows | support_analysis.py:303-308 | `SupportFrame`, the merged and renamed table, has one row per all-time vocabulary product, in order, with its all-time support and then its support in each window |
| SupportAnalysis.MergeFive | support_analysis.py:303-307 | the fold over the five windows is the script's chain of five merges with suffixes `_30` … `_730` |
| SupportAnalysis.RenamedHead | support_analysis.py:308 | `Rename` of `support` to `support_all` changes the first column only, when no window column is named `support` |
| SupportAnalysis.SupportFrameNames | support_analysis.py:303-308 | after the merges and the rename the columns are support_all followed by each window's suffixed name |
| SupportAnalysis.SupportFrameColumns | support_analysis.py:303-308 | the final columns are support_all, support_30, support_90, support_180, support_365, support_730 after the `product` key |
| SupportAnalysis.SupportFrameFive | support_analysis.py:303-308 | each row holds the product's all-time support and its supports in the five windows, in that order |
| SupportAnalysis.SupportTable | support_analysis.py:46-308 | the script's statements give the columns support_all … support_730, one row per all-time vocabulary product in order, and per row the product's support in every window (missing where the window lacks it) |
| RuleTable.AsStr | assocation_rules.py:75-76 | a cast cell is a string: a frozenset's printed form, a string unchanged |
| RuleTable.Label | assocation_rules.py:87-88 | a label exactly when `extract_content` matches, namely the text it returns; otherwise None |
| RuleTable.LabelOfRendered | assocation_rules.py:75-88 | a set printed as its quoted labels is stored as those labels joined by `', '` |
| RuleTable.CastAll | assocation_rules.py:75-76 | `astype(str)` on a column: cell by cell, a frozenset becomes its printed form |
| RuleTable.LabelAll | assocation_rules.py:87-88 | `apply(extract_content)` on a column: cell by cell, the label the pattern finds, or None |
| RuleTable.StoredLabels | assocation_rules.py:75-88 | casting a column of frozensets and then extracting gives, cell by cell, the label of each printed set |
| RuleTable.RuleFrame.constructor | assocation_rules.py:68-70 | the library's header and one frozenset cell per rule side |
| RuleTable.RuleFrame.Rename | assocation_rules.py:73-74 | only the header changes, by `Columns.Renamed` |
| RuleTable.RuleFrame.CastToStr | assocation_rules.py:75-76 | the chosen column is cast cell by cell; the other column and the header are unchanged |
| RuleTable.RuleFrame.ExtractLabels | assocation_rules.py:87-88 | the chosen column becomes the labels of its printed cells; the other column and the header are unchanged |
| RuleTable.StoreRules | assocation_rules.py:73-88 | the rules keep order and statistics, the header is the stored one with `antecedent_support` and `consequent_support`, and each side cell is the label of its printed frozenset |
| RuleTable.RulesTable | assocation_rules.py:49-88 | from the order values: the script stops with the empty-table `ValueError` exactly when no product is in 0.1% of the orders; otherwise the stored header, every rule valid for the encoded orders, every split of every frequent itemset present, no rule twice, and each side cell the label of its printed form |

## Left out

- Credentials, `.env` loading, BigQuery clients, SQL text and query execution. Each window's orders are given as a parameter.
- SupportAnalysis.WindowWithinAll: the date filters run against `CURRENT_DATE()` on the server. The premise "each window order lists the same products as some all-time order" stands in for that.
- Building DataFrames from query rows, `print`, `to_gbq` uploads and their try/except. These are I/O.
- The `order_id`, `date_created` and `total` columns, which the analysis never reads.
- Order values that are neither NULL nor strings are modelled as NULL, the same branch of `isinstance(x, str)`.
- `apriori` on a frame without rows or without columns is taken to return no itemsets; the library's own handling of those frames (a division by zero in the supports or an input check) is not modelled.
- `TransactionEncoder`, `apriori` and `association_rules` internals. Only their output contracts are modelled. The library's candidate pruning is replaced by the reference enumerator in `Apriori.Combos`.
- The library's extra rule columns (leverage, conviction, zhangs_metric and others), which the script never uses.
- RuleTable.RulesTable: the row order of rules within one itemset follows column order; the library uses frozenset iteration order. The set of rules and each rule's statistics are exact.
- RuleTable.AsStr: Python's `str` of a frozenset is a parameter `render`. Its element order depends on string hashing.
- IEEE-754 rounding in `mean()`, in the supports and in confidence and lift. All are exact rationals.
- Encoding.ColumnMean: pandas returns NaN for the mean of an empty frame; the model returns 0. No row is built from it, because no orders means an empty vocabulary.
- pandas' error for duplicate column names after a merge cannot arise with these suffixes, and is not modelled.
