# maps_dashboard, modelled in Dafny

maps_dashboard is a small web dashboard over a survey table. Each column of
the table holds the integer answer codes of one variable. A catalog gives each
variable a description and a list of (code, label) mappings. The dashboard
draws four kinds of plot:

- a histogram of one variable;
- a comparison of two variables (counts, percentages, percentages within each
  group, or the mean of one variable grouped by the other);
- a map that colours each unit by an aggregate of its rows.

Every plot can be rendered in one of the output formats the server knows.

The model covers:

- how the server builds its queries and sanitises identifiers;
- how it turns a variable's mappings into a dictionary and relabels a column;
- how every plot function filters, aggregates, normalises and orders the data
  it hands to the renderer;
- how the routes choose between an image, an HTTP status and an escaping
  exception;
- the font-fitting loop of the text helper.

Modules:

- `Base`: Option/Result, the Python exceptions that can occur, and sequence
  helpers (subsequence, occurrences).
- `Dicts`: a Python dict as an insertion-ordered key list plus a map. It
  covers dict comprehensions, where the last value for a key wins but the
  key's place is its first occurrence, and filtering comprehensions.
- `Orm` (orm.py):
  - `sqlcol`;
  - the `getvar` query;
  - `getdict` and `getdescr` over a catalog given as a sequence of variables;
  - `withmeta`, which relabels codes and sorts levels by reverse-mapped key.
- `Plotting` (plotting.py):
  - the MIME table;
  - `plotbytes`, with the plot function as a parameter;
  - `calcwidth`, `nlines`, `wrap`, `nlwrap` and `wrapped`;
  - `maximizeText`, an imperative method with both of its loops, in tenths
    of a point.
- `Plots` (plots.py): the aggregation and ordering parts of `hist`, `count`
  and `mean`. Each one returns a record of exactly what it would pass to
  seaborn/matplotlib: bars, axis order, hue order, ticks, titles and width.
- `App` (app.py):
  - `resolve_hist` and `resolve_comp`, with their status and exception
    outcomes;
  - the aggregation of `resolve_map`: one `for` loop that groups by unit and
    another that merges the groups onto the geography;
  - the variable and format lists of `resolve_dash`.

Behaviour worth knowing that the model makes explicit:

- **Histogram denominator.** A histogram's proportions are taken over the
  counts that survive the floor. Codes with no label are dropped by
  `value_counts` before that. A code that has a label with a negative key
  still counts towards the denominator but is hidden from the axis
  (`HistHidesNegativeKeys`).
- **Comparison counts.** Comparison counts only ever contain observed
  (v1, v2) pairs. A pair that never occurs gets no cell, not a zero cell.
- **Histogram width.** `calcwidth` is applied to the proportion column, so the
  width counts distinct proportions, not categories. When all bars are equal
  the figure is 6 wide, however many bars there are (`HistWidthEqualCounts`).
- **Unsanitised names in `resolve_hist`.** The column is fetched under the
  sanitised name but looked up under the raw one. A name that sanitising
  changes therefore raises KeyError (`ResolveHist`).
- **`resolve_comp` errors.** The same raw-name lookup happens in the
  comparison plot functions (`DrawComp`). Two names that sanitise to the same
  column make the join fail with ValueError. An unknown plot type raises
  KeyError, and `incat` is never forwarded (`ResolveCompIgnoresIncat`).
- **`maximizeText`.** It returns the line width and the floor of the font
  size, not wrapped text. When the shrinking branch completes, it ends at the
  minimum size. That branch wraps the text at `floor(width / fontsize)`
  characters. `textwrap.wrap` rejects a width below 1, so a box narrower than
  the minimum size raises ValueError for any text with a non-empty line
  (`MaximizeText`). For a positive width, a text whose lines are all empty
  takes the growth branch and is never wrapped. At a negative width it
  raises ValueError too.
  `height` is never read.
- **`mean` with no rows.** When no row is left (no rows at all, or, without
  `keepna`, none with two positive codes), `min()` and `max()` are NaN.
  `plt.ylim` then raises ValueError, so `resolve_comp` fails (`Mean`,
  `DrawComp`).

Where the dashboard's documented behaviour and its code differ, the model
follows the code:

- The documented histogram denominator includes unmapped sentinel codes. The
  code drops unlabelled codes before normalising.
- The documented contingency table includes zero cells. The code's
  `value_counts` yields only observed pairs.
- The documented label dictionaries are strictly ascending by key. The code's
  `getdict` (orm.py:73) iterates `var.mappings`, a relationship declared
  without `order_by` (orm.py:33). Its keys therefore come in the order the
  mappings load (`GetDictOrder`).
- The landing page's variable query (app.py:103) has no `order_by` either, so
  the variables come in the order the database returns them. The model takes
  the catalog to be in that order, and `DashVariables` keeps it.

## Model

| member | source | states |
|---|---|---|
| Dicts.Insert | maps_dashboard/orm.py:73 | assigning a key keeps the dict well formed, replaces the value of a present key in place and appends a new key at the end |
| Dicts.FromPairsKeys | maps_dashboard/orm.py:73 | the keys of the comprehension are exactly the keys occurring among the pairs |
| Dicts.FromPairsLastWins | maps_dashboard/orm.py:73 | a key's value is the one from its last pair |
| Dicts.FromPairsValue | maps_dashboard/orm.py:73 | every key that occurs maps to the value of its last occurrence |
| Dicts.FromPairsOrder | maps_dashboard/orm.py:73 | keys are ordered by their first occurrence among the pairs |
| Dicts.Filter | maps_dashboard/plots.py:28 | a filtering comprehension keeps exactly the entries satisfying the predicate, with unchanged values, in the original key order |
| Dicts.FilterValuesMembers | maps_dashboard/plots.py:41 | a value is in the filtered dict's values iff some entry with that value satisfies the predicate |
| Dicts.FilterTwice | maps_dashboard/plots.py:28-33 | two successive filters give the same values, with the same multiplicity and in dict order, as one filter on both predicates; these are exactly the values of entries satisfying both |
| Dicts.FilteredValues | maps_dashboard/plots.py:28-41 | the values left after two filters equal those of one filter on both conditions; they are a subsequence of the dict's values and are exactly those whose entry satisfies both predicates |
| Orm.SqlCol | maps_dashboard/orm.py:51 | the result consists only of letters, digits and underscores and is no longer than the input |
| Orm.SqlColKeepsAllowed | maps_dashboard/orm.py:51 | each allowed character occurs in the result as often as in the input; every other character is removed |
| Orm.SqlColConcat | maps_dashboard/orm.py:51 | sanitising distributes over concatenation, so the kept characters keep their order |
| Orm.SqlColFixedPoint | maps_dashboard/orm.py:51 | a name is returned unchanged iff it is already an identifier |
| Orm.SqlColIdempotent | maps_dashboard/orm.py:51 | sanitising twice is sanitising once |
| Orm.GetVarQuery | maps_dashboard/orm.py:53-54 | the query is "SELECT " followed by an identifier followed by " FROM data", so no user text outside the identifier alphabet reaches it |
| Orm.GetVarQuerySanitised | maps_dashboard/orm.py:53-54 | a name and its sanitised form produce the same query |
| Orm.GetVar | maps_dashboard/orm.py:53-54 | ProgrammingError iff the sanitised name is empty or not a column; otherwise the column under the sanitised name |
| Orm.FindVariable | maps_dashboard/orm.py:72 | `.first()`: nothing iff no variable has the name, otherwise the earliest variable with that name |
| Orm.GetDict | maps_dashboard/orm.py:71-73 | AttributeError iff the variable is unknown; otherwise a well-formed dict whose keys are exactly the mapping keys |
| Orm.GetDictLastWins | maps_dashboard/orm.py:73 | on duplicate keys the value of the last mapping wins |
| Orm.GetDictOrder | maps_dashboard/orm.py:73 | the dict lists keys in the order of their first mapping |
| Orm.GetDescr | maps_dashboard/orm.py:75-76 | AttributeError iff the variable is unknown; otherwise the description of a catalog variable with that name |
| Orm.Relabel | maps_dashboard/orm.py:57-59 | same length; each code becomes its label, or none when the dict lacks it |
| Orm.RevMapSpec | maps_dashboard/orm.py:63 | the reverse map's keys are exactly the dict's values, each mapped to the last key holding it |
| Orm.RevMapDomain | maps_dashboard/orm.py:63 | a label is a key of the reverse map iff it is one of the dict's values |
| Orm.RevMapLast | maps_dashboard/orm.py:63 | the reverse map sends a label to a key holding it after which no key holds it |
| Orm.RevMapInverts | maps_dashboard/orm.py:63 | for a dict with distinct labels the reverse map inverts it |
| Orm.InsertByKey | maps_dashboard/orm.py:66 | the result holds the list's elements and the inserted one, each as often as before, all of them keyed |
| Orm.InsertByKeySorted | maps_dashboard/orm.py:66 | inserting into a list sorted by the key function keeps it sorted |
| Orm.SortByKey | maps_dashboard/orm.py:66 | the result is a permutation of the input, sorted by the key function |
| Orm.LevelsSorted | maps_dashboard/orm.py:65-66 | the levels are a permutation of the dict's values sorted by reverse-mapped key |
| Orm.LevelsLabels | maps_dashboard/orm.py:63-66 | one level per key, each a label whose reverse-mapped key maps back to it |
| Orm.LevelsDistinct | maps_dashboard/orm.py:63-66 | with distinct labels no level repeats |
| Orm.LevelsAscendingKeys | maps_dashboard/orm.py:63-66 | with distinct labels the levels are the labels in strictly ascending order of their codes |
| Orm.WithMeta | maps_dashboard/orm.py:56-69 | AttributeError iff the variable is unknown; otherwise one label per code, the mapped label or none, and the levels (the dict's values sorted by reverse-mapped key) that `withmeta` attaches as `series.levels`; nothing downstream reads them |
| Plotting.ResolveFormat | maps_dashboard/plotting.py:19-26 | a missing or falsy format is png; a given format is accepted iff it is a MIME-table key; otherwise NotImplementedError |
| Plotting.Forwarded | maps_dashboard/plotting.py:21 | the plot function receives every keyword argument except "format", unchanged |
| Plotting.PlotBytes | maps_dashboard/plotting.py:17-32 | an unsupported format raises NotImplementedError; the result is a picture iff the format resolves and the plot function succeeds; then the MIME type is the table's entry for the resolved format and the figure is what the plot function drew from the forwarded arguments; its exceptions propagate |
| Plotting.PlotBytesRejectsBeforeDrawing | maps_dashboard/plotting.py:23-30 | with any format that does not resolve, the outcome is NotImplementedError whatever the plot function does |
| Plotting.PlotBytesDefaultsToPng | maps_dashboard/plotting.py:19-20 | with no or an empty format the result is a PNG with MIME type image/png |
| Plotting.CalcWidth | maps_dashboard/plotting.py:35 | the width is at least 6; it is 2.2 times the number of distinct values from three distinct values on, and 6 below |
| Plotting.CalcWidthMonotone | maps_dashboard/plotting.py:35 | a series whose distinct values include another's is never narrower |
| Plotting.Split | maps_dashboard/plotting.py:37 | one more piece than separators, and no piece contains the separator |
| Plotting.JoinSplit | maps_dashboard/plotting.py:36-37 | joining the pieces of a split with the separator gives the string back |
| Plotting.NLines | maps_dashboard/plotting.py:37 | the line count is the number of newlines plus one |
| Plotting.Wrapped | maps_dashboard/plotting.py:38 | one wrapped label per label, in the same order |
| Plotting.MaxLen | maps_dashboard/plotting.py:48 | the widest line bounds every line and is attained by one |
| Plotting.GrowTenthsSpec | maps_dashboard/plotting.py:52-58 | the growth loop stops at the first size above the start at which the text fills the box, or at the maximum, never above it |
| Plotting.FittedTenthsSpec | maps_dashboard/plotting.py:42-69 | the fitted size is positive and lies between minimum and maximum; a text already too wide keeps the minimum; otherwise it is the first size that fills the box, or the maximum |
| Plotting.ShrinkTenths | maps_dashboard/plotting.py:59-69 | entered with the text at least as wide as the box at the minimum size: ValueError iff it is strictly wider and the box is narrower than the minimum size, as the first wrap then gets width 0; otherwise the loop ends at the minimum size |
| Plotting.MaximizeText | maps_dashboard/plotting.py:42-70 | ValueError iff the text is wider than the box at the minimum size and the box is narrower than the minimum size, because the first wrap then gets width 0; otherwise the loops end at the fitted size, and the method returns the line width for it and its floor, which lies between the minimum and the maximum |
| Plots.Uniques | maps_dashboard/plots.py:24 | each distinct value exactly once |
| Plots.Tally | maps_dashboard/plots.py:24 | each value paired with its number of occurrences |
| Plots.AboveFloor | maps_dashboard/plots.py:25 | keeps, in order, exactly the counts above the floor |
| Plots.RetainedCounts | maps_dashboard/plots.py:24-25 | the kept counts are exactly the occurring values with their counts above the floor, each once, all positive |
| Plots.RetainedMembers | maps_dashboard/plots.py:24-25 | a (value, count) pair is kept iff the value occurs that many times and more often than the floor |
| Plots.RetainedDistinct | maps_dashboard/plots.py:24-25 | no value is kept twice |
| Plots.RetainedPositive | maps_dashboard/plots.py:24-25 | every kept count is positive |
| Plots.TallyTotal | maps_dashboard/plots.py:24-26 | the kept counts add up to the number of entries whose value is frequent |
| Plots.RetainedTotal | maps_dashboard/plots.py:24-26 | the denominator is the number of entries whose value occurs more often than the floor |
| Plots.CountInSingleton | maps_dashboard/plots.py:24 | counting entries in a one-element set counts that value's occurrences |
| Plots.CountInUnion | maps_dashboard/plots.py:26 | counts over disjoint sets add up |
| Plots.Scaled | maps_dashboard/plots.py:26 | each count divided by the total, keys unchanged |
| Plots.ScaledSum | maps_dashboard/plots.py:26 | the scaled counts add up to the total divided by the divisor |
| Plots.Proportions | maps_dashboard/plots.py:26 | empty iff the total is zero; otherwise each count divided by the total |
| Plots.ProportionsSpec | maps_dashboard/plots.py:26 | positive counts give shares in (0, 1] that add up to 1 |
| Plots.Present | maps_dashboard/plots.py:24 | `value_counts` ignores unlabelled entries and keeps every label occurrence |
| Plots.HistRetained | maps_dashboard/plots.py:24-25 | the histogram keeps exactly the labels occurring more often than the floor, with their counts, each once |
| Plots.HistSharesSpec | maps_dashboard/plots.py:24-26 | one share per kept label, in (0, 1], equal to its count over the kept total, adding up to 1 |
| Plots.HistDenominator | maps_dashboard/plots.py:24-26 | the denominator counts only labelled entries whose label passes the floor |
| Plots.HistOrder | maps_dashboard/plots.py:28-33 | the axis order is the dict's labels in dict order that were kept, without negative keys unless keepna |
| Plots.HistHidesNegativeKeys | maps_dashboard/plots.py:26-33 | a frequent label with only negative keys has a bar but no place on the axis unless keepna |
| Plots.HistWidthEqualCounts | maps_dashboard/plots.py:50 | equal bar counts give width 6 whatever the number of bars |
| Plots.Bars | maps_dashboard/plots.py:29 | one bar per kept label, in order, its label wrapped and its share unchanged |
| Plots.Hist | maps_dashboard/plots.py:12-50 | AttributeError iff the variable is unknown; otherwise one wrapped bar per kept label with its share, the wrapped axis order, the wrapped description as title, the width |
| Plots.CountRetained | maps_dashboard/plots.py:55-56 | the cells are exactly the observed code pairs counted more often than the floor, each once, all positive |
| Plots.CountCells | maps_dashboard/plots.py:55-56 | every kept cell count is positive |
| Plots.GroupTotalPositive | maps_dashboard/plots.py:59-60 | every v1 group of kept cells has a positive total |
| Plots.ByGroup | maps_dashboard/plots.py:60 | one share per cell, same keys |
| Plots.ByGroupSlice | maps_dashboard/plots.py:60 | within a v1 group each cell is divided by that group's total |
| Plots.AsReals | maps_dashboard/plots.py:55-56 | the counts unchanged, as reals |
| Plots.Normalise | maps_dashboard/plots.py:58-63 | one value per cell, same keys |
| Plots.CountGlobalShares | maps_dashboard/plots.py:61-63 | percentages divide each cell by the grand total and add up to 1 |
| Plots.CountGroupShares | maps_dashboard/plots.py:59-60 | group percentages add up to 1 within every v1 group |
| Plots.LabelColumnsErr | maps_dashboard/plots.py:68-72 | relabelling fails with AttributeError iff one of the variables is unknown |
| Plots.LabelColumnsOk | maps_dashboard/plots.py:68-72 | on success each column is relabelled with its own variable's dict and `dicts` holds exactly those dicts |
| Plots.LabelColumnsPrefixErr | maps_dashboard/plots.py:70-72 | the first unknown variable's error is the loop's outcome |
| Plots.RelabelColumns | maps_dashboard/plots.py:68-72 | the loop computes the relabelled columns and dicts, or the first error |
| Plots.LabelPair | maps_dashboard/plots.py:70-72 | for v1 and v2: an error iff either is unknown, otherwise both columns relabelled with their dicts |
| Plots.CountOrder | maps_dashboard/plots.py:76-80 | the category order is v1's labels in dict order whose key is non-negative unless keepna and which occur in the data |
| Plots.HueOrder | maps_dashboard/plots.py:76-78 | the hue order is v2's labels in dict order whose key is non-negative unless keepna |
| Plots.Count | maps_dashboard/plots.py:52-106 | AttributeError iff either variable is unknown; otherwise the figure drawn from the kept cells, their codes relabelled through the two dicts, and their normalised values |
| Plots.CountSpec | maps_dashboard/plots.py:52-106 | a successful count has one cell per kept code pair with both looked-up labels and its normalised value, v1's kept labels as order, v2's as hue order, the wrapped ticks, the wrapped titles and the width of the relabelled v1 column |
| Plots.CountFigure | maps_dashboard/plots.py:74-104 | the labelled cells, orders, ticks, legend, titles and width handed to the renderer |
| Plots.LabelledCells | maps_dashboard/plots.py:65-72 | one row per cell holding its two labels and its value, in cell order |
| Plots.Legend | maps_dashboard/plots.py:101-102 | one legend entry per hue, in hue order, wrapped at 15 characters |
| Plots.KeepPositive | maps_dashboard/plots.py:114 | keeps, in order, exactly the rows whose column is positive |
| Plots.PositiveRows | maps_dashboard/plots.py:112-114 | keeps, in order, exactly the rows with both codes positive |
| Plots.DropNonPositive | maps_dashboard/plots.py:112-114 | the filtering loop keeps exactly the rows with both codes positive |
| Plots.Range | maps_dashboard/plots.py:121 | none iff there are no values; otherwise the smallest and largest value |
| Plots.GroupValues | maps_dashboard/plots.py:128-133 | one value of v2 per row labelled with the category |
| Plots.SumBounds | maps_dashboard/plots.py:128-133 | a sum of bounded values is bounded by count times the bounds |
| Plots.MeanBetween | maps_dashboard/plots.py:121-140 | a mean lies between any bounds of its values |
| Plots.MeanOrder | maps_dashboard/plots.py:123-124 | the order is v1's labels in dict order, only positive keys unless keepna |
| Plots.Firsts | maps_dashboard/plots.py:117 | the first component of every pair, in order: the v1 column of the rows, or the categories of counts |
| Plots.Seconds | maps_dashboard/plots.py:121 | the second component of every pair, in order: the v2 column of the rows, or the shares of counts |
| Plots.GroupMeans | maps_dashboard/plots.py:128-133 | one bar per ordered category, the mean of its rows' v2 values |
| Plots.MeansWithinRange | maps_dashboard/plots.py:121-140 | every bar lies within the y-axis limits taken over the raw values |
| Plots.Mean | maps_dashboard/plots.py:110-142 | AttributeError iff either variable is unknown; otherwise ValueError iff no row is kept, since the y-limits would be NaN; otherwise the ordered bars with their group means, y-limits from the kept values that contain every bar, ticks, labels and width |
| App.Zip | maps_dashboard/app.py:51 | the join pairs the two columns row by row |
| App.ModeOf | maps_dashboard/app.py:76-81 | "eq" compares for equality, "gt" for greater, anything else falls through to the mean |
| App.Valued | maps_dashboard/app.py:63-66 | the query keeps, in order, exactly the rows with a value above -1 |
| App.MapRows | maps_dashboard/app.py:63-66 | a row is read iff its value is above -1 and it pairs a unit with its value in the table |
| App.UnitValuesSpec | maps_dashboard/app.py:83-84 | a unit has values iff some row belongs to it, and each comes from such a row |
| App.UnitValuesNonEmpty | maps_dashboard/app.py:83-84 | a unit has a group iff some row belongs to it |
| App.UnitValuesFrom | maps_dashboard/app.py:83-84 | every value of a unit's group is the value of one of its rows |
| App.AllValues | maps_dashboard/app.py:67 | the value column of the rows |
| App.Hits | maps_dashboard/app.py:77-85 | the sum of the indicator is zero iff no row hits and equals the count iff all do |
| App.AggregateSpec | maps_dashboard/app.py:83-93 | a share mode gives a percentage in [0, 100] that is 0 iff no row hits and 100 iff all do; the mean lies within the unit's values |
| App.ShareRange | maps_dashboard/app.py:90 | hits over count times 100 lies in [0, 100], 0 iff no hit, 100 iff all |
| App.MergeSpec | maps_dashboard/app.py:95 | the inner merge keeps, in geography order, exactly the units with rows, each with its unit's aggregate |
| App.MergeOrder | maps_dashboard/app.py:95 | the merged units are a subsequence of the geodata rows |
| App.MergeMembers | maps_dashboard/app.py:95 | a geodata row is merged iff its unit has data rows |
| App.MergeValues | maps_dashboard/app.py:95 | every merged unit has data rows and carries their aggregate |
| App.MergeAt | maps_dashboard/app.py:95 | the merged unit at a given position has data rows and carries their aggregate |
| App.MergeAppend | maps_dashboard/app.py:95 | merging two runs of geodata rows is merging each and concatenating |
| App.MergeWithinScale | maps_dashboard/app.py:67-93 | every merged value lies within the colour scale: [0, 100] for shares, the data's range for means |
| App.GroupByUnit | maps_dashboard/app.py:83-84 | the grouping loop maps exactly the units with rows to their values in row order |
| App.MergeUnits | maps_dashboard/app.py:95 | the merging loop computes the inner merge |
| App.AggregateMap | maps_dashboard/app.py:74-95 | the merged units and the scale the map is drawn with |
| App.ResolveMap | maps_dashboard/app.py:59-98 | ProgrammingError iff the sanitised name is empty or no column; NotImplementedError iff the query works and the format is unsupported; never a status; an image iff the query works and the format is supported, and then the merged map with its scale and MIME type |
| App.ResolveHist | maps_dashboard/app.py:23-38 | 404 iff the column query fails; KeyError iff the raw name is not the column; AttributeError iff the variable is unknown; 400 iff the format is unsupported; otherwise the histogram of the column |
| App.HistOfColumn | maps_dashboard/app.py:31-38 | AttributeError iff the variable is unknown; 400 iff the format is unsupported |
| App.HistImage | maps_dashboard/app.py:32-38 | an image is the histogram of the relabelled column with the resolved format's MIME type |
| App.Dispatch | maps_dashboard/app.py:42-47 | the plot-type table: count, mean, pst and grppst, and nothing else |
| App.RawNameIsColumn | maps_dashboard/app.py:51-55 | a raw name is among the joined columns iff sanitising leaves it unchanged |
| App.DrawComp | maps_dashboard/app.py:55 | the comparison plot fails iff a raw name is not a column, a variable is unknown, or a mean plot keeps no row; counts fail on a raw name first; a mean plot with known columns and variables but no kept row raises ValueError; otherwise the count or mean figure |
| App.CompReply | maps_dashboard/app.py:55-57 | an unsupported format raises NotImplementedError whatever the plot function does; otherwise the reply is an image iff the plot function succeeds: its exception escapes, or its figure is served with the format's MIME type; never a status |
| App.ResolveComp | maps_dashboard/app.py:40-57 | 404 iff either query fails; ValueError for one column twice; KeyError for an unknown plot type; NotImplementedError for an unsupported format; otherwise an image iff the dispatched plot function succeeds on the joined columns, holding its figure, and else its exception |
| App.ResolveCompIgnoresIncat | maps_dashboard/app.py:41-55 | the `incat` query parameter never changes the outcome |
| App.DashFormats | maps_dashboard/app.py:132-137 | four formats, each a MIME-table key, no two alike |
| App.DashVariables | maps_dashboard/app.py:103 | the listed variables are, in catalog order (the database's return order), exactly those whose description is not "NaN" |

## Left out

- Web framework, templates and JSON descriptions: FastAPI routing,
  `Response` construction, the Jinja page and the plot-type list with its
  descriptions (app.py:105-130 and 139 on) are presentation and not
  modelled. A route's outcome is a `Reply`: an image, a status or an
  escaping exception.
- Database access: SQLAlchemy sessions, connections and `read_sql` are
  replaced by values. The data table is a map from column name to codes, the
  geography a sequence of units, and the catalog a sequence of variables.
  The `Rectangular` requirement states that all columns of a table have the
  same length, as in any SQL table.
- `util.sanitizeVarname` is not part of this model. `ResolveMap` takes it as
  a parameter.
- `textwrap.wrap` is a parameter (`TextWrap`). Its line-breaking algorithm is
  not modelled.
- Rendering: matplotlib, seaborn, contextily, `plt.clf`, `savefig`, WKT
  parsing and the coordinate reference system are not modelled. Each plot
  returns the data it hands to the renderer, not image bytes. The `map` plot
  function is not modelled beyond the units and scale it receives.
- Floating point: shares and means are exact reals. `maximizeText` steps in
  exact tenths of a point, so rounding in repeated `+= 0.1` is not modelled.
- Plots.Uniques: lists each value at its last occurrence, not in pandas'
  descending-count order. Only the dict-driven axis order reaches the figure.
- App.ResolveMap: the query `SELECT {san} AS var, pdet FROM data WHERE {san}
  > -1` is taken to fail exactly when `san` is empty or not a column. A
  column named in another letter case, or a literal or niladic function such
  as `1`, would run on the server. The route would then go on to draw a map,
  which is not modelled.
- App.ResolveComp: `keepna` arrives as a query string in the source. The
  model takes a boolean, so a string such as "false" being truthy is not
  modelled.
- Orm.GetDescr: descriptions are strings. SQL NULL and its comparison with
  "NaN" in `resolve_dash` are not modelled.
- Plotting.PlotBytes: keyword arguments carry only none, booleans, integers
  and strings. In the source, `resolve_hist` forwards `floor` and `format`
  (app.py:35). `resolve_comp` forwards `keepna`, `floor` and `format`
  (app.py:55), and its `pst` and `grppst` entries add `pst` and `incat`
  (app.py:45-46). `resolve_map` forwards only `format` (app.py:97). In the
  model, only `ResolveComp` builds the full keyword map (`CompKwargs`).
  `ResolveHist` and `ResolveMap` hand `PlotBytes` only `format`. `floor` and
  the map's scale are ordinary parameters of the plot functions, and `pst`
  and `incat` reach `Count` through the dispatched `CompKind`.
- Plotting.MaximizeText: the wrapped text computed in the shrinking loop is
  not returned, as in the source. Font sizes are taken to be positive
  (`minsize` and `maxsize` above 0, also for `ShrinkTenths`). The source
  accepts `minsize` 0 on the growth branch. A size of 0 that reaches
  `linewidth` raises ZeroDivisionError: `minsize` 0 on the shrinking branch,
  or `maxsize` 0.
- Orm.GetVar: the model assumes the database rejects exactly an empty
  sanitised name and a name that is not a column, matched exactly. The
  server's database differs in three cases, none of them modelled:
  - Unquoted identifiers resolve without regard to letter case. A name that
    differs from a column only in case gives 404 here. The server finds the
    column and then raises KeyError when `resolve_hist` or `resolve_comp`
    indexes the frame under the requested name.
  - PostgreSQL accepts an empty select list. A name that sanitises to ""
    (such as "!") gives 404 here. On the server, `SELECT  FROM data` returns
    a frame without columns, and the route then raises KeyError.
  - A sanitised name that is a literal or a niladic function (`1`,
    `current_date`) gives 404 here. The server's query succeeds, and the
    frame lookup under the raw name raises KeyError.
- `__repr__` of the ORM classes, logging and the session factories are not
  modelled.
