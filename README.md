# Pessimists' dashboard: basket selection

A Dafny model of the basket-selection engine of the momentum/alpha strategy
dashboard `PessimistsDash.py`. The script loads three date-by-symbol panels
(momentum, alpha, prices). It aligns momentum and prices on alpha's dates and
keeps the dates inside a chosen window. It then takes every `trade_freq`-th
remaining date as a rebalance date. On each rebalance date:

- it optionally excludes the `top_n_alpha_exclude` symbols with the largest
  alpha;
- it picks the `top_n_momentum` symbols with the largest momentum among the
  rest as the long basket;
- everything else that remains is the short basket.

The model is written in the script's own form:

- The pure steps are functions with lemmas: the date mask, the stride slice,
  pandas `nlargest`, `Index.difference` and the long/short split.
- The loop that fills the `long_baskets` and `short_baskets` dictionaries is
  a method with a `for` loop that builds two maps.

| file | module | what it holds |
|---|---|---|
| `wrappers.dfy` | `Wrappers` | `Option` |
| `symbols.dfy` | `Symbols` | symbols as strings, Python string order, sorting |
| `panels.dfy` | `Panels` | date-indexed panels, reindexing, the date mask, stride sampling |
| `topn.dfy` | `TopN` | `Series.nlargest(n)` with `keep='first'` |
| `selection.dfy` | `Selection` | `Index.difference`, the universe, the long and short baskets |
| `dashboard.dfy` | `Dashboard` | alignment, rebalance dates, the selection loop, basket lookup |

Representation choices:

- A date is an `int` (a day number). A panel's index is a strictly increasing
  sequence of dates.
- A panel row is a `map<Symbol, int>`. A symbol absent from the row is a
  missing value (NaN). This covers the NaN rows that reindexing introduces.
  Only comparisons between scores matter, so integers stand in for the floats.
- The `KeyError` that `momentum.loc[date, remaining]` raises at
  PessimistsDash.py:60 when the universe holds a symbol that is not a
  momentum column becomes the outcome `MissingMomentumColumn(date)`, at the
  first rebalance date where that happens.
- The script does not check that the start date is not after the end date.
  Such a window is empty and yields no rebalance dates, and the model does
  the same.

## Model

| member | source | states |
|---|---|---|
| Panels.RowAt | PessimistsDash.py:54 | `.loc[d]` for a date in the index reads that date's row; for a date the index lacks it is the all-NaN row `reindex` fills in (as ReindexRowAt uses it); ReindexRowAt, ReindexScore and MaskRowAt state what it reads after each step |
| Panels.ReindexScore | PessimistsDash.py:22-23 | after `reindex(alpha.index)`, every symbol on a target date the panel lacks scores NaN, and on a date it has, every symbol keeps the value of its loaded row |
| Panels.Reindex | PessimistsDash.py:22-23 | reindexing onto alpha's dates keeps the columns and gives one row per target date: the panel's own row for a date it has, an all-NaN row for a date it lacks |
| Panels.ReindexRowAt | PessimistsDash.py:22-23 | after reindexing onto an increasing index, the panel is well formed and every target date reads the same row as before (all NaN if the date was absent) |
| Panels.Mask | PessimistsDash.py:37-39 | applying a boolean date mask keeps the panel well formed with the same columns; its index is the masked dates, and each kept date keeps its row |
| Panels.MaskRowAt | PessimistsDash.py:37-39 | each date kept by the mask keeps the row it had |
| Panels.DateMask | PessimistsDash.py:36 | the boolean window mask over alpha's index; its effect is stated by InRangeExactly |
| Panels.InRange | PessimistsDash.py:36-38 | the dates the window mask keeps; InRangeExactly states exactly which |
| Panels.Where | PessimistsDash.py:37-39 | `.loc[mask]` keeps only entries of the sequence, never more of them; WhereMembers and WhereIncreasing state exactly which and in what order |
| Panels.InRangeExactly | PessimistsDash.py:36 | the window mask keeps exactly the index dates with start <= d <= end (both ends inclusive), still strictly increasing |
| Panels.WhereMembers | PessimistsDash.py:36-37 | a boolean mask keeps a value exactly when some position holding it is flagged |
| Panels.WhereIncreasing | PessimistsDash.py:36-37 | masking a strictly increasing index preserves its order |
| Panels.Stride | PessimistsDash.py:42 | the `[::k]` slice takes only dates of the index; it is empty for an empty index; otherwise its first entry is the first date, and it has exactly one entry when the index has at most k dates |
| Panels.StrideAt | PessimistsDash.py:42 | entry j of the `[::k]` slice is the index's entry j*k, and the slice has ceil(n/k) entries |
| Dashboard.Align | PessimistsDash.py:36-39 | after alignment the three panels share alpha's dates inside the window as their index, keep their columns, and each reads its loaded row on every such date |
| Dashboard.TradeDates | PessimistsDash.py:42 | `alpha.index[::trade_freq]` on the windowed index; TradeDatesSpaced states its entries |
| Dashboard.TradeDatesSpaced | PessimistsDash.py:42 | rebalance dates are the window dates at positions 0, k, 2k, ...: strictly increasing, inside [start, end] and alpha's index, the first window date always included, exactly one when k >= the window size, none for an empty window |
| TopN.NLargest | PessimistsDash.py:60 | `Series.nlargest(n).index` with `keep='first'`; its result is fixed by NLargestChosen, NLargestSize, NLargestDescending, NLargestDominates, NLargestKeepsFirst and NLargestTiesInOrder |
| TopN.CountScored | PessimistsDash.py:60 | the number of candidates with a non-NaN value is at most the number of candidates |
| TopN.CountScoredAll | PessimistsDash.py:60 | when every candidate has a value, the count of values is the number of candidates |
| TopN.CountScoredZero | PessimistsDash.py:60 | no candidate has a value exactly when the count of values is zero |
| TopN.FirstMax | PessimistsDash.py:60 | the first position holding the largest non-NaN value: its value is >= every other value and > every value before it; none exactly when all are NaN |
| TopN.NLargestMembers | PessimistsDash.py:60 | nlargest returns only candidates that have a value |
| TopN.NLargestChosen | PessimistsDash.py:60 | nlargest returns at most n labels, none twice, each a candidate with a value |
| TopN.NLargestSize | PessimistsDash.py:60 | nlargest returns exactly min(n, number of non-NaN candidates) labels |
| TopN.NLargestDescending | PessimistsDash.py:60 | the labels come in non-increasing order of value |
| TopN.NLargestDominates | PessimistsDash.py:60 | every chosen value is >= the value of every candidate with a value that was not chosen |
| TopN.NLargestKeepsFirst | PessimistsDash.py:60 | at the cut, of two equal values the one at the earlier candidate position is chosen (`keep='first'`) |
| TopN.NLargestTiesInOrder | PessimistsDash.py:60 | equal values among the chosen keep their candidate order |
| TopN.NLargestTakesAll | PessimistsDash.py:54 | when n is at least the number of values, every candidate with a value is chosen |
| TopN.NLargestScoresOnly | PessimistsDash.py:60 | the result depends only on the candidates' own values, not on other entries of the row |
| Symbols.BelowTotal | PessimistsDash.py:55 | Python string order is total on distinct symbols |
| Symbols.Sort | PessimistsDash.py:55 | sorting a list without repeats gives an ascending list with the same symbols |
| Symbols.AscendingUnique | PessimistsDash.py:55 | two ascending lists with the same symbols are equal |
| Selection.Keep | PessimistsDash.py:55 | the columns not in the excluded list, without repeats |
| Selection.Difference | PessimistsDash.py:55 | `columns.difference(excluded)` holds exactly the columns that are not excluded, without repeats; it is ascending when something is excluded, and the columns in file order when nothing is |
| Selection.DifferenceCanonical | PessimistsDash.py:55 | when something is excluded, any ascending listing of the columns outside the excluded list equals the difference, so the universe order is fixed by the symbols alone |
| Selection.Excluded | PessimistsDash.py:54 | `alpha.loc[date].nlargest(N).index`; ExclusionSplitsColumns, ExcludedEmpty and ExcludeAllScored state what it holds |
| Selection.Universe | PessimistsDash.py:53-57 | filter off: the universe is the full column sequence whatever `top_n_alpha_exclude` is; filter on: it holds exactly the columns not among the N largest alphas, in ascending order, or in file order when nothing was excluded |
| Selection.ExcludedEmpty | PessimistsDash.py:54-55 | nothing is excluded exactly when N is zero or the date has no alpha value, and the universe then keeps the file's column order |
| Selection.ExclusionSplitsColumns | PessimistsDash.py:54-55 | with the filter on, at most N symbols are excluded, each a column with an alpha value; excluded and remaining are disjoint and together make up the columns |
| Selection.UniverseSize | PessimistsDash.py:54-55 | with the filter on, the universe has \|columns\| - min(N, number of alpha values) symbols |
| Selection.ExcludeAllScored | PessimistsDash.py:54-55 | when N reaches the number of alpha values, the universe is exactly the columns with NaN alpha, and it is empty, without error, when every column has a value |
| Selection.MembersOfDistinct | PessimistsDash.py:63 | a list without repeats has as many distinct symbols as entries |
| Selection.Long | PessimistsDash.py:60-62 | the long basket, `nlargest` over the universe's momentum values; LongBasket and FullRowSizes state its contents |
| Selection.Short | PessimistsDash.py:63 | `set(remaining) - set(long)`; BasketsPartition states it |
| Selection.LongBasket | PessimistsDash.py:60-62 | the long basket is drawn from the universe, has min(top_n_momentum, universe symbols with momentum) entries in non-increasing momentum order, beats every left-out universe symbol, and is empty for an empty universe |
| Selection.FullRowSizes | PessimistsDash.py:54-62 | on a date where every symbol has a value, the filter removes min(N, \|columns\|) symbols and the long basket holds min(top_n_momentum, \|universe\|) symbols |
| Selection.BasketsPartition | PessimistsDash.py:62-63 | long and short are disjoint and together are the universe |
| Selection.BasketsUseUniverseScores | PessimistsDash.py:60-63 | the baskets depend only on the momentum values of universe symbols |
| Dashboard.BasketsFromOwnRows | PessimistsDash.py:53-63 | a rebalance date's universe and baskets are computed from that date's rows in the loaded alpha and momentum panels (all-NaN momentum if the file lacks the date); selectability means every universe symbol is a momentum column |
| Dashboard.Planned | PessimistsDash.py:65-66 | one long and one short basket per rebalance date, as the loop assigns them; RecordBaskets and ShownBaskets state how the run and the lookup relate to it |
| Dashboard.RecordBaskets | PessimistsDash.py:48-66 | the loop completes exactly when every rebalance date is selectable, and then holds one long and one short basket per rebalance date, equal to the planned ones; otherwise it stops at the earliest date that is not selectable |
| Dashboard.GenerateSignals | PessimistsDash.py:42-66 | the whole run on the loaded panels: it completes exactly when every rebalance date of the aligned panels is selectable, and then records the planned baskets for exactly those dates; otherwise it reports the earliest failing date |
| Dashboard.RecordedIsPlanned | PessimistsDash.py:65-66 | dictionaries holding the planned basket under exactly the rebalance dates are the planned signals |
| Dashboard.LongShown | PessimistsDash.py:94 | `long_baskets.get(d, [])`; ShownBaskets states what it shows |
| Dashboard.ShortShown | PessimistsDash.py:96 | `short_baskets.get(d, [])`; ShownBaskets states what it shows |
| Dashboard.ShownBaskets | PessimistsDash.py:94-96 | looking up a rebalance date shows its recorded basket; looking up any other date shows an empty basket |

## Left out

- Loading the CSV files and `@st.cache_data` (PessimistsDash.py:11-19) are file I/O and framework caching. The model starts from three loaded panels.
- Page setup, the sidebar widgets, `selectbox`, `st.write` and `st.text` (PessimistsDash.py:6, 26-33, 78, 86, 88, 91-93; the `.get(d, [])` lookups at 94-96 are modelled) are UI only. The widget values become a `Config`, and the widget minimum for `trade_freq` becomes the precondition `tradeFreq >= 1`. Besides the left-out returns (PessimistsDash.py:68-71, the mean of the long basket or the negated mean of the short one), the `show_long` choice only picks which basket is displayed.
- Dates are day numbers. The script compares the `DatetimeIndex` with `str(start_date)`; the model compares integers.
- The benchmark and portfolio returns are left out: `pct_change`, `fillna`, `mean`, the negation for the short side, `cumprod` and the total-return percentages (PessimistsDash.py:45-46, 68-77, 85-88). This is floating-point arithmetic inside a library that is not shown. So are the `KeyError`s it can raise: a long or short symbol missing from the price columns, or no `NIFTY 500` price column.
- Matplotlib plotting (PessimistsDash.py:79-83) is left out.
- The mechanics of pandas `reindex` are left out; only its effect is kept: a date the panel lacks reads as an all-NaN row. Loaded panels are assumed well formed: strictly increasing dates and no repeated columns (`Panel.Valid`).
- TopN.NLargest: values missing from the row (NaN) are never chosen, so the result can be shorter than n. In current pandas (1.x and 2.x) `Series.nlargest` pads a short result with the NaN-valued labels up to n, and the model does not. The rows that rest on the drop-NaN reading therefore state less than the script does; they are listed next.
- Selection.LongBasket: rests on the drop-NaN reading of TopN.NLargest. On a date momentum lacks (an all-NaN row after reindexing), the script longs the first `top_n_momentum` universe symbols, while the model longs none. In general the script's long basket has min(top_n_momentum, \|universe\|) symbols, not min(top_n_momentum, symbols with momentum). FullRowSizes states the basket size where the two agree, on rows with no NaN.
- Selection.UniverseSize: rests on the drop-NaN reading of TopN.NLargest. With the filter on, the script excludes min(N, \|columns\|) symbols, NaN-alpha ones included, not min(N, symbols with alpha). FullRowSizes states the size where the two agree, on rows with no NaN.
- Selection.ExcludeAllScored: rests on the drop-NaN reading; in the script, NaN-alpha columns are excluded too once N exceeds the number of alpha values, so the universe is smaller than the model's.
- Selection.ExclusionSplitsColumns: rests on the drop-NaN reading; in the script, the excluded symbols need not have an alpha value.
- Selection.ExcludedEmpty: rests on the drop-NaN reading. On a date with no alpha value and N >= 1, the script still excludes the first min(N, \|columns\|) columns and sorts the rest, while the model excludes nothing and keeps the file order (columns B, A, C with N = 2 give C in the script and B, A, C in the model).
- TopN.NLargest: ties are always broken by candidate position. When n covers the whole series, pandas takes a sort-based path whose order among equal values the model does not reproduce.
- Dashboard.ShortOn: the short basket is a set. The script stores `list(set(...))`, whose order is Python's hash order, which the model does not fix.
- Dashboard.RecordBaskets: the skip guard `if date not in alpha.index: continue` is modelled as a branch. Since every rebalance date is in the aligned alpha index, that branch is never taken.
