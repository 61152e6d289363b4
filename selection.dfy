/**
 * One rebalance date's selection: the optional alpha exclusion that fixes the
 * tradable universe, then the split of that universe into a long basket (the
 * momentum leaders) and a short basket (everything else).
 */
module Selection {
  import opened Symbols
  import opened Panels
  import opened TopN

  /** The labels of `s` that are not in `other`, in the order of `s`. */
  function Keep(s: seq<Symbol>, other: seq<Symbol>): (r: seq<Symbol>)
    requires Distinct(s)
    ensures Distinct(r) && |r| <= |s|
    ensures forall y :: y in r <==> y in s && y !in other
  {
    if s == [] then []
    else
      assert forall y :: y in s ==> y == s[0] || y in s[1..];
      assert forall y :: y in s[1..] ==> y in s;
      assert s[0] !in s[1..] by {
        forall j | 0 <= j < |s[1..]| ensures s[1..][j] != s[0] {
          assert s[1..][j] == s[j + 1];
        }
      }
      var t := Keep(s[1..], other);
      if s[0] in other then t
      else
        DistinctCons(s[0], t);
        [s[0]] + t
  }

  /**
   * `Index.difference(other)`: the labels of `columns` that are not in
   * `other`. pandas sorts them in ascending string order, except when
   * `other` is empty: then it returns the columns as they are.
   */
  function Difference(columns: seq<Symbol>, other: seq<Symbol>): (r: seq<Symbol>)
    requires Distinct(columns)
    ensures Distinct(r)
    ensures other == [] ==> r == columns
    ensures other != [] ==> Ascending(r)
    ensures forall y :: y in r <==> y in columns && y !in other
  {
    if other == [] then columns
    else
      var r := Sort(Keep(columns, other));
      AscendingDistinct(r);
      r
  }

  /**
   * When something is excluded, the result of `difference` is the only
   * ascending listing of the remaining labels.
   */
  lemma DifferenceCanonical(columns: seq<Symbol>, other: seq<Symbol>, listing: seq<Symbol>)
    requires Distinct(columns) && other != [] && Ascending(listing)
    requires forall y :: y in listing <==> y in columns && y !in other
    ensures listing == Difference(columns, other)
  {
    AscendingUnique(listing, Difference(columns, other));
  }

  /** The symbols excluded for their alpha: the `nExclude` largest alpha values of the date. */
  function Excluded(columns: seq<Symbol>, alphaRow: Row, nExclude: nat): seq<Symbol>
  {
    NLargest(columns, alphaRow, nExclude)
  }

  /**
   * The remaining universe on one date: every column when the filter is off,
   * otherwise the columns without the excluded symbols, sorted unless
   * nothing was excluded.
   */
  function Universe(columns: seq<Symbol>, alphaRow: Row, useFilter: bool, nExclude: nat): (r: seq<Symbol>)
    requires Distinct(columns)
    ensures Distinct(r)
    ensures !useFilter ==> r == columns
    ensures useFilter && Excluded(columns, alphaRow, nExclude) == [] ==> r == columns
    ensures useFilter && Excluded(columns, alphaRow, nExclude) != [] ==> Ascending(r)
    ensures useFilter ==> forall y :: y in r <==> y in columns && y !in Excluded(columns, alphaRow, nExclude)
  {
    if useFilter then Difference(columns, Excluded(columns, alphaRow, nExclude)) else columns
  }

  /** The long basket: the `nLong` largest momentum values among the universe, in that order. */
  function Long(universe: seq<Symbol>, momentumRow: Row, nLong: nat): seq<Symbol>
  {
    NLargest(universe, momentumRow, nLong)
  }

  /** The short basket: the universe without the long basket, as an unordered set. */
  function Short(universe: seq<Symbol>, long: seq<Symbol>): set<Symbol>
  {
    set y | y in universe && y !in long
  }

  /** The labels of a sequence, as a set. */
  function Members(s: seq<Symbol>): set<Symbol>
  {
    set y | y in s
  }

  /** A list without repetitions has as many members as entries. */
  lemma {:induction false} MembersOfDistinct(s: seq<Symbol>)
    requires Distinct(s)
    ensures |Members(s)| == |s|
  {
    if s != [] {
      assert Distinct(s[1..]) by {
        forall i, j | 0 <= i < j < |s[1..]| ensures s[1..][i] != s[1..][j] {
          assert s[1..][i] == s[i + 1] && s[1..][j] == s[j + 1];
        }
      }
      MembersOfDistinct(s[1..]);
      assert s[0] !in s[1..] by {
        forall j | 0 <= j < |s[1..]| ensures s[1..][j] != s[0] {
          assert s[1..][j] == s[j + 1];
        }
      }
      assert Members(s) == {s[0]} + Members(s[1..]) by {
        assert forall y :: y in s <==> y == s[0] || y in s[1..];
      }
    }
  }

  /**
   * Nothing is excluded exactly when `nExclude` is zero or no column has an
   * alpha value on the date; the universe is then the columns in file order.
   */
  lemma ExcludedEmpty(columns: seq<Symbol>, alphaRow: Row, nExclude: nat)
    requires Distinct(columns)
    ensures Excluded(columns, alphaRow, nExclude) == [] <==>
      nExclude == 0 || forall y :: y in columns ==> y !in alphaRow
    ensures Excluded(columns, alphaRow, nExclude) == [] ==> Universe(columns, alphaRow, true, nExclude) == columns
  {
    NLargestSize(columns, alphaRow, nExclude);
    CountScoredZero(columns, alphaRow);
  }

  /**
   * With the filter on, at most `nExclude` symbols are excluded, all of them
   * columns with an alpha value, and the excluded and remaining symbols are
   * disjoint and together make up the columns.
   */
  lemma ExclusionSplitsColumns(columns: seq<Symbol>, alphaRow: Row, nExclude: nat)
    requires Distinct(columns)
    ensures var e := Excluded(columns, alphaRow, nExclude);
      var u := Universe(columns, alphaRow, true, nExclude);
      |e| <= nExclude &&
      (forall y :: y in e ==> y in columns && y in alphaRow) &&
      Members(e) * Members(u) == {} &&
      Members(e) + Members(u) == Members(columns)
  {
    NLargestChosen(columns, alphaRow, nExclude);
  }

  /**
   * With the filter on, the universe loses exactly min(nExclude, number of
   * columns with an alpha value) symbols.
   */
  lemma UniverseSize(columns: seq<Symbol>, alphaRow: Row, nExclude: nat)
    requires Distinct(columns)
    ensures var scored := CountScored(columns, alphaRow);
      |Universe(columns, alphaRow, true, nExclude)| ==
        |columns| - (if nExclude < scored then nExclude else scored)
  {
    var e := Excluded(columns, alphaRow, nExclude);
    var u := Universe(columns, alphaRow, true, nExclude);
    NLargestChosen(columns, alphaRow, nExclude);
    NLargestSize(columns, alphaRow, nExclude);
    ExclusionSplitsColumns(columns, alphaRow, nExclude);
    MembersOfDistinct(e);
    MembersOfDistinct(u);
    MembersOfDistinct(columns);
    assert |Members(e) + Members(u)| == |Members(e)| + |Members(u)|;
  }

  /**
   * When `nExclude` reaches the number of alpha values, every symbol with an
   * alpha value is excluded: the universe is the columns whose alpha is NaN,
   * and it is empty when every column has a value.
   */
  lemma ExcludeAllScored(columns: seq<Symbol>, alphaRow: Row, nExclude: nat)
    requires Distinct(columns) && CountScored(columns, alphaRow) <= nExclude
    ensures forall y :: y in Universe(columns, alphaRow, true, nExclude) <==> y in columns && y !in alphaRow
    ensures (forall y :: y in columns ==> y in alphaRow) ==> Universe(columns, alphaRow, true, nExclude) == []
  {
    NLargestTakesAll(columns, alphaRow, nExclude);
    NLargestMembers(columns, alphaRow, nExclude);
    var u := Universe(columns, alphaRow, true, nExclude);
    if u != [] {
      assert u[0] in u;
    }
  }

  /**
   * The long basket is drawn from the universe, holds min(nLong, number of
   * universe symbols with a momentum value) symbols in non-increasing
   * momentum order, and beats every universe symbol left out; an empty
   * universe gives an empty basket.
   */
  lemma LongBasket(universe: seq<Symbol>, momentumRow: Row, nLong: nat)
    requires Distinct(universe)
    ensures var l := Long(universe, momentumRow, nLong);
      var scored := CountScored(universe, momentumRow);
      (forall y :: y in l ==> y in universe && y in momentumRow) &&
      Distinct(l) &&
      |l| == (if nLong < scored then nLong else scored) &&
      (universe == [] ==> l == []) &&
      (forall k, j :: 0 <= k < j < |l| ==>
        (l[k] in momentumRow && l[j] in momentumRow && momentumRow[l[j]] <= momentumRow[l[k]])) &&
      (forall y, k :: y in universe && y in momentumRow && y !in l && 0 <= k < |l| ==>
        l[k] in momentumRow && momentumRow[y] <= momentumRow[l[k]])
  {
    NLargestChosen(universe, momentumRow, nLong);
    NLargestSize(universe, momentumRow, nLong);
    NLargestDescending(universe, momentumRow, nLong);
    NLargestDominates(universe, momentumRow, nLong);
  }

  /**
   * On a row where every symbol has a value, the filter removes
   * min(nExclude, |columns|) symbols and the long basket holds
   * min(nLong, |universe|) symbols.
   */
  lemma FullRowSizes(columns: seq<Symbol>, alphaRow: Row, nExclude: nat, universe: seq<Symbol>,
                     momentumRow: Row, nLong: nat)
    requires Distinct(columns) && Distinct(universe)
    requires forall y :: y in columns ==> y in alphaRow
    requires forall y :: y in universe ==> y in momentumRow
    ensures |Universe(columns, alphaRow, true, nExclude)| ==
      |columns| - (if nExclude < |columns| then nExclude else |columns|)
    ensures |Long(universe, momentumRow, nLong)| == if nLong < |universe| then nLong else |universe|
  {
    CountScoredAll(columns, alphaRow);
    UniverseSize(columns, alphaRow, nExclude);
    CountScoredAll(universe, momentumRow);
    NLargestSize(universe, momentumRow, nLong);
  }

  /**
   * Long and short partition the universe: disjoint, and together every
   * remaining symbol.
   */
  lemma BasketsPartition(universe: seq<Symbol>, momentumRow: Row, nLong: nat)
    ensures var l := Long(universe, momentumRow, nLong);
      var s := Short(universe, l);
      Members(l) * s == {} && Members(l) + s == Members(universe)
  {
    NLargestMembers(universe, momentumRow, nLong);
  }

  /** Only the momentum values of universe symbols decide the baskets. */
  lemma BasketsUseUniverseScores(universe: seq<Symbol>, row1: Row, row2: Row, nLong: nat)
    requires forall y :: y in universe ==> Score(row1, y) == Score(row2, y)
    ensures Long(universe, row1, nLong) == Long(universe, row2, nLong)
    ensures Short(universe, Long(universe, row1, nLong)) == Short(universe, Long(universe, row2, nLong))
  {
    assert AgreeOn(universe, row1, row2);
    NLargestScoresOnly(universe, row1, row2, nLong);
  }
}
