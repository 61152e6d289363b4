/**
 * The strategy script's driver: align the panels on alpha's dates, keep the
 * chosen date window, take every `tradeFreq`-th date as a rebalance date,
 * and on each one record the long and the short basket.
 */
module Dashboard {
  import opened Symbols
  import opened Panels
  import opened TopN
  import opened Selection

  /** The sidebar parameters that drive the selection. */
  datatype Config = Config(
    startDate: Date,
    endDate: Date,
    tradeFreq: nat,
    topNAlphaExclude: nat,
    useAlphaFilter: bool,
    topNMomentum: nat)

  /** The baskets recorded on each rebalance date. */
  datatype Signals = Signals(
    tradeDates: seq<Date>,
    longBaskets: map<Date, seq<Symbol>>,
    shortBaskets: map<Date, set<Symbol>>)

  /**
   * How a run ends: with every basket recorded, or with the lookup of
   * momentum values failing on the first rebalance date whose universe holds
   * a symbol that is not a momentum column.
   */
  datatype Outcome = Completed(signals: Signals) | MissingMomentumColumn(date: Date)

  /** The three panels after reindexing onto alpha's dates and masking to the date window. */
  datatype Aligned = Aligned(momentum: Panel, alpha: Panel, prices: Panel)
  {
    predicate Valid()
    {
      momentum.Valid() && alpha.Valid() && prices.Valid()
    }
  }

  /**
   * Momentum and prices reindexed onto alpha's dates, then all three panels
   * cut by the same date-window mask: they share one index, the dates of
   * alpha in `[start, end]`, and each keeps its own row on every such date
   * (a date missing from momentum or prices reads as all NaN).
   */
  function Align(momentum: Panel, alpha: Panel, prices: Panel, start: Date, end: Date): (a: Aligned)
    requires momentum.Valid() && alpha.Valid() && prices.Valid()
    ensures a.Valid()
    ensures a.alpha.index == InRange(alpha.index, start, end)
    ensures a.momentum.index == a.alpha.index && a.prices.index == a.alpha.index
    ensures a.momentum.columns == momentum.columns && a.alpha.columns == alpha.columns &&
      a.prices.columns == prices.columns
    ensures forall d :: d in a.alpha.index ==>
      RowAt(a.alpha, d) == RowAt(alpha, d) && RowAt(a.momentum, d) == RowAt(momentum, d) &&
      RowAt(a.prices, d) == RowAt(prices, d)
  {
    ReindexRowAt(momentum, alpha.index);
    ReindexRowAt(prices, alpha.index);
    var m := DateMask(alpha.index, start, end);
    Aligned(Mask(Reindex(momentum, alpha.index), m), Mask(alpha, m), Mask(Reindex(prices, alpha.index), m))
  }

  /** Every `tradeFreq`-th date of alpha inside the date window, from the first. */
  function TradeDates(alpha: Panel, cfg: Config): seq<Date>
    requires cfg.tradeFreq >= 1
  {
    Stride(InRange(alpha.index, cfg.startDate, cfg.endDate), cfg.tradeFreq)
  }

  /** The remaining universe on date `d` of the aligned panels. */
  function UniverseOn(a: Aligned, cfg: Config, d: Date): seq<Symbol>
    requires a.Valid()
  {
    Universe(a.alpha.columns, RowAt(a.alpha, d), cfg.useAlphaFilter, cfg.topNAlphaExclude)
  }

  /** The momentum values of date `d` can be looked up for every remaining symbol. */
  predicate Selectable(a: Aligned, cfg: Config, d: Date)
    requires a.Valid()
  {
    forall s :: s in UniverseOn(a, cfg, d) ==> s in a.momentum.columns
  }

  /** The long basket on date `d`. */
  function LongOn(a: Aligned, cfg: Config, d: Date): seq<Symbol>
    requires a.Valid()
  {
    Long(UniverseOn(a, cfg, d), RowAt(a.momentum, d), cfg.topNMomentum)
  }

  /** The short basket on date `d`. */
  function ShortOn(a: Aligned, cfg: Config, d: Date): set<Symbol>
    requires a.Valid()
  {
    Short(UniverseOn(a, cfg, d), LongOn(a, cfg, d))
  }

  /** The signals a run records: one long and one short basket per rebalance date. */
  function Planned(a: Aligned, tradeDates: seq<Date>, cfg: Config): Signals
    requires a.Valid()
  {
    Signals(tradeDates,
      map d | d in tradeDates :: LongOn(a, cfg, d),
      map d | d in tradeDates :: ShortOn(a, cfg, d))
  }

  /** Multiplying by a positive step keeps positions in order. */
  lemma {:induction false} MulMonotone(i: nat, j: nat, k: nat)
    requires i < j && k >= 1
    ensures i * k < j * k
    decreases j - i
  {
    assert (i + 1) * k == i * k + k;
    if i + 1 < j {
      MulMonotone(i + 1, j, k);
    }
  }

  /**
   * The rebalance dates are the window's dates at positions 0, k, 2k, ...:
   * strictly increasing, each a date of alpha inside `[start, end]`, the
   * first window date always among them, exactly one of them when k is at
   * least the number of window dates, and none when the window is empty.
   */
  lemma TradeDatesSpaced(alpha: Panel, cfg: Config)
    requires alpha.Valid() && cfg.tradeFreq >= 1
    ensures var w := InRange(alpha.index, cfg.startDate, cfg.endDate);
      var td := TradeDates(alpha, cfg);
      var k := cfg.tradeFreq;
      Increasing(td) &&
      (forall d :: d in td ==> d in alpha.index && cfg.startDate <= d <= cfg.endDate) &&
      (forall j :: 0 <= j < |td| ==> j * k < |w| && td[j] == w[j * k]) &&
      |td| * k >= |w| > (|td| - 1) * k &&
      (w == [] <==> td == []) &&
      (w != [] ==> td[0] == w[0] && (|td| == 1 <==> |w| <= k))
  {
    var w := InRange(alpha.index, cfg.startDate, cfg.endDate);
    var td := TradeDates(alpha, cfg);
    var k := cfg.tradeFreq;
    InRangeExactly(alpha.index, cfg.startDate, cfg.endDate);
    StrideAt(w, k);
    forall i, j | 0 <= i < j < |td| ensures td[i] < td[j] {
      MulMonotone(i, j, k);
    }
  }

  /** The rebalance dates are strictly increasing. */
  lemma TradeDatesIncreasing(alpha: Panel, cfg: Config)
    requires alpha.Valid() && cfg.tradeFreq >= 1
    ensures Increasing(TradeDates(alpha, cfg))
  {
    TradeDatesSpaced(alpha, cfg);
  }

  /** Maps holding the planned basket for exactly the rebalance dates are the planned signals. */
  lemma RecordedIsPlanned(a: Aligned, tradeDates: seq<Date>, cfg: Config,
                          long: map<Date, seq<Symbol>>, short: map<Date, set<Symbol>>)
    requires a.Valid()
    requires forall d :: d in long <==> d in tradeDates
    requires forall d :: d in short <==> d in tradeDates
    requires forall d :: d in long ==> long[d] == LongOn(a, cfg, d)
    requires forall d :: d in short ==> short[d] == ShortOn(a, cfg, d)
    ensures Signals(tradeDates, long, short) == Planned(a, tradeDates, cfg)
  {
    var p := Planned(a, tradeDates, cfg);
    SameMaps(long, p.longBaskets);
    SameMaps(short, p.shortBaskets);
  }

  /** Two maps with the same keys and the same value under each key are equal. */
  lemma SameMaps<V>(m1: map<Date, V>, m2: map<Date, V>)
    requires forall d :: d in m1 <==> d in m2
    requires forall d :: d in m1 ==> m1[d] == m2[d]
    ensures m1 == m2
  {
    assert forall d :: d in m1 ==> d in m2;
    assert forall d :: d in m2 ==> d in m1;
    assert forall d :: d in m1 ==> m1[d] == m2[d];
  }

  /** In a strictly increasing sequence, the entries below the `k`-th are those before position `k`. */
  lemma EarlierDates(s: seq<Date>, k: nat)
    requires Increasing(s) && k < |s|
    ensures forall d :: d in s && d < s[k] ==> d in s[..k]
  {
    forall d | d in s && d < s[k] ensures d in s[..k] {
      var j :| 0 <= j < |s| && s[j] == d;
      assert s[..k][j] == d;
    }
  }

  /**
   * The baskets on a rebalance date depend only on that date's own alpha
   * and momentum rows of the loaded panels (all NaN when momentum has no
   * row for it); the date window and the reindexing change nothing else.
   */
  lemma BasketsFromOwnRows(momentum: Panel, alpha: Panel, prices: Panel, cfg: Config, d: Date)
    requires momentum.Valid() && alpha.Valid() && prices.Valid() && cfg.tradeFreq >= 1
    requires d in TradeDates(alpha, cfg)
    ensures var a := Align(momentum, alpha, prices, cfg.startDate, cfg.endDate);
      var u := Universe(alpha.columns, RowAt(alpha, d), cfg.useAlphaFilter, cfg.topNAlphaExclude);
      UniverseOn(a, cfg, d) == u &&
      LongOn(a, cfg, d) == Long(u, RowAt(momentum, d), cfg.topNMomentum) &&
      ShortOn(a, cfg, d) == Short(u, Long(u, RowAt(momentum, d), cfg.topNMomentum)) &&
      (Selectable(a, cfg, d) <==> forall s :: s in u ==> s in momentum.columns)
  {
  }

  /**
   * The whole run: align the panels, take the rebalance dates, then record
   * the baskets. It completes exactly when every rebalance date is
   * selectable and then holds the planned baskets for every rebalance date;
   * otherwise it stops at the earliest rebalance date that is not.
   */
  method GenerateSignals(momentum: Panel, alpha: Panel, prices: Panel, cfg: Config) returns (out: Outcome)
    requires momentum.Valid() && alpha.Valid() && prices.Valid() && cfg.tradeFreq >= 1
    ensures var a := Align(momentum, alpha, prices, cfg.startDate, cfg.endDate);
      out.Completed? <==> forall d :: d in TradeDates(alpha, cfg) ==> Selectable(a, cfg, d)
    ensures var a := Align(momentum, alpha, prices, cfg.startDate, cfg.endDate);
      out.Completed? ==> out.signals == Planned(a, TradeDates(alpha, cfg), cfg)
    ensures var a := Align(momentum, alpha, prices, cfg.startDate, cfg.endDate);
      var td := TradeDates(alpha, cfg);
      out.MissingMomentumColumn? ==>
        (out.date in td && !Selectable(a, cfg, out.date) &&
         forall d :: d in td && d < out.date ==> Selectable(a, cfg, d))
  {
    var a := Align(momentum, alpha, prices, cfg.startDate, cfg.endDate);
    var tradeDates := Stride(a.alpha.index, cfg.tradeFreq);
    TradeDatesIncreasing(alpha, cfg);
    out := RecordBaskets(a, cfg, tradeDates);
  }

  /**
   * The loop over the rebalance dates: on each date of alpha's index, fix
   * the universe, fail if a remaining symbol has no momentum column, and
   * otherwise record the long and the short basket under that date.
   */
  method RecordBaskets(a: Aligned, cfg: Config, tradeDates: seq<Date>) returns (out: Outcome)
    requires a.Valid() && Increasing(tradeDates)
    requires forall d :: d in tradeDates ==> d in a.alpha.index
    ensures out.Completed? <==> forall d :: d in tradeDates ==> Selectable(a, cfg, d)
    ensures out.Completed? ==> out.signals == Planned(a, tradeDates, cfg)
    ensures out.MissingMomentumColumn? ==>
      (out.date in tradeDates && !Selectable(a, cfg, out.date) &&
       forall d :: d in tradeDates && d < out.date ==> Selectable(a, cfg, d))
  {
    var mom, alp := a.momentum, a.alpha;
    var longBaskets: map<Date, seq<Symbol>> := map[];
    var shortBaskets: map<Date, set<Symbol>> := map[];
    for k := 0 to |tradeDates|
      invariant forall d :: d in longBaskets <==> d in tradeDates[..k] && d in alp.index
      invariant forall d :: d in shortBaskets <==> d in longBaskets
      invariant forall d :: d in longBaskets ==>
        longBaskets[d] == LongOn(a, cfg, d) && shortBaskets[d] == ShortOn(a, cfg, d) && Selectable(a, cfg, d)
    {
      var date := tradeDates[k];
      if date in alp.index {
        var remaining;
        if cfg.useAlphaFilter {
          var excluded := NLargest(alp.columns, RowAt(alp, date), cfg.topNAlphaExclude);
          remaining := Difference(alp.columns, excluded);
        } else {
          remaining := alp.columns;
        }
        assert remaining == UniverseOn(a, cfg, date);
        if !(forall s :: s in remaining ==> s in mom.columns) {
          assert !Selectable(a, cfg, date);
          EarlierDates(tradeDates, k);
          return MissingMomentumColumn(date);
        }
        var longStocks := NLargest(remaining, RowAt(mom, date), cfg.topNMomentum);
        var shortStocks := Short(remaining, longStocks);
        longBaskets := longBaskets[date := longStocks];
        shortBaskets := shortBaskets[date := shortStocks];
      }
      assert tradeDates[..k + 1] == tradeDates[..k] + [date];
    }
    assert tradeDates[..|tradeDates|] == tradeDates;
    RecordedIsPlanned(a, tradeDates, cfg, longBaskets, shortBaskets);
    out := Completed(Signals(tradeDates, longBaskets, shortBaskets));
  }

  /** `long_baskets.get(d, [])`. */
  function LongShown(s: Signals, d: Date): seq<Symbol>
  {
    if d in s.longBaskets then s.longBaskets[d] else []
  }

  /** `short_baskets.get(d, [])`, the empty list read as the empty set. */
  function ShortShown(s: Signals, d: Date): set<Symbol>
  {
    if d in s.shortBaskets then s.shortBaskets[d] else {}
  }

  /**
   * Every rebalance date has exactly one recorded long and short basket, and
   * any other date shows empty baskets.
   */
  lemma ShownBaskets(a: Aligned, tradeDates: seq<Date>, cfg: Config, d: Date)
    requires a.Valid()
    ensures d in tradeDates ==>
      (LongShown(Planned(a, tradeDates, cfg), d) == LongOn(a, cfg, d) &&
       ShortShown(Planned(a, tradeDates, cfg), d) == ShortOn(a, cfg, d))
    ensures d !in tradeDates ==>
      (LongShown(Planned(a, tradeDates, cfg), d) == [] && ShortShown(Planned(a, tradeDates, cfg), d) == {})
  {
  }
}
