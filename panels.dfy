/**
 * Dated panels (momentum, alpha, prices): a date index, column labels and one
 * row of numbers per date, with the pandas operations the dashboard applies to
 * them — label lookup, `reindex`, a boolean row mask and a strided slice.
 */
module Panels {
  import opened Wrappers
  import opened Symbols

  /** A trading day as a day number; only the order of dates matters. */
  type Date = int

  /**
   * One row of a panel: the symbols that hold a number on that date. A symbol
   * of the panel's columns that is absent from the row holds NaN.
   */
  type Row = map<Symbol, int>

  /** The value of `s` in `row`, `None` standing for NaN. */
  function Score(row: Row, s: Symbol): Option<int>
  {
    if s in row then Some(row[s]) else None
  }

  predicate Increasing(s: seq<Date>)
  {
    forall i, j :: 0 <= i < j < |s| ==> s[i] < s[j]
  }

  datatype Panel = Panel(index: seq<Date>, columns: seq<Symbol>, rows: seq<Row>)
  {
    /** One row per date, dates strictly increasing, column labels unique. */
    predicate Valid()
    {
      |rows| == |index| && Increasing(index) && Distinct(columns)
    }
  }

  /** The position of `d` in `index`, as `get_loc` finds it. */
  function Find(index: seq<Date>, d: Date): (r: Option<nat>)
    ensures r.Some? ==> r.value < |index| && index[r.value] == d
    ensures r.None? ==> d !in index
  {
    if index == [] then None
    else if index[0] == d then Some(0)
    else match Find(index[1..], d)
      case None => None
      case Some(i) => Some(i + 1)
  }

  /** In a strictly increasing index every date is found at its own position. */
  lemma {:induction false} FindAt(index: seq<Date>, i: nat)
    requires Increasing(index) && i < |index|
    ensures Find(index, index[i]) == Some(i)
  {
    if i > 0 {
      assert index[1..][i - 1] == index[i];
      FindAt(index[1..], i - 1);
    }
  }

  /**
   * `p.loc[d]` for a date `d` in the index: the row of `d`. For a date the
   * index lacks it is the all-NaN row, the row `reindex` fills in for such a
   * date (as ReindexRowAt uses it).
   */
  function RowAt(p: Panel, d: Date): Row
    requires |p.rows| == |p.index|
  {
    match Find(p.index, d)
    case Some(i) => p.rows[i]
    case None => map[]
  }

  /**
   * `p.reindex(target)`: the rows of `p` moved onto the dates of `target`, with
   * an all-NaN row for every date `p` does not have.
   */
  function Reindex(p: Panel, target: seq<Date>): (q: Panel)
    requires p.Valid()
    ensures q.index == target && q.columns == p.columns && |q.rows| == |target|
    ensures forall j :: 0 <= j < |target| && target[j] !in p.index ==> q.rows[j] == map[]
    ensures forall i, j :: 0 <= i < |p.index| && 0 <= j < |target| && p.index[i] == target[j] ==>
      q.rows[j] == p.rows[i]
  {
    assert forall i :: 0 <= i < |p.index| ==> RowAt(p, p.index[i]) == p.rows[i] by {
      forall i | 0 <= i < |p.index| ensures RowAt(p, p.index[i]) == p.rows[i] {
        FindAt(p.index, i);
      }
    }
    Panel(target, p.columns, seq(|target|, j requires 0 <= j < |target| => RowAt(p, target[j])))
  }

  /** After reindexing onto a strictly increasing index, every date of it sees the row it had before. */
  lemma ReindexRowAt(p: Panel, target: seq<Date>)
    requires p.Valid() && Increasing(target)
    ensures Reindex(p, target).Valid()
    ensures forall d :: d in target ==> RowAt(Reindex(p, target), d) == RowAt(p, d)
  {
    var q := Reindex(p, target);
    forall d | d in target ensures RowAt(q, d) == RowAt(p, d) {
      var j :| 0 <= j < |target| && target[j] == d;
      FindAt(target, j);
    }
  }
  /**
   * After reindexing, every symbol on a target date the panel lacks is NaN,
   * and on a date it has, every symbol keeps the value of the loaded row.
   */
  lemma ReindexScore(p: Panel, target: seq<Date>, d: Date)
    requires p.Valid() && Increasing(target) && d in target
    ensures d !in p.index ==> forall s :: Score(RowAt(Reindex(p, target), d), s) == None
    ensures forall i, s :: 0 <= i < |p.index| && p.index[i] == d ==>
      Score(RowAt(Reindex(p, target), d), s) == Score(p.rows[i], s)
  {
    ReindexRowAt(p, target);
    forall i | 0 <= i < |p.index| && p.index[i] == d ensures RowAt(p, d) == p.rows[i] {
      FindAt(p.index, i);
    }
  }


  /** `start <= index <= end`, one flag per date. */
  function DateMask(index: seq<Date>, start: Date, end: Date): seq<bool>
  {
    seq(|index|, i requires 0 <= i < |index| => start <= index[i] && index[i] <= end)
  }

  /** `xs.loc[m]` for a boolean mask `m`: the entries whose flag is set, in their order. */
  function Where<T>(xs: seq<T>, m: seq<bool>): (r: seq<T>)
    requires |xs| == |m|
    ensures |r| <= |xs|
    ensures forall x :: x in r ==> x in xs
  {
    if xs == [] then []
    else (if m[0] then [xs[0]] else []) + Where(xs[1..], m[1..])
  }

  /** An entry survives the mask exactly when one of its positions is flagged. */
  lemma {:induction false} WhereMembers<T>(xs: seq<T>, m: seq<bool>)
    requires |xs| == |m|
    ensures forall x :: x in Where(xs, m) <==> exists i :: 0 <= i < |xs| && m[i] && xs[i] == x
  {
    if xs != [] {
      WhereMembers(xs[1..], m[1..]);
      forall x ensures x in Where(xs, m) <==> exists i :: 0 <= i < |xs| && m[i] && xs[i] == x {
        if exists i :: 0 <= i < |xs| && m[i] && xs[i] == x {
          var i :| 0 <= i < |xs| && m[i] && xs[i] == x;
          if i > 0 {
            assert xs[1..][i - 1] == x && m[1..][i - 1];
          }
        }
        if x in Where(xs[1..], m[1..]) {
          var i :| 0 <= i < |xs| - 1 && m[1..][i] && xs[1..][i] == x;
          assert m[i + 1] && xs[i + 1] == x;
        }
      }
    }
  }

  /** `x` and `y` stand at one flagged position of `xs` and `ys`. */
  ghost predicate SamePosition<A, B>(xs: seq<A>, ys: seq<B>, m: seq<bool>, x: A, y: B)
  {
    exists i :: 0 <= i < |m| && i < |xs| && i < |ys| && m[i] && x == xs[i] && y == ys[i]
  }

  /**
   * The same mask applied to two sequences of one length keeps them in step:
   * the j-th survivors of both come from one position.
   */
  lemma {:induction false} WhereAligned<A, B>(xs: seq<A>, ys: seq<B>, m: seq<bool>)
    requires |xs| == |m| && |ys| == |m|
    ensures |Where(xs, m)| == |Where(ys, m)|
    ensures forall j :: 0 <= j < |Where(xs, m)| ==> SamePosition(xs, ys, m, Where(xs, m)[j], Where(ys, m)[j])
  {
    if m != [] {
      WhereAligned(xs[1..], ys[1..], m[1..]);
      var h := if m[0] then 1 else 0;
      forall j | 0 <= j < |Where(xs, m)|
        ensures SamePosition(xs, ys, m, Where(xs, m)[j], Where(ys, m)[j])
      {
        if j < h {
          assert m[0] && Where(xs, m)[j] == xs[0] && Where(ys, m)[j] == ys[0];
        } else {
          assert SamePosition(xs[1..], ys[1..], m[1..], Where(xs[1..], m[1..])[j - h], Where(ys[1..], m[1..])[j - h]);
          var i :| 0 <= i < |m| - 1 && m[1..][i] && Where(xs[1..], m[1..])[j - h] == xs[1..][i]
            && Where(ys[1..], m[1..])[j - h] == ys[1..][i];
          assert m[i + 1] && Where(xs, m)[j] == xs[i + 1] && Where(ys, m)[j] == ys[i + 1];
        }
      }
    }
  }

  lemma {:induction false} WhereIncreasing(xs: seq<Date>, m: seq<bool>)
    requires |xs| == |m| && Increasing(xs)
    ensures Increasing(Where(xs, m))
  {
    if xs != [] {
      WhereIncreasing(xs[1..], m[1..]);
      var t := Where(xs[1..], m[1..]);
      forall j | 0 <= j < |t| ensures xs[0] < t[j] {
        assert t[j] in xs[1..];
      }
      if m[0] {
        var r := Where(xs, m);
        assert r == [xs[0]] + t;
        forall i, j | 0 <= i < j < |r| ensures r[i] < r[j] {
          if i > 0 {
            assert r[i] == t[i - 1] && r[j] == t[j - 1];
          }
        }
      }
    }
  }

  /** `p.loc[m]`: the same mask applied to the index and to the rows. */
  function Mask(p: Panel, m: seq<bool>): (q: Panel)
    requires p.Valid() && |m| == |p.index|
    ensures q.Valid() && q.columns == p.columns && q.index == Where(p.index, m)
    ensures forall d :: d in q.index ==> RowAt(q, d) == RowAt(p, d)
  {
    WhereAligned(p.index, p.rows, m);
    WhereIncreasing(p.index, m);
    var q := Panel(Where(p.index, m), p.columns, Where(p.rows, m));
    MaskRowAt(p, m, q);
    q
  }

  lemma MaskRowAt(p: Panel, m: seq<bool>, q: Panel)
    requires p.Valid() && |m| == |p.index|
    requires q == Panel(Where(p.index, m), p.columns, Where(p.rows, m))
    ensures |q.rows| == |q.index|
    ensures forall d :: d in q.index ==> RowAt(q, d) == RowAt(p, d)
  {
    WhereAligned(p.index, p.rows, m);
    WhereIncreasing(p.index, m);
    forall d | d in q.index ensures RowAt(q, d) == RowAt(p, d) {
      var j :| 0 <= j < |q.index| && q.index[j] == d;
      assert SamePosition(p.index, p.rows, m, q.index[j], q.rows[j]);
      var i :| 0 <= i < |m| && m[i] && q.index[j] == p.index[i] && q.rows[j] == p.rows[i];
      FindAt(q.index, j);
      FindAt(p.index, i);
    }
  }

  /** The dates of `index` between `start` and `end` inclusive, as the dashboard's date-range mask keeps them. */
  function InRange(index: seq<Date>, start: Date, end: Date): seq<Date>
  {
    Where(index, DateMask(index, start, end))
  }

  /** The date filter keeps exactly the dates in `[start, end]`, still strictly increasing. */
  lemma InRangeExactly(index: seq<Date>, start: Date, end: Date)
    requires Increasing(index)
    ensures Increasing(InRange(index, start, end))
    ensures forall d :: d in InRange(index, start, end) <==> d in index && start <= d <= end
  {
    var m := DateMask(index, start, end);
    WhereIncreasing(index, m);
    WhereMembers(index, m);
  }

  /** `xs[::k]`: the entries at positions 0, k, 2k, … */
  function Stride<T>(xs: seq<T>, k: nat): (r: seq<T>)
    requires k >= 1
    ensures forall x :: x in r ==> x in xs
    ensures xs == [] ==> r == []
    ensures xs != [] ==> |r| >= 1 && r[0] == xs[0] && (|r| == 1 <==> |xs| <= k)
    decreases |xs|
  {
    if xs == [] then []
    else if |xs| <= k then [xs[0]]
    else [xs[0]] + Stride(xs[k..], k)
  }

  /**
   * The slice holds ceil(|xs| / k) entries, the j-th being `xs[j * k]`: so the
   * first entry is always kept, and a step at least as long as `xs` keeps it
   * alone.
   */
  lemma {:induction false} StrideAt<T>(xs: seq<T>, k: nat)
    requires k >= 1
    ensures |Stride(xs, k)| * k >= |xs| > (|Stride(xs, k)| - 1) * k
    ensures forall j :: 0 <= j < |Stride(xs, k)| ==> j * k < |xs| && Stride(xs, k)[j] == xs[j * k]
    decreases |xs|
  {
    if |xs| > k {
      var t := xs[k..];
      StrideAt(t, k);
      var n := |Stride(t, k)|;
      MulStep(n, k);
      MulStep(n - 1, k);
      forall j | 0 < j < n + 1 ensures j * k < |xs| && Stride(xs, k)[j] == xs[j * k] {
        MulStep(j - 1, k);
        assert Stride(xs, k)[j] == Stride(t, k)[j - 1] == t[(j - 1) * k];
      }
    }
  }

  /** Multiplication distributes over a successor. */
  lemma MulStep(j: int, k: int)
    ensures (j + 1) * k == j * k + k
  {
  }

}
