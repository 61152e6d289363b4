/**
 * `Series.nlargest(n)` with pandas' default `keep='first'`, on a series whose
 * labels are the candidate symbols and whose values come from one panel row:
 * missing values (NaN) are never selected, the result is in descending order
 * of value, holds at most `n` labels, and of equal values the one at the
 * earlier position wins.
 */
module TopN {
  import opened Symbols
  import opened Panels
  import opened Wrappers

  /** How many of the candidates hold a number (not NaN) in `row`. */
  function CountScored(c: seq<Symbol>, row: Row): (n: nat)
    ensures n <= |c|
  {
    if c == [] then 0 else (if c[0] in row then 1 else 0) + CountScored(c[1..], row)
  }

  /** The count is zero exactly when every candidate is NaN. */
  lemma {:induction false} CountScoredZero(c: seq<Symbol>, row: Row)
    ensures CountScored(c, row) == 0 <==> forall s :: s in c ==> s !in row
  {
    if c != [] {
      CountScoredZero(c[1..], row);
      assert forall s :: s in c ==> s == c[0] || s in c[1..];
    }
  }

  /** When every candidate has a number, all of them are counted. */
  lemma {:induction false} CountScoredAll(c: seq<Symbol>, row: Row)
    requires forall s :: s in c ==> s in row
    ensures CountScored(c, row) == |c|
  {
    if c != [] {
      assert c[0] in c;
      assert forall s :: s in c[1..] ==> s in c;
      CountScoredAll(c[1..], row);
    }
  }

  /**
   * The position of the largest number among the candidates, the first such
   * position on a tie; `None` when every candidate is NaN.
   */
  function FirstMax(c: seq<Symbol>, row: Row): (r: Option<nat>)
    ensures r.None? <==> forall s :: s in c ==> s !in row
    ensures r.Some? ==> r.value < |c| && c[r.value] in row
    ensures r.Some? ==> forall j :: 0 <= j < |c| && c[j] in row ==> row[c[j]] <= row[c[r.value]]
    ensures r.Some? ==> forall j :: 0 <= j < r.value && c[j] in row ==> row[c[j]] < row[c[r.value]]
  {
    if c == [] then None
    else
      assert forall s :: s in c ==> s == c[0] || s in c[1..];
      match FirstMax(c[1..], row)
      case None => if c[0] in row then Some(0) else None
      case Some(i) =>
        assert c[1..][i] == c[i + 1];
        if c[0] in row && row[c[i + 1]] <= row[c[0]] then Some(0) else Some(i + 1)
  }

  /**
   * `Series(row, index=c).nlargest(n).index`: take the first maximum, then
   * choose the rest with that label's value set aside (as if it were NaN).
   */
  function NLargest(c: seq<Symbol>, row: Row, n: nat): seq<Symbol>
    decreases n
  {
    if n == 0 then []
    else match FirstMax(c, row)
      case None => []
      case Some(i) => [c[i]] + NLargest(c, row - {c[i]}, n - 1)
  }

  /** Everything nlargest returns is a candidate that carries a value. */
  lemma {:induction false} NLargestMembers(c: seq<Symbol>, row: Row, n: nat)
    ensures forall s :: s in NLargest(c, row, n) ==> s in c && s in row
    decreases n
  {
    if n > 0 && FirstMax(c, row).Some? {
      var i := FirstMax(c, row).value;
      NLargestMembers(c, row - {c[i]}, n - 1);
    }
  }

  /** Only candidates with a number are chosen, each once, and no more than `n` of them. */
  lemma {:induction false} NLargestChosen(c: seq<Symbol>, row: Row, n: nat)
    ensures |NLargest(c, row, n)| <= n
    ensures forall s :: s in NLargest(c, row, n) ==> s in c && s in row
    ensures Distinct(NLargest(c, row, n))
    decreases n
  {
    NLargestMembers(c, row, n);
    if n > 0 && FirstMax(c, row).Some? {
      var i := FirstMax(c, row).value;
      NLargestChosen(c, row - {c[i]}, n - 1);
      DistinctCons(c[i], NLargest(c, row - {c[i]}, n - 1));
    }
  }


  lemma DistinctCons(x: Symbol, t: seq<Symbol>)
    requires Distinct(t) && x !in t
    ensures Distinct([x] + t)
  {
    var r := [x] + t;
    forall k, l | 0 <= k < l < |r| ensures r[k] != r[l] {
      assert r[l] == t[l - 1];
      if k > 0 {
        assert r[k] == t[k - 1];
      }
    }
  }

  /** Setting aside one label of unique candidates lowers the count of numbers by one. */
  lemma {:induction false} CountScoredRemove(c: seq<Symbol>, row: Row, x: Symbol)
    requires Distinct(c) && x in c && x in row
    ensures CountScored(c, row - {x}) + 1 == CountScored(c, row)
  {
    if c[0] == x {
      CountScoredAbsent(c[1..], row, x);
    } else {
      CountScoredRemove(c[1..], row, x);
    }
  }

  lemma {:induction false} CountScoredAbsent(c: seq<Symbol>, row: Row, x: Symbol)
    requires x !in c
    ensures CountScored(c, row - {x}) == CountScored(c, row)
  {
    if c != [] {
      CountScoredAbsent(c[1..], row, x);
    }
  }

  /** The result holds min(n, number of non-NaN candidates) labels. */
  lemma {:induction false} NLargestSize(c: seq<Symbol>, row: Row, n: nat)
    requires Distinct(c)
    ensures |NLargest(c, row, n)| == if n < CountScored(c, row) then n else CountScored(c, row)
    decreases n
  {
    CountScoredZero(c, row);
    if n > 0 && FirstMax(c, row).Some? {
      var i := FirstMax(c, row).value;
      NLargestSize(c, row - {c[i]}, n - 1);
      CountScoredRemove(c, row, c[i]);
    }
  }

  /** The labels come out in non-increasing order of value. */
  lemma {:induction false} NLargestDescending(c: seq<Symbol>, row: Row, n: nat)
    ensures forall k, l :: 0 <= k < l < |NLargest(c, row, n)| ==>
      NLargest(c, row, n)[k] in row && NLargest(c, row, n)[l] in row &&
      row[NLargest(c, row, n)[l]] <= row[NLargest(c, row, n)[k]]
    decreases n
  {
    NLargestMembers(c, row, n);
    if n > 0 && FirstMax(c, row).Some? {
      var i := FirstMax(c, row).value;
      var rest := row - {c[i]};
      var t := NLargest(c, rest, n - 1);
      NLargestDescending(c, rest, n - 1);
      NLargestMembers(c, rest, n - 1);
      var r := NLargest(c, row, n);
      assert r == [c[i]] + t;
      forall k, l | 0 <= k < l < |r| ensures row[r[l]] <= row[r[k]] {
        assert r[l] == t[l - 1] && r[l] in t;
        var b :| 0 <= b < |c| && c[b] == r[l];
        if k > 0 {
          assert r[k] == t[k - 1];
        }
      }
    } else {
      assert NLargest(c, row, n) == [];
    }
  }

  /** Every chosen value is at least every non-NaN value left out. */
  lemma {:induction false} NLargestDominates(c: seq<Symbol>, row: Row, n: nat)
    ensures forall s, k :: (s in c && s in row && s !in NLargest(c, row, n) && 0 <= k < |NLargest(c, row, n)|) ==>
      NLargest(c, row, n)[k] in row && row[s] <= row[NLargest(c, row, n)[k]]
    decreases n
  {
    NLargestMembers(c, row, n);
    if n > 0 && FirstMax(c, row).Some? {
      var i := FirstMax(c, row).value;
      var rest := row - {c[i]};
      var t := NLargest(c, rest, n - 1);
      NLargestDominates(c, rest, n - 1);
      NLargestMembers(c, rest, n - 1);
      var r := NLargest(c, row, n);
      assert r == [c[i]] + t;
      forall s, k | s in c && s in row && s !in r && 0 <= k < |r| ensures row[s] <= row[r[k]] {
        assert s != c[i] && s in rest && s !in t;
        var b :| 0 <= b < |c| && c[b] == s;
        if k > 0 {
          assert r[k] == t[k - 1] && r[k] in t;
        }
      }
    }
  }

  /**
   * keep='first' at the cut: a non-NaN value left out that equals a chosen one
   * stands at a later position among the candidates.
   */
  lemma {:induction false} NLargestKeepsFirst(c: seq<Symbol>, row: Row, n: nat)
    requires Distinct(c)
    ensures forall a, b :: (0 <= a < |c| && 0 <= b < |c| && c[a] in NLargest(c, row, n) &&
      c[b] !in NLargest(c, row, n) && c[a] in row && c[b] in row && row[c[a]] == row[c[b]]) ==> a < b
    decreases n
  {
    if n > 0 && FirstMax(c, row).Some? {
      var i := FirstMax(c, row).value;
      var rest := row - {c[i]};
      var t := NLargest(c, rest, n - 1);
      NLargestKeepsFirst(c, rest, n - 1);
      NLargestMembers(c, rest, n - 1);
      var r := NLargest(c, row, n);
      assert r == [c[i]] + t;
      forall a, b | 0 <= a < |c| && 0 <= b < |c| && c[a] in r && c[b] !in r && c[a] in row && c[b] in row &&
        row[c[a]] == row[c[b]]
        ensures a < b
      {
        assert c[b] != c[i] && c[b] in rest;
        if a != i {
          assert c[a] != c[i] && c[a] in t && c[a] in rest;
        }
      }
    }
  }

  /** The position of `s` among the candidates. */
  ghost function Pos(c: seq<Symbol>, s: Symbol): (p: nat)
    requires s in c
    ensures p < |c| && c[p] == s
  {
    var p :| 0 <= p < |c| && c[p] == s; p
  }

  /**
   * Equal values in `r` come in the order of their positions in `c`, as a
   * stable sort leaves them.
   */
  ghost predicate TiesInOrder(c: seq<Symbol>, row: Row, r: seq<Symbol>)
  {
    forall k, l :: (0 <= k < l < |r| && r[k] in c && r[l] in c && r[k] in row && r[l] in row &&
      row[r[k]] == row[r[l]]) ==> Pos(c, r[k]) < Pos(c, r[l])
  }

  /** Equal values among the chosen keep the order they had among the candidates. */
  lemma {:induction false} NLargestTiesInOrder(c: seq<Symbol>, row: Row, n: nat)
    requires Distinct(c)
    ensures TiesInOrder(c, row, NLargest(c, row, n))
    decreases n
  {
    if n > 0 && FirstMax(c, row).Some? {
      var i := FirstMax(c, row).value;
      NLargestTiesInOrder(c, row - {c[i]}, n - 1);
      TiesInOrderStep(c, row, n);
    } else {
      assert NLargest(c, row, n) == [];
    }
  }

  /** One step of nlargest keeps ties in order if the choices after it do. */
  lemma TiesInOrderStep(c: seq<Symbol>, row: Row, n: nat)
    requires Distinct(c) && n > 0 && FirstMax(c, row).Some?
    requires TiesInOrder(c, row - {c[FirstMax(c, row).value]}, NLargest(c, row - {c[FirstMax(c, row).value]}, n - 1))
    ensures TiesInOrder(c, row, NLargest(c, row, n))
  {
    var i := FirstMax(c, row).value;
    var rest := row - {c[i]};
    var t := NLargest(c, rest, n - 1);
    NLargestMembers(c, rest, n - 1);
    assert forall k :: 0 <= k < |t| ==> t[k] in t;
    assert Pos(c, c[i]) == i;
    TiesInOrderCons(c, row, i, t);
    assert NLargest(c, row, n) == [c[i]] + t;
  }

  /**
   * Putting a first maximum in front of ties-in-order picks from the rest of
   * the row keeps ties in order.
   */
  lemma TiesInOrderCons(c: seq<Symbol>, row: Row, i: nat, t: seq<Symbol>)
    requires i < |c| && c[i] in row && Pos(c, c[i]) == i
    requires forall j :: 0 <= j < i && c[j] in row ==> row[c[j]] < row[c[i]]
    requires forall k :: 0 <= k < |t| ==> t[k] in c && t[k] in row - {c[i]}
    requires TiesInOrder(c, row - {c[i]}, t)
    ensures TiesInOrder(c, row, [c[i]] + t)
  {
    var rest := row - {c[i]};
    var r := [c[i]] + t;
    forall k, l | (0 <= k < l < |r| && r[k] in c && r[l] in c && r[k] in row && r[l] in row &&
      row[r[k]] == row[r[l]])
      ensures Pos(c, r[k]) < Pos(c, r[l])
    {
      assert r[l] == t[l - 1] && t[l - 1] in rest;
      if k > 0 {
        assert r[k] == t[k - 1] && t[k - 1] in rest;
        TieInTail(c, rest, t, k - 1, l - 1);
      } else {
        TieAfterFirstMax(c, row, i, r[l]);
      }
    }
  }

  /** Two ties among the later choices are in candidate order. */
  lemma TieInTail(c: seq<Symbol>, rest: Row, t: seq<Symbol>, k: nat, l: nat)
    requires TiesInOrder(c, rest, t)
    requires k < l < |t| && t[k] in c && t[l] in c && t[k] in rest && t[l] in rest
    requires rest[t[k]] == rest[t[l]]
    ensures Pos(c, t[k]) < Pos(c, t[l])
  {
  }

  /** A tie of the first maximum, other than itself, sits at a later candidate position. */
  lemma TieAfterFirstMax(c: seq<Symbol>, row: Row, i: nat, x: Symbol)
    requires i < |c| && c[i] in row && Pos(c, c[i]) == i
    requires forall j :: 0 <= j < i && c[j] in row ==> row[c[j]] < row[c[i]]
    requires x in c && x in row && x != c[i] && row[x] == row[c[i]]
    ensures Pos(c, c[i]) < Pos(c, x)
  {
    var b := Pos(c, x);
    assert c[b] == x;
  }

  /** With `n` at least the number of non-NaN candidates, every one of them is chosen. */
  lemma {:induction false} NLargestTakesAll(c: seq<Symbol>, row: Row, n: nat)
    requires Distinct(c) && CountScored(c, row) <= n
    ensures forall s :: s in c && s in row ==> s in NLargest(c, row, n)
    decreases n
  {
    CountScoredZero(c, row);
    if n > 0 && FirstMax(c, row).Some? {
      var i := FirstMax(c, row).value;
      CountScoredRemove(c, row, c[i]);
      NLargestTakesAll(c, row - {c[i]}, n - 1);
    }
  }

  /** The two rows give every candidate the same value (or both NaN). */
  predicate AgreeOn(c: seq<Symbol>, row1: Row, row2: Row)
  {
    forall s :: s in c ==> Score(row1, s) == Score(row2, s)
  }

  lemma {:induction false} FirstMaxScoresOnly(c: seq<Symbol>, row1: Row, row2: Row)
    requires AgreeOn(c, row1, row2)
    ensures FirstMax(c, row1) == FirstMax(c, row2)
  {
    if c != [] {
      assert Score(row1, c[0]) == Score(row2, c[0]);
      FirstMaxScoresOnly(c[1..], row1, row2);
      match FirstMax(c[1..], row1)
      case None =>
      case Some(i) => assert Score(row1, c[i + 1]) == Score(row2, c[i + 1]);
    }
  }

  /** The choice depends on nothing but the candidates' values and their order. */
  lemma {:induction false} NLargestScoresOnly(c: seq<Symbol>, row1: Row, row2: Row, n: nat)
    requires AgreeOn(c, row1, row2)
    ensures NLargest(c, row1, n) == NLargest(c, row2, n)
    decreases n
  {
    FirstMaxScoresOnly(c, row1, row2);
    if n > 0 && FirstMax(c, row1).Some? {
      var i := FirstMax(c, row1).value;
      assert AgreeOn(c, row1 - {c[i]}, row2 - {c[i]});
      NLargestScoresOnly(c, row1 - {c[i]}, row2 - {c[i]}, n - 1);
    }
  }
}
