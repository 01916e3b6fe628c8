/** The quarter and year-to-date (YTD) columns that the form fills in on a
    submit: twelve month fields give four quarter values and one YTD value.
    All amounts are exact hundredths; PHP's `round(x, 2)` becomes a rounding
    of a rational to the nearest integer, halves away from zero. */
module Derivation {
  import opened Cells

  const MonthsPerQuarter: nat := 3
  const QuarterCount: nat := 4

  /** `round(n / d)`: the integer nearest to n / d, a half rounded away from zero. */
  function RoundDiv(n: int, d: int): (r: int)
    requires d > 0
    ensures n >= 0 ==> r >= 0 && -d <= 2 * (n - r * d) < d
    ensures n < 0 ==> r <= 0 && -d < 2 * (n - r * d) <= d
  {
    if n >= 0 then
      var q := (2 * n + d) / (2 * d);
      assert q * (2 * d) + (2 * n + d) % (2 * d) == 2 * n + d;
      q
    else
      var q := (-2 * n + d) / (2 * d);
      assert q * (2 * d) + (-2 * n + d) % (2 * d) == -2 * n + d;
      -q
  }

  /** Sum, in hundredths, of the first `m` months of quarter `q`, blanks as 0. */
  function MonthsSum(months: seq<Cell>, q: nat, m: nat): int
    requires m <= MonthsPerQuarter
  {
    if m == 0 then 0
    else MonthsSum(months, q, m - 1) + Value(CellAt(months, MonthsPerQuarter * q + m - 1))
  }

  /** Sum of the three months of quarter `q` (Q1 = jan..mar, ..., Q4 = oct..dec). */
  function QuarterSum(months: seq<Cell>, q: nat): int
  {
    MonthsSum(months, q, MonthsPerQuarter)
  }

  /** The quarter column for a month sum: blank when the sum is 0, otherwise
      round((sum + 1) / 3, 2); the "+ 1" is kept as the form computes it. */
  function QuarterCell(sum: int): (c: Cell)
    ensures c == Blank <==> sum == 0
    ensures c.Num? ==> -1 <= 3 * c.hundredths - (sum + 100) <= 1
  {
    if sum != 0 then Num(RoundDiv(sum + 100, 3)) else Blank
  }

  /** The YTD column for a quarter sum: blank when the sum is 0, otherwise
      round((sum + 1) / 4, 2); an exact half goes away from zero. */
  function YtdCell(sum: int): (c: Cell)
    ensures c == Blank <==> sum == 0
    ensures c.Num? && sum + 100 >= 0 ==> -1 <= 4 * c.hundredths - (sum + 100) <= 2
    ensures c.Num? && sum + 100 < 0 ==> -2 <= 4 * c.hundredths - (sum + 100) <= 1
  {
    if sum != 0 then Num(RoundDiv(sum + 100, 4)) else Blank
  }

  /** Sum of the values of a list of cells, blanks as 0. */
  function SumValues(s: seq<Cell>): int
  {
    if s == [] then 0 else SumValues(s[..|s| - 1]) + Value(s[|s| - 1])
  }

  lemma QuarterSumOfThree(months: seq<Cell>, q: nat)
    ensures QuarterSum(months, q) == Value(CellAt(months, MonthsPerQuarter * q))
      + Value(CellAt(months, MonthsPerQuarter * q + 1)) + Value(CellAt(months, MonthsPerQuarter * q + 2))
  {
    assert MonthsSum(months, q, 1) == Value(CellAt(months, MonthsPerQuarter * q));
    assert MonthsSum(months, q, 2) == MonthsSum(months, q, 1) + Value(CellAt(months, MonthsPerQuarter * q + 1));
  }

  lemma SumValuesOfFour(qs: seq<Cell>)
    requires |qs| == QuarterCount
    ensures SumValues(qs) == Value(qs[0]) + Value(qs[1]) + Value(qs[2]) + Value(qs[3])
  {
    assert qs[..3][..2] == qs[..2] && qs[..2][..1] == qs[..1] && qs[..1][..0] == [];
    assert SumValues(qs[..1]) == Value(qs[0]);
    assert SumValues(qs[..2]) == SumValues(qs[..1]) + Value(qs[1]);
    assert SumValues(qs[..3]) == SumValues(qs[..2]) + Value(qs[2]);
  }

  /** The four quarter columns of a row. */
  function Quarters(months: seq<Cell>): seq<Cell>
  {
    seq(QuarterCount, (q: int) requires 0 <= q => QuarterCell(QuarterSum(months, q)))
  }

  /** The derived columns of one row. */
  datatype Derived = Derived(quarters: seq<Cell>, ytd: Cell)

  /** What a submit shows in the derived columns of a row with these months. */
  function Derive(months: seq<Cell>): Derived
  {
    var qs := Quarters(months);
    Derived(qs, YtdCell(SumValues(qs)))
  }

  /** The loops of the form that accumulate each quarter's months and then
      the quarters into the YTD value. */
  method DeriveRow(months: seq<Cell>) returns (quarters: seq<Cell>, ytd: Cell)
    ensures |quarters| == QuarterCount
    ensures forall q :: 0 <= q < QuarterCount ==>
      (quarters[q] == Blank <==> QuarterSum(months, q) == 0) &&
      quarters[q] == QuarterCell(QuarterSum(months, q))
    ensures ytd == YtdCell(SumValues(quarters))
    ensures Derived(quarters, ytd) == Derive(months)
  {
    quarters := [];
    var q := 0;
    while q < QuarterCount
      invariant 0 <= q <= QuarterCount && |quarters| == q
      invariant forall k :: 0 <= k < q ==> quarters[k] == QuarterCell(QuarterSum(months, k))
    {
      var quarterValue := 0;
      var m := 0;
      while m < MonthsPerQuarter
        invariant 0 <= m <= MonthsPerQuarter
        invariant quarterValue == MonthsSum(months, q, m)
      {
        quarterValue := quarterValue + Value(CellAt(months, MonthsPerQuarter * q + m));
        m := m + 1;
      }
      if quarterValue != 0 {
        quarters := quarters + [Num(RoundDiv(quarterValue + 100, 3))];
      } else {
        quarters := quarters + [Blank];
      }
      q := q + 1;
    }
    var total := 0;
    var k := 0;
    while k < QuarterCount
      invariant 0 <= k <= QuarterCount
      invariant total == SumValues(quarters[..k])
    {
      assert quarters[..k + 1][..k] == quarters[..k];
      total := total + Value(quarters[k]);
      k := k + 1;
    }
    assert quarters[..QuarterCount] == quarters;
    if total != 0 {
      ytd := Num(RoundDiv(total + 100, 4));
    } else {
      ytd := Blank;
    }
    assert quarters == Quarters(months);
  }

  /** A quarter whose three months are all blank or "0" is blank, never 0.00. */
  lemma EmptyQuarterIsBlank(months: seq<Cell>, q: nat)
    requires q < QuarterCount
    requires forall i :: MonthsPerQuarter * q <= i < MonthsPerQuarter * (q + 1) ==> IsPhpEmpty(CellAt(months, i))
    ensures Derive(months).quarters[q] == Blank
  {
    assert IsPhpEmpty(CellAt(months, MonthsPerQuarter * q + 1));
    assert IsPhpEmpty(CellAt(months, MonthsPerQuarter * q + 2));
    QuarterSumOfThree(months, q);
  }

  /** The only quarter shown as 0.00 is one whose months sum to about -1.00:
      a blank quarter and a zero quarter are never confused. */
  lemma QuarterZeroOnlyNearMinusOne(sum: int)
    ensures QuarterCell(sum) == Num(0) <==> -101 <= sum <= -99
  {
  }

  /** A row with nothing entered shows blank quarters and a blank YTD. */
  lemma {:induction false} EmptyRowDerivesBlank(months: seq<Cell>)
    requires forall i :: 0 <= i < |months| ==> IsPhpEmpty(months[i])
    ensures Derive(months) == Derived([Blank, Blank, Blank, Blank], Blank)
  {
    forall q | 0 <= q < QuarterCount
      ensures Quarters(months)[q] == Blank
    {
      EmptyQuarterIsBlank(months, q);
    }
    var qs := Quarters(months);
    assert qs == [Blank, Blank, Blank, Blank];
    SumValuesOfFour(qs);
  }

  /** Only a month's value matters: a blank field and "0" derive alike. */
  lemma BlankCountsAsZero(months: seq<Cell>, other: seq<Cell>)
    requires |months| == |other|
    requires forall i :: 0 <= i < |months| ==> Value(months[i]) == Value(other[i])
    ensures Derive(months) == Derive(other)
  {
    forall q | 0 <= q < QuarterCount
      ensures QuarterSum(months, q) == QuarterSum(other, q)
    {
      QuarterSumOfThree(months, q);
      QuarterSumOfThree(other, q);
    }
    assert Quarters(months) == Quarters(other);
  }

  /** Worked example: months 100, 0, 0, 50, 0, 0, 0, 0, 0, 0, 0, 50 give
      Q1 = 33.67, Q2 = 17.00, Q3 blank, Q4 = 17.00 and YTD = 17.17. */
  lemma WorkedExample()
    ensures Derive([Num(10000), Num(0), Num(0), Num(5000), Num(0), Num(0),
                    Num(0), Num(0), Num(0), Num(0), Num(0), Num(5000)])
         == Derived([Num(3367), Num(1700), Blank, Num(1700)], Num(1717))
  {
    var months := [Num(10000), Num(0), Num(0), Num(5000), Num(0), Num(0),
                   Num(0), Num(0), Num(0), Num(0), Num(0), Num(5000)];
    QuarterSumOfThree(months, 0);
    QuarterSumOfThree(months, 1);
    QuarterSumOfThree(months, 2);
    QuarterSumOfThree(months, 3);
    var qs := Quarters(months);
    assert qs == [Num(3367), Num(1700), Blank, Num(1700)];
    SumValuesOfFour(qs);
  }
}
