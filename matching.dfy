/** findClosestTrade and estimateTimeLag: for every group-A trade, the
    group-B trade nearest in time (the first one on ties), and the signed
    time differences of those matches averaged the way the program's
    fixed-width arithmetic does it. */
module Matching {
  import opened Trades
  import opened FixedWidth

  function Abs(x: int): nat {
    if x < 0 then -x else x
  }

  /** |b.time - a.time| in microseconds. */
  function Distance(b: Trade, a: Trade): nat {
    Abs(b.time - a.time)
  }

  /** k is where std::min_element stops: no trade of `trades` is nearer to
      `a` than trades[k], and every trade before k is strictly farther. */
  ghost predicate IsFirstNearest(a: Trade, trades: seq<Trade>, k: int) {
    0 <= k < |trades| &&
    (forall j :: 0 <= j < |trades| ==> Distance(trades[k], a) <= Distance(trades[j], a)) &&
    (forall j :: 0 <= j < k ==> Distance(trades[k], a) < Distance(trades[j], a))
  }

  /** The index std::min_element returns with the comparator "nearer to a":
      a scan that replaces the current best only by a strictly nearer trade. */
  function ClosestIndex(a: Trade, trades: seq<Trade>): (k: nat)
    requires |trades| > 0
    ensures IsFirstNearest(a, trades, k)
    decreases |trades|
  {
    if |trades| == 1 then 0
    else
      var best := ClosestIndex(a, trades[..|trades| - 1]);
      if Distance(trades[|trades| - 1], a) < Distance(trades[best], a) then |trades| - 1 else best
  }

  /** findClosestTrade: the trade of a non-empty group nearest in time to `a`. */
  function FindClosestTrade(a: Trade, trades: seq<Trade>): (b: Trade)
    requires |trades| > 0
    ensures b in trades
    ensures forall j :: 0 <= j < |trades| ==> Distance(b, a) <= Distance(trades[j], a)
    ensures exists k :: IsFirstNearest(a, trades, k) && b == trades[k]
  {
    var k := ClosestIndex(a, trades);
    trades[k]
  }

  /** The first-nearest index is unique, so ClosestIndex is the only answer. */
  lemma FirstNearestIsClosestIndex(a: Trade, trades: seq<Trade>, k: int)
    requires |trades| > 0
    requires IsFirstNearest(a, trades, k)
    ensures k == ClosestIndex(a, trades)
  {
  }

  /** Of two equally near trades, the later one is never chosen. */
  lemma TieGoesToEarlier(a: Trade, trades: seq<Trade>, i: int, j: int)
    requires 0 <= i < j < |trades|
    requires Distance(trades[i], a) == Distance(trades[j], a)
    ensures ClosestIndex(a, trades) != j
  {
  }

  /** The signed lag of one group-A trade: closest(a).time - a.time. */
  function Lag(a: Trade, tradesB: seq<Trade>): int
    requires |tradesB| > 0
  {
    FindClosestTrade(a, tradesB).time - a.time
  }

  /** The exact sum, over group A in order, of the signed lags. */
  function TotalLag(tradesA: seq<Trade>, tradesB: seq<Trade>): int
    requires |tradesB| > 0
    decreases |tradesA|
  {
    if |tradesA| == 0 then 0
    else TotalLag(tradesA[..|tradesA| - 1], tradesB) + Lag(tradesA[|tradesA| - 1], tradesB)
  }

  /** The value estimateTimeLag returns: 0 when a group is empty; otherwise
      the sum as an int64_t, converted to size_t for the division by the
      count, and the quotient narrowed to int. */
  function LagEstimate(tradesA: seq<Trade>, tradesB: seq<Trade>): (r: int)
    ensures IsInt32(r)
    ensures |tradesA| == 0 || |tradesB| == 0 ==> r == 0
  {
    if |tradesA| == 0 || |tradesB| == 0 then 0
    else NarrowToInt32(ToUint64(Wrap64(TotalLag(tradesA, tradesB))) / |tradesA|)
  }

  method EstimateTimeLag(tradesA: seq<Trade>, tradesB: seq<Trade>) returns (averageDiff: int)
    ensures averageDiff == LagEstimate(tradesA, tradesB)
  {
    if |tradesA| == 0 || |tradesB| == 0 {
      return 0;
    }
    var totalDiff := 0;
    var count := 0;
    for i := 0 to |tradesA|
      invariant totalDiff == Wrap64(TotalLag(tradesA[..i], tradesB))
      invariant count == i
    {
      var closestTradeB := FindClosestTrade(tradesA[i], tradesB);
      var diff := closestTradeB.time - tradesA[i].time;
      AccumulateLag(tradesA, tradesB, i, totalDiff, diff);
      totalDiff := Wrap64(totalDiff + diff);
      count := count + 1;
    }
    assert tradesA[..|tradesA|] == tradesA;
    averageDiff := NarrowToInt32(ToUint64(totalDiff) / count);
  }

  /** One step of estimateTimeLag's loop: adding the next lag to the
      wrapped running total gives the wrapped total of one more trade. */
  lemma AccumulateLag(tradesA: seq<Trade>, tradesB: seq<Trade>, i: int, total: int, diff: int)
    requires 0 <= i < |tradesA| && |tradesB| > 0
    requires total == Wrap64(TotalLag(tradesA[..i], tradesB))
    requires diff == Lag(tradesA[i], tradesB)
    ensures Wrap64(total + diff) == Wrap64(TotalLag(tradesA[..i + 1], tradesB))
  {
    var prefix := tradesA[..i + 1];
    assert prefix[..i] == tradesA[..i] && prefix[i] == tradesA[i];
    Wrap64Step(total, TotalLag(tradesA[..i], tradesB), diff, TotalLag(prefix, tradesB));
  }

  /** When the total is non-negative and fits int64_t and the mean fits int,
      the estimate is the truncated mean of the signed lags. */
  lemma EstimateIsMeanForNonNegativeTotal(tradesA: seq<Trade>, tradesB: seq<Trade>)
    requires |tradesA| > 0 && |tradesB| > 0
    requires 0 <= TotalLag(tradesA, tradesB) <= Int64Max
    requires TotalLag(tradesA, tradesB) / |tradesA| <= Int32Max
    ensures LagEstimate(tradesA, tradesB) == TotalLag(tradesA, tradesB) / |tradesA|
  {
    var total, n := TotalLag(tradesA, tradesB), |tradesA|;
    assert Wrap64(total) == total;
    assert ToUint64(total) == total;
    assert 0 <= total / n by {
      DivBracket(total, n);
      LtOfMulLt(0, total / n + 1, n);
    }
    assert NarrowToInt32(total / n) == total / n;
  }

  /** The lag of a match is bounded by the lags of all of group A: a bound
      on every lag bounds the total |A|-fold. */
  lemma {:induction false} TotalLagBetween(tradesA: seq<Trade>, tradesB: seq<Trade>, lo: int, hi: int)
    requires |tradesB| > 0
    requires forall k :: 0 <= k < |tradesA| ==> lo <= Lag(tradesA[k], tradesB) <= hi
    ensures lo * |tradesA| <= TotalLag(tradesA, tradesB) <= hi * |tradesA|
    decreases |tradesA|
  {
    if |tradesA| > 0 {
      var n := |tradesA|;
      var prefix := tradesA[..n - 1];
      assert forall k :: 0 <= k < n - 1 ==> prefix[k] == tradesA[k];
      TotalLagBetween(prefix, tradesB, lo, hi);
      MulSucc(lo, n - 1);
      MulSucc(hi, n - 1);
    }
  }

  /** The estimate the program evidently intends (corrected counterpart of
      LagEstimate): the signed mean lag, truncated toward zero. */
  function IntendedLagEstimate(tradesA: seq<Trade>, tradesB: seq<Trade>): (r: int)
    ensures |tradesA| == 0 || |tradesB| == 0 ==> r == 0
  {
    if |tradesA| == 0 || |tradesB| == 0 then 0
    else TruncDiv(TotalLag(tradesA, tradesB), |tradesA|)
  }

  /** The intended estimate is a mean: it lies between the smallest and the
      largest signed lag of the matches, whatever their signs. */
  lemma IntendedEstimateWithinLags(tradesA: seq<Trade>, tradesB: seq<Trade>, lo: int, hi: int)
    requires |tradesA| > 0 && |tradesB| > 0
    requires forall k :: 0 <= k < |tradesA| ==> lo <= Lag(tradesA[k], tradesB) <= hi
    ensures lo <= IntendedLagEstimate(tradesA, tradesB) <= hi
  {
    TotalLagBetween(tradesA, tradesB, lo, hi);
    TruncDivBetween(TotalLag(tradesA, tradesB), |tradesA|, lo, hi);
  }

  /** The two estimates agree whenever the total is non-negative and the
      mean fits int. */
  lemma EstimatesAgreeForNonNegativeTotal(tradesA: seq<Trade>, tradesB: seq<Trade>)
    requires |tradesA| > 0 && |tradesB| > 0
    requires 0 <= TotalLag(tradesA, tradesB) <= Int64Max
    requires TotalLag(tradesA, tradesB) / |tradesA| <= Int32Max
    ensures LagEstimate(tradesA, tradesB) == IntendedLagEstimate(tradesA, tradesB)
  {
    EstimateIsMeanForNonNegativeTotal(tradesA, tradesB);
  }

  /** Three group-A trades one microsecond after the only group-B trade:
      every lag is -1, so the mean is -1, but the total -3 is divided as the
      unsigned 2^64 - 3, giving 6148914691236517204, whose low 32 bits are
      1431655764. */
  lemma NegativeTotalDividedUnsigned(a: Trade, b: Trade)
    requires a.time == b.time + 1
    ensures Lag(a, [b]) == -1
    ensures TotalLag([a, a, a], [b]) == -3
    ensures IntendedLagEstimate([a, a, a], [b]) == -1
    ensures LagEstimate([a, a, a], [b]) == 1431655764
  {
    assert FindClosestTrade(a, [b]) == b;
    assert Lag(a, [b]) == -1;
    assert [a][..0] == [];
    assert TotalLag([a], [b]) == -1;
    assert [a, a][..1] == [a];
    assert TotalLag([a, a], [b]) == -2;
    assert [a, a, a][..2] == [a, a];
    assert TotalLag([a, a, a], [b]) == -3;
    assert Wrap64(-3) == -3;
    assert ToUint64(-3) == 18446744073709551613;
    assert 18446744073709551613 / 3 == 6148914691236517204;
  }

  /** One group-A trade and one group-B trade an hour later: the total is
      non-negative, but the mean does not fit an int and wraps when narrowed. */
  lemma HourLagWraps(a: Trade, b: Trade)
    requires b.time == a.time + 3_600_000_000
    ensures LagEstimate([a], [b]) == 3_600_000_000 - TwoTo32
  {
    assert FindClosestTrade(a, [b]) == b;
    assert [a][..0] == [];
    assert TotalLag([a], [b]) == 3_600_000_000;
  }

  /** Two group-B trades at the same distance on either side of a group-A
      trade: the one listed first is matched, and its signed lag (not the
      distance) is what is summed. */
  lemma EqualDistanceOppositeSides(a: Trade, before: Trade, after: Trade, d: int)
    requires d >= 0
    requires before.time == a.time - d && after.time == a.time + d
    ensures Lag(a, [after, before]) == d
    ensures Lag(a, [before, after]) == -d
  {
    assert [after, before][..1] == [after];
    assert [before, after][..1] == [before];
  }
}
