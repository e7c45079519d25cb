/** The split of the loaded trades in main: a trade whose exchange is
    exactly "A" goes to group A, every other trade (a "B", a "C", an "A"
    with a trailing '\r') goes to group B. */
module Partition {
  import opened Trades

  /** The trades of `trades` that are on exchange A (onA) or not (!onA), in their order. */
  function Group(trades: seq<Trade>, onA: bool): seq<Trade>
    decreases |trades|
  {
    if |trades| == 0 then []
    else
      var earlier := Group(trades[..|trades| - 1], onA);
      var last := trades[|trades| - 1];
      if OnExchangeA(last) == onA then earlier + [last] else earlier
  }

  method SplitByExchange(trades: seq<Trade>) returns (tradesA: seq<Trade>, tradesB: seq<Trade>)
    ensures tradesA == Group(trades, true)
    ensures tradesB == Group(trades, false)
  {
    tradesA, tradesB := [], [];
    for i := 0 to |trades|
      invariant tradesA == Group(trades[..i], true)
      invariant tradesB == Group(trades[..i], false)
    {
      assert trades[..i + 1][..i] == trades[..i];
      var trade := trades[i];
      if trade.exchange == "A" {
        tradesA := tradesA + [trade];
      } else {
        tradesB := tradesB + [trade];
      }
    }
    assert trades[..|trades|] == trades;
  }

  /** Group A holds exactly the trades on exchange "A", group B exactly the others. */
  lemma {:induction false} GroupMembers(trades: seq<Trade>, onA: bool, t: Trade)
    ensures t in Group(trades, onA) <==> t in trades && OnExchangeA(t) == onA
    decreases |trades|
  {
    if |trades| > 0 {
      var prefix := trades[..|trades| - 1];
      GroupMembers(prefix, onA, t);
      assert trades == prefix + [trades[|trades| - 1]];
    }
  }

  /** Every trade lands in exactly one group, with its multiplicity: the two
      groups together are a rearrangement of the input, so their sizes add up. */
  lemma {:induction false} GroupsCoverInput(trades: seq<Trade>)
    ensures multiset(Group(trades, true)) + multiset(Group(trades, false)) == multiset(trades)
    ensures |Group(trades, true)| + |Group(trades, false)| == |trades|
    decreases |trades|
  {
    if |trades| > 0 {
      var prefix, last := trades[..|trades| - 1], trades[|trades| - 1];
      GroupsCoverInput(prefix);
      assert trades == prefix + [last];
      assert multiset(trades) == multiset(prefix) + multiset{last};
      var kept := if OnExchangeA(last) then Group(prefix, true) else Group(prefix, false);
      assert multiset(kept + [last]) == multiset(kept) + multiset{last};
    }
  }

  /** Splitting keeps relative order: the groups of two stretches of trades
      are the groups of the first followed by those of the second. */
  lemma {:induction false} GroupAppend(xs: seq<Trade>, ys: seq<Trade>, onA: bool)
    ensures Group(xs + ys, onA) == Group(xs, onA) + Group(ys, onA)
    decreases |ys|
  {
    if |ys| == 0 {
      assert xs + ys == xs;
    } else {
      var ys' := ys[..|ys| - 1];
      assert (xs + ys)[..|xs + ys| - 1] == xs + ys';
      GroupAppend(xs, ys', onA);
    }
  }
}
