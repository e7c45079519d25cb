/** readCSV's loop: the first line (the header) is dropped unread, empty
    lines are skipped, every other line is parsed and its trade kept unless it
    is the invalid-record sentinel. Opening the file and splitting it into
    lines are outside the model; the file arrives as its sequence of lines. */
module Loader {
  import opened Trades
  import opened Parser

  /** What one line contributes: nothing when it is empty or parses to the
      invalid-record sentinel, its trade otherwise. */
  function LineTrades(line: string, seconds: string -> int, stod: string -> Option<real>): seq<Trade> {
    if line == "" then []
    else
      var trade := ParsedTrade(line, seconds, stod);
      if !IsSentinel(trade) then [trade] else []
  }

  /** The trades kept from the lines after the header, in line order. */
  function KeptTrades(body: seq<string>, seconds: string -> int, stod: string -> Option<real>): seq<Trade>
    decreases |body|
  {
    if |body| == 0 then []
    else KeptTrades(body[..|body| - 1], seconds, stod) + LineTrades(body[|body| - 1], seconds, stod)
  }

  /** The trades readCSV returns for a file with these lines. */
  function LoadedTrades(lines: seq<string>, seconds: string -> int, stod: string -> Option<real>): seq<Trade> {
    if |lines| == 0 then [] else KeptTrades(lines[1..], seconds, stod)
  }

  method ReadTrades(lines: seq<string>, seconds: string -> int, stod: string -> Option<real>) returns (trades: seq<Trade>)
    ensures trades == LoadedTrades(lines, seconds, stod)
  {
    trades := [];
    if |lines| == 0 {
      return;
    }
    var i := 1;
    while i < |lines|
      invariant 1 <= i <= |lines|
      invariant trades == KeptTrades(lines[1..i], seconds, stod)
    {
      var line := lines[i];
      KeptNext(lines, i, seconds, stod);
      if line != "" {
        var trade := ParseLine(line, seconds, stod);
        if trade.price != 0.0 || trade.size != 0.0 {
          trades := trades + [trade];
        }
      }
      i := i + 1;
    }
    assert lines[1..i] == lines[1..];
  }

  /** One more line of the loop appends that line's contribution. */
  lemma KeptNext(lines: seq<string>, i: int, seconds: string -> int, stod: string -> Option<real>)
    requires 1 <= i < |lines|
    ensures KeptTrades(lines[1..i + 1], seconds, stod) == KeptTrades(lines[1..i], seconds, stod) + LineTrades(lines[i], seconds, stod)
  {
    assert lines[1..i + 1][..i - 1] == lines[1..i];
  }

  /** One line's contribution: its trade when the line is non-empty and the
      trade is not the sentinel, nothing otherwise. */
  lemma KeptOneLine(line: string, seconds: string -> int, stod: string -> Option<real>)
    ensures KeptTrades([line], seconds, stod) ==
      if line != "" && !IsSentinel(ParsedTrade(line, seconds, stod)) then [ParsedTrade(line, seconds, stod)] else []
  {
    assert [line][..0] == [];
  }

  /** Lines are handled independently and in order: the trades of two
      stretches of lines are the trades of the first followed by those of the second. */
  lemma {:induction false} KeptAppend(xs: seq<string>, ys: seq<string>, seconds: string -> int, stod: string -> Option<real>)
    ensures KeptTrades(xs + ys, seconds, stod) == KeptTrades(xs, seconds, stod) + KeptTrades(ys, seconds, stod)
    decreases |ys|
  {
    if |ys| == 0 {
      assert xs + ys == xs;
    } else {
      var ys' := ys[..|ys| - 1];
      assert (xs + ys)[..|xs + ys| - 1] == xs + ys';
      KeptAppend(xs, ys', seconds, stod);
    }
  }

  /** No kept trade is the sentinel (price and size both zero). */
  lemma {:induction false} KeptHasNoSentinel(body: seq<string>, seconds: string -> int, stod: string -> Option<real>)
    ensures forall t :: t in KeptTrades(body, seconds, stod) ==> !IsSentinel(t)
    decreases |body|
  {
    if |body| > 0 {
      KeptHasNoSentinel(body[..|body| - 1], seconds, stod);
    }
  }

  /** Every kept trade is the parse of a non-empty line of the body, and every
      non-empty line whose parse is not the sentinel is kept. */
  lemma {:induction false} KeptExactly(body: seq<string>, seconds: string -> int, stod: string -> Option<real>, t: Trade)
    ensures t in KeptTrades(body, seconds, stod) <==>
      exists i :: 0 <= i < |body| && body[i] != "" && t == ParsedTrade(body[i], seconds, stod) && !IsSentinel(t)
    decreases |body|
  {
    if |body| > 0 {
      var prefix := body[..|body| - 1];
      KeptExactly(prefix, seconds, stod, t);
      if t in KeptTrades(body, seconds, stod) && t !in KeptTrades(prefix, seconds, stod) {
        var last := |body| - 1;
        assert body[last] != "" && t == ParsedTrade(body[last], seconds, stod) && !IsSentinel(t);
      }
      if exists i :: 0 <= i < |body| && body[i] != "" && t == ParsedTrade(body[i], seconds, stod) && !IsSentinel(t) {
        var i :| 0 <= i < |body| && body[i] != "" && t == ParsedTrade(body[i], seconds, stod) && !IsSentinel(t);
        if i < |body| - 1 {
          assert prefix[i] == body[i];
        }
      }
    }
  }

  /** The header line never matters: whatever it holds, the same trades are loaded. */
  lemma HeaderIgnored(header1: string, header2: string, body: seq<string>, seconds: string -> int, stod: string -> Option<real>)
    ensures LoadedTrades([header1] + body, seconds, stod) == LoadedTrades([header2] + body, seconds, stod)
  {
    assert ([header1] + body)[1..] == body;
    assert ([header2] + body)[1..] == body;
  }
}
