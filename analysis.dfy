/** The pipeline of main without its I/O: load the trades, stop when there
    are none, split them by exchange and estimate the lag. Building the file
    path from the date argument, the usage check and the printed lines are
    outside the model; `Outcome` carries what main prints. */
module Analysis {
  import opened Trades
  import opened Parser
  import opened Loader
  import opened Partition
  import opened Matching

  /** NoTrades: main reports that no trade was read and exits with 1.
      Estimated: the two group sizes and the lag estimate main prints. */
  datatype Outcome = NoTrades | Estimated(countA: nat, countB: nat, lagMicros: int)

  /** What a run over a file with these lines reports. */
  function Summary(lines: seq<string>, seconds: string -> int, stod: string -> Option<real>): Outcome {
    var trades := LoadedTrades(lines, seconds, stod);
    if trades == [] then NoTrades
    else
      var tradesA, tradesB := Group(trades, true), Group(trades, false);
      Estimated(|tradesA|, |tradesB|, LagEstimate(tradesA, tradesB))
  }

  method Analyse(lines: seq<string>, seconds: string -> int, stod: string -> Option<real>) returns (outcome: Outcome)
    ensures outcome == Summary(lines, seconds, stod)
  {
    var trades := ReadTrades(lines, seconds, stod);
    if |trades| == 0 {
      return NoTrades;
    }
    var tradesA, tradesB := SplitByExchange(trades);
    var estimatedLag := EstimateTimeLag(tradesA, tradesB);
    outcome := Estimated(|tradesA|, |tradesB|, estimatedLag);
  }

  /** A run that reports counts reports every loaded trade in exactly one of
      them, and a run where one exchange has no trade reports a lag of 0. */
  lemma SummaryCounts(lines: seq<string>, seconds: string -> int, stod: string -> Option<real>)
    ensures Summary(lines, seconds, stod).Estimated? ==>
      var s := Summary(lines, seconds, stod);
      s.countA + s.countB == |LoadedTrades(lines, seconds, stod)| > 0 &&
      (s.countA == 0 || s.countB == 0 ==> s.lagMicros == 0)
  {
    GroupsCoverInput(LoadedTrades(lines, seconds, stod));
  }

  /** A two-record file: a header, an "A" trade at .000000 and a "B" trade
      at .000100 on the same second. Two trades are loaded, one per exchange,
      and the estimate is 100 microseconds. */
  lemma TwoRecordRun(header: string, date: string, price: string, size: string,
                     seconds: string -> int, stod: string -> Option<real>, p: real, s: real)
    requires '.' !in date && ',' !in date && ',' !in price && ',' !in size
    requires stod(price) == Some(p) && stod(size) == Some(s) && (p != 0.0 || s != 0.0)
    ensures Summary([header, JoinFields([date + "." + "000000", "XYZ", price, size, "A"]),
                             JoinFields([date + "." + "000100", "XYZ", price, size, "B"])], seconds, stod)
            == Estimated(1, 1, 100)
  {
    var lineA := JoinFields([date + "." + "000000", "XYZ", price, size, "A"]);
    var lineB := JoinFields([date + "." + "000100", "XYZ", price, size, "B"]);
    var base := seconds(date) * MicrosPerSecond;
    var tradeA := Trade(base, "XYZ", p, s, "A");
    var tradeB := Trade(base + 100, "XYZ", p, s, "B");
    ZerosValue();
    ParseRecord(date, "000000", price, size, "A", seconds, stod, p, s);
    HundredValue();
    ParseRecord(date, "000100", price, size, "B", seconds, stod, p, s);
    var lines := [header, lineA, lineB];
    assert ParsedTrade(lineA, seconds, stod) == tradeA;
    assert ParsedTrade(lineB, seconds, stod) == tradeB;
    LoadTwoLines(header, lineA, lineB, seconds, stod);
    SplitTwo(tradeA, tradeB);
    OneMatchLag(tradeA, tradeB);
    assert Summary(lines, seconds, stod) == Estimated(1, 1, LagEstimate([tradeA], [tradeB]));
  }

  /** One group-A trade and one group-B trade 100 microseconds later: the estimate is 100. */
  lemma OneMatchLag(tradeA: Trade, tradeB: Trade)
    requires tradeB.time == tradeA.time + 100
    ensures LagEstimate([tradeA], [tradeB]) == 100
  {
    assert Lag(tradeA, [tradeB]) == 100;
    assert [tradeA][..0] == [];
    assert TotalLag([tradeA], [tradeB]) == 100;
  }

  /** Two non-empty lines after the header whose parses are not the sentinel load as their two trades. */
  lemma LoadTwoLines(header: string, lineA: string, lineB: string, seconds: string -> int, stod: string -> Option<real>)
    requires lineA != "" && !IsSentinel(ParsedTrade(lineA, seconds, stod))
    requires lineB != "" && !IsSentinel(ParsedTrade(lineB, seconds, stod))
    ensures LoadedTrades([header, lineA, lineB], seconds, stod) == [ParsedTrade(lineA, seconds, stod), ParsedTrade(lineB, seconds, stod)]
  {
    var body := [lineA, lineB];
    assert [header, lineA, lineB][1..] == body;
    assert body[..1] == [lineA];
    KeptOneLine(lineA, seconds, stod);
  }

  /** An "A" trade followed by a "B" trade splits into one per group. */
  lemma SplitTwo(tradeA: Trade, tradeB: Trade)
    requires tradeA.exchange == "A" && tradeB.exchange == "B"
    ensures Group([tradeA, tradeB], true) == [tradeA]
    ensures Group([tradeA, tradeB], false) == [tradeB]
  {
    assert !OnExchangeA(tradeB) by {
      assert tradeB.exchange[0] != ExchangeA[0];
    }
    assert OnExchangeA(tradeA);
    var pair := [tradeA, tradeB];
    assert pair[..1] == [tradeA];
    assert [tradeA][..0] == [];
    assert Group([tradeA], true) == [tradeA];
    assert Group([tradeA], false) == [];
    assert Group(pair, true) == Group([tradeA], true);
    assert Group(pair, false) == Group([tradeA], false) + [tradeB];
  }

  /** The parse of a five-field record whose time field is a date, a '.' and
      six digits, and whose price and size convert. */
  lemma ParseRecord(date: string, digits: string, price: string, size: string, exchange: string,
                    seconds: string -> int, stod: string -> Option<real>, p: real, s: real)
    requires '.' !in date && ',' !in date && ',' !in price && ',' !in size && ',' !in exchange
    requires AllDigits(digits) && |digits| == 6
    requires stod(price) == Some(p) && stod(size) == Some(s)
    ensures JoinFields([date + "." + digits, "XYZ", price, size, exchange]) != ""
    ensures ParsedTrade(JoinFields([date + "." + digits, "XYZ", price, size, exchange]), seconds, stod)
            == Trade(seconds(date) * MicrosPerSecond + DigitsValue(digits), "XYZ", p, s, exchange)
  {
    var timeField := date + "." + digits;
    assert ',' !in timeField by {
      assert forall k :: 0 <= k < |digits| ==> digits[k] != ',';
      assert timeField == date + ("." + digits);
    }
    var f := [timeField, "XYZ", price, size, exchange];
    var line := JoinFields(f);
    FieldsOfJoinFields(f);
    FractionAddsRawMicroseconds(line, seconds, stod, date, digits);
    WellFormedLine(line, seconds, stod, DigitsValue(digits), p, s);
    assert |Fields(line)| == 5 && |Fields("")| == 1;
  }

  lemma ZerosValue()
    ensures AllDigits("000000") && DigitsValue("000000") == 0
  {
    assert "000000" == Zeros(6);
    DigitsValueZeros(6);
  }

  lemma HundredValue()
    ensures AllDigits("000100") && DigitsValue("000100") == 100
  {
    assert "000100" == "0001" + "00";
    assert "0001" == "000" + "1";
    assert "000" == Zeros(3);
    assert "00" == Zeros(2);
    DigitsValueZeros(3);
    DigitsValueZeros(2);
    DigitsValueAppend("000", "1");
    assert DigitsValue("1") == 1 by {
      assert "1"[..0] == "";
    }
    DigitsValueAppend("0001", "00");
    assert Pow10(2) == 100;
  }
}
