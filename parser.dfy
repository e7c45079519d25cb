/** parseCSVLine: one CSV line to one Trade, with the program's exception
    recovery (any throw zeroes price and size, the invalid-record sentinel).

    The calendar conversion (std::get_time with "%Y-%m-%d %H:%M:%S" followed by
    std::mktime in the local time zone) is the parameter `seconds`, applied to
    the text of the time field before its first '.'; std::stod is the partial
    parameter `stod` (None where it throws). */
module Parser {
  import opened Trades
  import opened FixedWidth

  /** Position of the first occurrence of c in s (std::string::find). */
  function IndexOf(s: string, c: char): (r: Option<nat>)
    ensures r.None? <==> c !in s
    ensures r.Some? ==> r.value < |s| && s[r.value] == c && c !in s[..r.value]
  {
    if |s| == 0 then None
    else if s[0] == c then Some(0)
    else match IndexOf(s[1..], c)
      case None => None
      case Some(i) =>
        assert s[..i + 1] == [s[0]] + s[1..][..i];
        Some(i + 1)
  }

  /** The comma-separated fields of a line, read as a naive split on ','
      (no quoting): "a,,b," has the four fields "a", "", "b" and "". */
  function Fields(s: string): (f: seq<string>)
    ensures |f| >= 1
    ensures forall k :: 0 <= k < |f| ==> ',' !in f[k]
    decreases |s|
  {
    match IndexOf(s, ',')
    case None => [s]
    case Some(i) => [s[..i]] + Fields(s[i + 1..])
  }

  /** The inverse of Fields: the fields written back with ',' between them. */
  function JoinFields(f: seq<string>): string
    requires |f| >= 1
  {
    if |f| == 1 then f[0] else f[0] + "," + JoinFields(f[1..])
  }

  lemma {:induction false} JoinFieldsOfFields(s: string)
    ensures JoinFields(Fields(s)) == s
    decreases |s|
  {
    match IndexOf(s, ',')
    case None =>
    case Some(i) =>
      var rest := s[i + 1..];
      var f := Fields(s);
      assert f == [s[..i]] + Fields(rest);
      assert f[1..] == Fields(rest);
      JoinFieldsOfFields(rest);
      assert JoinFields(f) == s[..i] + "," + rest;
      assert s == s[..i] + "," + rest;
  }

  lemma IndexOfAfterPrefix(p: string, c: char, q: string)
    requires c !in p
    ensures IndexOf(p + [c] + q, c) == Some(|p|)
  {
    var s := p + [c] + q;
    assert s[|p|] == c;
    assert s[..|p|] == p;
  }

  /** A comma-free text followed by ',' is the first field of the line. */
  lemma FieldsAfterComma(p: string, rest: string)
    requires ',' !in p
    ensures Fields(p + [','] + rest) == [p] + Fields(rest)
  {
    var s := p + [','] + rest;
    IndexOfAfterPrefix(p, ',', rest);
    assert s[..|p|] == p;
    assert s[|p| + 1..] == rest;
  }

  lemma {:induction false} FieldsOfJoinFields(f: seq<string>)
    requires |f| >= 1
    requires forall k :: 0 <= k < |f| ==> ',' !in f[k]
    ensures Fields(JoinFields(f)) == f
  {
    if |f| > 1 {
      FieldsOfJoinFields(f[1..]);
      FieldsAfterComma(f[0], JoinFields(f[1..]));
      assert f == [f[0]] + f[1..];
    } else {
      assert ',' !in f[0];
    }
  }

  /** The std::stringstream the line is read from, as the comma-separated
      fields of the text not yet extracted (the text is JoinFields(unread)),
      and whether the stream is still good (neither eofbit nor failbit set). */
  datatype Stream = Stream(unread: seq<string>, good: bool)

  /** The stream std::stringstream(line) starts as. */
  function OpenStream(line: string): (st: Stream)
    ensures st.good && |st.unread| >= 1 && JoinFields(st.unread) == line
    ensures forall k :: 0 <= k < |st.unread| ==> ',' !in st.unread[k]
  {
    JoinFieldsOfFields(line);
    Stream(Fields(line), true)
  }

  /** What one std::getline call leaves behind: the destination string and the stream. */
  datatype Read = Read(text: string, stream: Stream)

  /** std::getline(stream, dest, ','). On a good stream it extracts the text
      up to the next ',' (consumed, not stored), which is the first unread
      field; when no ',' follows, it reaches the end of the text and sets
      eofbit (and failbit too if it extracted nothing), so the stream is no
      longer good. On a stream that is not good the sentry fails and `dest`
      keeps its previous contents. */
  function GetLine(st: Stream, dest: string): (r: Read)
    requires |st.unread| >= 1
    ensures |r.stream.unread| >= 1
    ensures !st.good ==> r.text == dest && !r.stream.good
    ensures st.good ==> r.text == st.unread[0]
    ensures r.stream.good <==> st.good && |st.unread| > 1
    ensures r.stream.good ==> r.stream.unread == st.unread[1..]
  {
    if !st.good then Read(dest, st)
    else if |st.unread| > 1 then Read(st.unread[0], Stream(st.unread[1..], true))
    else Read(st.unread[0], Stream([""], false))
  }

  /** isspace in the "C" locale: space, \t, \n, \v, \f, \r. */
  predicate IsSpace(c: char) {
    c == ' ' || '\t' <= c <= '\r'
  }

  predicate IsDigit(c: char) {
    '0' <= c <= '9'
  }

  predicate AllDigits(d: string) {
    forall k :: 0 <= k < |d| ==> IsDigit(d[k])
  }

  /** The value of a decimal digit string, most significant digit first. */
  function DigitsValue(d: string): (v: nat)
    requires AllDigits(d)
    ensures v < Pow10(|d|)
  {
    if |d| == 0 then 0
    else DigitsValue(d[..|d| - 1]) * 10 + ((d[|d| - 1] as int) - ('0' as int))
  }

  function Pow10(n: nat): (p: nat)
    ensures p >= 1
  {
    if n == 0 then 1 else 10 * Pow10(n - 1)
  }

  function SkipSpaces(s: string): (t: string)
    ensures |t| <= |s| && t == s[|s| - |t|..]
    ensures |t| > 0 ==> !IsSpace(t[0])
  {
    if |s| > 0 && IsSpace(s[0]) then SkipSpaces(s[1..]) else s
  }

  function LeadingDigits(s: string): (d: string)
    ensures AllDigits(d) && d <= s
    ensures |d| < |s| ==> !IsDigit(s[|d|])
  {
    if |s| > 0 && IsDigit(s[0]) then [s[0]] + LeadingDigits(s[1..]) else []
  }

  /** std::stoi(s) in base 10: leading white space, an optional sign and at
      least one digit; what follows the digits is ignored. It throws (None) when
      there is no digit, and when the value does not fit an int. */
  function StoI(s: string): (r: Option<int>)
    ensures r.Some? ==> IsInt32(r.value)
  {
    var t := SkipSpaces(s);
    if |t| > 0 && (t[0] == '+' || t[0] == '-') then SignedValue(t[0] == '-', t[1..])
    else SignedValue(false, t)
  }

  /** The digits at the start of `u`, negated when a '-' preceded them: None
      when there is none or when the value does not fit an int. */
  function SignedValue(negative: bool, u: string): (r: Option<int>)
    ensures r.Some? ==> IsInt32(r.value)
  {
    var d := LeadingDigits(u);
    if |d| == 0 then None
    else
      var v: int := if negative then -(DigitsValue(d) as int) else DigitsValue(d);
      if IsInt32(v) then Some(v) else None
  }

  /** An unsigned digit string is read back as its decimal value when that
      fits an int, and throws otherwise; one to nine digits always fit. */
  lemma StoIOfDigits(d: string)
    requires AllDigits(d) && |d| >= 1
    ensures StoI(d) == if DigitsValue(d) <= Int32Max then Some(DigitsValue(d)) else None
    ensures |d| <= 9 ==> StoI(d) == Some(DigitsValue(d))
  {
    assert !IsSpace(d[0]);
    assert SkipSpaces(d) == d;
    assert !(d[0] == '+' || d[0] == '-');
    LeadingDigitsOfDigits(d);
    if |d| <= 9 {
      Pow10Monotone(|d|, 9);
      assert Pow10(9) == 1_000_000_000;
    }
  }

  /** stoi throws on an empty string and on one that starts with neither
      white space, a sign nor a digit: an empty fraction such as "…:00." throws. */
  lemma StoIWithoutDigits(s: string)
    requires |s| == 0 || !(IsSpace(s[0]) || s[0] == '+' || s[0] == '-' || IsDigit(s[0]))
    ensures StoI(s) == None
  {
    assert SkipSpaces(s) == s;
  }

  lemma {:induction false} LeadingDigitsOfDigits(d: string)
    requires AllDigits(d)
    ensures LeadingDigits(d) == d
  {
    if |d| > 0 {
      LeadingDigitsOfDigits(d[1..]);
    }
  }

  lemma {:induction false} Pow10Monotone(m: nat, n: nat)
    requires m <= n
    ensures Pow10(m) <= Pow10(n)
    decreases n
  {
    if m < n {
      Pow10Monotone(m, n - 1);
    }
  }

  /** The text of the time field that the calendar conversion sees: the whole
      field, or the part before its first '.'. */
  function DatePart(field: string): (date: string)
    ensures '.' !in date && date <= field
    ensures |date| == |field| || field[|date|] == '.'
  {
    match IndexOf(field, '.')
    case None => field
    case Some(i) => field[..i]
  }

  /** The microseconds the time field adds to its whole seconds, as the
      program computes them: the text after the first '.' read by stoi as a raw
      integer, whatever its number of digits (None where stoi throws). */
  function FractionMicros(field: string): Option<int>
  {
    match IndexOf(field, '.')
    case None => Some(0)
    case Some(i) => StoI(field[i + 1..])
  }

  /** The field std::getline leaves in its destination for the k-th call: the
      k-th field when the line has one, else the destination's earlier contents. */
  function FieldOr(f: seq<string>, k: nat, earlier: string): string {
    if k < |f| then f[k] else earlier
  }

  /** The token stod reads as the price: the third field, or, on a line with
      fewer fields, the time field as the time step left it. */
  function PriceToken(line: string): string {
    var f := Fields(line);
    FieldOr(f, 2, DatePart(f[0]))
  }

  function SizeToken(line: string): string {
    FieldOr(Fields(line), 3, PriceToken(line))
  }

  /** True when one of stoi (fraction), stod (price) or stod (size) throws. */
  predicate ParseThrows(line: string, stod: string -> Option<real>) {
    FractionMicros(Fields(line)[0]).None? || stod(PriceToken(line)).None? || stod(SizeToken(line)).None?
  }

  /** The trade parseCSVLine returns for `line`, stated field by field over the
      comma-separated fields of the line. */
  function ParsedTrade(line: string, seconds: string -> int, stod: string -> Option<real>): Trade {
    var f := Fields(line);
    match FractionMicros(f[0])
    case None => Trade(0, "", 0.0, 0.0, "")
    case Some(us) =>
      var time := seconds(DatePart(f[0])) * MicrosPerSecond + us;
      var ticker := FieldOr(f, 1, "");
      match stod(PriceToken(line))
      case None => Trade(time, ticker, 0.0, 0.0, "")
      case Some(price) =>
        match stod(SizeToken(line))
        case None => Trade(time, ticker, 0.0, 0.0, "")
        case Some(size) => Trade(time, ticker, price, size, FieldOr(f, 4, ""))
  }

  /** A line with the five fields whose conversions all succeed gives the
      trade with those fields: the time is the whole seconds of the date part
      plus the fraction's microseconds. */
  lemma WellFormedLine(line: string, seconds: string -> int, stod: string -> Option<real>, us: int, price: real, size: real)
    requires |Fields(line)| >= 5
    requires FractionMicros(Fields(line)[0]) == Some(us)
    requires stod(Fields(line)[2]) == Some(price) && stod(Fields(line)[3]) == Some(size)
    ensures var f := Fields(line);
      ParsedTrade(line, seconds, stod) == Trade(seconds(DatePart(f[0])) * MicrosPerSecond + us, f[1], price, size, f[4])
  {
  }

  /** When the time field is a date, a '.', and one to nine digits, those
      digits are added as that many microseconds, whatever their count: ".5"
      adds 5 microseconds and ".000100" adds 100. */
  lemma FractionAddsRawMicroseconds(line: string, seconds: string -> int, stod: string -> Option<real>, date: string, digits: string)
    requires Fields(line)[0] == date + "." + digits
    requires '.' !in date
    requires AllDigits(digits) && 1 <= |digits| <= 9
    ensures DatePart(Fields(line)[0]) == date
    ensures FractionMicros(Fields(line)[0]) == Some(DigitsValue(digits))
    ensures ParsedTrade(line, seconds, stod).time == seconds(date) * MicrosPerSecond + DigitsValue(digits)
  {
    var field := Fields(line)[0];
    IndexOfAfterPrefix(date, '.', digits);
    assert field[..|date|] == date;
    assert field[|date| + 1..] == digits;
    StoIOfDigits(digits);
  }

  /** A time field without '.' is whole seconds only. */
  lemma WholeSecondsOnly(line: string, seconds: string -> int, stod: string -> Option<real>)
    requires '.' !in Fields(line)[0]
    ensures ParsedTrade(line, seconds, stod).time == seconds(Fields(line)[0]) * MicrosPerSecond
  {
  }

  /** The parse yields the invalid-record sentinel exactly when a conversion
      throws or both price and size read as zero. */
  lemma SentinelExactly(line: string, seconds: string -> int, stod: string -> Option<real>)
    ensures IsSentinel(ParsedTrade(line, seconds, stod)) <==>
      ParseThrows(line, stod) || (stod(PriceToken(line)) == Some(0.0) && stod(SizeToken(line)) == Some(0.0))
  {
  }

  /** n zero digits: the padding of a short fraction. */
  function Zeros(n: nat): (z: string)
    ensures |z| == n && AllDigits(z)
  {
    seq(n, _ => '0')
  }

  /** The first six digits of a fraction of a second, padded with zeros on
      the right: the microsecond digits the fraction denotes. */
  function SixDigits(digits: string): (d: string)
    requires AllDigits(digits)
    ensures |d| == 6 && AllDigits(d)
    ensures |digits| >= 6 ==> d == digits[..6]
    ensures |digits| < 6 ==> d[..|digits|] == digits
  {
    if |digits| >= 6 then digits[..6] else digits + Zeros(6 - |digits|)
  }

  /** The microseconds a decimal fraction of a second denotes, truncated to
      whole microseconds. */
  function ScaledMicros(digits: string): (us: nat)
    requires AllDigits(digits)
    ensures us < MicrosPerSecond
  {
    assert Pow10(6) == MicrosPerSecond;
    DigitsValue(SixDigits(digits))
  }

  /** The reading of the fraction the time format calls for (corrected
      counterpart of FractionMicros): the digits after the first '.' are a
      decimal fraction of a second, so they add less than one second and the
      number of digits written does not change the time. */
  function IntendedFractionMicros(field: string): (r: Option<int>)
    ensures r.Some? ==> 0 <= r.value < MicrosPerSecond
  {
    match IndexOf(field, '.')
    case None => Some(0)
    case Some(i) =>
      var digits := LeadingDigits(field[i + 1..]);
      if |digits| == 0 then None else Some(ScaledMicros(digits))
  }

  /** With exactly six fraction digits the program's raw reading and the
      intended reading agree. */
  lemma SixDigitFractionsAgree(date: string, digits: string)
    requires '.' !in date && AllDigits(digits) && |digits| == 6
    ensures FractionMicros(date + "." + digits) == IntendedFractionMicros(date + "." + digits) == Some(DigitsValue(digits))
  {
    var field := date + "." + digits;
    IndexOfAfterPrefix(date, '.', digits);
    assert field[|date| + 1..] == digits;
    StoIOfDigits(digits);
    LeadingDigitsOfDigits(digits);
    assert digits[..6] == digits;
  }

  /** A trailing zero does not change the intended microseconds. */
  lemma TrailingZeroKeepsMicros(digits: string)
    requires AllDigits(digits)
    ensures AllDigits(digits + "0") && ScaledMicros(digits + "0") == ScaledMicros(digits)
  {
    var longer := digits + "0";
    assert AllDigits(longer) by {
      forall k | 0 <= k < |longer| ensures IsDigit(longer[k]) {
        if k < |digits| { assert longer[k] == digits[k]; }
      }
    }
    if |digits| >= 6 {
      assert longer[..6] == digits[..6];
    } else {
      assert longer + Zeros(5 - |digits|) == digits + Zeros(6 - |digits|);
    }
    assert SixDigits(longer) == SixDigits(digits);
  }

  /** Half a second written ".5" is read by the program as 5 microseconds,
      where the time format means 500000. */
  lemma HalfSecondReadAsFiveMicros(date: string)
    requires '.' !in date
    ensures FractionMicros(date + ".5") == Some(5)
    ensures IntendedFractionMicros(date + ".5") == Some(500000)
  {
    var field := date + ".5";
    assert field == date + "." + "5";
    IndexOfAfterPrefix(date, '.', "5");
    assert field[|date| + 1..] == "5";
    assert AllDigits("5");
    DigitsValueOfFive();
    StoIOfDigits("5");
    LeadingDigitsOfDigits("5");
    HalfSecondScaled();
  }

  lemma DigitsValueOfFive()
    ensures AllDigits("5") && DigitsValue("5") == 5
  {
    assert "5"[..0] == "";
  }

  lemma HalfSecondScaled()
    ensures AllDigits("5") && ScaledMicros("5") == 500000
  {
    DigitsValueOfFive();
    assert SixDigits("5") == "5" + Zeros(5);
    DigitsValueAppend("5", Zeros(5));
    DigitsValueZeros(5);
    assert Pow10(5) == 100000;
  }

  /** Writing digits after a digit string multiplies its value by a power of ten and adds theirs. */
  lemma {:induction false} DigitsValueAppend(d: string, e: string)
    requires AllDigits(d) && AllDigits(e)
    ensures AllDigits(d + e) && DigitsValue(d + e) == DigitsValue(d) * Pow10(|e|) + DigitsValue(e)
    decreases |e|
  {
    var de := d + e;
    assert AllDigits(de) by {
      forall k | 0 <= k < |de| ensures IsDigit(de[k]) {
        if k < |d| { assert de[k] == d[k]; } else { assert de[k] == e[k - |d|]; }
      }
    }
    if |e| == 0 {
      assert de == d;
    } else {
      var e' := e[..|e| - 1];
      assert de[..|de| - 1] == d + e';
      assert de[|de| - 1] == e[|e| - 1];
      DigitsValueAppend(d, e');
      var c := (e[|e| - 1] as int) - ('0' as int);
      var a, p, b := DigitsValue(d), Pow10(|e'|), DigitsValue(e');
      assert DigitsValue(de) == (a * p + b) * 10 + c;
      ScaleByTen(a, p, b);
      assert Pow10(|e|) == p * 10;
      assert DigitsValue(e) == b * 10 + c;
    }
  }

  lemma ScaleByTen(a: int, p: int, b: int)
    ensures (a * p + b) * 10 == a * (p * 10) + b * 10
  {
  }

  lemma {:induction false} DigitsValueZeros(n: nat)
    ensures DigitsValue(Zeros(n)) == 0
  {
    if n > 0 {
      assert Zeros(n)[..n - 1] == Zeros(n - 1);
      DigitsValueZeros(n - 1);
    }
  }

  /** ParsedTrade once the time field has been converted, by the outcome of the two stod calls. */
  lemma ParsedTradeAfterTime(line: string, seconds: string -> int, stod: string -> Option<real>, us: int)
    requires FractionMicros(Fields(line)[0]) == Some(us)
    ensures var f := Fields(line);
      var time := seconds(DatePart(f[0])) * MicrosPerSecond + us;
      var ticker := FieldOr(f, 1, "");
      ParsedTrade(line, seconds, stod) ==
        if stod(PriceToken(line)).None? || stod(SizeToken(line)).None? then Trade(time, ticker, 0.0, 0.0, "")
        else Trade(time, ticker, stod(PriceToken(line)).value, stod(SizeToken(line)).value, FieldOr(f, 4, ""))
  {
  }

  /** parseCSVLine, step by step: read the time token, split off and stoi its
      fraction, convert the date, read ticker, price, size and exchange in
      turn; a throw skips the rest and zeroes price and size. */
  method ParseLine(line: string, seconds: string -> int, stod: string -> Option<real>) returns (trade: Trade)
    ensures trade == ParsedTrade(line, seconds, stod)
  {
    ghost var f := Fields(line);
    var ss := OpenStream(line);
    var token := "";
    trade := Trade(0, "", 0.0, 0.0, "");
    var thrown := false;

    var read := GetLine(ss, token);
    token, ss := read.text, read.stream;
    var micros := FractionMicros(token);
    if micros.None? {
      thrown := true;
    } else {
      token := DatePart(token);
      ParsedTradeAfterTime(line, seconds, stod, micros.value);
      trade := trade.(time := seconds(token) * MicrosPerSecond + micros.value);
      read := GetLine(ss, trade.ticker);
      trade, ss := trade.(ticker := read.text), read.stream;
      read := GetLine(ss, token);
      token, ss := read.text, read.stream;
      assert token == PriceToken(line);
      var price := stod(token);
      if price.None? {
        thrown := true;
      } else {
        trade := trade.(price := price.value);
        read := GetLine(ss, token);
        token, ss := read.text, read.stream;
        assert token == SizeToken(line);
        var size := stod(token);
        if size.None? {
          thrown := true;
        } else {
          trade := trade.(size := size.value);
          read := GetLine(ss, trade.exchange);
          trade, ss := trade.(exchange := read.text), read.stream;
        }
      }
    }
    if thrown {
      trade := trade.(price := 0.0, size := 0.0);
    }
  }
}
