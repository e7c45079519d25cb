# Exchange time-lag estimator, modelled in Dafny

The program reads a day of labelled trades from a CSV file. Each record holds a timestamp, a ticker, a price, a size and an exchange label. Lines on which `stoi` or `stod` throws are dropped, and so are lines whose price and size are both zero. A malformed date is not detected. The trades are split into exchange "A" and every other exchange ("B"). For each "A" trade the program finds the "B" trade nearest in time. When the total of the signed time differences is non-negative and their mean fits an `int` (up to about 35 minutes), it reports the mean, truncated to whole microseconds, as the lag of B behind A. A larger mean wraps when it is narrowed to `int`, and a negative total is divided as unsigned (see Findings).

The model follows the C++ source function by function:

- `Trades`: the `Trade` record and the invalid-record sentinel, where price and size are both zero.
- `Parser`: `parseCSVLine`.
  - `ParsedTrade` states the result field by field over the comma-separated fields of the line.
  - `ParseLine` is the step-by-step method, with `std::getline` on a string stream modelled as a `Stream`. Its contract ties it to `ParsedTrade`.
  - `std::stoi` is modelled exactly: leading white space, an optional sign, at least one digit, and `int` range.
- `Loader`: the `readCSV` loop.
  - `ReadTrades` is the loop.
  - `KeptTrades`/`LoadedTrades` are its specification.
- `Partition`: the split loop in `main`.
  - `SplitByExchange` is the loop.
  - `Group` is its specification.
- `Matching`: `findClosestTrade` and `estimateTimeLag`.
  - The running sum is an `int64_t` that wraps.
  - On a 64-bit target, where `size_t` is 64 bits wide, the division by the `size_t` count converts the sum to unsigned.
  - The quotient is narrowed to `int`.
- `FixedWidth`: the 64-bit signed and unsigned and the 32-bit arithmetic written out on unbounded integers.
- `Analysis`: `main` between reading the file and printing. `Analyse` runs load, split and estimate, and `Summary` specifies it.

Time is an integer number of microseconds. Two parts of the parse are parameters of the model:

- **Calendar conversion.** `std::get_time` with `"%Y-%m-%d %H:%M:%S"` followed by `std::mktime` is the parameter `seconds: string -> int`. It is applied to the text of the time field before its first `'.'`.
- **`std::stod`.** It is the parameter `stod: string -> Option<real>`, where `None` means it throws.

## Model

| member | source | states |
|---|---|---|
| Trades.IsSentinel | trade_analysis.cpp:82 | definition: a trade is the invalid-record sentinel when price and size are both zero. Its properties are stated by Parser.SentinelExactly and Loader.KeptHasNoSentinel |
| Trades.OnExchangeA | trade_analysis.cpp:173 | definition: a trade belongs to group A when its exchange is exactly "A". Its properties are stated by Partition.GroupMembers |
| Parser.Fields | trade_analysis.cpp:21-26 | there is at least one field and no field contains ','. With Parser.JoinFieldsOfFields and Parser.FieldsOfJoinFields, these are exactly the pieces between the commas |
| Parser.IndexOf | trade_analysis.cpp:31 | `find` returns no position exactly when the character is absent; otherwise it returns a position holding the character with no earlier occurrence |
| Parser.FieldsOfJoinFields | trade_analysis.cpp:21-26 | comma-free fields joined with ',' split back into the same fields, so the stream's unread text is its sequence of fields |
| Parser.JoinFieldsOfFields | trade_analysis.cpp:21-26 | splitting a line on ',' and joining the fields back gives the line |
| Parser.OpenStream | trade_analysis.cpp:21 | the stream over a line starts good, with unread fields that contain no ',' and join back to the line. With Parser.FieldsOfJoinFields, they are exactly the line's fields |
| Parser.GetLine | trade_analysis.cpp:26 | `getline(ss, dest, ',')` on a good stream stores the next field and stays good only if a ',' followed it; on a stream that is not good it leaves `dest` unchanged |
| Parser.StoI | trade_analysis.cpp:33 | `stoi` yields only `int`-range values (otherwise it throws) |
| Parser.SignedValue | trade_analysis.cpp:33 | the digits `stoi` reads after an optional sign give an `int`-range value or a throw |
| Parser.StoIOfDigits | trade_analysis.cpp:33 | a string of decimal digits is read as its decimal value when that fits an `int`, and throws otherwise. One to nine digits always fit |
| Parser.StoIWithoutDigits | trade_analysis.cpp:33 | `stoi` throws on an empty string, such as the empty fraction of `…:00.`, and on a string starting with anything other than white space, a sign or a digit |
| Parser.DatePart | trade_analysis.cpp:31-34 | the date text handed to the calendar conversion is the prefix of the field up to its first '.', or the whole field when it has none |
| Parser.FractionMicros | trade_analysis.cpp:30-34 | definition: 0 without '.', otherwise `stoi` of the text after the first '.'. Its properties are stated by Parser.FractionAddsRawMicroseconds, Parser.WholeSecondsOnly and Parser.HalfSecondReadAsFiveMicros |
| Parser.FieldOr | trade_analysis.cpp:41-46 | definition: the k-th field when the line has one, otherwise what the destination already held, because a failed `getline` keeps it. It is tied to the stream reads by Parser.ParseLine |
| Parser.PriceToken | trade_analysis.cpp:42-43 | definition: the third field, or, when the line has fewer fields, the token the time step left behind (the date part), because a failed `getline` keeps it. It is tied to the stream reads by Parser.ParseLine |
| Parser.SizeToken | trade_analysis.cpp:44-45 | definition: the fourth field, or else the price token. It is tied to the stream reads by Parser.ParseLine |
| Parser.ParseThrows | trade_analysis.cpp:33-47 | definition: the fraction's `stoi`, the price's `stod` or the size's `stod` throws, which reaches the catch at line 47. Its properties are stated by Parser.SentinelExactly |
| Parser.ParsedTrade | trade_analysis.cpp:20-54 | definition: `parseCSVLine` as written, field by field. Its properties are stated by Parser.WellFormedLine, Parser.SentinelExactly, Parser.FractionAddsRawMicroseconds, Parser.ParsedTradeAfterTime and Parser.ParseLine |
| Parser.WellFormedLine | trade_analysis.cpp:20-54 | a line with five fields whose conversions succeed parses to time = seconds(date) * 10^6 + fraction, with ticker, price, size and exchange taken from fields 1 to 4 |
| Parser.FractionAddsRawMicroseconds | trade_analysis.cpp:30-39 | a time field `date.digits` (1 to 9 digits) adds the digits' integer value as microseconds to the whole seconds of `date` |
| Parser.WholeSecondsOnly | trade_analysis.cpp:30-39 | a time field without '.' gives whole seconds |
| Parser.SentinelExactly | trade_analysis.cpp:43-51 | the parse is the zero price/size sentinel exactly when the fraction's stoi or a stod throws, or both price and size read as zero |
| Parser.ParsedTradeAfterTime | trade_analysis.cpp:41-51 | once the time is read, a throw of either stod keeps time and ticker, zeroes price and size and leaves the exchange empty |
| Parser.ParseLine | trade_analysis.cpp:20-54 | the step-by-step parse (stream reads, the throw flag, zeroing on a throw) returns exactly `ParsedTrade`, including lines with fewer than five fields, where a failed read keeps the previous token |
| Parser.IntendedFractionMicros | trade_analysis.cpp:33 | corrected reading: the fraction digits are a decimal fraction of a second, so they add between 0 and 999999 microseconds |
| Parser.SixDigitFractionsAgree | trade_analysis.cpp:33 | with exactly six fraction digits, the program's reading and the intended reading agree |
| Parser.TrailingZeroKeepsMicros | trade_analysis.cpp:33 | under the intended reading a trailing zero digit does not change the time |
| Parser.HalfSecondReadAsFiveMicros | trade_analysis.cpp:33 | ".5" is read as 5 microseconds where 500000 is meant |
| Loader.KeptTrades | trade_analysis.cpp:79-86 | definition: the contributions of the body lines, in order. Its properties are stated by Loader.KeptExactly, Loader.KeptHasNoSentinel, Loader.KeptAppend and Loader.KeptNext |
| Loader.LoadedTrades | trade_analysis.cpp:76-86 | definition: what `readCSV` returns, the kept trades of the lines after the header. Its properties are stated by Loader.ReadTrades, Loader.HeaderIgnored and Loader.KeptExactly |
| Loader.ReadTrades | trade_analysis.cpp:73-86 | the loop returns `LoadedTrades`: the header is dropped, and every later non-empty line whose parse is not the sentinel is kept, in order |
| Loader.LineTrades | trade_analysis.cpp:80-85 | definition: one line contributes its parse unless it is empty or the parse is the sentinel. Its properties are stated by Loader.KeptOneLine and Loader.KeptExactly |
| Loader.KeptNext | trade_analysis.cpp:79-86 | one more iteration of the loop appends exactly the next line's contribution |
| Loader.KeptOneLine | trade_analysis.cpp:80-85 | one line contributes its trade if it is non-empty and not the sentinel, and nothing otherwise |
| Loader.KeptAppend | trade_analysis.cpp:79-86 | lines are handled independently and in order: loading two stretches gives the concatenation of their trades |
| Loader.KeptHasNoSentinel | trade_analysis.cpp:82-84 | no loaded trade has both price and size zero |
| Loader.KeptExactly | trade_analysis.cpp:79-86 | a trade is loaded if and only if it is the non-sentinel parse of some non-empty line |
| Loader.HeaderIgnored | trade_analysis.cpp:76-77 | the content of the first line never changes the result |
| Partition.Group | trade_analysis.cpp:171-178 | definition: the input trades on exchange "A" (or not), in input order. Its properties are stated by Partition.GroupMembers, Partition.GroupsCoverInput and Partition.GroupAppend |
| Partition.SplitByExchange | trade_analysis.cpp:171-178 | the loop returns group A (exchange exactly "A") and group B (all others), each in input order |
| Partition.GroupMembers | trade_analysis.cpp:173-177 | a trade is in group A if and only if it is an input trade on "A"; in group B if and only if it is an input trade not on "A" |
| Partition.GroupsCoverInput | trade_analysis.cpp:171-178 | the two groups together are a permutation (multiset) of the input, so their sizes add up to the input's |
| Partition.GroupAppend | trade_analysis.cpp:172-178 | splitting keeps relative order: the groups of a concatenation are the concatenations of the groups |
| Matching.Distance | trade_analysis.cpp:105-107 | definition: the comparator's absolute time difference between a B trade and the A trade. Its properties are stated by Matching.ClosestIndex and Matching.FindClosestTrade |
| Matching.IsFirstNearest | trade_analysis.cpp:105-108 | definition: no trade is nearer than the one at k, and every earlier trade is strictly farther, which is what `min_element` with a strict comparator returns. Its properties are stated by Matching.ClosestIndex and Matching.FirstNearestIsClosestIndex |
| Matching.ClosestIndex | trade_analysis.cpp:105-108 | `min_element` with "nearer in time" returns an index no trade is nearer than, with every earlier trade strictly farther |
| Matching.FindClosestTrade | trade_analysis.cpp:94-110 | the returned trade belongs to the non-empty group, no trade of the group is nearer in time, and it sits at the first nearest index (ties go to the earlier trade) |
| Matching.FirstNearestIsClosestIndex | trade_analysis.cpp:105-108 | the first nearest index is unique: any index with that property is the one returned |
| Matching.TieGoesToEarlier | trade_analysis.cpp:105-108 | of two equally near trades the later is never chosen |
| Matching.EqualDistanceOppositeSides | trade_analysis.cpp:133-136 | with B trades at equal distance before and after, the one listed first is matched and its signed difference, not the distance, is summed |
| Matching.Lag | trade_analysis.cpp:134-135 | definition: the matched B trade's time minus the A trade's time, signed. Its properties are stated by Matching.EqualDistanceOppositeSides and Matching.TotalLagBetween |
| Matching.TotalLag | trade_analysis.cpp:133-136 | definition: the exact sum of the lags over group A in order. Its properties are stated by Matching.TotalLagBetween and Matching.AccumulateLag |
| Matching.LagEstimate | trade_analysis.cpp:124-141 | the estimate is an `int`, and it is 0 when either group is empty |
| Matching.EstimateTimeLag | trade_analysis.cpp:113-142 | the loop returns `LagEstimate`: the wrapped int64 sum of the signed lags, divided as uint64 by |A|, narrowed to int |
| Matching.AccumulateLag | trade_analysis.cpp:133-137 | one loop step keeps the running total equal to the wrapped sum of the lags so far |
| Matching.EstimateIsMeanForNonNegativeTotal | trade_analysis.cpp:130-141 | when the sum is non-negative, fits int64 and its mean fits int, the estimate is the floor of the mean lag |
| Matching.TotalLagBetween | trade_analysis.cpp:133-138 | bounds lo..hi on every lag bound the total by lo·|A|..hi·|A| |
| Matching.IntendedLagEstimate | trade_analysis.cpp:140 | corrected estimate (signed mean truncated toward zero): 0 when a group is empty |
| Matching.IntendedEstimateWithinLags | trade_analysis.cpp:140 | the corrected estimate lies between the smallest and the largest lag, whatever their signs |
| Matching.EstimatesAgreeForNonNegativeTotal | trade_analysis.cpp:140 | the program's and the corrected estimates agree whenever the sum is non-negative and in range |
| Matching.HourLagWraps | trade_analysis.cpp:140 | one A trade and one B trade an hour later: the total 3600000000 µs is non-negative, but `static_cast<int>` narrows it to 3600000000 - 2^32 = -694967296 |
| Matching.NegativeTotalDividedUnsigned | trade_analysis.cpp:130-140 | three A trades 1 µs after the only B trade: every lag is -1, the corrected mean is -1, and the program returns 1431655764 |
| FixedWidth.Wrap64 | trade_analysis.cpp:130-136 | the wrapped sum is an int64 value, and is the sum itself when that fits |
| FixedWidth.Wrap64Add | trade_analysis.cpp:136 | wrapping after every addition equals wrapping once at the end |
| FixedWidth.Wrap64Step | trade_analysis.cpp:136 | adding to a wrapped running total gives the wrapped new total |
| FixedWidth.ToUint64 | trade_analysis.cpp:140 | the size_t conversion lies in 0..2^64-1 and keeps values already in range |
| FixedWidth.ToUint64OfWrap | trade_analysis.cpp:140 | converting the wrapped int64 sum to size_t equals converting the exact sum |
| FixedWidth.NarrowToInt32 | trade_analysis.cpp:140 | `static_cast<int>` yields an int value and keeps values already in range |
| FixedWidth.TruncDivBetween | trade_analysis.cpp:140 | a quotient truncated toward zero lies between any bounds that |A|-fold bound the dividend |
| Analysis.Summary | trade_analysis.cpp:163-184 | definition: main's result, NoTrades when nothing loads, otherwise the two group sizes and the estimate. Its properties are stated by Analysis.Analyse, Analysis.SummaryCounts and Analysis.TwoRecordRun |
| Analysis.Analyse | trade_analysis.cpp:163-184 | load, stop with no trades, split, estimate: returns `Summary` of the file's lines |
| Analysis.SummaryCounts | trade_analysis.cpp:164-184 | the printed group sizes add up to the number of loaded trades, and the lag is 0 when a group is empty |
| Analysis.TwoRecordRun | trade_analysis.cpp:144-188 | a header, an "A" trade at .000000 and a "B" trade at .000100 on the same second report one trade per exchange and a lag of 100 µs |
| Analysis.LoadTwoLines | trade_analysis.cpp:77-86 | two non-empty, non-sentinel lines after the header load as their two parses |
| Analysis.SplitTwo | trade_analysis.cpp:171-178 | an "A" trade followed by a "B" trade splits into one trade per group |
| Analysis.OneMatchLag | trade_analysis.cpp:133-140 | one A trade and one B trade 100 µs later give an estimate of 100 |
| Analysis.ParseRecord | trade_analysis.cpp:20-54 | a five-field record with a six-digit fraction and convertible price and size parses to its trade |

## Left out

- Opening the file, the "Read N trades" and group-size messages, the error messages on `std::cerr`, building the path from the date argument, and the usage check are I/O. `main`'s results are returned as `Outcome` instead.
- Splitting the file into lines is done by `std::getline` on the file stream. The model receives the file as its sequence of lines, and a missing file reads as no lines.
- Calendar conversion (`std::get_time` + `std::mktime`) depends on the local time zone and the C library. It is the parameter `seconds`, applied to the text before the first '.'.
  - The two `get_time` calls on the same `tm` parse the same prefix, so they are modelled as one conversion of the date part.
  - A failed conversion, or `mktime` returning -1, is whatever `seconds` returns.
- `std::stod` (floating-point parsing, partial reads such as "12abc", NaN and infinities) is the parameter `stod`. Price and size are `real`, and only their comparison with zero is used.
- The system_clock time point is stored as an unbounded count of microseconds.
  - Its nanosecond tick and 64-bit range are not modelled.
  - The subtraction and `std::abs` in the comparator of `findClosestTrade` cannot overflow in the model.
- Matching.EstimateTimeLag: signed overflow of `totalDiff += diff` is undefined behaviour in C++. It is modelled as two's-complement wrap-around, which is what the usual targets do.
- Matching.LagEstimate: the model assumes a 64-bit target, where int64_t and size_t are both 64 bits wide. On a 32-bit target the count converts to int64_t and the division is signed.
- Matching.LagEstimate: reports the value `static_cast<int>` produces from an unsigned 64-bit quotient. That is the low 32 bits read as two's complement, which the language guarantees from C++20 and which earlier compilers implement.
- Parser.GetLine: the stream is modelled by its comma-separated fields and a good flag. Positions inside a field, `std::ios` exceptions and a `'\0'` in a line are not modelled.
- Trade fields that `parseCSVLine` never assigns keep their default values in the model: time 0, empty strings. In C++, `price` and `size` of a default-initialised `Trade` are indeterminate, but they are always assigned before the trade is returned.

## Findings

| source | as written | input that shows it | evidently intended | confidence | as-written member | corrected member |
|---|---|---|---|---|---|---|
| trade_analysis.cpp:140 | `totalDiff / count` divides the `int64_t` sum by the `size_t` count. On a 64-bit target, where `size_t` is 64 bits wide, the sum is therefore converted to unsigned, and a negative sum becomes a huge positive number. | A trades at t+1, t+1, t+1 and one B trade at t: the lags are -1, -1, -1 and the program reports 1431655764 | the signed mean of the lags (-1 here), truncated toward zero | not executed | Matching.NegativeTotalDividedUnsigned | Matching.IntendedEstimateWithinLags |
| trade_analysis.cpp:33 | the digits after '.' are read by `stoi` as a whole number of microseconds, whatever their count | `2024-01-02 09:30:00.5` adds 5 µs instead of 500000 µs. Nine-digit nanosecond fractions add up to 999999999 µs, almost 17 minutes. | the digits are a decimal fraction of a second, truncated to microseconds | not executed | Parser.HalfSecondReadAsFiveMicros | Parser.TrailingZeroKeepsMicros |

The pipeline members (`ParsedTrade`, `LagEstimate`, `Summary`) model the program as written. Their corrected counterparts are `Parser.IntendedFractionMicros` and `Matching.IntendedLagEstimate`.

- `Matching.EstimatesAgreeForNonNegativeTotal` shows where the two estimates agree.
- `Parser.SixDigitFractionsAgree` shows where the two readings of the fraction agree: fractions of exactly six digits.
