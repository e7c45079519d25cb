/** The trade observation shared by every stage of the pipeline. */
module Trades {

  datatype Option<T> = None | Some(value: T)

  const MicrosPerSecond: int := 1_000_000

  /** One parsed CSV record. `time` is the time point in microseconds (the
      system_clock time point of the program, whose tick is finer, only ever
      holds whole microseconds); `price` and `size` stand for the doubles the
      program reads, of which only comparison with zero is used. */
  datatype Trade = Trade(time: int, ticker: string, price: real, size: real, exchange: string)

  /** The sentinel of an invalid record: price and size both exactly zero. */
  predicate IsSentinel(t: Trade) {
    t.price == 0.0 && t.size == 0.0
  }

  /** The venue label that selects group A; any other label is group B. */
  const ExchangeA: string := "A"

  predicate OnExchangeA(t: Trade) {
    t.exchange == ExchangeA
  }
}
