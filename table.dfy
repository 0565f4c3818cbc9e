/** Shared data model of the chart's data pipeline: parsed CSV rows (long
    format, one row per date and asset) and wide records (one per date). */
module Table {

  datatype Option<+T> = None | Some(value: T)

  /** A price cell after typed parsing. `Num` stands for a finite number;
      `Blank` for everything else a cell can hold (null, a string that did not
      parse, NaN or an infinity). */
  datatype Cell = Num(n: int) | Blank

  /** One parsed CSV row, with `Date` and `Asset` as text. A missing or
      empty field is the empty string, which is the only falsy string; typed
      parsing can also turn a field into a number or a boolean, and those
      values are not modelled. */
  datatype Row = Row(date: string, asset: string, price: Cell)

  /** One point of the chart: the date and the price of every asset seen on
      that date. */
  datatype WideRecord = WideRecord(date: string, prices: map<string, Cell>)

  /** JavaScript truthiness of a string field. */
  predicate Truthy(s: string)
  {
    s != ""
  }

  /** The value of `record[key]`, `None` where JavaScript reads `undefined`. */
  function Lookup(prices: map<string, Cell>, key: string): (r: Option<Cell>)
    ensures r.Some? <==> key in prices
    ensures r.Some? ==> r.value == prices[key]
  {
    if key in prices then Some(prices[key]) else None
  }
}
