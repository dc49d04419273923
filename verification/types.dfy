/** The records shared by every part of the tracker. Dates are millisecond
    timestamps (the engine only ever compares them), and quantities, prices
    and ratios are exact reals. */
module Types {

  datatype Option<+T> = None | Some(value: T)

  /** The movement kinds of a ledger row. Only `Buy` and `Sell` come from the
      broker's files; the others are synthesized by the engine. */
  datatype TxType = Buy | Sell | Split | ReverseSplit | MergerOut | MergerIn | ForcedSale {
    predicate IsRaw() {
      this == Buy || this == Sell
    }
  }

  /** A recorded trade. `id` and `sourceFile` are optional in the code. */
  datatype Transaction = Transaction(
    id: Option<string>,
    date: int,
    txType: TxType,
    ticker: string,
    quantity: real,
    unitPrice: real,
    totalValue: real,
    sourceFile: Option<string>)

  /** A split or reverse split of `ticker`; `ratio` is numerator over
      denominator as computed by the quote-service adapter. */
  datatype SplitEvent = SplitEvent(date: int, ticker: string, numerator: real, denominator: real, ratio: real)

  /** A ticker conversion: `ratio` new shares per old share. */
  datatype MergerEvent = MergerEvent(date: int, oldTicker: string, newTicker: string, ratio: real)

  /** An involuntary liquidation of the whole position at `price`. */
  datatype ForcedExitEvent = ForcedExitEvent(date: int, ticker: string, price: real)

  datatype AssetClass = Stock | Fii

  datatype AssetProfile = AssetProfile(
    ticker: string,
    name: string,
    sector: string,
    industry: string,
    quoteType: string,
    assetClass: AssetClass)

  /** `value || fallback` for an optional string. */
  function OrElse(v: Option<string>, fallback: string): string {
    if v.Some? && v.value != "" then v.value else fallback
  }

  /** Every transaction is a BUY or a SELL, as the broker files provide. */
  predicate RawTrades(txs: seq<Transaction>) {
    forall i :: 0 <= i < |txs| ==> txs[i].txType.IsRaw()
  }
}
