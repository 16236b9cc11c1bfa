/*
 * The payload the worker fetches: a quote and the envelope that carries a batch of them.
 * Prices are opaque integers (they are stored, never compared); `quotedAt` is the quote's
 * instant normalised to UTC, an integer count of time units.
 */
module Models {

  datatype Option<+T> = None | Some(value: T)

  /** `n`, or 0 when `n` is negative: how many items a possibly negative setting allows. */
  function NonNegative(n: int): nat {
    if n < 0 then 0 else n
  }

  datatype Quote = Quote(symbol: string, price: int, changePct: int, quotedAt: int)

  /** The natural key of the `asset_quotes` table: `(symbol, quoted_at)`. */
  datatype QuoteKey = QuoteKey(symbol: string, quotedAt: int)

  function KeyOf(q: Quote): QuoteKey {
    QuoteKey(q.symbol, q.quotedAt)
  }

  /** `quotes` is `None` when the JSON body carried `"quotes": null`. */
  datatype QuoteEnvelope = QuoteEnvelope(generatedAt: string, quotes: Option<seq<Quote>>)
}
