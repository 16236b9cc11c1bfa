/*
 * The producer's `/quotes` endpoint: one quote per symbol named by the comma-separated
 * `symbols` query, in order, each under its upper-cased symbol. The random variation and
 * the clock are inputs (`draw`), since nothing about them is stated here.
 */
module Producer {
  import opened Models
  import Symbols

  /** ASCII upper-casing of one character. */
  function UpperChar(c: char): char {
    if 'a' <= c <= 'z' then (c as int - 32) as char else c
  }

  /** `str.upper()`, for ASCII letters. */
  function Upper(s: string): (r: string)
    ensures |r| == |s|
    ensures forall i :: 0 <= i < |s| ==> r[i] == UpperChar(s[i])
  {
    if s == [] then [] else [UpperChar(s[0])] + Upper(s[1..])
  }

  /** The random and clock values one `generate_quote` call draws. */
  datatype Draw = Draw(price: int, changePct: int, quotedAt: int)

  /** `generate_quote(symbol)` given what it draws. */
  function GenerateQuote(symbol: string, d: Draw): Quote {
    Quote(Upper(symbol), d.price, d.changePct, d.quotedAt)
  }

  /** One generated quote per symbol, in order; the `k`-th call draws `draw(from + k)`. */
  function QuotesFor(symbols: seq<string>, draw: nat -> Draw, from: nat): (qs: seq<Quote>)
    ensures |qs| == |symbols|
    ensures forall k :: 0 <= k < |symbols| ==> qs[k] == GenerateQuote(symbols[k], draw(from + k))
  {
    if symbols == [] then []
    else [GenerateQuote(symbols[0], draw(from))] + QuotesFor(symbols[1..], draw, from + 1)
  }

  /** `get_quotes(symbols)`: the envelope always carries a list, with exactly one quote per
      entry of the parsed symbol list, in the same order, under the upper-cased entry. */
  function GetQuotes(symbols: string, draw: nat -> Draw, generatedAt: string): (env: QuoteEnvelope)
    ensures env.generatedAt == generatedAt
    ensures env.quotes.Some?
    ensures |env.quotes.value| == |Symbols.SymbolList(symbols)|
    ensures forall k :: 0 <= k < |env.quotes.value| ==>
      && env.quotes.value[k].symbol == Upper(Symbols.SymbolList(symbols)[k])
      && env.quotes.value[k] == GenerateQuote(Symbols.SymbolList(symbols)[k], draw(k))
  {
    QuoteEnvelope(generatedAt, Some(QuotesFor(Symbols.SymbolList(symbols), draw, 0)))
  }

  /** A query made only of commas and whitespace gets an envelope with an empty list, which
      the worker treats as a successful cycle with nothing fetched. */
  lemma GetQuotesBlank(symbols: string, draw: nat -> Draw, generatedAt: string)
    requires Symbols.OnlyCommasAndSpace(symbols)
    ensures GetQuotes(symbols, draw, generatedAt).quotes == Some([])
  {
    Symbols.SymbolListEmptyIff(symbols);
  }
}
