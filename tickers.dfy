/**
 * Normalisation of the scraped S&P 500 symbol list (`get_sp500_tickers`):
 * every '.' in a symbol becomes '-', so that "BRK.B" is requested as "BRK-B".
 * The scraping itself (reading the Wikipedia table) is an input here.
 */
module Tickers {

  /** `t.replace('.', '-')` for one symbol. */
  function Normalize(t: string): (r: string)
    ensures |r| == |t|
    ensures forall i :: 0 <= i < |t| ==> r[i] == (if t[i] == '.' then '-' else t[i])
  {
    if t == [] then []
    else Normalize(t[..|t| - 1]) + [if t[|t| - 1] == '.' then '-' else t[|t| - 1]]
  }

  /** The list comprehension over the whole symbol column. */
  function NormalizeAll(ts: seq<string>): (r: seq<string>)
    ensures |r| == |ts|
    ensures forall i :: 0 <= i < |ts| ==> r[i] == Normalize(ts[i])
  {
    if ts == [] then [] else [Normalize(ts[0])] + NormalizeAll(ts[1..])
  }

  /** A normalised symbol contains no '.'. */
  lemma NormalizeRemovesDots(t: string)
    ensures '.' !in Normalize(t)
  {
  }

  /** Normalising twice is the same as normalising once. */
  lemma NormalizeIdempotent(t: string)
    ensures Normalize(Normalize(t)) == Normalize(t)
  {
  }

  /**
   * The rule is not injective: two different scraped symbols can request the same ticker,
   * and the list is not deduplicated afterwards.
   */
  lemma NormalizeMerges()
    ensures Normalize("BRK.B") == Normalize("BRK-B") == "BRK-B"
    ensures NormalizeAll(["BRK.B", "BRK-B"]) == ["BRK-B", "BRK-B"]
  {
  }
}
