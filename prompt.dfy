/**
 * The first question shown for a token account (`generateQuestion`, src/script.ts:91-109).
 * The float renderings the script interpolates -- the UI balance and the `toFixed(2)`
 * dollar value -- are opaque strings here; the branches use the balance as an exact real.
 */
module Prompt {
  import opened Wrappers

  const OPENING: string := "\nDo you want to "
  const CLOSING: string := "? [Y/n] "
  const BURN_AND_CLOSE: string := "burn and close "
  const CLOSE: string := "close "

  /** A metadata symbol is shown only when it is present and non-empty (a truthy string). */
  predicate HasSymbol(symbol: Option<string>)
  {
    symbol.Some? && symbol.value != ""
  }

  /** A quoted price is used only when it is present and non-zero (a truthy number). */
  predicate HasPrice(price: Option<real>)
  {
    price.Some? && price.value != 0.0
  }

  /** What the question offers to do: burn and close a holding, or only close an empty account. */
  function Verb(balance: real): string
  {
    if balance > 0.0 then BURN_AND_CLOSE else CLOSE
  }

  /** How the holding is described: "<balance> <symbol>" with an optional dollar value, or "<balance> tokens". */
  function Holding(balance: real, balanceText: string, symbol: Option<string>,
                   price: Option<real>, usdText: string): string
  {
    if HasSymbol(symbol) then
      balanceText + " " + symbol.value
      + (if HasPrice(price) && balance > 0.0 then " ($" + usdText + ")" else "")
    else
      balanceText + " tokens"
  }

  /** Which account the question is about. */
  function Target(mint: string): string
  {
    "the account from token " + mint + " with "
  }

  /** The account-level question: what will be done, to which mint's account, holding how much. */
  function Question(balance: real, balanceText: string, mint: string, symbol: Option<string>,
                    price: Option<real>, usdText: string): string
  {
    OPENING + Verb(balance) + Target(mint) + Holding(balance, balanceText, symbol, price, usdText) + CLOSING
  }

  /** Slicing a five-part concatenation gives back its first, second and last parts. */
  lemma Parts(o: string, v: string, t: string, h: string, c: string)
    ensures |o + v + t + h + c| == |o| + |v| + |t| + |h| + |c|
    ensures (o + v + t + h + c)[..|o|] == o
    ensures (o + v + t + h + c)[|o|..|o| + |v|] == v
    ensures (o + v + t + h + c)[|o + v + t + h + c| - |c|..] == c
  {
    var q := o + v + t + h + c;
    assert q == o + (v + (t + h + c));
    assert q == (o + v + t + h) + c;
  }

  /** Every question opens with OPENING and ends with CLOSING. */
  lemma QuestionFrame(balance: real, balanceText: string, mint: string,
                      symbol: Option<string>, price: Option<real>, usdText: string)
    ensures var q := Question(balance, balanceText, mint, symbol, price, usdText);
      |q| >= |OPENING| + |CLOSING|
      && q[..|OPENING|] == OPENING
      && q[|q| - |CLOSING|..] == CLOSING
  {
    Parts(OPENING, Verb(balance), Target(mint), Holding(balance, balanceText, symbol, price, usdText), CLOSING);
  }

  /**
   * Right after the opening the question says "burn and close " exactly when the balance
   * is positive, and "close " otherwise.
   */
  lemma QuestionVerb(balance: real, balanceText: string, mint: string,
                     symbol: Option<string>, price: Option<real>, usdText: string)
    ensures var q := Question(balance, balanceText, mint, symbol, price, usdText);
      |q| >= |OPENING| + |BURN_AND_CLOSE|
      && (balance > 0.0 <==> q[|OPENING|..|OPENING| + |BURN_AND_CLOSE|] == BURN_AND_CLOSE)
      && (balance <= 0.0 ==> q[|OPENING|..|OPENING| + |CLOSE|] == CLOSE)
  {
    var q := Question(balance, balanceText, mint, symbol, price, usdText);
    var v, t := Verb(balance), Target(mint);
    Parts(OPENING, v, t, Holding(balance, balanceText, symbol, price, usdText), CLOSING);
    assert |t| >= 23;
    if balance <= 0.0 {
      assert q[|OPENING|] == q[|OPENING|..|OPENING| + |v|][0] == 'c';
      assert q[|OPENING|..|OPENING| + |BURN_AND_CLOSE|][0] == 'c';
    }
  }

  /**
   * Without a known symbol the question reads "<balance> tokens" right before the closing,
   * and neither the price nor its rendering changes a single character of it.
   */
  lemma {:induction false} UnknownSymbolShowsTokens(balance: real, balanceText: string, mint: string,
                                                     symbol: Option<string>, price: Option<real>, usdText: string,
                                                     otherPrice: Option<real>, otherUsdText: string)
    requires !HasSymbol(symbol)
    ensures var q := Question(balance, balanceText, mint, symbol, price, usdText);
      var tail := balanceText + " tokens" + CLOSING;
      |q| >= |tail| && q[|q| - |tail|..] == tail
      && q == Question(balance, balanceText, mint, None, otherPrice, otherUsdText)
  {
    var q := Question(balance, balanceText, mint, symbol, price, usdText);
    var tail := balanceText + " tokens" + CLOSING;
    assert q == (OPENING + Verb(balance) + Target(mint)) + tail;
  }

  /**
   * The dollar suffix appears only when the symbol is known, the price is known and the
   * balance is positive: in every other case the question equals the one asked with no price.
   */
  lemma PriceIgnoredUnlessAllKnown(balance: real, balanceText: string, mint: string,
                                   symbol: Option<string>, price: Option<real>, usdText: string)
    requires !(HasSymbol(symbol) && HasPrice(price) && balance > 0.0)
    ensures Question(balance, balanceText, mint, symbol, price, usdText)
         == Question(balance, balanceText, mint, symbol, None, "")
  {
  }

  /**
   * When symbol, price and a positive balance are all known, the question is the price-less
   * question with " ($<usd>)" inserted right before the closing.
   */
  lemma {:induction false} PriceSuffixPlacement(balance: real, balanceText: string, mint: string,
                                                 symbol: Option<string>, price: Option<real>, usdText: string)
    requires HasSymbol(symbol) && HasPrice(price) && balance > 0.0
    ensures var plain := Question(balance, balanceText, mint, symbol, None, "");
      |plain| >= |CLOSING|
      && Question(balance, balanceText, mint, symbol, price, usdText)
         == plain[..|plain| - |CLOSING|] + " ($" + usdText + ")" + CLOSING
  {
    var plain := Question(balance, balanceText, mint, symbol, None, "");
    var body := OPENING + BURN_AND_CLOSE + Target(mint) + (balanceText + " " + symbol.value);
    assert plain == body + CLOSING;
    assert plain[..|plain| - |CLOSING|] == body;
  }

  /** Worked example: an empty account of an unknown token is offered "close" and shown as "0 tokens". */
  lemma EmptyAccountExample()
    ensures Question(0.0, "0", "Mint", None, None, "") == OPENING + CLOSE + Target("Mint") + "0 tokens" + CLOSING
  {
  }

  /** Worked example: five FOO at two dollars each are offered "burn and close" with their dollar value. */
  lemma PricedHoldingExample()
    ensures Question(5.0, "5", "Mint", Some("FOO"), Some(2.0), "10.00")
         == OPENING + BURN_AND_CLOSE + Target("Mint") + "5 FOO ($10.00)" + CLOSING
  {
    assert HasSymbol(Some("FOO")) && HasPrice(Some(2.0));
    assert "5" + " " + "FOO" == "5 FOO";
  }
}
