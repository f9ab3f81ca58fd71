/**
 * The per-account decision (`confirmBurnAndClose`, src/script.ts:111-126): ask the account
 * question; a declining reply skips the account; otherwise, when the holding is worth more
 * than one dollar, ask a second question whose declining reply also skips it.
 * The price and metadata lookups and the terminal replies are inputs of the model.
 */
module Confirmation {
  import opened Wrappers
  import opened Answers
  import opened Prompt

  /** What the two lookups found for a mint: the metadata symbol and the quoted dollar price. */
  datatype Lookup = Lookup(symbol: Option<string>, price: Option<real>)

  /** The float renderings the questions interpolate: the UI balance and `toFixed(2)` of its dollar value. */
  datatype Rendering = Rendering(balanceText: string, usdText: string)

  /** The reply strings read for the two questions; the second is read only if the second question is asked. */
  datatype Replies = Replies(first: string, second: string)

  /** The decision, and the questions that were put to the user, in order. */
  datatype Verdict = Verdict(approved: bool, asked: seq<string>)

  /** The dollar value of the holding; an unknown (or zero) price counts as no value at all. */
  function BalanceInUsd(price: Option<real>, balance: real): (usd: real)
    ensures !HasPrice(price) || balance == 0.0 ==> usd == 0.0
  {
    if HasPrice(price) then price.value * balance else 0.0
  }

  /** A holding above one dollar needs the second confirmation. */
  predicate HighValue(price: Option<real>, balance: real)
    ensures HighValue(price, balance) ==> HasPrice(price) && balance != 0.0
  {
    BalanceInUsd(price, balance) > 1.0
  }

  function HighBalanceQuestion(usdText: string): (q: string)
    ensures |q| > |CLOSING| && q[|q| - |CLOSING|..] == CLOSING
  {
    "Are you sure you want to close the account with a balance of $" + usdText + CLOSING
  }

  function ConfirmBurnAndClose(balance: real, mint: string, lookup: Lookup, shown: Rendering,
                               replies: Replies): (v: Verdict)
    ensures 1 <= |v.asked| <= 2
    ensures v.asked[0] == Question(balance, shown.balanceText, mint, lookup.symbol, lookup.price, shown.usdText)
    ensures |v.asked| == 2 <==> Accepts(replies.first) && HighValue(lookup.price, balance)
    ensures |v.asked| == 2 ==> v.asked[1] == HighBalanceQuestion(shown.usdText)
    ensures v.approved <==> Accepts(replies.first) && (|v.asked| == 2 ==> Accepts(replies.second))
  {
    var question := Question(balance, shown.balanceText, mint, lookup.symbol, lookup.price, shown.usdText);
    if Declines(replies.first) then
      Verdict(false, [question])
    else if HighValue(lookup.price, balance) then
      Verdict(Accepts(replies.second), [question, HighBalanceQuestion(shown.usdText)])
    else
      Verdict(true, [question])
  }

  /**
   * The decision in terms of the reply strings: the account is approved exactly when the first
   * reply is empty, "y" or "Y", and -- if the holding is above one dollar -- so is the second.
   */
  lemma ApprovalRule(balance: real, mint: string, lookup: Lookup, shown: Rendering, replies: Replies)
    ensures ConfirmBurnAndClose(balance, mint, lookup, shown, replies).approved
      <==> replies.first in {"", "y", "Y"}
           && (HighValue(lookup.price, balance) ==> replies.second in {"", "y", "Y"})
  {
    AcceptsExactly(replies.first);
    AcceptsExactly(replies.second);
  }

  /** A declining first reply settles the matter: nothing more is asked and the account is skipped. */
  lemma FirstDeclineIsFinal(balance: real, mint: string, lookup: Lookup, shown: Rendering, replies: Replies)
    requires Declines(replies.first)
    ensures var v := ConfirmBurnAndClose(balance, mint, lookup, shown, replies);
      !v.approved && |v.asked| == 1
  {
  }

  /** Declining the high-value question skips the account although the first reply accepted. */
  lemma SecondDeclineOverrides(balance: real, mint: string, lookup: Lookup, shown: Rendering, replies: Replies)
    requires Accepts(replies.first) && HighValue(lookup.price, balance) && Declines(replies.second)
    ensures var v := ConfirmBurnAndClose(balance, mint, lookup, shown, replies);
      !v.approved && |v.asked| == 2
  {
  }

  /**
   * With no usable price, or an empty account, the holding is never high-value: the decision
   * is the first reply alone, whatever the second reply would have been.
   */
  lemma NoSecondQuestionWithoutValue(balance: real, mint: string, lookup: Lookup, shown: Rendering,
                                     replies: Replies, otherSecond: string)
    requires !HasPrice(lookup.price) || balance == 0.0
    ensures !HighValue(lookup.price, balance)
    ensures var v := ConfirmBurnAndClose(balance, mint, lookup, shown, replies);
      |v.asked| == 1 && v.approved == Accepts(replies.first)
      && v == ConfirmBurnAndClose(balance, mint, lookup, shown, Replies(replies.first, otherSecond))
  {
  }

  /** Worked example: five FOO at two dollars is worth ten dollars, so both questions are asked. */
  lemma PricedHoldingNeedsSecondQuestion(replies: Replies)
    requires Accepts(replies.first)
    ensures |ConfirmBurnAndClose(5.0, "Mint", Lookup(Some("FOO"), Some(2.0)), Rendering("5", "10.00"), replies).asked| == 2
  {
  }
}
