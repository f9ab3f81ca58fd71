# Solana token dust cleaner: decide-and-assemble model

This project models the core of a command-line script that cleans "dust" token accounts
on Solana. For each token account the script asks the owner whether to close it. A
non-empty account is offered "burn and close", an empty one only "close". When the
holding is worth more than one dollar, the script asks a second, stronger question.
For every approved account it pushes a BurnChecked instruction (only when the account
holds tokens) and then a CloseAccount instruction that returns the rent to the owner.
It also counts the approved accounts and sums their lamports. When nothing was approved
it stops before building a transaction. Otherwise it asks one final question and sends
the whole batch as a single transaction.

Modules, one per component of `src/script.ts`:

- `Answers`: the `[Y/n]` reply test. A reply declines only when it is non-empty and its
  lower-case form is not `"y"`. The test also compares against `'Y'`, but a lower-cased
  string never equals `'Y'`. That comparison is modelled as written and proved dead.
- `Prompt`: `generateQuestion`, the text of the account question, as a pure function.
- `Confirmation`: `confirmBurnAndClose`. It returns the decision and the list of questions
  that were asked.
- `Batch`: the batch and the two counters as functions of the accounts and the decisions,
  plus the lemmas about them (burn before close, per-account trail, sizes, declined
  accounts leave no trace, counters do not depend on the order of the accounts).
- `Cleaner`: the imperative loop that fills the batch and counters in place
  (`AssembleBatch`), folding over the list of per-account decisions. It also holds the rest
  of the run up to the transaction (`CleanDust`): the abort when a price or metadata lookup
  throws, the exit when no account was approved, and the final confirmation.
- `Wrappers`: `Option`, standing for the script's `undefined`.

Inputs that come from outside the script's own logic are parameters:

- the metadata symbol and the quoted price (`Lookup`), or `None` in `Outside.lookup` when
  either lookup threw;
- the float renderings shown in the questions, i.e. the UI balance and the `toFixed(2)`
  dollar value (`Rendering`);
- the strings `readlineSync.question` returns for the questions (`Replies`, and the final reply).

## Model

| member | source | states |
|---|---|---|
| `Answers.Declines` | src/script.ts:115 | The reply test as the script writes it: a reply declines when it is non-empty and its lower-case form is neither `"y"` nor `"Y"`. The contract states that the empty reply, `"y"` and `"Y"` never decline. The converse is `AcceptsExactly`, and `UpperCaseComparisonIsDead` shows the `"Y"` comparison is dead. The same test is used at src/script.ts:121 and :187. |
| `Answers.LowerChar` | src/script.ts:115 | Case folding of one character never yields a capital letter and changes only capitals. |
| `Answers.Lower` | src/script.ts:115 | Lower-casing keeps the length and folds every character in place. |
| `Answers.UpperCaseComparisonIsDead` | src/script.ts:115 | The comparison of a lower-cased reply with `'Y'` can never be true. |
| `Answers.AcceptsExactly` | src/script.ts:115 | A reply accepts if and only if it is empty, `"y"` or `"Y"`; every other reply declines. |
| `Prompt.Question` | src/script.ts:91-109 | The account question: opening, verb, target, holding and closing, concatenated. Its properties are stated by `QuestionFrame`, `QuestionVerb`, `UnknownSymbolShowsTokens`, `PriceIgnoredUnlessAllKnown`, `PriceSuffixPlacement` and the two examples. |
| `Prompt.QuestionFrame` | src/script.ts:91-109 | Every question starts with `"\nDo you want to "` and ends with `"? [Y/n] "`. |
| `Prompt.QuestionVerb` | src/script.ts:92-97 | Right after the opening comes `"burn and close "` if and only if the balance is positive, and `"close "` otherwise. |
| `Prompt.UnknownSymbolShowsTokens` | src/script.ts:99-106 | Without a symbol, or with an empty one, the question ends in `"<balance> tokens? [Y/n] "`. Price and dollar text change nothing in it. |
| `Prompt.PriceIgnoredUnlessAllKnown` | src/script.ts:99-103 | Unless the symbol and the price are known and the balance is positive, the question equals the one asked with no price. |
| `Prompt.PriceSuffixPlacement` | src/script.ts:100-103 | With symbol, price and a positive balance, the question is the price-less one with `" ($<usd>)"` inserted just before the closing. |
| `Prompt.EmptyAccountExample` | src/script.ts:91-109 | The full question for an empty account of an unknown token. |
| `Prompt.PricedHoldingExample` | src/script.ts:91-109 | The full question for five FOO priced at two dollars. |
| `Confirmation.BalanceInUsd` | src/script.ts:118 | The dollar value: price times balance when the price is known and non-zero, else zero. The contract states that an unknown or zero price, or a zero balance, gives zero. |
| `Confirmation.HighValue` | src/script.ts:119 | A holding is high-value when its dollar value exceeds one. The contract states that this needs a usable price and a non-zero balance (used by `NoSecondQuestionWithoutValue`). |
| `Confirmation.HighBalanceQuestion` | src/script.ts:120 | The second question, which names the dollar text and ends with the same `"? [Y/n] "` closing as the account question. |
| `Confirmation.ConfirmBurnAndClose` | src/script.ts:111-126 | The account question is always asked first. A second question is asked exactly when the first reply accepts and the value is above one dollar. The account is approved exactly when every question asked got an accepting reply. |
| `Confirmation.ApprovalRule` | src/script.ts:115-125 | Approval in terms of the returned reply strings: the first reply is empty, `"y"` or `"Y"`, and so is the second when the holding is worth over one dollar. |
| `Confirmation.FirstDeclineIsFinal` | src/script.ts:114-117 | A declining first reply skips the account without asking the second question. |
| `Confirmation.SecondDeclineOverrides` | src/script.ts:119-123 | Declining the high-value question skips the account even though the first reply accepted. |
| `Confirmation.NoSecondQuestionWithoutValue` | src/script.ts:118-119 | With no usable price, or a zero balance, the holding is never high-value. Only one question is asked and the second reply does not matter. |
| `Confirmation.PricedHoldingNeedsSecondQuestion` | src/script.ts:118-120 | Five tokens at two dollars are worth more than one dollar, so an accepted first reply leads to a second question. |
| `Batch.UiAmount` | src/script.ts:151-152 | The decimal-adjusted balance is non-negative, and positive exactly when the raw amount is. |
| `Batch.Steps` | src/script.ts:161-174 | What one approved account contributes: a burn of its whole raw amount with its decimals when the amount is positive, then its close to the owner. Stated per account by `StepsAbout`, `EmptyAccountClosedOnce` and `HoldingBurnedThenClosed`. |
| `Batch.Plan` | src/script.ts:153-174 | The batch: the steps of the approved accounts, in list order. Stated by `PlanSize`, `EmptyPlanIffNoneApproved`, `PlanIsBurnThenClose`, `AccountTrail` and `DeclinedAccountIsInert`, and tied to the loop by `Cleaner.AssembleBatch`. |
| `Batch.ClosedCount` | src/script.ts:157 | `accountsToClose`: the number of approved accounts. The contract bounds it by the number of accounts. `NoneApproved` states when it is zero. |
| `Batch.Reclaimed` | src/script.ts:158 | `lamportsToReceiveBack`: the sum of the lamports of the approved accounts. Stated by `RemoveReclaimed`, `DeclinedAccountIsInert` and `CountersIgnoreOrder`, and tied to the loop by `Cleaner.AssembleBatch`. |
| `Batch.PlanSize` | src/script.ts:157-174 | The batch has one close per approved account plus one burn per approved account holding tokens. Burns never outnumber closes. |
| `Batch.NoneApproved` | src/script.ts:177 | `accountsToClose` is zero if and only if no account was approved. |
| `Batch.EmptyPlanIffNoneApproved` | src/script.ts:177-181 | The batch is empty if and only if no account was approved. |
| `Batch.PlanIsBurnThenClose` | src/script.ts:161-174 | In every batch, each close returns the rent to the owner, and each burn is immediately followed by the close of the same account. |
| `Batch.AccountTrail` | src/script.ts:153-174 | With distinct account addresses, the instructions on account k are exactly its burn-and-close steps if it was approved, and none if it was declined. |
| `Batch.EmptyAccountClosedOnce` | src/script.ts:161-174 | An approved empty account gets exactly one instruction, its close to the owner, and no burn. |
| `Batch.HoldingBurnedThenClosed` | src/script.ts:161-174 | An approved account holding tokens gets a burn of its whole raw amount with its decimals, then its close to the owner, and nothing else. |
| `Batch.DeclinedAccountIsInert` | src/script.ts:153-156 | Replacing a declined account by any other account changes neither the batch nor the reclaimed lamports nor the burn count. |
| `Batch.RemoveClosed` | src/script.ts:153-157 | Removing any one entry from the list takes exactly that entry's share off `accountsToClose`: one if it was approved, else nothing. |
| `Batch.RemoveReclaimed` | src/script.ts:153-158 | Removing any one entry takes exactly its lamports off `lamportsToReceiveBack` if it was approved, else nothing. |
| `Batch.RemoveBurn` | src/script.ts:153-162 | Removing any one entry takes exactly one burn off the count if it was approved and held tokens, else nothing. |
| `Batch.CountersIgnoreOrder` | src/script.ts:149-158 | Any reordering of the accounts, each kept with its decision, leaves `accountsToClose`, `lamportsToReceiveBack` and the burn count unchanged. The lists only need to hold the same (account, decision) pairs as multisets. |
| `Cleaner.Approves` | src/script.ts:149-153 | The decision for one account: `confirmBurnAndClose` on its UI balance and mint, with that account's lookup, renderings and replies. The contract states that an approval needs an accepting first reply. |
| `Cleaner.Decisions` | src/script.ts:149-153 | One decision per account, in list order, when every lookup succeeded. |
| `Cleaner.AssembleBatch` | src/script.ts:146-175 | Folding over the accounts and their decisions, the loop's instructions are the plan of the approved accounts in list order. `accountsToClose` is the number of approved accounts. `lamportsToReceiveBack` is the sum of their lamports. |
| `Cleaner.CleanDust` | src/script.ts:146-190 | The run is aborted, with no transaction, exactly when the price or metadata lookup of some account threw. Otherwise it stops with no transaction exactly when `accountsToClose` is zero, that is when no account was approved (`Batch.NoneApproved`). It is cancelled exactly when some account was approved and the final reply declines. Otherwise it submits the non-empty, burn-before-close batch with matching counters. |

## Left out

- Key loading (src/script.ts:14-53): terminal menus, file reads, JSON parsing and base58 encoding are I/O and library calls.
- `fetchTokenPrice` (src/script.ts:55-68): an HTTP request. Its result is the `price` input of `Lookup`. A failing request or JSON parse throws; the model then has `None` for that account's `Outside.lookup`.
- `getTokenMetadata` (src/script.ts:70-89): program-derived address hashing, an RPC fetch and the metadata deserializer. Its result is the `symbol` input of `Lookup`. A failing fetch or deserialization throws, with the same `None`.
- `Cleaner.CleanDust`: when a lookup throws, `Promise.all` (src/script.ts:149) rejects and the catch at src/script.ts:217-225 either prints a `SolanaError` or rethrows anything else. Both end the run with no transaction; the model returns `Aborted` for both and does not tell them apart. Questions already asked for other accounts, and pushes they made, are not modelled in that case.
- Floating point: the UI balance and `tokenPrice * balance` are exact reals here. The lamports-to-SOL display (src/script.ts:184) is not modelled. The `toFixed(2)` texts and the printed balance are opaque strings. Rounding of the dollar value near the one-dollar threshold is not modelled. A NaN price is not modelled.
- `Batch.UiAmount`: the float division by 10^decimals is exact here, so a raw amount too small to show as a positive float still counts as positive.
- `Answers.Declines`: the reply is the string `readlineSync.question` returns. By default that library trims leading and trailing whitespace, so a typed `" y"` arrives as `"y"`. That trimming is not modelled; the model takes the returned string as given.
- `Answers.Lower`: only ASCII case folding is modelled. In full Unicode, too, no string other than `"y"` and `"Y"` lower-cases to `"y"`, so the reply test is unaffected.
- Concurrency: `Promise.all` (src/script.ts:149) starts the per-account tasks concurrently. `readlineSync.question` blocks, and nothing is awaited between an account's first and second question (src/script.ts:114-120), so each account's questions come back to back. Only the order in which accounts are asked, and push, depends on when their lookups finish. The model handles the accounts in list order, so the order of instructions across accounts is the list order, not a completion order. `CountersIgnoreOrder` shows the counters are the same for every order. `AccountTrail` shows each account's own instructions are the same for every order.
- `Cleaner.CleanDust` decides every account before it assembles the batch. In the script, each task pushes right after its own confirmation. What each account contributes is the same either way; only when its pushes happen relative to later accounts' questions differs.
- The text of the final question (src/script.ts:186) and the printed counters (src/script.ts:183-184) are not modelled. Only the final reply's decision is.
- Transaction building, compute-unit estimation and the compute-budget instruction, signing, sending and confirmation (src/script.ts:192-216) are SDK calls and network I/O. `RunOutcome.Submit` stands for "build and send one transaction from these instructions".
- SIGINT handling and terminal colouring (src/script.ts:131-134). The `SolanaError` catch (src/script.ts:217-225) for errors raised while sending is not modelled beyond `Submit`.
