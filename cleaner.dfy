/**
 * The main block of the script from the token-account enumeration to the point where the
 * transaction would be built (src/script.ts:146-190): decide each account, fill the batch and
 * the counters, stop when nothing was approved, and ask the final confirmation.
 */
module Cleaner {
  import opened Wrappers
  import opened Answers
  import opened Confirmation
  import opened Batch

  /**
   * Everything the run learns about one account from outside the model. `lookup` is `None`
   * when the price request or the metadata fetch for the account's mint threw.
   */
  datatype Outside = Outside(lookup: Option<Lookup>, shown: Rendering, replies: Replies)

  /**
   * How a run ends. `Aborted`: a lookup threw, which rejects the joined per-account tasks and
   * leaves the main block for its error handler. `Submit` carries what the one transaction of
   * the run would be built from.
   */
  datatype RunOutcome =
    | Aborted
    | NoAccountsToClose
    | Cancelled(accountsToClose: nat, lamportsToReceiveBack: nat)
    | Submit(instructions: seq<Instruction>, accountsToClose: nat, lamportsToReceiveBack: nat)

  /** Whether the user approved closing account `a`, given what was looked up and the replies read for it. */
  predicate Approves(a: TokenAccount, outside: Outside)
    requires outside.lookup.Some?
    ensures Approves(a, outside) ==> Accepts(outside.replies.first)
  {
    ConfirmBurnAndClose(UiAmount(a), a.mint, outside.lookup.value, outside.shown, outside.replies).approved
  }

  /** Every lookup of the run returned (none of them threw). */
  predicate LookupsSucceed(outside: seq<Outside>)
  {
    forall i :: 0 <= i < |outside| ==> outside[i].lookup.Some?
  }

  /** The decision for every account, in list order. */
  function Decisions(accounts: seq<TokenAccount>, outside: seq<Outside>): (d: seq<bool>)
    requires |outside| == |accounts| && LookupsSucceed(outside)
    ensures |d| == |accounts|
  {
    seq(|accounts|, i requires 0 <= i < |accounts| => Approves(accounts[i], outside[i]))
  }

  /**
   * The per-account loop, over the decisions already taken: each approved account bumps
   * `accountsToClose`, adds its lamports to `lamportsToReceiveBack` and pushes its burn
   * (if it holds tokens) and then its close.
   */
  method AssembleBatch(owner: Address, accounts: seq<TokenAccount>, approved: seq<bool>)
    returns (instructions: seq<Instruction>, accountsToClose: nat, lamportsToReceiveBack: nat)
    requires |approved| == |accounts|
    ensures instructions == Plan(owner, accounts, approved)
    ensures accountsToClose == ClosedCount(approved)
    ensures lamportsToReceiveBack == Reclaimed(accounts, approved)
  {
    instructions, accountsToClose, lamportsToReceiveBack := [], 0, 0;
    var i := 0;
    while i < |accounts|
      invariant 0 <= i <= |accounts|
      invariant instructions == Plan(owner, accounts[..i], approved[..i])
      invariant accountsToClose == ClosedCount(approved[..i])
      invariant lamportsToReceiveBack == Reclaimed(accounts[..i], approved[..i])
    {
      var a := accounts[i];
      PlanExtend(owner, accounts, approved, i);
      ghost var before := instructions;
      if approved[i] {
        accountsToClose := accountsToClose + 1;
        lamportsToReceiveBack := lamportsToReceiveBack + a.lamports;
        if a.amount > 0 {
          instructions := instructions + [Burn(a.pubkey, a.mint, a.amount, a.decimals)];
        }
        instructions := instructions + [Close(a.pubkey, owner)];
        assert instructions == before + Steps(owner, a);
      }
      i := i + 1;
    }
    assert accounts[..i] == accounts && approved[..i] == approved;
  }

  /**
   * The run after enumeration. A lookup that throws ends the run before any transaction.
   * Otherwise every account is decided first (each concurrent task awaits its confirmation
   * before it pushes anything), then the batch is assembled. The run stops with no
   * transaction when no account was approved, and again when the final reply declines;
   * otherwise it submits the whole batch.
   */
  method CleanDust(owner: Address, accounts: seq<TokenAccount>, outside: seq<Outside>, lastReply: string)
    returns (outcome: RunOutcome)
    requires |outside| == |accounts|
    ensures outcome == Aborted <==> !LookupsSucceed(outside)
    ensures LookupsSucceed(outside) ==>
      var approved := Decisions(accounts, outside);
      (outcome == NoAccountsToClose <==> ClosedCount(approved) == 0)
      && (outcome.Cancelled? <==> ClosedCount(approved) > 0 && Declines(lastReply))
      && (outcome.Submit? ==>
            outcome.instructions == Plan(owner, accounts, approved)
            && outcome.instructions != []
            && BurnThenClose(owner, outcome.instructions)
            && |outcome.instructions| == outcome.accountsToClose + BurnCount(accounts, approved))
      && (outcome.Cancelled? || outcome.Submit? ==>
            outcome.accountsToClose == ClosedCount(approved) > 0
            && outcome.lamportsToReceiveBack == Reclaimed(accounts, approved))
  {
    if exists i :: 0 <= i < |outside| && outside[i].lookup.None? {
      return Aborted;
    }
    var approved := Decisions(accounts, outside);
    var instructions, accountsToClose, lamportsToReceiveBack := AssembleBatch(owner, accounts, approved);
    if accountsToClose == 0 {
      return NoAccountsToClose;
    }
    if Declines(lastReply) {
      return Cancelled(accountsToClose, lamportsToReceiveBack);
    }
    EmptyPlanIffNoneApproved(owner, accounts, approved);
    PlanSize(owner, accounts, approved);
    PlanIsBurnThenClose(owner, accounts, approved);
    return Submit(instructions, accountsToClose, lamportsToReceiveBack);
  }
}
