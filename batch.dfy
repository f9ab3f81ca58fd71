/**
 * The instruction batch and the two counters of the main block (src/script.ts:146-181),
 * as functions of the token accounts and of the per-account decisions, taken in list order.
 * The loop that fills them in place is `Cleaner.AssembleBatch`.
 */
module Batch {

  type Address = string

  /** One entry of the owner's token-account enumeration. */
  datatype TokenAccount = TokenAccount(pubkey: Address, mint: Address, amount: nat, decimals: nat, lamports: nat)

  /** The two token-program instructions the script emits. */
  datatype Instruction =
    | Burn(account: Address, mint: Address, amount: nat, decimals: nat)
    | Close(account: Address, destination: Address)

  function Pow10(n: nat): (r: nat)
    ensures r >= 1
  {
    if n == 0 then 1 else 10 * Pow10(n - 1)
  }

  /** The decimal-adjusted balance (`uiAmount`), exact rather than a float. */
  function UiAmount(a: TokenAccount): (b: real)
    ensures b >= 0.0
    ensures b > 0.0 <==> a.amount > 0
  {
    a.amount as real / Pow10(a.decimals) as real
  }

  /** What one approved account contributes: a burn of its whole raw amount if it holds any, then its close. */
  function Steps(owner: Address, a: TokenAccount): (s: seq<Instruction>)
  {
    (if a.amount > 0 then [Burn(a.pubkey, a.mint, a.amount, a.decimals)] else [])
    + [Close(a.pubkey, owner)]
  }

  /** The batch: the steps of every approved account, in list order. */
  function Plan(owner: Address, accounts: seq<TokenAccount>, approved: seq<bool>): seq<Instruction>
    requires |approved| == |accounts|
  {
    if accounts == [] then []
    else
      var n := |accounts| - 1;
      Plan(owner, accounts[..n], approved[..n]) + (if approved[n] then Steps(owner, accounts[n]) else [])
  }

  /** `accountsToClose`: how many accounts were approved. */
  function ClosedCount(approved: seq<bool>): (c: nat)
    ensures c <= |approved|
  {
    if approved == [] then 0
    else ClosedCount(approved[..|approved| - 1]) + (if approved[|approved| - 1] then 1 else 0)
  }

  /** `lamportsToReceiveBack`: the lamports of the approved accounts, and of no other. */
  function Reclaimed(accounts: seq<TokenAccount>, approved: seq<bool>): nat
    requires |approved| == |accounts|
  {
    if accounts == [] then 0
    else
      var n := |accounts| - 1;
      Reclaimed(accounts[..n], approved[..n]) + (if approved[n] then accounts[n].lamports else 0)
  }

  /** How many approved accounts hold a positive raw amount. */
  function BurnCount(accounts: seq<TokenAccount>, approved: seq<bool>): nat
    requires |approved| == |accounts|
  {
    if accounts == [] then 0
    else
      var n := |accounts| - 1;
      BurnCount(accounts[..n], approved[..n]) + (if approved[n] && accounts[n].amount > 0 then 1 else 0)
  }

  /** Taking one more account of the list into account extends the batch and the counters by its share. */
  lemma PlanExtend(owner: Address, accounts: seq<TokenAccount>, approved: seq<bool>, i: nat)
    requires |approved| == |accounts| && i < |accounts|
    ensures approved[i] ==>
      Plan(owner, accounts[..i + 1], approved[..i + 1]) == Plan(owner, accounts[..i], approved[..i]) + Steps(owner, accounts[i])
      && ClosedCount(approved[..i + 1]) == ClosedCount(approved[..i]) + 1
      && Reclaimed(accounts[..i + 1], approved[..i + 1]) == Reclaimed(accounts[..i], approved[..i]) + accounts[i].lamports
    ensures !approved[i] ==>
      Plan(owner, accounts[..i + 1], approved[..i + 1]) == Plan(owner, accounts[..i], approved[..i])
      && ClosedCount(approved[..i + 1]) == ClosedCount(approved[..i])
      && Reclaimed(accounts[..i + 1], approved[..i + 1]) == Reclaimed(accounts[..i], approved[..i])
  {
    assert accounts[..i + 1][..i] == accounts[..i] && approved[..i + 1][..i] == approved[..i];
    if !approved[i] {
      var p := Plan(owner, accounts[..i], approved[..i]);
      assert p + [] == p;
    }
  }

  /**
   * The ordering invariant of a batch: every close returns the rent to the owner, and every
   * burn is immediately followed by the close of the same account.
   */
  predicate BurnThenClose(owner: Address, batch: seq<Instruction>)
  {
    forall i {:trigger batch[i]} :: 0 <= i < |batch| ==>
      (batch[i].Close? ==> batch[i].destination == owner)
      && (batch[i].Burn? ==> i + 1 < |batch| && batch[i + 1] == Close(batch[i].account, owner))
  }

  /** The instructions of a batch that act on one account, in batch order. */
  function About(batch: seq<Instruction>, key: Address): seq<Instruction>
  {
    if batch == [] then []
    else
      var n := |batch| - 1;
      About(batch[..n], key) + (if batch[n].account == key then [batch[n]] else [])
  }

  /** No other entry of the list shares the address of entry k (token-account addresses are unique). */
  predicate UniqueAt(accounts: seq<TokenAccount>, k: nat)
    requires k < |accounts|
  {
    forall j :: 0 <= j < |accounts| && j != k ==> accounts[j].pubkey != accounts[k].pubkey
  }

  /** Every approved account is closed once, and every approved account with tokens is burned once. */
  lemma {:induction false} PlanSize(owner: Address, accounts: seq<TokenAccount>, approved: seq<bool>)
    requires |approved| == |accounts|
    ensures |Plan(owner, accounts, approved)| == ClosedCount(approved) + BurnCount(accounts, approved)
    ensures BurnCount(accounts, approved) <= ClosedCount(approved)
  {
    if accounts != [] {
      var n := |accounts| - 1;
      PlanSize(owner, accounts[..n], approved[..n]);
    }
  }

  /** With no approved account the batch is empty, and with at least one it is not. */
  lemma EmptyPlanIffNoneApproved(owner: Address, accounts: seq<TokenAccount>, approved: seq<bool>)
    requires |approved| == |accounts|
    ensures Plan(owner, accounts, approved) == [] <==> ClosedCount(approved) == 0
    ensures ClosedCount(approved) == 0 <==> forall i :: 0 <= i < |approved| ==> !approved[i]
  {
    PlanSize(owner, accounts, approved);
    NoneApproved(approved);
  }

  lemma {:induction false} NoneApproved(approved: seq<bool>)
    ensures ClosedCount(approved) == 0 <==> forall i :: 0 <= i < |approved| ==> !approved[i]
  {
    if approved != [] {
      var n := |approved| - 1;
      NoneApproved(approved[..n]);
      assert forall i :: 0 <= i < n ==> approved[..n][i] == approved[i];
    }
  }

  /** Appending one account's steps to a well-ordered batch keeps it well ordered. */
  lemma AppendSteps(owner: Address, batch: seq<Instruction>, a: TokenAccount)
    requires BurnThenClose(owner, batch)
    ensures BurnThenClose(owner, batch + Steps(owner, a))
  {
    var s := Steps(owner, a);
    var all := batch + s;
    forall i | 0 <= i < |all|
      ensures (all[i].Close? ==> all[i].destination == owner)
           && (all[i].Burn? ==> i + 1 < |all| && all[i + 1] == Close(all[i].account, owner))
    {
      if i < |batch| {
        assert all[i] == batch[i];
        if batch[i].Burn? {
          assert all[i + 1] == batch[i + 1];
        }
      } else {
        assert all[i] == s[i - |batch|];
      }
    }
  }

  /** Every batch the plan builds is well ordered: burns come right before their close, closes pay the owner. */
  lemma {:induction false} PlanIsBurnThenClose(owner: Address, accounts: seq<TokenAccount>, approved: seq<bool>)
    requires |approved| == |accounts|
    ensures BurnThenClose(owner, Plan(owner, accounts, approved))
  {
    if accounts != [] {
      var n := |accounts| - 1;
      PlanIsBurnThenClose(owner, accounts[..n], approved[..n]);
      if approved[n] {
        AppendSteps(owner, Plan(owner, accounts[..n], approved[..n]), accounts[n]);
      } else {
        assert Plan(owner, accounts, approved) == Plan(owner, accounts[..n], approved[..n]);
      }
    }
  }

  lemma {:induction false} AboutAppend(xs: seq<Instruction>, ys: seq<Instruction>, key: Address)
    ensures About(xs + ys, key) == About(xs, key) + About(ys, key)
  {
    if ys != [] {
      var n := |ys| - 1;
      assert (xs + ys)[..|xs + ys| - 1] == xs + ys[..n];
      AboutAppend(xs, ys[..n], key);
    } else {
      assert xs + ys == xs;
    }
  }

  /** An account the list does not hold is touched by no instruction of the batch. */
  lemma {:induction false} Untouched(owner: Address, accounts: seq<TokenAccount>, approved: seq<bool>, key: Address)
    requires |approved| == |accounts|
    requires forall j :: 0 <= j < |accounts| ==> accounts[j].pubkey != key
    ensures About(Plan(owner, accounts, approved), key) == []
  {
    if accounts != [] {
      var n := |accounts| - 1;
      Untouched(owner, accounts[..n], approved[..n], key);
      var tail := if approved[n] then Steps(owner, accounts[n]) else [];
      AboutAppend(Plan(owner, accounts[..n], approved[..n]), tail, key);
      if approved[n] {
        var a := accounts[n];
        if a.amount > 0 {
          assert tail == [Burn(a.pubkey, a.mint, a.amount, a.decimals)] + [Close(a.pubkey, owner)];
          AboutAppend([Burn(a.pubkey, a.mint, a.amount, a.decimals)], [Close(a.pubkey, owner)], key);
        }
      }
    }
  }

  /** The steps of one account, seen from that account, are all of them; seen from any other, none. */
  lemma StepsAbout(owner: Address, a: TokenAccount, key: Address)
    ensures About(Steps(owner, a), key) == if a.pubkey == key then Steps(owner, a) else []
  {
    if a.amount > 0 {
      AboutAppend([Burn(a.pubkey, a.mint, a.amount, a.decimals)], [Close(a.pubkey, owner)], key);
    }
  }

  /** The batch of a non-empty list, seen from one account: the earlier accounts' part, then the last one's. */
  lemma AboutLast(owner: Address, accounts: seq<TokenAccount>, approved: seq<bool>, key: Address)
    requires |approved| == |accounts| && accounts != []
    ensures var n := |accounts| - 1;
      About(Plan(owner, accounts, approved), key)
      == About(Plan(owner, accounts[..n], approved[..n]), key)
         + (if approved[n] && accounts[n].pubkey == key then Steps(owner, accounts[n]) else [])
  {
    var n := |accounts| - 1;
    var tail := if approved[n] then Steps(owner, accounts[n]) else [];
    AboutAppend(Plan(owner, accounts[..n], approved[..n]), tail, key);
    StepsAbout(owner, accounts[n], key);
  }

  /** A unique address stays unique in every prefix that still holds its entry. */
  lemma UniqueInPrefix(accounts: seq<TokenAccount>, k: nat, n: nat)
    requires k < n <= |accounts| && UniqueAt(accounts, k)
    ensures UniqueAt(accounts[..n], k)
  {
    forall j | 0 <= j < n && j != k
      ensures accounts[..n][j].pubkey != accounts[..n][k].pubkey
    {
      assert accounts[..n][j] == accounts[j];
    }
  }

  /** The address of a unique last entry appears nowhere before it. */
  lemma UniqueLastAbsentBefore(accounts: seq<TokenAccount>, n: nat)
    requires n + 1 == |accounts| && UniqueAt(accounts, n)
    ensures forall j :: 0 <= j < n ==> accounts[..n][j].pubkey != accounts[n].pubkey
  {
    forall j | 0 <= j < n
      ensures accounts[..n][j].pubkey != accounts[n].pubkey
    {
      assert accounts[..n][j] == accounts[j];
    }
  }

  /**
   * When account k's address is unique in the list, the instructions acting on it are exactly
   * its own steps if it was approved, and nothing at all if it was declined.
   */
  lemma {:induction false} AccountTrail(owner: Address, accounts: seq<TokenAccount>, approved: seq<bool>, k: nat)
    requires |approved| == |accounts| && k < |accounts|
    requires UniqueAt(accounts, k)
    ensures About(Plan(owner, accounts, approved), accounts[k].pubkey)
         == if approved[k] then Steps(owner, accounts[k]) else []
    decreases |accounts|, 1
  {
    if k == |accounts| - 1 {
      LastTrail(owner, accounts, approved);
    } else {
      EarlierTrail(owner, accounts, approved, k);
    }
  }

  /** The trail of the last account: nothing before it touches it. */
  lemma LastTrail(owner: Address, accounts: seq<TokenAccount>, approved: seq<bool>)
    requires |approved| == |accounts| && accounts != []
    requires UniqueAt(accounts, |accounts| - 1)
    ensures var n := |accounts| - 1;
      About(Plan(owner, accounts, approved), accounts[n].pubkey)
      == if approved[n] then Steps(owner, accounts[n]) else []
  {
    var n := |accounts| - 1;
    var key := accounts[n].pubkey;
    AboutLast(owner, accounts, approved, key);
    UniqueLastAbsentBefore(accounts, n);
    Untouched(owner, accounts[..n], approved[..n], key);
  }

  /** The trail of an earlier account: the last account does not touch it, and the prefix gives the rest. */
  lemma {:induction false} EarlierTrail(owner: Address, accounts: seq<TokenAccount>, approved: seq<bool>, k: nat)
    requires |approved| == |accounts| && k + 1 < |accounts|
    requires UniqueAt(accounts, k)
    ensures About(Plan(owner, accounts, approved), accounts[k].pubkey)
         == if approved[k] then Steps(owner, accounts[k]) else []
    decreases |accounts|, 0
  {
    var n := |accounts| - 1;
    var key := accounts[k].pubkey;
    AboutLast(owner, accounts, approved, key);
    assert accounts[n].pubkey != key;
    assert accounts[..n][k] == accounts[k] && approved[..n][k] == approved[k];
    UniqueInPrefix(accounts, k, n);
    AccountTrail(owner, accounts[..n], approved[..n], k);
  }

  /** An approved empty account gets exactly one instruction: its close to the owner, and no burn. */
  lemma EmptyAccountClosedOnce(owner: Address, accounts: seq<TokenAccount>, approved: seq<bool>, k: nat)
    requires |approved| == |accounts| && k < |accounts|
    requires UniqueAt(accounts, k) && approved[k] && accounts[k].amount == 0
    ensures About(Plan(owner, accounts, approved), accounts[k].pubkey) == [Close(accounts[k].pubkey, owner)]
  {
    AccountTrail(owner, accounts, approved, k);
  }

  /** An approved account holding tokens gets its burn of the whole raw amount, then its close. */
  lemma HoldingBurnedThenClosed(owner: Address, accounts: seq<TokenAccount>, approved: seq<bool>, k: nat)
    requires |approved| == |accounts| && k < |accounts|
    requires UniqueAt(accounts, k) && approved[k] && accounts[k].amount > 0
    ensures var a := accounts[k];
      About(Plan(owner, accounts, approved), a.pubkey)
      == [Burn(a.pubkey, a.mint, a.amount, a.decimals), Close(a.pubkey, owner)]
  {
    AccountTrail(owner, accounts, approved, k);
  }

  /**
   * A declined account leaves no trace: whatever it held, the batch and both counters are
   * the same as if it had been any other account.
   */
  lemma {:induction false} DeclinedAccountIsInert(owner: Address, accounts: seq<TokenAccount>, approved: seq<bool>,
                                                   k: nat, other: TokenAccount)
    requires |approved| == |accounts| && k < |accounts| && !approved[k]
    ensures Plan(owner, accounts[k := other], approved) == Plan(owner, accounts, approved)
    ensures Reclaimed(accounts[k := other], approved) == Reclaimed(accounts, approved)
    ensures BurnCount(accounts[k := other], approved) == BurnCount(accounts, approved)
  {
    var n := |accounts| - 1;
    var changed := accounts[k := other];
    if k == n {
      assert changed[..n] == accounts[..n];
    } else {
      assert changed[..n] == accounts[..n][k := other];
      DeclinedAccountIsInert(owner, accounts[..n], approved[..n], k, other);
      assert changed[n] == accounts[n];
    }
  }

  /** Each account paired with its decision. */
  function Zip(accounts: seq<TokenAccount>, approved: seq<bool>): (z: seq<(TokenAccount, bool)>)
    requires |approved| == |accounts|
    ensures |z| == |accounts|
  {
    seq(|accounts|, i requires 0 <= i < |accounts| => (accounts[i], approved[i]))
  }

  /** Appending one entry adds exactly that entry's share to each counter. */
  lemma AppendShare(xs: seq<TokenAccount>, ds: seq<bool>, a: TokenAccount, d: bool)
    requires |ds| == |xs|
    ensures ClosedCount(ds + [d]) == ClosedCount(ds) + (if d then 1 else 0)
    ensures Reclaimed(xs + [a], ds + [d]) == Reclaimed(xs, ds) + (if d then a.lamports else 0)
    ensures BurnCount(xs + [a], ds + [d]) == BurnCount(xs, ds) + (if d && a.amount > 0 then 1 else 0)
  {
    assert (xs + [a])[..|xs|] == xs && (ds + [d])[..|xs|] == ds;
  }

  /** Dropping entry j of the decisions takes exactly its share off `accountsToClose`. */
  lemma {:induction false} RemoveClosed(approved: seq<bool>, j: nat, ds: seq<bool>)
    requires j < |approved| && ds == approved[..j] + approved[j + 1..]
    ensures ClosedCount(approved) == ClosedCount(ds) + (if approved[j] then 1 else 0)
    decreases |approved|
  {
    var n := |approved| - 1;
    if j == n {
      assert ds == approved[..n];
    } else {
      var ds' := approved[..n][..j] + approved[..n][j + 1..];
      RemoveClosed(approved[..n], j, ds');
      assert ds[..|ds| - 1] == ds' && ds[|ds| - 1] == approved[n];
      assert ClosedCount(ds) == ClosedCount(ds') + (if approved[n] then 1 else 0);
    }
  }

  /** Dropping entry j of the list takes exactly its share off `lamportsToReceiveBack`. */
  lemma {:induction false} RemoveReclaimed(accounts: seq<TokenAccount>, approved: seq<bool>, j: nat,
                                           xs: seq<TokenAccount>, ds: seq<bool>)
    requires |approved| == |accounts| && j < |accounts|
    requires xs == accounts[..j] + accounts[j + 1..] && ds == approved[..j] + approved[j + 1..]
    ensures Reclaimed(accounts, approved) == Reclaimed(xs, ds) + (if approved[j] then accounts[j].lamports else 0)
    decreases |accounts|
  {
    var n := |accounts| - 1;
    if j == n {
      assert xs == accounts[..n] && ds == approved[..n];
    } else {
      var xs', ds' := accounts[..n][..j] + accounts[..n][j + 1..], approved[..n][..j] + approved[..n][j + 1..];
      RemoveReclaimed(accounts[..n], approved[..n], j, xs', ds');
      DropBeforeLast(accounts, j);
      DropBeforeLast(approved, j);
      AppendShare(xs', ds', accounts[n], approved[n]);
    }
  }

  /** Dropping an entry before the last one commutes with taking the last entry off. */
  lemma DropBeforeLast<T>(s: seq<T>, j: nat)
    requires j + 1 < |s|
    ensures var n := |s| - 1;
      s[..j] + s[j + 1..] == (s[..n][..j] + s[..n][j + 1..]) + [s[n]]
  {
  }

  /** Dropping entry j of the list takes exactly its share off the number of burns. */
  lemma {:induction false} RemoveBurn(accounts: seq<TokenAccount>, approved: seq<bool>, j: nat,
                                      xs: seq<TokenAccount>, ds: seq<bool>)
    requires |approved| == |accounts| && j < |accounts|
    requires xs == accounts[..j] + accounts[j + 1..] && ds == approved[..j] + approved[j + 1..]
    ensures BurnCount(accounts, approved) == BurnCount(xs, ds) + (if approved[j] && accounts[j].amount > 0 then 1 else 0)
    decreases |accounts|
  {
    var n := |accounts| - 1;
    if j == n {
      assert xs == accounts[..n] && ds == approved[..n];
    } else {
      var xs', ds' := accounts[..n][..j] + accounts[..n][j + 1..], approved[..n][..j] + approved[..n][j + 1..];
      RemoveBurn(accounts[..n], approved[..n], j, xs', ds');
      DropBeforeLast(accounts, j);
      DropBeforeLast(approved, j);
      AppendShare(xs', ds', accounts[n], approved[n]);
    }
  }

  /** Removing one entry from both lists removes the matching pair from the zipped list. */
  lemma ZipRemove(accounts: seq<TokenAccount>, approved: seq<bool>, j: nat)
    requires |approved| == |accounts| && j < |accounts|
    ensures multiset(Zip(accounts[..j] + accounts[j + 1..], approved[..j] + approved[j + 1..]))
         == multiset(Zip(accounts, approved)) - multiset{(accounts[j], approved[j])}
  {
    var z := Zip(accounts, approved);
    assert Zip(accounts[..j] + accounts[j + 1..], approved[..j] + approved[j + 1..]) == z[..j] + z[j + 1..];
    assert z == z[..j] + [z[j]] + z[j + 1..];
  }

  /**
   * Taking the last pair off one list and the same pair, at index j, off the other keeps the
   * two lists' pairs equal as multisets.
   */
  lemma DropMatching(accounts: seq<TokenAccount>, approved: seq<bool>,
                     reordered: seq<TokenAccount>, reApproved: seq<bool>, j: nat)
    requires |approved| == |accounts| && |reApproved| == |reordered| && accounts != []
    requires multiset(Zip(accounts, approved)) == multiset(Zip(reordered, reApproved))
    requires j < |reordered|
    requires reordered[j] == accounts[|accounts| - 1] && reApproved[j] == approved[|accounts| - 1]
    ensures multiset(Zip(accounts[..|accounts| - 1], approved[..|accounts| - 1]))
         == multiset(Zip(reordered[..j] + reordered[j + 1..], reApproved[..j] + reApproved[j + 1..]))
  {
    var n := |accounts| - 1;
    ZipRemove(reordered, reApproved, j);
    ZipRemove(accounts, approved, n);
    assert accounts[..n] + accounts[n + 1..] == accounts[..n];
    assert approved[..n] + approved[n + 1..] == approved[..n];
  }

  /** A pair that occurs in the zipped list sits at some index of it. */
  lemma FindPair(accounts: seq<TokenAccount>, approved: seq<bool>, e: (TokenAccount, bool)) returns (j: nat)
    requires |approved| == |accounts|
    requires e in multiset(Zip(accounts, approved))
    ensures j < |accounts| && accounts[j] == e.0 && approved[j] == e.1
  {
    var z := Zip(accounts, approved);
    assert e in z;
    var k :| 0 <= k < |z| && z[k] == e;
    j := k;
  }

  /**
   * The counters do not depend on the order in which accounts are handled: two lists holding
   * the same (account, decision) pairs, in any order, give the same `accountsToClose`,
   * `lamportsToReceiveBack` and number of burns.
   */
  lemma {:induction false} CountersIgnoreOrder(accounts: seq<TokenAccount>, approved: seq<bool>,
                                               reordered: seq<TokenAccount>, reApproved: seq<bool>)
    requires |approved| == |accounts| && |reApproved| == |reordered|
    requires multiset(Zip(accounts, approved)) == multiset(Zip(reordered, reApproved))
    ensures ClosedCount(reApproved) == ClosedCount(approved)
    ensures Reclaimed(reordered, reApproved) == Reclaimed(accounts, approved)
    ensures BurnCount(reordered, reApproved) == BurnCount(accounts, approved)
    decreases |accounts|
  {
    if accounts == [] {
      assert |Zip(reordered, reApproved)| == 0;
    } else {
      var n := |accounts| - 1;
      var e := (accounts[n], approved[n]);
      assert Zip(accounts, approved)[n] == e;
      var j := FindPair(reordered, reApproved, e);
      var xs, ds := reordered[..j] + reordered[j + 1..], reApproved[..j] + reApproved[j + 1..];
      DropMatching(accounts, approved, reordered, reApproved, j);
      CountersIgnoreOrder(accounts[..n], approved[..n], xs, ds);
      RemoveClosed(reApproved, j, ds);
      RemoveReclaimed(reordered, reApproved, j, xs, ds);
      RemoveBurn(reordered, reApproved, j, xs, ds);
    }
  }
}
