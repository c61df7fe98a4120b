/** A stream of transactions fed to the engine one after another, in order,
    and what stays true along the whole stream. */
module Runs {
  import opened Decimals
  import opened Types
  import opened Engine

  /** The engine after every transaction of `txs`, applied left to right. */
  function Run(e: Engine, txs: seq<Transaction>): (e': Engine)
    decreases |txs|
  {
    if |txs| == 0 then e else Run(AddTransaction(e, txs[0]), txs[1..])
  }

  /** The clients named anywhere in `txs`. */
  function Clients(txs: seq<Transaction>): (s: set<ClientId>)
    ensures forall i :: 0 <= i < |txs| ==> txs[i].client in s
    ensures forall c :: c in s ==> exists i :: 0 <= i < |txs| && txs[i].client == c
  {
    set i | 0 <= i < |txs| :: txs[i].client
  }

  /** The ids of the deposits in `txs`. */
  function DepositIds(txs: seq<Transaction>): (s: set<TxId>)
    ensures forall i :: 0 <= i < |txs| && txs[i].txType.Deposit? ==> txs[i].tx in s
    ensures forall id :: id in s ==> exists i :: 0 <= i < |txs| && txs[i].txType.Deposit? && txs[i].tx == id
  {
    set i | 0 <= i < |txs| && txs[i].txType.Deposit? :: txs[i].tx
  }

  lemma ClientsUnfold(txs: seq<Transaction>)
    requires |txs| > 0
    ensures Clients(txs) == {txs[0].client} + Clients(txs[1..])
  {
    var rest := txs[1..];
    forall c | c in Clients(rest) ensures c in Clients(txs) {
      var i :| 0 <= i < |rest| && rest[i].client == c;
      assert txs[i + 1] == rest[i];
    }
    forall c | c in Clients(txs) ensures c in {txs[0].client} + Clients(rest) {
      var i :| 0 <= i < |txs| && txs[i].client == c;
      if i > 0 {
        assert rest[i - 1] == txs[i];
      }
    }
  }

  lemma DepositIdsUnfold(txs: seq<Transaction>)
    requires |txs| > 0
    ensures DepositIds(txs) <= (if txs[0].txType.Deposit? then {txs[0].tx} else {}) + DepositIds(txs[1..])
  {
    var rest := txs[1..];
    forall id | id in DepositIds(txs)
      ensures id in (if txs[0].txType.Deposit? then {txs[0].tx} else {}) + DepositIds(rest)
    {
      var i :| 0 <= i < |txs| && txs[i].txType.Deposit? && txs[i].tx == id;
      if i > 0 {
        assert rest[i - 1] == txs[i];
      }
    }
  }

  /** Every stored account stays under its own id with a consistent total,
      however long the stream. */
  lemma {:induction false} RunKeepsWellFormed(e: Engine, txs: seq<Transaction>)
    requires WellFormed(e)
    ensures WellFormed(Run(e, txs))
    decreases |txs|
  {
    if |txs| > 0 {
      AddTransactionKeepsWellFormed(e, txs[0]);
      RunKeepsWellFormed(AddTransaction(e, txs[0]), txs[1..]);
    }
  }

  /** After a stream, the clients with an account are exactly those that had
      one before plus those the stream names: every transaction, accepted or
      not, opens its client's account, and no account is ever removed. */
  lemma {:induction false} RunAccounts(e: Engine, txs: seq<Transaction>)
    ensures Run(e, txs).accounts.Keys == e.accounts.Keys + Clients(txs)
    decreases |txs|
  {
    if |txs| > 0 {
      var e1 := AddTransaction(e, txs[0]);
      RunAccounts(e1, txs[1..]);
      ClientsUnfold(txs);
    }
  }

  /** A locked account stays locked through any stream. */
  lemma {:induction false} RunKeepsLocked(e: Engine, txs: seq<Transaction>, c: ClientId)
    requires c in e.accounts && e.accounts[c].locked
    ensures c in Run(e, txs).accounts && Run(e, txs).accounts[c].locked
    decreases |txs|
  {
    if |txs| > 0 {
      LockedStaysLocked(e, txs[0], c);
      RunKeepsLocked(AddTransaction(e, txs[0]), txs[1..], c);
    }
  }

  /** Only deposits are ever recorded: after a stream, every history id was
      already there or is the id of a deposit in the stream. In particular a
      withdrawal can never be disputed. */
  lemma {:induction false} RunHistoryFromDeposits(e: Engine, txs: seq<Transaction>)
    ensures Run(e, txs).history.Keys <= e.history.Keys + DepositIds(txs)
    decreases |txs|
  {
    if |txs| > 0 {
      var t := txs[0];
      var e1 := AddTransaction(e, t);
      RunHistoryFromDeposits(e1, txs[1..]);
      forall id | id in e1.history ensures id in e.history || (t.txType.Deposit? && id == t.tx) {
        HistoryTransitions(e, t, id);
      }
      DepositIdsUnfold(txs);
    }
  }
}
