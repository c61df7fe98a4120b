/** The ledger engine: a deterministic step over two maps, one account per
    client and one history record per deposited transaction id.

    Every transaction first makes sure its client has an account, then runs
    one of five guarded branches, then recomputes that account's total. No
    branch fails; a transaction whose guard does not hold changes nothing
    but the account creation. History is keyed by transaction id alone, so
    the branches never check which client a recorded deposit belonged to,
    and nothing ever consults the `locked` flag. */
module Engine {
  import opened Decimals
  import opened Types

  /** Dispute state of a recorded deposit. */
  datatype TransactionInfo = Regular | UnderDispute

  /** A history record: dispute state and the deposited amount. */
  datatype Record = Record(info: TransactionInfo, amount: Decimal)

  /** A transaction as the engine receives it: deposits and withdrawals
      carry their amount, the other three only name a transaction id. */
  datatype TransactionType =
    | Deposit(amount: Decimal)
    | Withdrawal(amount: Decimal)
    | Dispute
    | Resolve
    | Chargeback

  datatype Transaction = Transaction(client: ClientId, tx: TxId, txType: TransactionType)

  type History = map<TxId, Record>

  datatype Engine = Engine(accounts: map<ClientId, Account>, history: History)

  /** Every stored account sits under its own client id and has its total
      equal to available plus held. */
  predicate WellFormed(e: Engine) {
    forall c :: c in e.accounts ==> e.accounts[c].client == c && Consistent(e.accounts[c])
  }

  /** An engine with no accounts and no history. */
  function New(): (e: Engine)
    ensures WellFormed(e)
    ensures |e.accounts| == 0 && |e.history| == 0
  {
    Engine(map[], map[])
  }

  /** The account a transaction for `c` works on: the stored one, or a fresh
      one when `c` has none yet. */
  function AccountFor(e: Engine, c: ClientId): (a: Account)
    ensures c in e.accounts ==> a == e.accounts[c]
    ensures c !in e.accounts ==> a == NewAccount(c)
  {
    if c in e.accounts then e.accounts[c] else NewAccount(c)
  }

  /** In a well-formed engine, the account a transaction works on is its
      client's own, with a consistent total; a client without an account
      starts unlocked with nothing available or held. */
  lemma AccountForOwn(e: Engine, c: ClientId)
    requires WellFormed(e)
    ensures AccountFor(e, c).client == c && Consistent(AccountFor(e, c))
    ensures c !in e.accounts ==>
      !AccountFor(e, c).locked && Value(AccountFor(e, c).available) == 0.0 && Value(AccountFor(e, c).held) == 0.0
  {
    if c !in e.accounts {
      NewAccountConsistent(c);
      ZeroMantissaValue(NewAccount(c).available);
      ZeroMantissaValue(NewAccount(c).held);
    }
  }

  /** What a branch leaves behind: the account before its total is
      recomputed, and the history. */
  datatype Outcome = Outcome(account: Account, history: History)

  /** The five branches. A deposit always credits `available` and records
      itself as `Regular`, replacing any record under its id; a withdrawal
      debits `available` when it covers the amount; a dispute moves a
      `Regular` record's amount from `available` to `held` when `available`
      covers it; a resolve moves a disputed amount back and drops the
      record; a chargeback removes a disputed amount from `held`, locks the
      account and drops the record. Any other case leaves both unchanged.
      Whatever happens, the account keeps its client and no history record
      but the one under the transaction's id is touched. */
  function Step(a: Account, h: History, t: Transaction): (o: Outcome)
    ensures o.account.client == a.client
    ensures forall id :: id != t.tx ==> (id in o.history <==> id in h)
    ensures forall id :: id != t.tx && id in h ==> id in o.history && o.history[id] == h[id]
  {
    var id := t.tx;
    match t.txType
    case Deposit(amount) =>
      Outcome(a.(available := Add(a.available, amount)), h[id := Record(Regular, amount)])
    case Withdrawal(amount) =>
      if AtLeast(a.available, amount) then Outcome(a.(available := Sub(a.available, amount)), h)
      else Outcome(a, h)
    case Dispute =>
      if id in h && h[id].info == Regular && AtLeast(a.available, h[id].amount) then
        var amount := h[id].amount;
        Outcome(a.(available := Sub(a.available, amount), held := Add(a.held, amount)),
                h[id := Record(UnderDispute, amount)])
      else Outcome(a, h)
    case Resolve =>
      if id in h && h[id].info == UnderDispute then
        var amount := h[id].amount;
        Outcome(a.(available := Add(a.available, amount), held := Sub(a.held, amount)), h - {id})
      else Outcome(a, h)
    case Chargeback =>
      if id in h && h[id].info == UnderDispute then
        Outcome(a.(held := Sub(a.held, h[id].amount), locked := true), h - {id})
      else Outcome(a, h)
  }

  /** Recomputes the derived total; nothing else about the account changes. */
  function Settle(a: Account): (r: Account)
    ensures Consistent(r)
    ensures r.client == a.client && r.available == a.available && r.held == a.held && r.locked == a.locked
  {
    a.(total := Add(a.available, a.held))
  }

  /** Applies one transaction. Only the transaction's client's account and
      the history record under the transaction's id can change; the client
      always ends up with an account, whose total is recomputed. */
  function AddTransaction(e: Engine, t: Transaction): (e': Engine)
    ensures t.client in e'.accounts
    ensures e'.accounts.Keys == e.accounts.Keys + {t.client}
    ensures forall c :: c in e.accounts && c != t.client ==> c in e'.accounts && e'.accounts[c] == e.accounts[c]
    ensures e'.accounts[t.client].client == AccountFor(e, t.client).client
    ensures Consistent(e'.accounts[t.client])
  {
    var o := Step(AccountFor(e, t.client), e.history, t);
    Engine(e.accounts[t.client := Settle(o.account)], o.history)
  }

  /** History is keyed by transaction id: no record but the one under the
      transaction's own id is added, removed or changed. */
  lemma AddTransactionHistoryFrame(e: Engine, t: Transaction, id: TxId)
    requires id != t.tx
    ensures id in AddTransaction(e, t).history <==> id in e.history
    ensures id in e.history ==> AddTransaction(e, t).history[id] == e.history[id]
  {
  }

  /** The derived-total invariant (and every account sitting under its own
      client id) survives every transaction, applied or not. */
  lemma AddTransactionKeepsWellFormed(e: Engine, t: Transaction)
    requires WellFormed(e)
    ensures WellFormed(AddTransaction(e, t))
  {
    var e' := AddTransaction(e, t);
    forall c | c in e'.accounts
      ensures e'.accounts[c].client == c && Consistent(e'.accounts[c])
    {
      if c != t.client {
        assert e'.accounts[c] == e.accounts[c];
      }
    }
  }

  // ---------------------------------------------------------------------
  // The five branches, one lemma each
  // ---------------------------------------------------------------------

  /** The guard of each branch, stated on the numbers the balances denote:
      deposits always apply; a withdrawal needs `available` to cover it; a
      dispute needs a `Regular` record whose amount `available` covers; a
      resolve or a chargeback needs a record under dispute. */
  predicate Accepted(e: Engine, t: Transaction) {
    var a := AccountFor(e, t.client);
    match t.txType
    case Deposit(_) => true
    case Withdrawal(amount) => Value(a.available) >= Value(amount)
    case Dispute =>
      t.tx in e.history && e.history[t.tx].info == Regular
      && Value(a.available) >= Value(e.history[t.tx].amount)
    case Resolve => t.tx in e.history && e.history[t.tx].info == UnderDispute
    case Chargeback => t.tx in e.history && e.history[t.tx].info == UnderDispute
  }

  /** A branch whose guard fails hands back the account and the history
      it was given. */
  lemma RejectedStep(e: Engine, t: Transaction)
    requires !Accepted(e, t)
    ensures Step(AccountFor(e, t.client), e.history, t) == Outcome(AccountFor(e, t.client), e.history)
  {
    var a := AccountFor(e, t.client);
    match t.txType
    case Deposit(_) =>
    case Withdrawal(amount) =>
      AtLeastValue(a.available, amount);
    case Dispute =>
      if t.tx in e.history {
        AtLeastValue(a.available, e.history[t.tx].amount);
      }
    case Resolve =>
    case Chargeback =>
  }

  /** Recomputing the total of a consistent account changes nothing. */
  lemma SettleConsistent(a: Account)
    requires Consistent(a)
    ensures Settle(a) == a
  {
  }

  /** A transaction whose guard fails changes nothing, except that its
      client now has an account. */
  lemma RejectedIsNoOp(e: Engine, t: Transaction)
    requires WellFormed(e)
    requires !Accepted(e, t)
    ensures AddTransaction(e, t) == Engine(e.accounts[t.client := AccountFor(e, t.client)], e.history)
  {
    var a := AccountFor(e, t.client);
    if t.client !in e.accounts {
      NewAccountConsistent(t.client);
    }
    RejectedStep(e, t);
    SettleConsistent(a);
  }

  /** A deposit always applies: `available` grows by the amount and the
      deposit is recorded as `Regular`, replacing any record under its id,
      even one under dispute. */
  lemma DepositEffect(e: Engine, t: Transaction)
    requires t.txType.Deposit?
    ensures var a := AccountFor(e, t.client);
      var a' := AddTransaction(e, t).accounts[t.client];
      && Value(a'.available) == Value(a.available) + Value(t.txType.amount)
      && a'.held == a.held && a'.locked == a.locked
    ensures AddTransaction(e, t).history == e.history[t.tx := Record(Regular, t.txType.amount)]
  {
    AddValue(AccountFor(e, t.client).available, t.txType.amount);
  }

  /** An accepted withdrawal takes the amount from `available` and records
      nothing. */
  lemma WithdrawalEffect(e: Engine, t: Transaction)
    requires t.txType.Withdrawal? && Accepted(e, t)
    ensures var a := AccountFor(e, t.client);
      var a' := AddTransaction(e, t).accounts[t.client];
      && Value(a'.available) == Value(a.available) - Value(t.txType.amount)
      && a'.held == a.held && a'.locked == a.locked
    ensures AddTransaction(e, t).history == e.history
  {
    var a := AccountFor(e, t.client);
    AtLeastValue(a.available, t.txType.amount);
    SubValue(a.available, t.txType.amount);
  }

  /** An accepted dispute moves the recorded amount from `available` to
      `held` and marks the record `UnderDispute`, keeping its amount. */
  lemma DisputeEffect(e: Engine, t: Transaction)
    requires t.txType.Dispute? && Accepted(e, t)
    ensures t.tx in e.history
    ensures var a := AccountFor(e, t.client);
      var a' := AddTransaction(e, t).accounts[t.client];
      var amount := e.history[t.tx].amount;
      && Value(a'.available) == Value(a.available) - Value(amount)
      && Value(a'.held) == Value(a.held) + Value(amount)
      && a'.locked == a.locked
    ensures AddTransaction(e, t).history == e.history[t.tx := Record(UnderDispute, e.history[t.tx].amount)]
  {
    var a := AccountFor(e, t.client);
    var amount := e.history[t.tx].amount;
    AtLeastValue(a.available, amount);
    SubValue(a.available, amount);
    AddValue(a.held, amount);
  }

  /** An accepted resolve moves the disputed amount from `held` back to
      `available` and drops the record. */
  lemma ResolveEffect(e: Engine, t: Transaction)
    requires t.txType.Resolve? && Accepted(e, t)
    ensures t.tx in e.history
    ensures var a := AccountFor(e, t.client);
      var a' := AddTransaction(e, t).accounts[t.client];
      var amount := e.history[t.tx].amount;
      && Value(a'.available) == Value(a.available) + Value(amount)
      && Value(a'.held) == Value(a.held) - Value(amount)
      && a'.locked == a.locked
    ensures AddTransaction(e, t).history == e.history - {t.tx}
  {
    var a := AccountFor(e, t.client);
    var amount := e.history[t.tx].amount;
    AddValue(a.available, amount);
    SubValue(a.held, amount);
  }

  /** An accepted chargeback takes the disputed amount out of `held`,
      locks the account and drops the record; `available` is untouched. */
  lemma ChargebackEffect(e: Engine, t: Transaction)
    requires t.txType.Chargeback? && Accepted(e, t)
    ensures t.tx in e.history
    ensures var a := AccountFor(e, t.client);
      var a' := AddTransaction(e, t).accounts[t.client];
      && a'.available == a.available
      && Value(a'.held) == Value(a.held) - Value(e.history[t.tx].amount)
      && a'.locked
    ensures AddTransaction(e, t).history == e.history - {t.tx}
  {
    SubValue(AccountFor(e, t.client).held, e.history[t.tx].amount);
  }

  // ---------------------------------------------------------------------
  // Dispute life cycle
  // ---------------------------------------------------------------------

  /** A dispute followed by its resolve gives the client back the balances
      it had before the dispute, and forgets the transaction. */
  lemma DisputeThenResolve(e: Engine, c: ClientId, id: TxId)
    requires Accepted(e, Transaction(c, id, TransactionType.Dispute))
    ensures var e1 := AddTransaction(e, Transaction(c, id, TransactionType.Dispute));
      var e2 := AddTransaction(e1, Transaction(c, id, TransactionType.Resolve));
      && Value(e2.accounts[c].available) == Value(AccountFor(e, c).available)
      && Value(e2.accounts[c].held) == Value(AccountFor(e, c).held)
      && e2.accounts[c].locked == AccountFor(e, c).locked
      && id !in e2.history
  {
    var t1 := Transaction(c, id, TransactionType.Dispute);
    var e1 := AddTransaction(e, t1);
    DisputeEffect(e, t1);
    var t2 := Transaction(c, id, TransactionType.Resolve);
    assert AccountFor(e1, c) == e1.accounts[c];
    assert e1.history[id] == Record(UnderDispute, e.history[id].amount);
    ResolveEffect(e1, t2);
  }

  /** A dispute followed by its chargeback leaves the client with the
      disputed amount gone from `available`, `held` back where it was,
      and the account locked. */
  lemma DisputeThenChargeback(e: Engine, c: ClientId, id: TxId)
    requires Accepted(e, Transaction(c, id, TransactionType.Dispute))
    ensures id in e.history
    ensures var e1 := AddTransaction(e, Transaction(c, id, TransactionType.Dispute));
      var e2 := AddTransaction(e1, Transaction(c, id, TransactionType.Chargeback));
      && Value(e2.accounts[c].available) == Value(AccountFor(e, c).available) - Value(e.history[id].amount)
      && Value(e2.accounts[c].held) == Value(AccountFor(e, c).held)
      && e2.accounts[c].locked
      && id !in e2.history
  {
    var t1 := Transaction(c, id, TransactionType.Dispute);
    var e1 := AddTransaction(e, t1);
    DisputeEffect(e, t1);
    var t2 := Transaction(c, id, TransactionType.Chargeback);
    assert AccountFor(e1, c) == e1.accounts[c];
    assert e1.history[id] == Record(UnderDispute, e.history[id].amount);
    ChargebackEffect(e1, t2);
  }

  /** A transaction already under dispute cannot be disputed again: the
      second dispute changes nothing. */
  lemma NoDoubleDispute(e: Engine, c: ClientId, id: TxId)
    requires WellFormed(e)
    requires Accepted(e, Transaction(c, id, TransactionType.Dispute))
    ensures var e1 := AddTransaction(e, Transaction(c, id, TransactionType.Dispute));
      AddTransaction(e1, Transaction(c, id, TransactionType.Dispute)) == e1
  {
    var t1 := Transaction(c, id, TransactionType.Dispute);
    var e1 := AddTransaction(e, t1);
    DisputeEffect(e, t1);
    AddTransactionKeepsWellFormed(e, t1);
    assert AccountFor(e1, c) == e1.accounts[c];
    assert e1.accounts[c := e1.accounts[c]] == e1.accounts;
    RejectedIsNoOp(e1, t1);
  }

  // ---------------------------------------------------------------------
  // The lock
  // ---------------------------------------------------------------------

  /** Once locked, an account stays locked. */
  lemma LockedStaysLocked(e: Engine, t: Transaction, c: ClientId)
    requires c in e.accounts && e.accounts[c].locked
    ensures AddTransaction(e, t).accounts[c].locked
  {
  }

  /** An account becomes locked only through an accepted chargeback on its
      own client. */
  lemma LockedOnlyByChargeback(e: Engine, t: Transaction, c: ClientId)
    requires !AccountFor(e, c).locked
    requires c in AddTransaction(e, t).accounts && AddTransaction(e, t).accounts[c].locked
    ensures c == t.client && t.txType.Chargeback? && Accepted(e, t)
  {
  }

  /** The lock gates nothing: a locked account takes every transaction
      exactly as the same account unlocked would. */
  lemma LockedNotGated(e: Engine, t: Transaction)
    requires t.client in e.accounts
    ensures var locked := e.(accounts := e.accounts[t.client := e.accounts[t.client].(locked := true)]);
      && AddTransaction(locked, t).history == AddTransaction(e, t).history
      && AddTransaction(locked, t).accounts[t.client] == AddTransaction(e, t).accounts[t.client].(locked := true)
  {
  }

  // ---------------------------------------------------------------------
  // The history as a state machine
  // ---------------------------------------------------------------------

  /** How one transaction can change the record kept under `id`: a record
      appears only through a deposit with that id; it disappears only
      through a resolve or chargeback of a record under dispute; it goes
      from `Regular` to `UnderDispute` only through a dispute, and back
      only through a deposit reusing the id; its amount changes only
      through such a deposit. */
  lemma HistoryTransitions(e: Engine, t: Transaction, id: TxId)
    ensures var h' := AddTransaction(e, t).history;
      id !in e.history && id in h' ==> t.tx == id && t.txType.Deposit?
    ensures var h' := AddTransaction(e, t).history;
      id in e.history && id !in h' ==>
        t.tx == id && (t.txType.Resolve? || t.txType.Chargeback?) && e.history[id].info == UnderDispute
    ensures var h' := AddTransaction(e, t).history;
      id in e.history && id in h' && e.history[id].info == Regular && h'[id].info == UnderDispute ==>
        t.tx == id && t.txType.Dispute?
    ensures var h' := AddTransaction(e, t).history;
      id in e.history && id in h' && e.history[id].info == UnderDispute && h'[id].info == Regular ==>
        t.tx == id && t.txType.Deposit?
    ensures var h' := AddTransaction(e, t).history;
      id in e.history && id in h' && h'[id].amount != e.history[id].amount ==>
        t.tx == id && t.txType.Deposit?
  {
    if id != t.tx {
      AddTransactionHistoryFrame(e, t, id);
    }
  }

  /** Collects every stored account, one per client. The order is whatever
      the key set yields: the source's map gives no order either. */
  method GetAccounts(e: Engine) returns (r: seq<Account>)
    ensures |r| == |e.accounts|
    ensures forall i :: 0 <= i < |r| ==> r[i] in e.accounts.Values
    ensures forall c :: c in e.accounts ==> e.accounts[c] in r
    ensures WellFormed(e) ==> forall i, j :: 0 <= i < j < |r| ==> r[i].client != r[j].client
  {
    r := [];
    ghost var done: seq<ClientId> := [];
    var rest := e.accounts.Keys;
    while rest != {}
      invariant rest <= e.accounts.Keys
      invariant |done| == |r|
      invariant forall i :: 0 <= i < |done| ==> done[i] in e.accounts && r[i] == e.accounts[done[i]]
      invariant forall i :: 0 <= i < |done| ==> done[i] !in rest
      invariant forall i, j :: 0 <= i < j < |done| ==> done[i] != done[j]
      invariant forall c :: c in e.accounts && c !in rest ==> c in done
      invariant |r| + |rest| == |e.accounts.Keys|
      decreases rest
    {
      var c :| c in rest;
      r := r + [e.accounts[c]];
      done := done + [c];
      rest := rest - {c};
    }
    assert |e.accounts.Keys| == |e.accounts|;
    forall c | c in e.accounts
      ensures e.accounts[c] in r
    {
      var i :| 0 <= i < |done| && done[i] == c;
      assert r[i] == e.accounts[c];
    }
  }
}
