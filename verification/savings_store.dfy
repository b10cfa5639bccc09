/** The savings store: the account table, keyed by its owner (`userId` is a
    unique key), and the append-only transaction log. The one primitive that
    changes a balance, `UpdateBalanceAndCreateTransaction`, writes the new
    balance and appends its transaction row as a single unit. */
module SavingsStore {
  import opened Common

  datatype AccountStatus = Active | Frozen

  datatype TxType = Deposit | Withdrawal

  datatype Account = Account(
    id: Id, userId: Id, name: string, balance: real, currency: string, status: AccountStatus)

  /** The fields a caller supplies for a new transaction row. */
  datatype TxFields = TxFields(
    kind: TxType, amount: real, balanceBefore: real, balanceAfter: real,
    description: string, referenceNumber: string, status: string)

  /** A stored transaction row. */
  datatype Transaction = Transaction(
    id: Id, accountId: Id, kind: TxType, amount: real, balanceBefore: real, balanceAfter: real,
    description: string, referenceNumber: string, status: string)

  /** The `data` of an account update: only the supplied fields are written. */
  datatype AccountUpdate = AccountUpdate(
    name: Option<string>, currency: Option<string>, status: Option<AccountStatus>)

  function Row(id: Id, accountId: Id, f: TxFields): Transaction
  {
    Transaction(id, accountId, f.kind, f.amount, f.balanceBefore, f.balanceAfter,
                f.description, f.referenceNumber, f.status)
  }

  /** The account after an update: supplied fields replaced, everything else kept. */
  function Apply(a: Account, u: AccountUpdate): (b: Account)
    ensures b.id == a.id && b.userId == a.userId && b.balance == a.balance
    ensures b.name == (if u.name.Some? then u.name.value else a.name)
    ensures b.currency == (if u.currency.Some? then u.currency.value else a.currency)
    ensures b.status == (if u.status.Some? then u.status.value else a.status)
  {
    a.(name := if u.name.Some? then u.name.value else a.name,
       currency := if u.currency.Some? then u.currency.value else a.currency,
       status := if u.status.Some? then u.status.value else a.status)
  }

  // ---------------------------------------------------------------------
  // The ledger, as pure functions of the log

  /** The transactions of one account, in log order. */
  function TxsOf(txs: seq<Transaction>, accountId: Id): (r: seq<Transaction>)
    ensures |r| <= |txs|
    ensures forall t :: t in r <==> t in txs && t.accountId == accountId
  {
    if txs == [] then []
    else
      var last := txs[|txs| - 1];
      TxsOf(txs[..|txs| - 1], accountId) + (if last.accountId == accountId then [last] else [])
  }

  lemma TxsOfAppend(txs: seq<Transaction>, t: Transaction, accountId: Id)
    ensures TxsOf(txs + [t], accountId)
         == TxsOf(txs, accountId) + (if t.accountId == accountId then [t] else [])
  {
    assert (txs + [t])[..|txs|] == txs;
  }

  /** The effect of one transaction on the balance. */
  function Signed(t: Transaction): real
  {
    match t.kind
    case Deposit => t.amount
    case Withdrawal => -t.amount
  }

  /** The sum of the amounts of the transactions of one kind. */
  function Total(txs: seq<Transaction>, kind: TxType): real
  {
    if txs == [] then 0.0
    else
      var last := txs[|txs| - 1];
      Total(txs[..|txs| - 1], kind) + (if last.kind == kind then last.amount else 0.0)
  }

  /** A transaction whose `balanceAfter` is its `balanceBefore` moved by its amount. */
  predicate Step(t: Transaction)
  {
    t.balanceAfter == t.balanceBefore + Signed(t)
  }

  /** The log of an account that opened with `opening` and now holds `balance`:
      every entry is a step, the first starts at the opening balance, each
      starts where the previous one ended, and the last ends at `balance`. */
  predicate Chained(opening: real, txs: seq<Transaction>, balance: real)
    decreases |txs|
  {
    if txs == [] then balance == opening
    else
      var last := txs[|txs| - 1];
      && last.balanceAfter == balance
      && Step(last)
      && Chained(opening, txs[..|txs| - 1], last.balanceBefore)
  }

  /** A chained log reconciles: the balance is the opening balance plus the
      deposits minus the withdrawals. */
  lemma {:induction false} ChainedBalance(opening: real, txs: seq<Transaction>, balance: real)
    requires Chained(opening, txs, balance)
    ensures balance == opening + Total(txs, Deposit) - Total(txs, Withdrawal)
  {
    if txs != [] {
      var last := txs[|txs| - 1];
      ChainedBalance(opening, txs[..|txs| - 1], last.balanceBefore);
    }
  }

  /** In a chained log each entry starts where its predecessor ended. */
  lemma {:induction false} ChainedLinks(opening: real, txs: seq<Transaction>, balance: real)
    requires Chained(opening, txs, balance)
    ensures txs != [] ==> txs[0].balanceBefore == opening && txs[|txs| - 1].balanceAfter == balance
    ensures forall i :: 0 < i < |txs| ==> txs[i].balanceBefore == txs[i - 1].balanceAfter
    ensures forall i :: 0 <= i < |txs| ==> Step(txs[i])
  {
    if txs != [] {
      var init := txs[..|txs| - 1];
      ChainedLinks(opening, init, txs[|txs| - 1].balanceBefore);
      assert forall i :: 0 <= i < |init| ==> txs[i] == init[i];
    }
  }

  /** Appending a step that starts at the current balance keeps the log chained. */
  lemma ChainedAppend(opening: real, txs: seq<Transaction>, balance: real, t: Transaction)
    requires Chained(opening, txs, balance)
    requires t.balanceBefore == balance && Step(t)
    ensures Chained(opening, txs + [t], t.balanceAfter)
  {
    assert (txs + [t])[..|txs|] == txs;
  }

  /** No account in the table holds a negative balance. */
  predicate AllNonNegative(accounts: map<Id, Account>)
  {
    forall u :: u in accounts ==> accounts[u].balance >= 0.0
  }

  /** Writing one account with a non-negative balance keeps the table non-negative. */
  lemma NonNegativeAfterSet(accounts: map<Id, Account>, userId: Id, a: Account)
    requires AllNonNegative(accounts) && a.balance >= 0.0
    ensures AllNonNegative(accounts[userId := a])
  {
  }

  // ---------------------------------------------------------------------
  // The store

  class SavingsRepository {
    /** The account rows, by owning user (`userId` is unique). */
    var accounts: map<Id, Account>
    /** The transaction rows, in insertion order. */
    var transactions: seq<Transaction>
    /** The next row id the store hands out. */
    var nextId: nat
    /** The balance each account was opened with, by account id. */
    ghost var opening: map<Id, real>

    ghost predicate Valid()
      reads this
    {
      && (forall u :: u in accounts ==>
            accounts[u].userId == u && accounts[u].id < nextId && accounts[u].id in opening)
      && (forall u, v :: u in accounts && v in accounts && accounts[u].id == accounts[v].id ==> u == v)
      && (forall i :: 0 <= i < |transactions| ==>
            transactions[i].accountId < nextId && transactions[i].id < nextId)
    }

    /** Every account's log reconciles with its balance. */
    ghost predicate Ledgered()
      reads this
      requires Valid()
    {
      forall u {:trigger Chained(opening[accounts[u].id], TxsOf(transactions, accounts[u].id), accounts[u].balance)} ::
        u in accounts ==>
        Chained(opening[accounts[u].id], TxsOf(transactions, accounts[u].id), accounts[u].balance)
    }

    /** No account holds a negative balance. */
    ghost predicate NonNegative()
      reads this
    {
      AllNonNegative(accounts)
    }

    constructor ()
      ensures Valid() && Ledgered() && NonNegative()
      ensures accounts == map[] && transactions == [] && nextId == 0
    {
      accounts, transactions, nextId, opening := map[], [], 0, map[];
    }

    /** `findAccountByUserId`: the user's single account, or none. */
    function FindAccountByUserId(userId: Id): (r: Option<Account>)
      reads this
      requires Valid()
      ensures r.Some? <==> userId in accounts
      ensures r.Some? ==> r.value == accounts[userId] && r.value.userId == userId
      ensures r.None? ==> forall u :: u in accounts ==> accounts[u].userId != userId
    {
      if userId in accounts then Some(accounts[userId]) else None
    }

    /** `createAccount`: adds one account row; the unique key on `userId`
        rejects a second account for the same user. */
    method CreateAccount(userId: Id, name: string, balance: real, currency: string, status: AccountStatus)
      returns (r: Result<Account>)
      requires Valid()
      modifies this
      ensures Valid()
      ensures userId in old(accounts) ==> r == Failure(Persistence) && unchanged(this)
      ensures userId !in old(accounts) ==>
        && r == Success(Account(old(nextId), userId, name, balance, currency, status))
        && accounts == old(accounts)[userId := r.value]
        && transactions == old(transactions)
        && nextId == old(nextId) + 1
        && opening == old(opening)[r.value.id := balance]
    {
      if userId in accounts {
        return Failure(Persistence);
      }
      var a := Account(nextId, userId, name, balance, currency, status);
      accounts := accounts[userId := a];
      opening := opening[nextId := balance];
      nextId := nextId + 1;
      r := Success(a);
    }

    /** `updateAccountByUserId`: writes the supplied fields of that user's account. */
    method UpdateAccountByUserId(userId: Id, u: AccountUpdate) returns (r: Result<Account>)
      requires Valid()
      modifies this
      ensures Valid()
      ensures userId !in old(accounts) ==> r == Failure(Persistence) && unchanged(this)
      ensures userId in old(accounts) ==>
        && r == Success(Apply(old(accounts[userId]), u))
        && accounts == old(accounts)[userId := r.value]
        && transactions == old(transactions) && nextId == old(nextId) && opening == old(opening)
    {
      if userId !in accounts {
        return Failure(Persistence);
      }
      var a := Apply(accounts[userId], u);
      accounts := accounts[userId := a];
      r := Success(a);
    }

    /** `updateAccountById`: the same update, locating the account by its own id. */
    method UpdateAccountById(id: Id, u: AccountUpdate) returns (r: Result<Account>)
      requires Valid()
      modifies this
      ensures Valid()
      ensures (forall v :: v in old(accounts) ==> old(accounts[v]).id != id) ==>
        r == Failure(Persistence) && unchanged(this)
      ensures forall v :: v in old(accounts) && old(accounts[v]).id == id ==>
        && r == Success(Apply(old(accounts[v]), u))
        && accounts == old(accounts)[v := r.value]
        && transactions == old(transactions) && nextId == old(nextId) && opening == old(opening)
    {
      if v :| v in accounts && accounts[v].id == id {
        var a := Apply(accounts[v], u);
        accounts := accounts[v := a];
        r := Success(a);
      } else {
        r := Failure(Persistence);
      }
    }

    /** `updateBalanceAndCreateTransaction`: in one unit, sets the account's
        balance and appends exactly one transaction row; if the account does
        not exist, neither happens. */
    method UpdateBalanceAndCreateTransaction(accountId: Id, newBalance: real, tx: TxFields)
      returns (r: Result<(Account, Transaction)>)
      requires Valid()
      modifies this
      ensures Valid()
      ensures (forall v :: v in old(accounts) ==> old(accounts[v]).id != accountId) ==>
        r == Failure(Persistence) && unchanged(this)
      ensures forall v :: v in old(accounts) && old(accounts[v]).id == accountId ==>
        && r == Success((old(accounts[v]).(balance := newBalance), Row(old(nextId), accountId, tx)))
        && accounts == old(accounts)[v := r.value.0]
        && transactions == old(transactions) + [r.value.1]
        && nextId == old(nextId) + 1
        && opening == old(opening)
    {
      if v :| v in accounts && accounts[v].id == accountId {
        var a := accounts[v].(balance := newBalance);
        var t := Row(nextId, accountId, tx);
        accounts := accounts[v := a];
        transactions := transactions + [t];
        nextId := nextId + 1;
        r := Success((a, t));
      } else {
        r := Failure(Persistence);
      }
    }

    /** `listTransactions`: the account's transactions, newest first, after
        skipping `skip`, at most `take` of them. */
    function ListTransactions(accountId: Id, skip: nat, take: nat): (r: seq<Transaction>)
      reads this
      ensures |r| <= take
      ensures |r| == PageLength(|TxsOf(transactions, accountId)|, skip, take)
      ensures forall t :: t in r ==> t in transactions && t.accountId == accountId
      ensures var log := TxsOf(transactions, accountId);
        forall i :: 0 <= i < |r| ==> skip + i < |log| && r[i] == log[|log| - 1 - (skip + i)]
    {
      Window(NewestFirst(TxsOf(transactions, accountId)), skip, take)
    }

    /** `countTransactions`: how many transactions the account has. */
    function CountTransactions(accountId: Id): (n: nat)
      reads this
      ensures n == |TxsOf(transactions, accountId)|
    {
      |TxsOf(transactions, accountId)|
    }

    /** `deleteAccountByUserId`: removes that user's account and nothing else. */
    method DeleteAccountByUserId(userId: Id) returns (r: Result<()>)
      requires Valid()
      modifies this
      ensures Valid()
      ensures userId !in old(accounts) ==> r == Failure(Persistence) && unchanged(this)
      ensures userId in old(accounts) ==>
        && r == Success(())
        && accounts == old(accounts) - {userId}
        && transactions == old(transactions) && nextId == old(nextId) && opening == old(opening)
    {
      if userId !in accounts {
        return Failure(Persistence);
      }
      accounts := accounts - {userId};
      r := Success(());
    }
  }

  /** Listing from the start with the count as the page size returns every
      transaction of the account, newest first. */
  lemma ListAllIsWholeLog(repo: SavingsRepository, accountId: Id)
    ensures repo.ListTransactions(accountId, 0, repo.CountTransactions(accountId))
         == NewestFirst(TxsOf(repo.transactions, accountId))
  {
  }
}
