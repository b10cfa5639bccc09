/** The savings service: an account state machine (`Active` / `Frozen`) over
    the savings store. Deposits and withdrawals are gated by the status (and,
    for withdrawals, by the balance), and each one goes through the store's
    atomic balance-plus-transaction primitive, so the store's log always
    reconciles with the balances. */
module Savings {
  import opened Common
  import opened SavingsStore
  import Response

  const AccountNotFound: string := "Savings account not found"
  const AccountExists: string := "Savings account already exists"
  const NegativeInitialDeposit: string := "Initial deposit cannot be negative"
  const AccountIsFrozen: string := "Account is frozen. Cannot perform transactions."
  const InsufficientBalance: string := "Insufficient balance"
  const AlreadyFrozen: string := "Account is already frozen"
  const AlreadyActive: string := "Account is already active"
  const NonZeroBalance: string :=
    "Cannot delete account with non-zero balance. Please withdraw all funds first."

  const DefaultName: string := "My Savings Account"
  const DefaultCurrency: string := "RWF"
  const Completed: string := "completed"

  /** The balance view returned by `getBalance`. */
  datatype BalanceView = BalanceView(balance: real, currency: string)

  /** One page of an account's transaction history. */
  datatype History = History(
    transactions: seq<Transaction>, total: nat, page: int, limit: nat, totalPages: nat)

  class SavingsService {
    const repo: SavingsRepository

    /** The store is consistent and every account's log reconciles with its balance. */
    ghost predicate Valid()
      reads this, repo
    {
      repo.Valid() && repo.Ledgered()
    }

    constructor (repo: SavingsRepository)
      requires repo.Valid() && repo.Ledgered()
      ensures this.repo == repo && Valid()
    {
      this.repo := repo;
    }

    /** `createAccount`: a second account for a user is a conflict (checked
        first); a negative opening deposit is refused; otherwise a new active
        account holding the opening deposit. */
    method CreateAccount(userId: Id, name: Option<string>, currency: Option<string>,
                         initialDeposit: Option<real>)
      returns (r: Result<Account>)
      requires Valid()
      modifies repo
      ensures Valid()
      ensures userId in old(repo.accounts) ==>
        r == Failure(Conflict(AccountExists)) && unchanged(repo)
      ensures userId !in old(repo.accounts) && initialDeposit.Some? && initialDeposit.value < 0.0 ==>
        r == Failure(BadRequest(NegativeInitialDeposit)) && unchanged(repo)
      ensures userId !in old(repo.accounts) && (initialDeposit.None? || initialDeposit.value >= 0.0) ==>
        var opening := if initialDeposit.Some? then initialDeposit.value else 0.0;
        && r.Success?
        && r.value == Account(old(repo.nextId), userId,
                              if name.Some? then name.value else DefaultName,
                              opening,
                              if currency.Some? then currency.value else DefaultCurrency,
                              Active)
        && repo.accounts == old(repo.accounts)[userId := r.value]
        && repo.transactions == old(repo.transactions)
        && (old(repo.NonNegative()) ==> repo.NonNegative())
    {
      if repo.FindAccountByUserId(userId).Some? {
        return Failure(Conflict(AccountExists));
      }
      var deposit := if initialDeposit.Some? then initialDeposit.value else 0.0;
      if deposit < 0.0 {
        return Failure(BadRequest(NegativeInitialDeposit));
      }
      NoRowsForFreshAccount(repo.transactions, repo.nextId);
      r := repo.CreateAccount(userId, if name.Some? then name.value else DefaultName, deposit,
                              if currency.Some? then currency.value else DefaultCurrency, Active);
      assert Valid() by {
        forall u | u in repo.accounts
          ensures Chained(repo.opening[repo.accounts[u].id],
                          TxsOf(repo.transactions, repo.accounts[u].id), repo.accounts[u].balance)
        {
          if u != userId {
            assert repo.accounts[u] == old(repo.accounts[u]);
            assert old(repo.accounts[u]).id < old(repo.nextId);
          }
        }
      }
    }

    /** `getAccount`: the user's account, or NotFound. */
    function GetAccount(userId: Id): (r: Result<Account>)
      reads this, repo
      requires Valid()
      ensures r.Failure? <==> userId !in repo.accounts
      ensures r.Failure? ==> r.error == NotFound(AccountNotFound)
      ensures r.Success? ==> r.value == repo.accounts[userId] && r.value.userId == userId
    {
      match repo.FindAccountByUserId(userId)
      case None => Failure(NotFound(AccountNotFound))
      case Some(a) => Success(a)
    }

    /** `getBalance`: the balance and currency of the user's account. */
    function GetBalance(userId: Id): (r: Result<BalanceView>)
      reads this, repo
      requires Valid()
      ensures userId !in repo.accounts ==> r == Failure(NotFound(AccountNotFound))
      ensures userId in repo.accounts ==>
        r == Success(BalanceView(repo.accounts[userId].balance, repo.accounts[userId].currency))
    {
      match GetAccount(userId)
      case Failure(e) => Failure(e)
      case Success(a) => Success(BalanceView(a.balance, a.currency))
    }

    /** `deposit`: refused on a frozen account whatever the amount; otherwise
        the balance grows by the amount and exactly one `deposit` row recording
        the balance before and after is appended, in one unit. The service does
        not check the amount's sign: the route validator does. */
    method Deposit(userId: Id, amount: real, description: Option<string>, reference: string)
      returns (r: Result<Transaction>)
      requires Valid()
      modifies repo
      ensures Valid()
      ensures userId !in old(repo.accounts) ==>
        r == Failure(NotFound(AccountNotFound)) && unchanged(repo)
      ensures userId in old(repo.accounts) && old(repo.accounts[userId]).status == Frozen ==>
        r == Failure(BadRequest(AccountIsFrozen)) && unchanged(repo)
      ensures userId in old(repo.accounts) && old(repo.accounts[userId]).status == Active ==>
        var a := old(repo.accounts[userId]);
        && r == Success(Transaction(old(repo.nextId), a.id, TxType.Deposit, amount, a.balance, a.balance + amount,
                                    OrDefault(description, "Deposit"), reference, Completed))
        && repo.accounts == old(repo.accounts)[userId := a.(balance := a.balance + amount)]
        && repo.transactions == old(repo.transactions) + [r.value]
      ensures old(repo.NonNegative()) && amount >= 0.0 ==> repo.NonNegative()
    {
      var found := GetAccount(userId);
      if found.Failure? {
        return Failure(found.error);
      }
      var account := found.value;
      if account.status == Frozen {
        return Failure(BadRequest(AccountIsFrozen));
      }
      var before := account.balance;
      var after := before + amount;
      var fields := TxFields(TxType.Deposit, amount, before, after, OrDefault(description, "Deposit"), reference, Completed);
      r := Record(userId, fields);
      if old(repo.NonNegative()) && amount >= 0.0 {
        NonNegativeAfterSet(old(repo.accounts), userId, repo.accounts[userId]);
      }
    }

    /** `withdraw`: refused on a frozen account whatever the amount, and when
        the amount exceeds the balance; otherwise the balance shrinks by the
        amount (never below zero) and exactly one `withdrawal` row is appended. */
    method Withdraw(userId: Id, amount: real, description: Option<string>, reference: string)
      returns (r: Result<Transaction>)
      requires Valid()
      modifies repo
      ensures Valid()
      ensures userId !in old(repo.accounts) ==>
        r == Failure(NotFound(AccountNotFound)) && unchanged(repo)
      ensures userId in old(repo.accounts) && old(repo.accounts[userId]).status == Frozen ==>
        r == Failure(BadRequest(AccountIsFrozen)) && unchanged(repo)
      ensures userId in old(repo.accounts) && old(repo.accounts[userId]).status == Active
              && old(repo.accounts[userId]).balance < amount ==>
        r == Failure(BadRequest(InsufficientBalance)) && unchanged(repo)
      ensures userId in old(repo.accounts) && old(repo.accounts[userId]).status == Active
              && amount <= old(repo.accounts[userId]).balance ==>
        var a := old(repo.accounts[userId]);
        && r == Success(Transaction(old(repo.nextId), a.id, Withdrawal, amount, a.balance, a.balance - amount,
                                    OrDefault(description, "Withdrawal"), reference, Completed))
        && repo.accounts == old(repo.accounts)[userId := a.(balance := a.balance - amount)]
        && repo.transactions == old(repo.transactions) + [r.value]
      ensures r.Success? ==> r.value.balanceAfter >= 0.0
      ensures old(repo.NonNegative()) ==> repo.NonNegative()
    {
      var found := GetAccount(userId);
      if found.Failure? {
        return Failure(found.error);
      }
      var account := found.value;
      if account.status == Frozen {
        return Failure(BadRequest(AccountIsFrozen));
      }
      var before := account.balance;
      if before < amount {
        return Failure(BadRequest(InsufficientBalance));
      }
      var after := before - amount;
      var fields := TxFields(Withdrawal, amount, before, after, OrDefault(description, "Withdrawal"), reference, Completed);
      r := Record(userId, fields);
      if old(repo.NonNegative()) {
        NonNegativeAfterSet(old(repo.accounts), userId, repo.accounts[userId]);
      }
    }

    /** The shared tail of deposit and withdraw: hand the new balance and its
        transaction row to the store's atomic primitive. */
    method Record(userId: Id, fields: TxFields) returns (r: Result<Transaction>)
      requires Valid()
      requires userId in repo.accounts
      requires fields.balanceBefore == repo.accounts[userId].balance
      requires fields.balanceAfter == fields.balanceBefore + (if fields.kind.Deposit? then fields.amount else -fields.amount)
      modifies repo
      ensures Valid()
      ensures var a := old(repo.accounts[userId]);
        && r == Success(Row(old(repo.nextId), a.id, fields))
        && repo.accounts == old(repo.accounts)[userId := a.(balance := fields.balanceAfter)]
        && repo.transactions == old(repo.transactions) + [r.value]
    {
      var account := repo.accounts[userId];
      ghost var log := repo.transactions;
      var written := repo.UpdateBalanceAndCreateTransaction(account.id, fields.balanceAfter, fields);
      assert written.Success? && written.value.0 == account.(balance := fields.balanceAfter);
      r := Success(written.value.1);
      LedgerAfterAppend(repo, old(repo.accounts), log, userId, written.value.1);
    }

    /** `getTransactions`: one page (newest first) of the account's log, with
        the total count and the page count. */
    function GetTransactions(userId: Id, page: int, limit: nat): (r: Result<History>)
      reads this, repo
      requires Valid()
      requires page >= 1 && limit >= 1
      ensures userId !in repo.accounts ==> r == Failure(NotFound(AccountNotFound))
      ensures userId in repo.accounts ==>
        var id := repo.accounts[userId].id;
        && r.Success?
        && r.value.total == |TxsOf(repo.transactions, id)|
        && r.value.page == page && r.value.limit == limit
        && |r.value.transactions| <= limit
        && (forall t :: t in r.value.transactions ==> t in repo.transactions && t.accountId == id)
        && r.value.transactions == repo.ListTransactions(id, Response.Offset(page, limit), limit)
        && r.value.totalPages == Response.TotalPages(r.value.total, limit)
        && r.value.totalPages * limit >= r.value.total
        && (r.value.totalPages == 0 <==> r.value.total == 0)
    {
      match GetAccount(userId)
      case Failure(e) => Failure(e)
      case Success(a) =>
        var skip := Response.Offset(page, limit);
        var rows := repo.ListTransactions(a.id, skip, limit);
        var total := repo.CountTransactions(a.id);
        Success(History(rows, total, page, limit, Response.TotalPages(total, limit)))
    }

    /** `freezeAccount`: Active becomes Frozen; freezing a frozen account is refused. */
    method FreezeAccount(userId: Id) returns (r: Result<()>)
      requires Valid()
      modifies repo
      ensures Valid()
      ensures userId !in old(repo.accounts) ==> r == Failure(NotFound(AccountNotFound)) && unchanged(repo)
      ensures userId in old(repo.accounts) && old(repo.accounts[userId]).status == Frozen ==>
        r == Failure(BadRequest(AlreadyFrozen)) && unchanged(repo)
      ensures userId in old(repo.accounts) && old(repo.accounts[userId]).status == Active ==>
        && r == Success(())
        && repo.accounts == old(repo.accounts)[userId := old(repo.accounts[userId]).(status := Frozen)]
        && repo.transactions == old(repo.transactions)
    {
      var found := GetAccount(userId);
      if found.Failure? {
        return Failure(found.error);
      }
      if found.value.status == Frozen {
        return Failure(BadRequest(AlreadyFrozen));
      }
      var updated := SetAccount(userId, AccountUpdate(None, None, Some(Frozen)));
      r := Success(());
    }

    /** `unfreezeAccount`: Frozen becomes Active; unfreezing an active account is refused. */
    method UnfreezeAccount(userId: Id) returns (r: Result<()>)
      requires Valid()
      modifies repo
      ensures Valid()
      ensures userId !in old(repo.accounts) ==> r == Failure(NotFound(AccountNotFound)) && unchanged(repo)
      ensures userId in old(repo.accounts) && old(repo.accounts[userId]).status == Active ==>
        r == Failure(BadRequest(AlreadyActive)) && unchanged(repo)
      ensures userId in old(repo.accounts) && old(repo.accounts[userId]).status == Frozen ==>
        && r == Success(())
        && repo.accounts == old(repo.accounts)[userId := old(repo.accounts[userId]).(status := Active)]
        && repo.transactions == old(repo.transactions)
    {
      var found := GetAccount(userId);
      if found.Failure? {
        return Failure(found.error);
      }
      if found.value.status == Active {
        return Failure(BadRequest(AlreadyActive));
      }
      var updated := SetAccount(userId, AccountUpdate(None, None, Some(Active)));
      r := Success(());
    }

    /** `updateAccount`: writes only the supplied name and currency. */
    method UpdateAccount(userId: Id, name: Option<string>, currency: Option<string>)
      returns (r: Result<Account>)
      requires Valid()
      modifies repo
      ensures Valid()
      ensures userId !in old(repo.accounts) ==> r == Failure(NotFound(AccountNotFound)) && unchanged(repo)
      ensures userId in old(repo.accounts) ==>
        var a := old(repo.accounts[userId]);
        && r == Success(a.(name := if name.Some? then name.value else a.name,
                           currency := if currency.Some? then currency.value else a.currency))
        && repo.accounts == old(repo.accounts)[userId := r.value]
        && repo.transactions == old(repo.transactions)
    {
      var found := GetAccount(userId);
      if found.Failure? {
        return Failure(found.error);
      }
      var updated := SetAccount(userId, AccountUpdate(name, currency, None));
      r := Success(updated);
    }

    /** The store update behind freeze, unfreeze and update: balances and
        the log are untouched, so the ledger still reconciles. */
    method SetAccount(userId: Id, u: AccountUpdate) returns (a: Account)
      requires Valid()
      requires userId in repo.accounts
      modifies repo
      ensures Valid()
      ensures a == Apply(old(repo.accounts[userId]), u)
      ensures repo.accounts == old(repo.accounts)[userId := a]
      ensures repo.transactions == old(repo.transactions)
    {
      var written := repo.UpdateAccountByUserId(userId, u);
      a := written.value;
      assert Valid() by {
        forall v | v in repo.accounts
          ensures Chained(repo.opening[repo.accounts[v].id],
                          TxsOf(repo.transactions, repo.accounts[v].id), repo.accounts[v].balance)
        {
          assert v != userId ==> repo.accounts[v] == old(repo.accounts[v]);
        }
      }
    }

    /** `deleteAccount`: only an account whose balance is exactly zero is removed. */
    method DeleteAccount(userId: Id) returns (r: Result<()>)
      requires Valid()
      modifies repo
      ensures Valid()
      ensures userId !in old(repo.accounts) ==> r == Failure(NotFound(AccountNotFound)) && unchanged(repo)
      ensures userId in old(repo.accounts) && old(repo.accounts[userId]).balance != 0.0 ==>
        r == Failure(BadRequest(NonZeroBalance)) && unchanged(repo)
      ensures userId in old(repo.accounts) && old(repo.accounts[userId]).balance == 0.0 ==>
        && r == Success(())
        && repo.accounts == old(repo.accounts) - {userId}
        && repo.transactions == old(repo.transactions)
    {
      var found := GetAccount(userId);
      if found.Failure? {
        return Failure(found.error);
      }
      if found.value.balance != 0.0 {
        return Failure(BadRequest(NonZeroBalance));
      }
      r := repo.DeleteAccountByUserId(userId);
      assert Valid() by {
        forall v | v in repo.accounts
          ensures Chained(repo.opening[repo.accounts[v].id],
                          TxsOf(repo.transactions, repo.accounts[v].id), repo.accounts[v].balance)
        {
          assert repo.accounts[v] == old(repo.accounts[v]);
        }
      }
    }
  }

  // ---------------------------------------------------------------------
  // Ledger lemmas

  /** A fresh account id has no rows in the log yet. */
  lemma NoRowsForFreshAccount(txs: seq<Transaction>, id: Id)
    requires forall i :: 0 <= i < |txs| ==> txs[i].accountId < id
    ensures TxsOf(txs, id) == []
  {
  }

  /** After the atomic primitive appended row `t` for the account of `userId`
      and moved that account's balance to `t.balanceAfter`, every account's
      log still reconciles. */
  lemma LedgerAfterAppend(repo: SavingsRepository, before: map<Id, Account>, log: seq<Transaction>,
                          userId: Id, t: Transaction)
    requires userId in before
    requires repo.Valid()
    requires forall u :: u in before ==>
      before[u].id in repo.opening && Chained(repo.opening[before[u].id], TxsOf(log, before[u].id), before[u].balance)
    requires forall u, v :: u in before && v in before && before[u].id == before[v].id ==> u == v
    requires t.accountId == before[userId].id && t.balanceBefore == before[userId].balance && Step(t)
    requires repo.accounts == before[userId := before[userId].(balance := t.balanceAfter)]
    requires repo.transactions == log + [t]
    ensures repo.Ledgered()
  {
    forall u | u in repo.accounts
      ensures Chained(repo.opening[repo.accounts[u].id],
                      TxsOf(repo.transactions, repo.accounts[u].id), repo.accounts[u].balance)
    {
      AccountAfterAppend(repo.opening, before, log, userId, t, u);
    }
  }

  /** One account's log after the append: the written account gains the new
      step, every other account's log and balance are untouched. */
  lemma AccountAfterAppend(opening: map<Id, real>, before: map<Id, Account>, log: seq<Transaction>,
                           userId: Id, t: Transaction, u: Id)
    requires userId in before && u in before
    requires before[u].id in opening
    requires Chained(opening[before[u].id], TxsOf(log, before[u].id), before[u].balance)
    requires before[u].id == before[userId].id ==> u == userId
    requires t.accountId == before[userId].id && t.balanceBefore == before[userId].balance && Step(t)
    ensures var after := before[userId := before[userId].(balance := t.balanceAfter)];
      Chained(opening[after[u].id], TxsOf(log + [t], after[u].id), after[u].balance)
  {
    var after := before[userId := before[userId].(balance := t.balanceAfter)];
    var id := before[u].id;
    assert after[u].id == id;
    TxsOfAppend(log, t, id);
    if u == userId {
      assert TxsOf(log + [t], id) == TxsOf(log, id) + [t];
      ChainedAppend(opening[id], TxsOf(log, id), before[u].balance, t);
    } else {
      assert TxsOf(log + [t], id) == TxsOf(log, id) + [];
      assert TxsOf(log, id) + [] == TxsOf(log, id);
      assert after[u] == before[u];
    }
  }

  /** The ledger equation: in a consistent store every account's balance is
      its opening balance plus its deposits minus its withdrawals, and its log
      entries chain from the opening balance to the current one. */
  lemma LedgerBalance(repo: SavingsRepository, userId: Id)
    requires repo.Valid() && repo.Ledgered()
    requires userId in repo.accounts
    ensures var a := repo.accounts[userId];
      var log := TxsOf(repo.transactions, a.id);
      && a.balance == repo.opening[a.id] + Total(log, TxType.Deposit) - Total(log, Withdrawal)
      && (log != [] ==> log[0].balanceBefore == repo.opening[a.id] && log[|log| - 1].balanceAfter == a.balance)
      && (forall i :: 0 < i < |log| ==> log[i].balanceBefore == log[i - 1].balanceAfter)
  {
    var a := repo.accounts[userId];
    var log := TxsOf(repo.transactions, a.id);
    ChainedBalance(repo.opening[a.id], log, a.balance);
    ChainedLinks(repo.opening[a.id], log, a.balance);
  }
}
