/**
 * AccountTransactionService: deposits and withdrawals under the balance
 * ceiling and floor, the per-account history and the filtered search.
 * Each operation is one atomic step; the processing instant (`now`) and the
 * id the store generates for the new row (`transactionId`) are parameters.
 */
module AccountTransactionService {
  import opened Wrappers
  import opened TransactionTypes
  import opened Entities
  import opened Sequences
  import opened Store
  import opened TransactionSearch

  /**
   * deposit: NotFound for an unknown account; BalanceLimitExceeded when the
   * new balance would pass 9,999,999.00 (reaching it exactly is allowed);
   * otherwise the balance grows by the amount and exactly one DEPOSIT row is
   * appended. Nothing changes on an error.
   */
  method Deposit(bank: Bank, accountId: Uuid, amount: Money, now: Instant, transactionId: Uuid)
    returns (r: Result<AccountTransaction, Error>)
    requires bank.Valid()
    requires amount >= MIN_TRANSACTION_AMOUNT
    requires FreshTransactionId(bank.transactions, transactionId)
    modifies bank
    ensures bank.Valid()
    ensures if accountId !in old(bank.accounts) then
              r == Failure(NotFound) && unchanged(bank)
            else if old(bank.accounts[accountId].balance) + amount > MAX_ACCOUNT_BALANCE then
              r == Failure(BalanceLimitExceeded) && unchanged(bank)
            else
              r == Success(AccountTransaction(transactionId, accountId, now, DEPOSIT, amount)) &&
              bank.accounts == old(bank.accounts)[accountId := old(bank.accounts[accountId]).(balance := old(bank.accounts[accountId].balance) + amount)] &&
              bank.transactions == old(bank.transactions) + [r.value]
    ensures r.Success? ==>
              && bank.accounts[accountId].balance <= MAX_ACCOUNT_BALANCE
              && ByAccount(bank.transactions, accountId) == ByAccount(old(bank.transactions), accountId) + [r.value]
  {
    if accountId !in bank.accounts {
      return Failure(NotFound);
    }
    var account := bank.accounts[accountId];
    var newBalance := account.balance + amount;
    if newBalance > MAX_ACCOUNT_BALANCE {
      return Failure(BalanceLimitExceeded);
    }
    var record := AccountTransaction(transactionId, accountId, now, DEPOSIT, amount);
    RecordKeepsConsistent(bank.accounts, bank.transactions, record);
    ByAccountAppend(bank.transactions, record, accountId);
    bank.accounts := bank.accounts[accountId := account.(balance := newBalance)];
    bank.transactions := bank.transactions + [record];
    r := Success(record);
  }

  /**
   * withdraw: NotFound for an unknown account; InsufficientFunds when the
   * balance is below the amount (withdrawing all of it is allowed);
   * otherwise the balance shrinks by the amount and exactly one WITHDRAW row
   * is appended. Nothing changes on an error.
   */
  method Withdraw(bank: Bank, accountId: Uuid, amount: Money, now: Instant, transactionId: Uuid)
    returns (r: Result<AccountTransaction, Error>)
    requires bank.Valid()
    requires amount >= MIN_TRANSACTION_AMOUNT
    requires FreshTransactionId(bank.transactions, transactionId)
    modifies bank
    ensures bank.Valid()
    ensures if accountId !in old(bank.accounts) then
              r == Failure(NotFound) && unchanged(bank)
            else if old(bank.accounts[accountId].balance) < amount then
              r == Failure(InsufficientFunds) && unchanged(bank)
            else
              r == Success(AccountTransaction(transactionId, accountId, now, WITHDRAW, amount)) &&
              bank.accounts == old(bank.accounts)[accountId := old(bank.accounts[accountId]).(balance := old(bank.accounts[accountId].balance) - amount)] &&
              bank.transactions == old(bank.transactions) + [r.value]
    ensures r.Success? ==>
              && bank.accounts[accountId].balance >= 0
              && ByAccount(bank.transactions, accountId) == ByAccount(old(bank.transactions), accountId) + [r.value]
  {
    if accountId !in bank.accounts {
      return Failure(NotFound);
    }
    var account := bank.accounts[accountId];
    if account.balance < amount {
      return Failure(InsufficientFunds);
    }
    var record := AccountTransaction(transactionId, accountId, now, WITHDRAW, amount);
    RecordKeepsConsistent(bank.accounts, bank.transactions, record);
    ByAccountAppend(bank.transactions, record, accountId);
    bank.accounts := bank.accounts[accountId := account.(balance := account.balance - amount)];
    bank.transactions := bank.transactions + [record];
    r := Success(record);
  }

  /**
   * getTransactionsByAccountId: exactly the rows recorded against the id, in
   * store order. The id is not looked up: an id with no account has no
   * rows, so the list is empty rather than an error.
   */
  function GetTransactionsByAccountId(bank: Bank, accountId: Uuid): (r: seq<AccountTransaction>)
    reads bank
    requires bank.Valid()
    ensures forall t :: t in r <==> t in bank.transactions && t.accountId == accountId
    ensures IsSubsequence(r, bank.transactions)
    ensures accountId !in bank.accounts ==> r == []
    ensures accountId in bank.accounts ==> Net(r) == bank.accounts[accountId].balance
  {
    ByAccountMembers(bank.transactions, accountId);
    assert accountId !in bank.accounts ==> ByAccount(bank.transactions, accountId) == [] by {
      if accountId !in bank.accounts {
        ByAccountOfUnknown(bank.accounts, bank.transactions, accountId);
      }
    }
    ByAccount(bank.transactions, accountId)
  }

  /** searchTransactions over the transaction store. */
  function SearchTransactions(bank: Bank, req: SearchRequest): (r: Result<Page, Error>)
    reads bank
    ensures DateRangeInverted(req) ==> r == Failure(InvalidDateRange)
    ensures !DateRangeInverted(req) && AmountRangeInverted(req) ==> r == Failure(InvalidAmountRange)
    ensures r.Success? ==>
              && |r.value.content| <= req.size
              && r.value.totalElements == CountMatches(bank.transactions, req)
              && NewestFirst(r.value.content)
              && (forall t :: t in r.value.content ==> t in bank.transactions && Matches(req, t))
  {
    var r := Search(bank.transactions, req);
    if r.Success? then
      SearchTotalIsMatchCount(bank.transactions, req);
      SearchContentNewestFirst(bank.transactions, req);
      SearchContentMatches(bank.transactions, req);
      r
    else
      r
  }

  /**
   * A search whose only clause is the account id counts exactly that
   * account's history, and a large enough first page holds a permutation of it.
   */
  lemma SearchByAccountIsHistory(ts: seq<AccountTransaction>, id: Uuid, size: int)
    requires size >= |ts| && size >= 1
    ensures Search(ts, EmptySearchRequest().(accountId := Some(id), size := size)).Success?
    ensures Search(ts, EmptySearchRequest().(accountId := Some(id), size := size)).value.totalElements == |ByAccount(ts, id)|
    ensures multiset(Search(ts, EmptySearchRequest().(accountId := Some(id), size := size)).value.content) == multiset(ByAccount(ts, id))
  {
    var req := EmptySearchRequest().(accountId := Some(id), size := size);
    FilterCongruent(ts, (t: AccountTransaction) => Matches(req, t), (t: AccountTransaction) => t.accountId == id);
    assert MatchingTransactions(ts, req) == ByAccount(ts, id);
    FilterLength(ts, (t: AccountTransaction) => t.accountId == id);
    FirstPageHoldsAllMatches(ts, req);
  }
}
