/**
 * The persistent entities: accounts and the transactions recorded against
 * them, with money in exact cents and time as an instant on a line.
 */
module Entities {
  import opened AccountTypes
  import opened TransactionTypes

  /** A system-generated identifier (java.util.UUID). */
  type Uuid = nat

  /** A LocalDateTime, as a point on a time line. */
  type Instant = int

  /** A BigDecimal amount of scale 2, in cents. */
  type Money = int

  /** MAX_ACCOUNT_BALANCE: 9,999,999.00. */
  const MAX_ACCOUNT_BALANCE: Money := 999_999_900

  /** The least amount a transaction request may carry: 0.01. */
  const MIN_TRANSACTION_AMOUNT: Money := 1

  /** Identity numbers have at most eleven integer digits and no fraction. */
  const IDENTITY_NO_LIMIT: int := 100_000_000_000

  /** Account; its transaction list is reached by query, not held in the record. */
  datatype Account = Account(
    id: Uuid,
    identityNo: int,
    firstName: string,
    lastName: string,
    accountType: AccountType,
    balance: Money)

  /** AccountTransaction; the owning account is referred to by its id. */
  datatype AccountTransaction = AccountTransaction(
    id: Uuid,
    accountId: Uuid,
    transactionDate: Instant,
    transactionType: TransactionType,
    amount: Money)

  /** The domain errors the services raise. */
  datatype Error =
    | NotFound              // EntityNotFoundException
    | DuplicateAccount      // an account for this identity number and type exists
    | BalanceLimitExceeded  // a deposit would take the balance past the ceiling
    | InsufficientFunds     // a withdrawal exceeds the balance
    | InvalidDateRange      // fromDate is after toDate
    | InvalidAmountRange    // minAmount is greater than maxAmount
    | InvalidPageRequest    // a negative page index or a page size below one

  /** @Digits(integer = 11, fraction = 0) on the identity number. */
  predicate ValidIdentityNo(n: int)
  {
    -IDENTITY_NO_LIMIT < n < IDENTITY_NO_LIMIT
  }

  /** @NotBlank: something is left after trimming the characters up to U+0020. */
  predicate NotBlank(s: string)
  {
    exists i :: 0 <= i < |s| && s[i] > ' '
  }

  /** The change a transaction makes to its account's balance. */
  function SignedAmount(t: AccountTransaction): Money
  {
    match t.transactionType
    case DEPOSIT => t.amount
    case WITHDRAW => -t.amount
  }

  /** Deposits minus withdrawals over a transaction history. */
  function Net(ts: seq<AccountTransaction>): Money
  {
    if ts == [] then 0 else SignedAmount(ts[0]) + Net(ts[1..])
  }

  /** Recording one more transaction adds its signed amount to the net. */
  lemma {:induction false} NetAppend(ts: seq<AccountTransaction>, t: AccountTransaction)
    ensures Net(ts + [t]) == Net(ts) + SignedAmount(t)
  {
    if ts == [] {
      assert ts + [t] == [t];
    } else {
      assert (ts + [t])[1..] == ts[1..] + [t];
      NetAppend(ts[1..], t);
    }
  }
}
