# Banking rule layer, modelled in Dafny

This project models the rule layer of a small banking back office: the
account service (open, list, read, rename and close accounts) and the
account-transaction service (deposit, withdraw, per-account history and a
filtered, paged search). It also models the two enums whose `fromValue`
turns a label into a constant. The two repositories become one in-memory
`Bank` with two stores: a map from account id to account, and a sequence
of transaction rows that each carry the owning `accountId`.

Money is exact: a `BigDecimal` of scale 2 is an integer number of cents, so
the ceiling `MAX_ACCOUNT_BALANCE` (9,999,999) is `999_999_900`. A
`LocalDateTime` is an integer instant and a UUID is a natural number. The
processing instant (`LocalDateTime.now()`) and the id the store would
generate for a new row are passed in. The bean-validation annotations on the
request DTOs become preconditions: amount at least 0.01, an identity number
of at most eleven digits, non-blank names.

Each service operation is one atomic step over the `Bank`. Every domain
error is a `Failure` value (`NotFound`, `DuplicateAccount`,
`BalanceLimitExceeded`, `InsufficientFunds`, `InvalidDateRange`,
`InvalidAmountRange`, `InvalidPageRequest`), and on every error the
stores are left unchanged. Every state-changing method keeps
`Bank.Valid()`, which says:
- accounts are stored under their own ids;
- balances lie in [0, 9,999,999.00];
- (identityNo, accountType) is unique;
- every transaction's account exists;
- transaction ids are distinct;
- every amount is at least 0.01;
- each balance equals the deposits minus withdrawals recorded for that account.

Files and modules:
- `wrappers.dfy` (`Wrappers`): Option, Result and Outcome.
- `case_folding.dfy` (`CaseFolding`): Java's `equalsIgnoreCase`.
- `label_lookup.dfy` (`LabelLookup`): the first-match label search shared by both enums.
- `transaction_type.dfy` (`TransactionTypes`) and `account_type.dfy` (`AccountTypes`): the two enums.
- `sequences.dfy` (`Sequences`): order-preserving filtering.
- `entities.dfy` (`Entities`): accounts, transactions, errors and constants.
- `store.dfy` (`Store`): the `Bank` class, its invariant, and what each kind of change does to it.
- `account_service.dfy` (`AccountService`), `account_transaction_service.dfy` (`AccountTransactionService`), `transaction_search.dfy` (`TransactionSearch`): the services.
- `scenario.dfy` (`BankScenario`): a client that runs the documented walk-through.

Where the design description and the code differ, the model follows the
code in three places:
- A reversed date range and a reversed amount range raise different
  messages, so they are two error kinds. The date check comes first.
- A negative page or a page size below one is rejected by
  `PageRequest.of`, after the two range checks (`InvalidPageRequest`).
- `equalsIgnoreCase` compares characters after upper-casing and then
  lower-casing them. So `"yatirma"` (dotted i) finds `DEPOSIT`, whose
  label has a dotless ı.

## Model

| member | source | states |
|---|---|---|
| CaseFolding.CharEqualsIgnoreCaseIsFoldEquality | src/main/java/com/banking/bankingsystem/transaction/data/TransactionType.java:22 | Java's three-step character comparison holds exactly when the two characters have the same folded form |
| CaseFolding.EqualsIgnoreCaseAt | src/main/java/com/banking/bankingsystem/transaction/data/TransactionType.java:22 | two strings are equal ignoring case iff they have the same length and fold alike at every position |
| CaseFolding.EqualsIgnoreCaseReflexive | src/main/java/com/banking/bankingsystem/transaction/data/TransactionType.java:22 | every label equals itself ignoring case |
| CaseFolding.EqualsIgnoreCaseSymmetric | src/main/java/com/banking/bankingsystem/transaction/data/TransactionType.java:22 | the comparison is symmetric |
| CaseFolding.EqualsIgnoreCaseTransitive | src/main/java/com/banking/bankingsystem/transaction/data/TransactionType.java:22 | the comparison is transitive |
| LabelLookup.FirstMatchSound | src/main/java/com/banking/bankingsystem/transaction/data/TransactionType.java:21-24 | a found constant is one of the values and its label matches the text ignoring case |
| LabelLookup.FirstMatchNone | src/main/java/com/banking/bankingsystem/transaction/data/TransactionType.java:21-26 | the search yields null exactly when no constant's label matches |
| LabelLookup.FirstMatchIsFirst | src/main/java/com/banking/bankingsystem/transaction/data/TransactionType.java:21-24 | a found constant sits at an index before which no label matches (first match in declaration order) |
| LabelLookup.FirstMatchIgnoresCase | src/main/java/com/banking/bankingsystem/transaction/data/TransactionType.java:22 | texts that are equal ignoring case find the same constant |
| LabelLookup.FirstMatchRoundTrip | src/main/java/com/banking/bankingsystem/transaction/data/TransactionType.java:16-27 | when labels are pairwise distinct ignoring case, looking up any constant's label returns that constant |
| TransactionTypes.FromValue | src/main/java/com/banking/bankingsystem/transaction/data/TransactionType.java:20-27 | the loop returns the first constant whose label matches, and null (None) exactly when no label matches |
| TransactionTypes.ParseInDeclarationOrder | src/main/java/com/banking/bankingsystem/transaction/data/TransactionType.java:20-27 | the lookup tries DEPOSIT ("yatırma") and then WITHDRAW ("çekme") |
| TransactionTypes.LabelsAreDistinct | src/main/java/com/banking/bankingsystem/transaction/data/TransactionType.java:16 | the two labels differ even ignoring case |
| TransactionTypes.ParseLabel | src/main/java/com/banking/bankingsystem/transaction/data/TransactionType.java:16-27 | round trip: fromValue(t.getValue()) == t for both constants |
| TransactionTypes.ParseSound | src/main/java/com/banking/bankingsystem/transaction/data/TransactionType.java:21-24 | a returned constant's label matches the text, and for WITHDRAW the earlier DEPOSIT label does not |
| TransactionTypes.ParseNone | src/main/java/com/banking/bankingsystem/transaction/data/TransactionType.java:26 | null is returned exactly when neither label matches |
| TransactionTypes.ParseIgnoresCase | src/main/java/com/banking/bankingsystem/transaction/data/TransactionType.java:22 | texts equal ignoring case resolve to the same result |
| TransactionTypes.ParseDeclaredLabels | src/main/java/com/banking/bankingsystem/transaction/data/TransactionType.java:16-27 | "yatırma" gives DEPOSIT and "çekme" gives WITHDRAW |
| TransactionTypes.ParseUpperCase | src/main/java/com/banking/bankingsystem/transaction/data/TransactionType.java:22 | "YATIRMA" resolves to DEPOSIT, because ı upper-cases to I |
| TransactionTypes.ParseTurkishUpperCase | src/main/java/com/banking/bankingsystem/transaction/data/TransactionType.java:22 | "ÇEKME" resolves to WITHDRAW and not to DEPOSIT |
| TransactionTypes.ParseDottedI | src/main/java/com/banking/bankingsystem/transaction/data/TransactionType.java:22 | "yatirma" with a dotted i resolves to DEPOSIT, because both i and ı upper-case to I |
| TransactionTypes.ParseUnknown | src/main/java/com/banking/bankingsystem/transaction/data/TransactionType.java:26 | "DEPOSIT" and "" resolve to null |
| AccountTypes.FromValue | src/main/java/com/banking/bankingsystem/account/data/AccountType.java:20-27 | the loop returns the first constant whose label matches, and null (None) exactly when no label matches |
| AccountTypes.ParseInDeclarationOrder | src/main/java/com/banking/bankingsystem/account/data/AccountType.java:20-27 | the lookup tries TL ("tl"), then USD ("dolar"), then GBP ("sterlin") |
| AccountTypes.LabelsAreDistinct | src/main/java/com/banking/bankingsystem/account/data/AccountType.java:16 | the three labels differ even ignoring case |
| AccountTypes.ParseLabel | src/main/java/com/banking/bankingsystem/account/data/AccountType.java:16-27 | round trip: fromValue(a.getValue()) == a for all three constants |
| AccountTypes.ParseSound | src/main/java/com/banking/bankingsystem/account/data/AccountType.java:21-24 | a returned constant's label matches the text and no earlier constant's label does |
| AccountTypes.ParseNone | src/main/java/com/banking/bankingsystem/account/data/AccountType.java:26 | null is returned exactly when none of the three labels matches |
| AccountTypes.ParseIgnoresCase | src/main/java/com/banking/bankingsystem/account/data/AccountType.java:22 | texts equal ignoring case resolve to the same result |
| AccountTypes.ParseDeclaredLabels | src/main/java/com/banking/bankingsystem/account/data/AccountType.java:16-27 | "tl", "dolar" and "sterlin" give TL, USD and GBP |
| AccountTypes.ParseUpperCase | src/main/java/com/banking/bankingsystem/account/data/AccountType.java:22 | "TL" resolves to TL |
| AccountTypes.ParseCapitalised | src/main/java/com/banking/bankingsystem/account/data/AccountType.java:22 | "Dolar" resolves to USD |
| AccountTypes.ParseTurkishUpperCase | src/main/java/com/banking/bankingsystem/account/data/AccountType.java:22 | "STERLİN" with a capital dotted İ resolves to GBP, because İ lower-cases to i |
| AccountTypes.ParseUnknown | src/main/java/com/banking/bankingsystem/account/data/AccountType.java:26 | "USD" and "" resolve to null |
| Store.ByAccountMembers | src/main/java/com/banking/bankingsystem/transaction/repository/AccountTransactionRepository.java:20 | findByAccountId returns exactly the rows with that accountId, in store order |
| Store.ByAccountOfUnknown | src/main/java/com/banking/bankingsystem/transaction/service/AccountTransactionService.java:94-97 | an id with no stored account has no transactions, because every row's account exists |
| Store.ByAccountAppend | src/main/java/com/banking/bankingsystem/transaction/service/AccountTransactionService.java:61-67 | appending one row extends its own account's history by that row and no other history |
| Store.WithoutAccountKeepsOthers | src/main/java/com/banking/bankingsystem/account/data/Account.java:44 | the cascade delete leaves every other account's history as it was |
| Store.WithoutAccountMembers | src/main/java/com/banking/bankingsystem/account/data/Account.java:44 | the cascade removes exactly the deleted account's rows, none of them remain |
| Store.OpenKeepsConsistent | src/main/java/com/banking/bankingsystem/account/service/AccountService.java:34-42 | storing a fresh account with balance 0 and an unused (identityNo, accountType) pair keeps the uniqueness and ledger invariants |
| Store.RenameKeepsConsistent | src/main/java/com/banking/bankingsystem/account/mapper/AccountMapper.java:31-36 | changing only the names of a stored account keeps the invariant |
| Store.RecordKeepsConsistent | src/main/java/com/banking/bankingsystem/transaction/service/AccountTransactionService.java:52-67 | moving a balance by a row's signed amount within [0, ceiling] and appending that row keeps the invariant, including balance == net of history |
| Store.CloseKeepsConsistent | src/main/java/com/banking/bankingsystem/account/data/Account.java:44 | removing an account together with its rows keeps the invariant (no orphan rows) |
| AccountService.CreateAccount | src/main/java/com/banking/bankingsystem/account/service/AccountService.java:30-43 | a duplicate (identityNo, accountType) fails with DuplicateAccount and changes nothing; otherwise exactly one account with the given fields and balance 0 is added |
| AccountService.GetAllAccounts | src/main/java/com/banking/bankingsystem/account/service/AccountService.java:45-47 | every stored account is returned, unfiltered, one per stored id |
| AccountService.GetAccountById | src/main/java/com/banking/bankingsystem/account/service/AccountService.java:49-52 | returns the stored account for the id, or NotFound when the id is absent |
| AccountService.UpdateAccount | src/main/java/com/banking/bankingsystem/account/service/AccountService.java:54-60 | NotFound changes nothing; otherwise only firstName and lastName change, while id, identityNo, accountType, balance, transactions and other accounts stay |
| AccountService.DeleteAccountById | src/main/java/com/banking/bankingsystem/account/service/AccountService.java:62-67 | NotFound changes nothing; otherwise the account and every row with its id are removed, and other accounts' histories are kept |
| AccountTransactionService.Deposit | src/main/java/com/banking/bankingsystem/transaction/service/AccountTransactionService.java:45-68 | unknown id gives NotFound; balance + amount above 9,999,999.00 gives BalanceLimitExceeded (exactly reaching it is allowed), and neither changes anything; otherwise the balance grows by the amount and one DEPOSIT row {accountId, amount, now} is appended |
| AccountTransactionService.Withdraw | src/main/java/com/banking/bankingsystem/transaction/service/AccountTransactionService.java:70-92 | unknown id gives NotFound; balance below the amount gives InsufficientFunds, and neither changes anything; otherwise the balance shrinks by the amount, stays non-negative, and one WITHDRAW row is appended |
| AccountTransactionService.GetTransactionsByAccountId | src/main/java/com/banking/bankingsystem/transaction/service/AccountTransactionService.java:94-97 | exactly the rows recorded against the id, in store order, and empty for an unknown id; they sum to the account's balance |
| AccountTransactionService.SearchTransactions | src/main/java/com/banking/bankingsystem/transaction/service/AccountTransactionService.java:99-142 | range errors as in Search; a result page has at most size items, all matching stored rows, newest first, and its total is the number of matching rows |
| AccountTransactionService.SearchByAccountIsHistory | src/main/java/com/banking/bankingsystem/transaction/service/AccountTransactionService.java:113-115 | a search with only the accountId clause counts exactly that account's history, and a large enough first page is a permutation of it |
| TransactionSearch.Search | src/main/java/com/banking/bankingsystem/transaction/service/AccountTransactionService.java:104-139 | a reversed date range fails with InvalidDateRange regardless of other filters; a reversed amount range fails with InvalidAmountRange; the query succeeds iff neither range is reversed and the paging is valid; a page holds at most size items |
| TransactionSearch.SortNewestFirstCorrect | src/main/java/com/banking/bankingsystem/transaction/service/AccountTransactionService.java:137 | the sort orders by transactionDate, newest first, and is a permutation of its input |
| TransactionSearch.MatchingCount | src/main/java/com/banking/bankingsystem/transaction/service/AccountTransactionService.java:139 | the filtered rows are exactly as many as the independently counted matches |
| TransactionSearch.PageOfIsSlice | src/main/java/com/banking/bankingsystem/transaction/service/AccountTransactionService.java:137 | page p of size n holds at most n consecutive items starting at index p * n |
| TransactionSearch.SearchContentMatches | src/main/java/com/banking/bankingsystem/transaction/service/AccountTransactionService.java:113-135 | every item on a result page is a stored row that satisfies every supplied clause |
| TransactionSearch.SearchContentNewestFirst | src/main/java/com/banking/bankingsystem/transaction/service/AccountTransactionService.java:137-139 | a result page is ordered newest first |
| TransactionSearch.SearchTotalIsMatchCount | src/main/java/com/banking/bankingsystem/transaction/service/AccountTransactionService.java:139 | the total equals the number of stored rows matching the clauses |
| TransactionSearch.SearchFindsEveryMatch | src/main/java/com/banking/bankingsystem/transaction/service/AccountTransactionService.java:137-139 | every matching row appears on some page of the same query |
| TransactionSearch.SearchAcceptsEqualBounds | src/main/java/com/banking/bankingsystem/transaction/service/AccountTransactionService.java:104-111 | equal date bounds and equal amount bounds are accepted, and select rows at exactly that date and amount |
| TransactionSearch.FirstPageHoldsAllMatches | src/main/java/com/banking/bankingsystem/transaction/service/AccountTransactionService.java:137-139 | a first page at least as large as the match count holds every match |
| TransactionSearch.SearchWithoutClauses | src/main/java/com/banking/bankingsystem/transaction/service/AccountTransactionService.java:113-135 | with no clause supplied, nothing is filtered out: the total is the store size and a large first page is a permutation of the store |
| BankScenario.WalkThrough | src/test/java/com/banking/bankingsystem/transaction/service/AccountTransactionServiceTest.java:88-98 | the over-limit refusal of this test and the insufficient-funds refusal of lines 113-123 of the same file, inside the documented walk-through: open a TL account (balance 0), deposit 500.00 (recorded as one DEPOSIT row of 500.00 at the given instant and id), fail to withdraw 1000.00 leaving 500.00, fail to reopen it, fail to deposit 1,500.00 on 9,999,000.00 leaving the balance, and after closing it find no history |

## Left out

- HTTP controllers, the global exception handler and the status-code mapping are not modelled. Error kinds stand in for the exceptions.
- The Spring Data repositories and the QueryDSL `BooleanBuilder`/`Pageable`/`Page` machinery are replaced by the in-memory map and sequence, an explicit clause predicate and a slice. Page metadata beyond content and total is not modelled.
- The MapStruct mappers are treated as field-for-field copies of the entity fields. Entities and their DTOs are the same value here, with one exception, stated in the next line.
- AccountTransactionService.Deposit, AccountTransactionService.Withdraw, AccountTransactionService.GetTransactionsByAccountId and AccountTransactionService.SearchTransactions: the model returns the stored row with its `accountId`. In Java the entity holds an `Account` reference (`account`), and the DTO has an `accountId` field. `AccountTransactionMapper` declares no mapping from `account.id` to `accountId`, and MapStruct copies only properties with matching names. So the returned DTO's `accountId` is most likely null. This was not executed, and the model does not reproduce that null.
- `LocalDateTime.now()` and UUID generation are parameters. A freshly generated id is assumed to be unused.
- `@Transactional` atomicity and the lost-update race between concurrent deposits and withdrawals are concurrency and out of scope. Each operation is one atomic step.
- The `Account.transactions` collection is not kept in the account record. The history is reached by query, and the cascade is modelled as removing the matching rows.
- Database column limits (50-character names, balance precision) are not modelled, because the services do not check them. The balance range follows from the service guards.
- Amounts with more than two fractional digits are not modelled. `@DecimalMin` would admit them, and the column would round them; here every amount is a whole number of cents.
- CaseFolding.ToUpper: covers ASCII, the Latin-1 letters except ÿ and µ, and the Turkish letters ç ğ ı İ ö ş ü. Every other character is treated as having no case, and so are ÿ and µ, whose Java capitals are Ÿ (U+0178) and Μ (U+039C). The same goes for surrogate pairs. This changes what the lookup returns for some inputs. Java upper-cases the long s ſ (U+017F) to S, so `AccountType.fromValue("ſterlin")` returns GBP; the model returns None. Java lower-cases the Kelvin sign K (U+212A) to k, so `TransactionType.fromValue("çeKme")` with that sign returns WITHDRAW; the model returns None.
- TransactionTypes.FromValue: a null argument is not modelled, because Dafny strings cannot be null; in Java it matches no label and returns null.
- AccountTypes.FromValue: a null argument is not modelled, for the same reason.
- AccountService.GetAllAccounts: returns a set, so the list order of `findAll()` is not modelled.
- TransactionSearch.SortNewestFirst: orders rows with equal dates in store order (a stable sort). The database leaves their order unspecified.
