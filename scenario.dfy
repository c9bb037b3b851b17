/**
 * A client of the two services that runs the documented walk-through on an
 * empty bank, proved from the services' contracts alone.
 */
module BankScenario {
  import opened Wrappers
  import opened AccountTypes
  import opened TransactionTypes
  import opened Entities
  import opened Store
  import AccountService
  import AccountTransactionService

  /**
   * Open a TL account for identity number 12345678901, deposit 500.00
   * (recorded as one DEPOSIT row of 500.00),
   * try to withdraw 1000.00, try to open the same account again, raise the
   * balance to 9,999,000.00 and try to deposit 1,500.00 more, then close it.
   */
  method WalkThrough() returns (
      created: Result<Account, Error>,
      deposit: Result<AccountTransaction, Error>,
      afterDeposit: Money,
      overdraw: Result<AccountTransaction, Error>,
      afterOverdraw: Money,
      reopened: Result<Account, Error>,
      overLimit: Result<AccountTransaction, Error>,
      afterOverLimit: Money,
      historyAfterClose: seq<AccountTransaction>)
    ensures created.Success? && created.value.balance == 0 && created.value.accountType == TL
    ensures deposit == Success(AccountTransaction(1, 1, 1000, DEPOSIT, 50_000)) && afterDeposit == 50_000
    ensures overdraw == Failure(InsufficientFunds) && afterOverdraw == 50_000
    ensures reopened == Failure(DuplicateAccount)
    ensures overLimit == Failure(BalanceLimitExceeded) && afterOverLimit == 999_900_000
    ensures historyAfterClose == []
  {
    var bank := new Bank();
    var id: Uuid := 1;
    assert NotBlank("Enes") && NotBlank("Kumaş") by {
      assert "Enes"[0] > ' ' && "Kumaş"[0] > ' ';
    }
    created := AccountService.CreateAccount(bank, 12345678901, "Enes", "Kumaş", TL, id);
    deposit := AccountTransactionService.Deposit(bank, id, 50_000, 1000, 1);
    afterDeposit := bank.accounts[id].balance;
    overdraw := AccountTransactionService.Withdraw(bank, id, 100_000, 1001, 2);
    afterOverdraw := bank.accounts[id].balance;
    assert HolderExists(bank.accounts, 12345678901, TL) by {
      assert bank.accounts[id].identityNo == 12345678901 && bank.accounts[id].accountType == TL;
    }
    reopened := AccountService.CreateAccount(bank, 12345678901, "Enes", "Kumaş", TL, 2);
    var topUp := AccountTransactionService.Deposit(bank, id, 999_850_000, 1002, 3);
    overLimit := AccountTransactionService.Deposit(bank, id, 150_000, 1003, 4);
    afterOverLimit := bank.accounts[id].balance;
    var closed := AccountService.DeleteAccountById(bank, id);
    historyAfterClose := AccountTransactionService.GetTransactionsByAccountId(bank, id);
  }
}
