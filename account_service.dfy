/** AccountService: create, read, update and delete over the account store. */
module AccountService {
  import opened Wrappers
  import opened AccountTypes
  import opened Entities
  import opened Store

  /**
   * createAccount: refuses a second account for the same identity number and
   * account type; otherwise stores a new account with balance 0 under the id
   * the store generates (`newId`).
   */
  method CreateAccount(bank: Bank, identityNo: int, firstName: string, lastName: string, accountType: AccountType, newId: Uuid)
    returns (r: Result<Account, Error>)
    requires bank.Valid()
    requires ValidIdentityNo(identityNo) && NotBlank(firstName) && NotBlank(lastName)
    requires newId !in bank.accounts
    modifies bank
    ensures bank.Valid()
    ensures bank.transactions == old(bank.transactions)
    ensures if HolderExists(old(bank.accounts), identityNo, accountType) then
              r == Failure(DuplicateAccount) && bank.accounts == old(bank.accounts)
            else
              r == Success(Account(newId, identityNo, firstName, lastName, accountType, 0)) &&
              bank.accounts == old(bank.accounts)[newId := r.value]
  {
    if HolderExists(bank.accounts, identityNo, accountType) {
      return Failure(DuplicateAccount);
    }
    var account := Account(newId, identityNo, firstName, lastName, accountType, 0);
    OpenKeepsConsistent(bank.accounts, bank.transactions, account);
    bank.accounts := bank.accounts[newId := account];
    r := Success(account);
  }

  /** getAllAccounts: every stored account, unfiltered. */
  function GetAllAccounts(bank: Bank): (r: set<Account>)
    reads bank
    requires bank.Valid()
    ensures forall a :: a in r <==> a.id in bank.accounts && bank.accounts[a.id] == a
    ensures |r| == |bank.accounts|
  {
    AccountsOneToOne(bank.accounts);
    bank.accounts.Values
  }

  /** Stored under their own ids, the accounts are as many as the ids. */
  lemma {:induction false} AccountsOneToOne(accounts: map<Uuid, Account>)
    requires KeyedById(accounts)
    ensures |accounts.Values| == |accounts|
    decreases |accounts|
  {
    if accounts != map[] {
      var id :| id in accounts;
      var rest := accounts - {id};
      AccountsOneToOne(rest);
      forall v | v in accounts.Values ensures v in rest.Values + {accounts[id]} {
        var k :| k in accounts && accounts[k] == v;
        if k != id { assert rest[k] == v; }
      }
      forall v | v in rest.Values ensures v in accounts.Values {
        var k :| k in rest && rest[k] == v;
        assert accounts[k] == v;
      }
      assert accounts.Values == rest.Values + {accounts[id]};
      assert accounts[id] !in rest.Values;
      assert accounts.Keys == rest.Keys + {id};
    }
  }

  /** getAccountById: the stored account, or NotFound. */
  function GetAccountById(bank: Bank, id: Uuid): (r: Result<Account, Error>)
    reads bank
    requires bank.Valid()
    ensures r.Success? <==> id in bank.accounts
    ensures r.Success? ==> r.value == bank.accounts[id] && r.value.id == id
    ensures r.Failure? ==> r.error == NotFound
  {
    if id in bank.accounts then Success(bank.accounts[id]) else Failure(NotFound)
  }

  /**
   * updateAccount: replaces the first and last name of a stored account and
   * nothing else; the id, identity number, type, balance and every other
   * account stay as they were.
   */
  method UpdateAccount(bank: Bank, id: Uuid, firstName: string, lastName: string) returns (r: Result<Account, Error>)
    requires bank.Valid()
    requires NotBlank(firstName) && NotBlank(lastName)
    modifies bank
    ensures bank.Valid()
    ensures bank.transactions == old(bank.transactions)
    ensures if id !in old(bank.accounts) then
              r == Failure(NotFound) && bank.accounts == old(bank.accounts)
            else
              r == Success(old(bank.accounts[id]).(firstName := firstName, lastName := lastName)) &&
              bank.accounts == old(bank.accounts)[id := r.value]
    ensures r.Success? ==>
              && r.value.id == id
              && r.value.identityNo == old(bank.accounts[id].identityNo)
              && r.value.accountType == old(bank.accounts[id].accountType)
              && r.value.balance == old(bank.accounts[id].balance)
              && (forall other :: other in bank.accounts && other != id ==> bank.accounts[other] == old(bank.accounts[other]))
  {
    if id !in bank.accounts {
      return Failure(NotFound);
    }
    var account := bank.accounts[id].(firstName := firstName, lastName := lastName);
    RenameKeepsConsistent(bank.accounts, bank.transactions, id, firstName, lastName);
    bank.accounts := bank.accounts[id := account];
    r := Success(account);
  }

  /**
   * deleteAccountById: removes a stored account and, by the cascade on its
   * transaction list, every transaction recorded against it.
   */
  method DeleteAccountById(bank: Bank, id: Uuid) returns (r: Outcome<Error>)
    requires bank.Valid()
    modifies bank
    ensures bank.Valid()
    ensures if id !in old(bank.accounts) then
              r == Fail(NotFound) && unchanged(bank)
            else
              r == Pass &&
              bank.accounts == old(bank.accounts) - {id} &&
              bank.transactions == WithoutAccount(old(bank.transactions), id)
    ensures id !in bank.accounts && ByAccount(bank.transactions, id) == []
    ensures forall other :: other != id ==> ByAccount(bank.transactions, other) == ByAccount(old(bank.transactions), other)
  {
    if id !in bank.accounts {
      ByAccountOfUnknown(bank.accounts, bank.transactions, id);
      return Fail(NotFound);
    }
    CloseKeepsConsistent(bank.accounts, bank.transactions, id);
    WithoutAccountMembers(bank.transactions, id);
    forall other | other != id
      ensures ByAccount(WithoutAccount(bank.transactions, id), other) == ByAccount(bank.transactions, other)
    {
      WithoutAccountKeepsOthers(bank.transactions, id, other);
    }
    bank.accounts := bank.accounts - {id};
    bank.transactions := WithoutAccount(bank.transactions, id);
    r := Pass;
  }
}
