/**
 * The two repositories as one in-memory state: the account store, keyed by
 * id, and the transaction store, in insertion order.
 */
module Store {
  import opened AccountTypes
  import opened Entities
  import opened Sequences

  /** findByAccountId: the account's transactions, in store order. */
  function ByAccount(ts: seq<AccountTransaction>, id: Uuid): seq<AccountTransaction>
  {
    Filter(ts, (t: AccountTransaction) => t.accountId == id)
  }

  /** The transaction store once the cascade has removed an account's rows. */
  function WithoutAccount(ts: seq<AccountTransaction>, id: Uuid): seq<AccountTransaction>
  {
    Filter(ts, (t: AccountTransaction) => t.accountId != id)
  }

  /** existsByIdentityNoAndAccountType. */
  predicate HolderExists(accounts: map<Uuid, Account>, identityNo: int, accountType: AccountType)
  {
    exists id :: id in accounts && accounts[id].identityNo == identityNo && accounts[id].accountType == accountType
  }

  /** No stored transaction already carries this id. */
  predicate FreshTransactionId(ts: seq<AccountTransaction>, id: Uuid)
  {
    forall i :: 0 <= i < |ts| ==> ts[i].id != id
  }

  /** Every account is stored under its own id. */
  ghost predicate KeyedById(accounts: map<Uuid, Account>)
  {
    forall id :: id in accounts ==> accounts[id].id == id
  }

  /** Column precision: balances lie between 0 and the ceiling. */
  ghost predicate BalancesInRange(accounts: map<Uuid, Account>)
  {
    forall id :: id in accounts ==> 0 <= accounts[id].balance <= MAX_ACCOUNT_BALANCE
  }

  /** The unique constraint on (identity_no, account_type). */
  ghost predicate UniqueHolders(accounts: map<Uuid, Account>)
  {
    forall a, b :: a in accounts && b in accounts && a != b ==>
      accounts[a].identityNo != accounts[b].identityNo || accounts[a].accountType != accounts[b].accountType
  }

  /** The non-null foreign key from a transaction to its account. */
  ghost predicate OwnersExist(accounts: map<Uuid, Account>, ts: seq<AccountTransaction>)
  {
    forall i :: 0 <= i < |ts| ==> ts[i].accountId in accounts
  }

  /** Transaction ids are unique. */
  ghost predicate DistinctIds(ts: seq<AccountTransaction>)
  {
    forall i, j :: 0 <= i < j < |ts| ==> ts[i].id != ts[j].id
  }

  /** Every recorded amount is at least 0.01. */
  ghost predicate AmountsPositive(ts: seq<AccountTransaction>)
  {
    forall i :: 0 <= i < |ts| ==> ts[i].amount >= MIN_TRANSACTION_AMOUNT
  }

  /** Each balance is the net of its account's recorded deposits and withdrawals. */
  ghost predicate LedgerBalanced(accounts: map<Uuid, Account>, ts: seq<AccountTransaction>)
  {
    forall id :: id in accounts ==> accounts[id].balance == Net(ByAccount(ts, id))
  }

  /** The invariant the services keep over the two stores. */
  ghost predicate Consistent(accounts: map<Uuid, Account>, ts: seq<AccountTransaction>)
  {
    && KeyedById(accounts)
    && BalancesInRange(accounts)
    && UniqueHolders(accounts)
    && OwnersExist(accounts, ts)
    && DistinctIds(ts)
    && AmountsPositive(ts)
    && LedgerBalanced(accounts, ts)
  }

  /** The account and transaction repositories. */
  class Bank {
    var accounts: map<Uuid, Account>
    var transactions: seq<AccountTransaction>

    ghost predicate Valid()
      reads this
    {
      Consistent(accounts, transactions)
    }

    /** Both stores start empty. */
    constructor ()
      ensures Valid()
      ensures accounts == map[] && transactions == []
    {
      accounts := map[];
      transactions := [];
    }
  }

  /** findByAccountId returns exactly the account's transactions. */
  lemma ByAccountMembers(ts: seq<AccountTransaction>, id: Uuid)
    ensures forall t :: t in ByAccount(ts, id) <==> t in ts && t.accountId == id
    ensures IsSubsequence(ByAccount(ts, id), ts)
  {
    FilterMembers(ts, (t: AccountTransaction) => t.accountId == id);
    FilterIsSubsequence(ts, (t: AccountTransaction) => t.accountId == id);
  }

  /** An account with no stored row has no transactions. */
  lemma {:induction false} ByAccountOfUnknown(accounts: map<Uuid, Account>, ts: seq<AccountTransaction>, id: Uuid)
    requires OwnersExist(accounts, ts)
    requires id !in accounts
    ensures ByAccount(ts, id) == []
  {
    if ts != [] {
      assert OwnersExist(accounts, ts[1..]) by {
        assert forall i :: 0 <= i < |ts| - 1 ==> ts[1..][i] == ts[i + 1];
      }
      ByAccountOfUnknown(accounts, ts[1..], id);
      assert ts[0].accountId in accounts;
    }
  }

  /** Appending a record extends its own account's history and no other. */
  lemma ByAccountAppend(ts: seq<AccountTransaction>, t: AccountTransaction, id: Uuid)
    ensures ByAccount(ts + [t], id) == ByAccount(ts, id) + (if t.accountId == id then [t] else [])
  {
    FilterAppend(ts, [t], (t: AccountTransaction) => t.accountId == id);
    assert [t][1..] == [];
  }

  /** The cascade leaves every other account's history as it was. */
  lemma {:induction false} WithoutAccountKeepsOthers(ts: seq<AccountTransaction>, id: Uuid, other: Uuid)
    requires other != id
    ensures ByAccount(WithoutAccount(ts, id), other) == ByAccount(ts, other)
  {
    if ts != [] {
      WithoutAccountKeepsOthers(ts[1..], id, other);
      var head := if ts[0].accountId != id then [ts[0]] else [];
      assert WithoutAccount(ts, id) == head + WithoutAccount(ts[1..], id);
      FilterAppend(head, WithoutAccount(ts[1..], id), (t: AccountTransaction) => t.accountId == other);
    }
  }

  /** The cascade removes every row of the deleted account, and only those. */
  lemma WithoutAccountMembers(ts: seq<AccountTransaction>, id: Uuid)
    ensures forall t :: t in WithoutAccount(ts, id) <==> t in ts && t.accountId != id
    ensures ByAccount(WithoutAccount(ts, id), id) == []
  {
    var rest := WithoutAccount(ts, id);
    FilterMembers(ts, (t: AccountTransaction) => t.accountId != id);
    forall i | 0 <= i < |rest| ensures rest[i].accountId != id {
      assert rest[i] in rest;
    }
    FilterKeepsNone(rest, (t: AccountTransaction) => t.accountId == id);
  }

  /** Opening an account with a fresh id, a free holder pair and balance 0 keeps the invariant. */
  lemma OpenKeepsConsistent(accounts: map<Uuid, Account>, ts: seq<AccountTransaction>, account: Account)
    requires Consistent(accounts, ts)
    requires account.id !in accounts && account.balance == 0
    requires !HolderExists(accounts, account.identityNo, account.accountType)
    ensures Consistent(accounts[account.id := account], ts)
  {
    ByAccountOfUnknown(accounts, ts, account.id);
    var accounts' := accounts[account.id := account];
    forall a, b | a in accounts' && b in accounts' && a != b
      ensures accounts'[a].identityNo != accounts'[b].identityNo || accounts'[a].accountType != accounts'[b].accountType
    {
      if a == account.id {
        assert !(accounts[b].identityNo == account.identityNo && accounts[b].accountType == account.accountType);
      } else if b == account.id {
        assert !(accounts[a].identityNo == account.identityNo && accounts[a].accountType == account.accountType);
      }
    }
  }

  /** Changing only the names of a stored account keeps the invariant. */
  lemma RenameKeepsConsistent(accounts: map<Uuid, Account>, ts: seq<AccountTransaction>, id: Uuid, firstName: string, lastName: string)
    requires Consistent(accounts, ts)
    requires id in accounts
    ensures Consistent(accounts[id := accounts[id].(firstName := firstName, lastName := lastName)], ts)
  {
  }

  /**
   * Recording a transaction against a stored account, with the balance
   * moved by its signed amount and kept in range, keeps the invariant.
   */
  lemma {:induction false} RecordKeepsConsistent(accounts: map<Uuid, Account>, ts: seq<AccountTransaction>, t: AccountTransaction)
    requires Consistent(accounts, ts)
    requires t.accountId in accounts
    requires FreshTransactionId(ts, t.id) && t.amount >= MIN_TRANSACTION_AMOUNT
    requires 0 <= accounts[t.accountId].balance + SignedAmount(t) <= MAX_ACCOUNT_BALANCE
    ensures Consistent(accounts[t.accountId := accounts[t.accountId].(balance := accounts[t.accountId].balance + SignedAmount(t))], ts + [t])
  {
    var accounts' := accounts[t.accountId := accounts[t.accountId].(balance := accounts[t.accountId].balance + SignedAmount(t))];
    forall id | id in accounts' ensures accounts'[id].balance == Net(ByAccount(ts + [t], id)) {
      ByAccountAppend(ts, t, id);
      if id == t.accountId {
        NetAppend(ByAccount(ts, id), t);
      } else {
        assert ByAccount(ts, id) + [] == ByAccount(ts, id);
      }
    }
  }

  /** Deleting an account together with its transactions keeps the invariant. */
  lemma CloseKeepsConsistent(accounts: map<Uuid, Account>, ts: seq<AccountTransaction>, id: Uuid)
    requires Consistent(accounts, ts)
    ensures Consistent(accounts - {id}, WithoutAccount(ts, id))
  {
    var ts' := WithoutAccount(ts, id);
    WithoutAccountMembers(ts, id);
    FilterIsSubsequence(ts, (t: AccountTransaction) => t.accountId != id);
    SubsequenceKeepsDistinctIds(ts', ts);
    forall i | 0 <= i < |ts'| ensures ts'[i].accountId in accounts - {id} && ts'[i].amount >= MIN_TRANSACTION_AMOUNT {
      assert ts'[i] in ts';
      var j :| 0 <= j < |ts| && ts[j] == ts'[i];
    }
    forall other | other in accounts - {id} ensures (accounts - {id})[other].balance == Net(ByAccount(ts', other)) {
      WithoutAccountKeepsOthers(ts, id, other);
    }
  }

  /** A subsequence of a sequence with distinct ids has distinct ids. */
  lemma {:induction false} SubsequenceKeepsDistinctIds(r: seq<AccountTransaction>, s: seq<AccountTransaction>)
    requires IsSubsequence(r, s) && DistinctIds(s)
    ensures DistinctIds(r)
  {
    if r != [] && s != [] {
      assert DistinctIds(s[1..]) by {
        assert forall i :: 0 <= i < |s| - 1 ==> s[1..][i] == s[i + 1];
      }
      if r[0] == s[0] {
        SubsequenceKeepsDistinctIds(r[1..], s[1..]);
        SubsequenceMembers(r[1..], s[1..]);
        forall j | 0 < j < |r| ensures r[0].id != r[j].id {
          assert r[j] == r[1..][j - 1];
          assert r[j] in s[1..];
          var k :| 0 <= k < |s[1..]| && s[1..][k] == r[j];
          assert s[k + 1] == r[j];
        }
        forall i, j | 0 <= i < j < |r| ensures r[i].id != r[j].id {
          if i > 0 { assert r[i] == r[1..][i - 1] && r[j] == r[1..][j - 1]; }
        }
      } else {
        SubsequenceKeepsDistinctIds(r, s[1..]);
      }
    }
  }

  /** Every element of a subsequence occurs in the sequence. */
  lemma {:induction false} SubsequenceMembers<T>(r: seq<T>, s: seq<T>)
    requires IsSubsequence(r, s)
    ensures forall x :: x in r ==> x in s
  {
    if r != [] && s != [] {
      if r[0] == s[0] {
        SubsequenceMembers(r[1..], s[1..]);
        assert forall x :: x in r ==> x == r[0] || x in r[1..];
      } else {
        SubsequenceMembers(r, s[1..]);
      }
    }
  }
}
