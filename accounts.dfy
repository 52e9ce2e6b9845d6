/** The customer accounts: a singly linked list with new accounts at the head
    (newbank.c, `accountList`, `addAccount`, `findAccount`, `deleteAccount`). */
module Accounts {

  /** An account record. `dateCreated` is the creation date the source reads
      from the clock; here the caller supplies it. */
  datatype Account = Account(
    accountNo: int,
    name: string,
    balance: real,
    address: string,
    phoneNumber: string,
    email: string,
    dateCreated: string)

  /** Position of the first account in list order with this number, or -1;
      `IndexOfFirst` says that it is the first. */
  function IndexOf(accounts: seq<Account>, accountNo: int): (i: int)
    ensures -1 <= i < |accounts|
    ensures 0 <= i ==> accounts[i].accountNo == accountNo
  {
    IndexFrom(accounts, accountNo, 0)
  }

  /** The scan of `IndexOf` from position `k` on. */
  function IndexFrom(accounts: seq<Account>, accountNo: int, k: nat): (i: int)
    requires k <= |accounts|
    ensures i == -1 || (k <= i < |accounts| && accounts[i].accountNo == accountNo)
    decreases |accounts| - k
  {
    if k == |accounts| then -1
    else if accounts[k].accountNo == accountNo then k
    else IndexFrom(accounts, accountNo, k + 1)
  }

  /** From position `k` on, the scan finds nothing exactly when no account
      there has the number, and it skips only accounts without it. */
  lemma {:induction false} IndexFromFirst(accounts: seq<Account>, accountNo: int, k: nat)
    requires k <= |accounts|
    ensures IndexFrom(accounts, accountNo, k) == -1 <==>
              forall j :: k <= j < |accounts| ==> accounts[j].accountNo != accountNo
    ensures forall j :: k <= j < IndexFrom(accounts, accountNo, k) ==> accounts[j].accountNo != accountNo
    decreases |accounts| - k
  {
    if k < |accounts| && accounts[k].accountNo != accountNo {
      IndexFromFirst(accounts, accountNo, k + 1);
    }
  }

  /** `IndexOf` is -1 exactly when no account has the number, and otherwise
      no account before the one it finds has it. */
  lemma IndexOfFirst(accounts: seq<Account>, accountNo: int)
    ensures IndexOf(accounts, accountNo) == -1 <==>
              forall j :: 0 <= j < |accounts| ==> accounts[j].accountNo != accountNo
    ensures forall j :: 0 <= j < IndexOf(accounts, accountNo) ==> accounts[j].accountNo != accountNo
  {
    IndexFromFirst(accounts, accountNo, 0);
  }

  /** A scan that stops at position `k`, having passed only other numbers,
      has found the position `IndexOf` gives. */
  lemma IndexOfAt(accounts: seq<Account>, accountNo: int, k: int)
    requires 0 <= k < |accounts| && accounts[k].accountNo == accountNo
    requires forall j :: 0 <= j < k ==> accounts[j].accountNo != accountNo
    ensures IndexOf(accounts, accountNo) == k
  {
    IndexOfFirst(accounts, accountNo);
  }

  /** A scan that runs off the end, having passed only other numbers, agrees
      with `IndexOf` that the number is absent. */
  lemma IndexOfNone(accounts: seq<Account>, accountNo: int)
    requires forall j :: 0 <= j < |accounts| ==> accounts[j].accountNo != accountNo
    ensures IndexOf(accounts, accountNo) == -1
  {
    IndexOfFirst(accounts, accountNo);
  }

  /** No two accounts share a number. */
  ghost predicate UniqueNumbers(accounts: seq<Account>) {
    forall i, j :: 0 <= i < j < |accounts| ==> accounts[i].accountNo != accounts[j].accountNo
  }

  /** The list with the node at position `i` unlinked. */
  function Without(accounts: seq<Account>, i: int): (r: seq<Account>)
    requires 0 <= i < |accounts|
    ensures |r| == |accounts| - 1
    ensures forall k :: 0 <= k < i ==> r[k] == accounts[k]
    ensures forall k :: i <= k < |r| ==> r[k] == accounts[k + 1]
  {
    accounts[..i] + accounts[i + 1..]
  }

  /** Unlinking the match of a list with unique numbers leaves no account
      with that number and keeps the numbers unique. */
  lemma WithoutMatch(accounts: seq<Account>, accountNo: int)
    requires UniqueNumbers(accounts) && IndexOf(accounts, accountNo) != -1
    ensures IndexOf(Without(accounts, IndexOf(accounts, accountNo)), accountNo) == -1
    ensures UniqueNumbers(Without(accounts, IndexOf(accounts, accountNo)))
  {
    var i := IndexOf(accounts, accountNo);
    var r := Without(accounts, i);
    IndexOfFirst(r, accountNo);
    forall k | 0 <= k < |r|
      ensures r[k].accountNo != accountNo
    {
      if k >= i {
        assert r[k] == accounts[k + 1];
      }
    }
  }

  /** Two lists hold accounts with the same numbers in the same positions. */
  ghost predicate SameNumbers(a: seq<Account>, b: seq<Account>) {
    |a| == |b| && forall k :: 0 <= k < |a| ==> a[k].accountNo == b[k].accountNo
  }

  /** Lists that agree on numbers resolve every number to the same position. */
  lemma SameNumbersIndexOf(a: seq<Account>, b: seq<Account>, accountNo: int)
    requires SameNumbers(a, b)
    ensures IndexOf(a, accountNo) == IndexOf(b, accountNo)
  {
    SameNumbersIndexFrom(a, b, accountNo, 0);
  }

  lemma {:induction false} SameNumbersIndexFrom(a: seq<Account>, b: seq<Account>, accountNo: int, k: nat)
    requires SameNumbers(a, b) && k <= |a|
    ensures IndexFrom(a, accountNo, k) == IndexFrom(b, accountNo, k)
    decreases |a| - k
  {
    if k < |a| && a[k].accountNo != accountNo {
      SameNumbersIndexFrom(a, b, accountNo, k + 1);
    }
  }

  /** The list `accountList`; `accounts[0]` is the head node. */
  class AccountDirectory {
    var accounts: seq<Account>

    constructor ()
      ensures accounts == []
    {
      accounts := [];
    }

    /** `addAccount`: scans the list for the number; a new number goes at the head. */
    method AddAccount(accountNo: int, name: string, balance: real, address: string,
                      phone: string, email: string, dateCreated: string) returns (added: bool)
      modifies this
      ensures added <==> IndexOf(old(accounts), accountNo) == -1
      ensures added ==> accounts == [Account(accountNo, name, balance, address, phone, email, dateCreated)] + old(accounts)
      ensures !added ==> accounts == old(accounts)
      ensures UniqueNumbers(old(accounts)) ==> UniqueNumbers(accounts)
    {
      var k := 0;
      while k < |accounts|
        invariant 0 <= k <= |accounts|
        invariant forall j :: 0 <= j < k ==> accounts[j].accountNo != accountNo
      {
        if accounts[k].accountNo == accountNo {
          IndexOfAt(accounts, accountNo, k);
          return false;
        }
        k := k + 1;
      }
      IndexOfNone(accounts, accountNo);
      accounts := [Account(accountNo, name, balance, address, phone, email, dateCreated)] + accounts;
      added := true;
    }

    /** `findAccount`: the position of the first node with the number, where
        the source returns a pointer into it; -1 stands for `NULL`. */
    method FindAccount(accountNo: int) returns (i: int)
      ensures i == IndexOf(accounts, accountNo)
    {
      i := 0;
      while i < |accounts|
        invariant 0 <= i <= |accounts|
        invariant forall j :: 0 <= j < i ==> accounts[j].accountNo != accountNo
      {
        if accounts[i].accountNo == accountNo {
          IndexOfAt(accounts, accountNo, i);
          return;
        }
        i := i + 1;
      }
      IndexOfNone(accounts, accountNo);
      i := -1;
    }

    /** `account->balance = b` through the pointer `findAccount` returned. */
    method SetBalance(i: int, balance: real)
      requires 0 <= i < |accounts|
      modifies this
      ensures accounts == old(accounts)[i := old(accounts)[i].(balance := balance)]
    {
      accounts := accounts[i := accounts[i].(balance := balance)];
    }

    /** `deleteAccount`: unlinks the first node with the number, the head
        separately from the rest, and keeps the order of the others. */
    method DeleteAccount(accountNo: int) returns (deleted: bool)
      modifies this
      ensures deleted <==> IndexOf(old(accounts), accountNo) != -1
      ensures deleted ==> accounts == Without(old(accounts), IndexOf(old(accounts), accountNo))
      ensures !deleted ==> accounts == old(accounts)
      ensures UniqueNumbers(old(accounts)) ==> UniqueNumbers(accounts)
      ensures UniqueNumbers(old(accounts)) ==> IndexOf(accounts, accountNo) == -1
    {
      if accounts == [] {
        IndexOfNone(accounts, accountNo);
        return false;
      }
      if accounts[0].accountNo == accountNo {
        IndexOfAt(accounts, accountNo, 0);
        accounts := accounts[1..];
        assert accounts == Without(old(accounts), 0);
        if UniqueNumbers(old(accounts)) {
          WithoutMatch(old(accounts), accountNo);
        }
        return true;
      }
      var current := 1;
      while current < |accounts| && accounts[current].accountNo != accountNo
        invariant 1 <= current <= |accounts|
        invariant forall j :: 0 <= j < current ==> accounts[j].accountNo != accountNo
      {
        current := current + 1;
      }
      if current == |accounts| {
        IndexOfNone(accounts, accountNo);
        return false;
      }
      IndexOfAt(accounts, accountNo, current);
      accounts := Without(accounts, current);
      if UniqueNumbers(old(accounts)) {
        WithoutMatch(old(accounts), accountNo);
      }
      deleted := true;
    }
  }
}
