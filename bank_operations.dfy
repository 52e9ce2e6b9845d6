/** The balance operations as the source performs them: on the account list
    and the transaction stack in place (newbank.c, `deposit`, `withdraw`,
    `transfer`, `undoLastTransaction`). Each method is proved to leave exactly
    the books that the matching function of `Banking` describes. */
module BankOperations {
  import opened Accounts
  import opened TransactionLedger
  import opened Banking

  /** The books kept by a directory and a ledger. */
  ghost function Snapshot(directory: AccountDirectory, ledger: Ledger): Books
    reads directory, ledger
  {
    Books(directory.accounts, ledger.entries)
  }

  /** `deposit` on the account list and the transaction stack. */
  method Deposit(directory: AccountDirectory, ledger: Ledger, accountNo: int, amount: real,
                 draw: nat, date: string, time: string) returns (ok: bool)
    modifies directory, ledger
    ensures Outcome(Snapshot(directory, ledger), ok)
            == AfterDeposit(old(Snapshot(directory, ledger)), accountNo, amount, draw, date, time)
  {
    var account := directory.FindAccount(accountNo);
    if account == -1 {
      return false;
    }
    directory.SetBalance(account, directory.accounts[account].balance + amount);
    ledger.Push(Transaction(TransactionId(draw), accountNo, Deposited, amount, date, time));
    ok := true;
  }

  /** `withdraw` on the account list and the transaction stack. */
  method Withdraw(directory: AccountDirectory, ledger: Ledger, accountNo: int, amount: real,
                  draw: nat, date: string, time: string) returns (ok: bool)
    modifies directory, ledger
    ensures Outcome(Snapshot(directory, ledger), ok)
            == AfterWithdraw(old(Snapshot(directory, ledger)), accountNo, amount, draw, date, time)
  {
    var account := directory.FindAccount(accountNo);
    if account == -1 || directory.accounts[account].balance < amount {
      return false;
    }
    directory.SetBalance(account, directory.accounts[account].balance - amount);
    ledger.Push(Transaction(TransactionId(draw), accountNo, Withdrawn, amount, date, time));
    ok := true;
  }

  /** `transfer` on the account list and the transaction stack; the two
      balance updates go through positions that coincide when the accounts do. */
  method Transfer(directory: AccountDirectory, ledger: Ledger, fromAccountNo: int, toAccountNo: int,
                  amount: real, draw1: nat, draw2: nat, date: string, time: string) returns (ok: bool)
    modifies directory, ledger
    ensures Outcome(Snapshot(directory, ledger), ok)
            == AfterTransfer(old(Snapshot(directory, ledger)), fromAccountNo, toAccountNo, amount, draw1, draw2, date, time)
  {
    var fromAccount := directory.FindAccount(fromAccountNo);
    var toAccount := directory.FindAccount(toAccountNo);
    if fromAccount == -1 || toAccount == -1 || directory.accounts[fromAccount].balance < amount {
      return false;
    }
    directory.SetBalance(fromAccount, directory.accounts[fromAccount].balance - amount);
    directory.SetBalance(toAccount, directory.accounts[toAccount].balance + amount);
    var transaction := Transaction(TransactionId(draw1), fromAccountNo, TransferTo(toAccountNo), amount, date, time);
    ledger.Push(transaction);
    transaction := transaction.(accountNo := toAccountNo, kind := ReceiveFrom(fromAccountNo), transactionId := TransactionId(draw2));
    ledger.Push(transaction);
    ok := true;
  }

  /** `undoLastTransaction` on the account list and the transaction stack. */
  method UndoLastTransaction(directory: AccountDirectory, ledger: Ledger) returns (ok: bool)
    modifies directory, ledger
    ensures Outcome(Snapshot(directory, ledger), ok) == AfterUndo(old(Snapshot(directory, ledger)))
  {
    if ledger.entries == [] {
      return false;
    }
    var lastTrans := ledger.Pop();
    var account := directory.FindAccount(lastTrans.accountNo);
    if account == -1 {
      return false;
    }
    match lastTrans.kind {
      case Deposited =>
        directory.SetBalance(account, directory.accounts[account].balance - lastTrans.amount);
      case Withdrawn =>
        directory.SetBalance(account, directory.accounts[account].balance + lastTrans.amount);
      case TransferTo(toAccountNo) =>
        var toAccount := directory.FindAccount(toAccountNo);
        if toAccount != -1 {
          directory.SetBalance(account, directory.accounts[account].balance + lastTrans.amount);
          directory.SetBalance(toAccount, directory.accounts[toAccount].balance - lastTrans.amount);
          var _ := ledger.Pop();
        }
      case ReceiveFrom(fromAccountNo) =>
        var fromAccount := directory.FindAccount(fromAccountNo);
        if fromAccount != -1 {
          directory.SetBalance(account, directory.accounts[account].balance - lastTrans.amount);
          directory.SetBalance(fromAccount, directory.accounts[fromAccount].balance + lastTrans.amount);
          var _ := ledger.Pop();
        }
      case Unrecognised =>
    }
    ok := true;
  }
}
