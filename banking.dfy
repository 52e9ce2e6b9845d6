/** The balance operations and their undo (newbank.c, section 4: `deposit`,
    `withdraw`, `transfer`, `undoLastTransaction`), each as a function on the
    pair of account list and ledger, and the lemmas that relate them. The
    methods that update the account directory and the ledger in place the way
    the source does are in `BankOperations`, each proved to agree with its
    function here. */
module Banking {
  import opened Accounts
  import opened TransactionLedger

  /** The transaction id the source draws, `rand() % 10000 + 1000`, with the draw as input. */
  function TransactionId(draw: nat): (id: int)
    ensures 1000 <= id < 11000
  {
    draw % 10000 + 1000
  }

  /** The state the balance operations read and write. */
  datatype Books = Books(accounts: seq<Account>, ledger: seq<Transaction>)

  /** The state after an operation and the value it returns. */
  datatype Outcome = Outcome(books: Books, ok: bool)

  /** The sum of all balances. */
  function Total(accounts: seq<Account>): real {
    TotalFrom(accounts, 0)
  }

  /** The sum of the balances from position `k` on. */
  function TotalFrom(accounts: seq<Account>, k: nat): real
    requires k <= |accounts|
    decreases |accounts| - k
  {
    if k == |accounts| then 0.0 else accounts[k].balance + TotalFrom(accounts, k + 1)
  }

  /** `balance += delta` on the account at position `i`. */
  function Credit(accounts: seq<Account>, i: int, delta: real): (r: seq<Account>)
    requires 0 <= i < |accounts|
    ensures SameNumbers(r, accounts)
    ensures r[i] == accounts[i].(balance := accounts[i].balance + delta)
    ensures forall k :: 0 <= k < |r| && k != i ==> r[k] == accounts[k]
  {
    accounts[i := accounts[i].(balance := accounts[i].balance + delta)]
  }

  /** Changing one balance by `delta` changes the total by `delta`. */
  lemma TotalCredit(accounts: seq<Account>, i: int, delta: real)
    requires 0 <= i < |accounts|
    ensures Total(Credit(accounts, i, delta)) == Total(accounts) + delta
  {
    TotalFromCredit(accounts, i, delta, 0);
  }

  lemma {:induction false} TotalFromCredit(accounts: seq<Account>, i: int, delta: real, k: nat)
    requires 0 <= i < |accounts| && k <= |accounts|
    ensures TotalFrom(Credit(accounts, i, delta), k) == TotalFrom(accounts, k) + (if k <= i then delta else 0.0)
    decreases |accounts| - k
  {
    if k < |accounts| {
      TotalFromCredit(accounts, i, delta, k + 1);
    }
  }

  /** `first->balance += delta; second->balance -= delta` through two
      pointers that may point to the same account. */
  function Shift(accounts: seq<Account>, first: int, delta: real, second: int): (r: seq<Account>)
    requires 0 <= first < |accounts| && 0 <= second < |accounts|
    ensures SameNumbers(r, accounts)
    ensures first == second ==> r == accounts
    ensures first != second ==> r[first].balance == accounts[first].balance + delta
                                && r[second].balance == accounts[second].balance - delta
    ensures forall k :: 0 <= k < |r| && k != first && k != second ==> r[k] == accounts[k]
  {
    var credited := Credit(accounts, first, delta);
    assert first == second ==> Credit(credited, second, -delta) == accounts;
    Credit(credited, second, -delta)
  }

  /** A shift moves money between accounts and keeps the total. */
  lemma ShiftTotal(accounts: seq<Account>, first: int, delta: real, second: int)
    requires 0 <= first < |accounts| && 0 <= second < |accounts|
    ensures Total(Shift(accounts, first, delta, second)) == Total(accounts)
  {
    TotalCredit(accounts, first, delta);
    TotalCredit(Credit(accounts, first, delta), second, -delta);
  }

  /** Shifting an amount one way and then back restores the list. */
  lemma ShiftBack(accounts: seq<Account>, first: int, delta: real, second: int)
    requires 0 <= first < |accounts| && 0 <= second < |accounts|
    ensures Shift(Shift(accounts, first, delta, second), second, delta, first) == accounts
  {
    var there := Shift(accounts, first, delta, second);
    var back := Shift(there, second, delta, first);
    assert back == accounts;
  }

  /** `deposit`: fails only for an unknown account; otherwise credits it and
      pushes a deposit record. */
  function AfterDeposit(b: Books, accountNo: int, amount: real, draw: nat, date: string, time: string): (r: Outcome)
    ensures r.ok <==> IndexOf(b.accounts, accountNo) != -1
    ensures !r.ok ==> r.books == b
    ensures SameNumbers(r.books.accounts, b.accounts)
    ensures r.ok ==> r.books.ledger == [Transaction(TransactionId(draw), accountNo, Deposited, amount, date, time)] + b.ledger
    ensures r.ok ==> var i := IndexOf(b.accounts, accountNo);
      && r.books.accounts[i] == b.accounts[i].(balance := b.accounts[i].balance + amount)
      && forall k :: 0 <= k < |b.accounts| && k != i ==> r.books.accounts[k] == b.accounts[k]
  {
    var i := IndexOf(b.accounts, accountNo);
    if i == -1 then Outcome(b, false)
    else
      Outcome(Books(Credit(b.accounts, i, amount),
                    [Transaction(TransactionId(draw), accountNo, Deposited, amount, date, time)] + b.ledger),
              true)
  }

  /** `withdraw`: fails for an unknown account or a balance below the amount;
      otherwise debits it and pushes a withdraw record. */
  function AfterWithdraw(b: Books, accountNo: int, amount: real, draw: nat, date: string, time: string): (r: Outcome)
    ensures r.ok <==> IndexOf(b.accounts, accountNo) != -1 && b.accounts[IndexOf(b.accounts, accountNo)].balance >= amount
    ensures !r.ok ==> r.books == b
    ensures SameNumbers(r.books.accounts, b.accounts)
    ensures r.ok ==> r.books.ledger == [Transaction(TransactionId(draw), accountNo, Withdrawn, amount, date, time)] + b.ledger
    ensures r.ok ==> var i := IndexOf(b.accounts, accountNo);
      && r.books.accounts[i] == b.accounts[i].(balance := b.accounts[i].balance - amount)
      && r.books.accounts[i].balance >= 0.0
      && forall k :: 0 <= k < |b.accounts| && k != i ==> r.books.accounts[k] == b.accounts[k]
  {
    var i := IndexOf(b.accounts, accountNo);
    if i == -1 || b.accounts[i].balance < amount then Outcome(b, false)
    else
      Outcome(Books(Credit(b.accounts, i, -amount),
                    [Transaction(TransactionId(draw), accountNo, Withdrawn, amount, date, time)] + b.ledger),
              true)
  }

  /** `transfer`: fails unless both accounts exist and the sender's balance
      covers the amount; otherwise moves the amount and pushes the sender's
      "transfer to" record, then the receiver's "receive from" record on top. */
  function AfterTransfer(b: Books, fromAccountNo: int, toAccountNo: int, amount: real,
                         draw1: nat, draw2: nat, date: string, time: string): (r: Outcome)
    ensures r.ok <==> && IndexOf(b.accounts, fromAccountNo) != -1 && IndexOf(b.accounts, toAccountNo) != -1
                      && b.accounts[IndexOf(b.accounts, fromAccountNo)].balance >= amount
    ensures !r.ok ==> r.books == b
    ensures SameNumbers(r.books.accounts, b.accounts)
    ensures r.ok ==>
      r.books.ledger ==
        [Transaction(TransactionId(draw2), toAccountNo, ReceiveFrom(fromAccountNo), amount, date, time),
         Transaction(TransactionId(draw1), fromAccountNo, TransferTo(toAccountNo), amount, date, time)] + b.ledger
    ensures r.ok && fromAccountNo == toAccountNo ==> r.books.accounts == b.accounts
    ensures r.ok && fromAccountNo != toAccountNo ==>
      var i, j := IndexOf(b.accounts, fromAccountNo), IndexOf(b.accounts, toAccountNo);
      && r.books.accounts[i] == b.accounts[i].(balance := b.accounts[i].balance - amount)
      && r.books.accounts[j] == b.accounts[j].(balance := b.accounts[j].balance + amount)
    ensures forall k ::
      0 <= k < |b.accounts| && k != IndexOf(b.accounts, fromAccountNo) && k != IndexOf(b.accounts, toAccountNo)
      ==> r.books.accounts[k] == b.accounts[k]
  {
    var i := IndexOf(b.accounts, fromAccountNo);
    var j := IndexOf(b.accounts, toAccountNo);
    if i == -1 || j == -1 || b.accounts[i].balance < amount then Outcome(b, false)
    else
      var sent := Transaction(TransactionId(draw1), fromAccountNo, TransferTo(toAccountNo), amount, date, time);
      var received := Transaction(TransactionId(draw2), toAccountNo, ReceiveFrom(fromAccountNo), amount, date, time);
      Outcome(Books(Shift(b.accounts, i, -amount, j), [received, sent] + b.ledger), true)
  }

  /** What the second `popTransaction` of a transfer undo leaves of the ledger. */
  function PopRest(ledger: seq<Transaction>): (r: seq<Transaction>)
    ensures ledger == [] ==> r == []
    ensures ledger != [] ==> r == ledger[1..]
  {
    if ledger == [] then [] else ledger[1..]
  }

  /** The balances after reversing a record, and whether the undo pops the next record too. */
  datatype Reversed = Reversed(accounts: seq<Account>, popsNext: bool)

  /** The balances after reversing a record of kind `kind` and amount
      `amount` of the account at position `i`, and whether the next record is
      popped as well: only a transfer leg whose peer account exists does both. */
  function Reversal(accounts: seq<Account>, kind: TxKind, amount: real, i: int): (r: Reversed)
    requires 0 <= i < |accounts|
    ensures SameNumbers(r.accounts, accounts)
    ensures forall k :: 0 <= k < |accounts| ==> r.accounts[k] == accounts[k].(balance := r.accounts[k].balance)
    ensures r.popsNext <==> (kind.TransferTo? || kind.ReceiveFrom?) && IndexOf(accounts, kind.peer) != -1
  {
    match kind
    case Deposited => Reversed(Credit(accounts, i, -amount), false)
    case Withdrawn => Reversed(Credit(accounts, i, amount), false)
    case TransferTo(peer) =>
      var j := IndexOf(accounts, peer);
      if j == -1 then Reversed(accounts, false) else Reversed(Shift(accounts, i, amount, j), true)
    case ReceiveFrom(peer) =>
      var j := IndexOf(accounts, peer);
      if j == -1 then Reversed(accounts, false) else Reversed(Shift(accounts, i, -amount, j), true)
    case Unrecognised => Reversed(accounts, false)
  }

  /** What reversing each kind of record does to the balances: a deposit is
      taken off and a withdrawal put back on the record's account; a transfer
      leg whose peer exists moves the amount back between the two accounts;
      anything else changes nothing. */
  lemma ReversalBalances(accounts: seq<Account>, kind: TxKind, amount: real, i: int)
    requires 0 <= i < |accounts|
    ensures var r := Reversal(accounts, kind, amount, i).accounts;
      kind.Deposited? ==> r == Credit(accounts, i, -amount) && r[i].balance == accounts[i].balance - amount
    ensures var r := Reversal(accounts, kind, amount, i).accounts;
      kind.Withdrawn? ==> r == Credit(accounts, i, amount) && r[i].balance == accounts[i].balance + amount
    ensures var r := Reversal(accounts, kind, amount, i).accounts;
      (kind.Unrecognised? || ((kind.TransferTo? || kind.ReceiveFrom?) && IndexOf(accounts, kind.peer) == -1))
      ==> r == accounts
    ensures (kind.TransferTo? || kind.ReceiveFrom?) && IndexOf(accounts, kind.peer) != -1 ==>
      var r := Reversal(accounts, kind, amount, i).accounts;
      var j, delta := IndexOf(accounts, kind.peer), if kind.TransferTo? then amount else -amount;
      && r == Shift(accounts, i, delta, j)
      && (j != i ==> r[i].balance == accounts[i].balance + delta && r[j].balance == accounts[j].balance - delta)
      && (j == i ==> r == accounts)
  {
  }

  /** `undoLastTransaction` as the source has it: an empty ledger fails with
      no change; otherwise the top record is popped first, and an unknown
      account then fails with only that pop done. Otherwise the record is
      reversed and the undo succeeds; a transfer leg whose peer exists pops
      the next record as well, whatever it is. */
  function AfterUndo(b: Books): (r: Outcome)
    ensures r.ok <==> b.ledger != [] && IndexOf(b.accounts, b.ledger[0].accountNo) != -1
    ensures b.ledger == [] ==> r.books == b
    ensures !r.ok ==> r.books.accounts == b.accounts
    ensures SameNumbers(r.books.accounts, b.accounts)
    ensures b.ledger != [] ==>
      r.books.ledger == b.ledger[1..] || (|b.ledger| >= 2 && r.books.ledger == b.ledger[2..])
    ensures b.ledger != [] && !r.ok ==> r.books.ledger == b.ledger[1..]
    ensures b.ledger != [] && !(b.ledger[0].kind.TransferTo? || b.ledger[0].kind.ReceiveFrom?) ==>
      r.books.ledger == b.ledger[1..]
    ensures r.ok && (b.ledger[0].kind.TransferTo? || b.ledger[0].kind.ReceiveFrom?) ==>
      if IndexOf(b.accounts, b.ledger[0].kind.peer) == -1 then r.books.ledger == b.ledger[1..]
      else if |b.ledger| >= 2 then r.books.ledger == b.ledger[2..]
      else r.books.ledger == []
  {
    if b.ledger == [] then Outcome(b, false)
    else
      var last, rest := b.ledger[0], b.ledger[1..];
      var i := IndexOf(b.accounts, last.accountNo);
      if i == -1 then Outcome(Books(b.accounts, rest), false)
      else
        var reversed := Reversal(b.accounts, last.kind, last.amount, i);
        Outcome(Books(reversed.accounts, if reversed.popsNext then PopRest(rest) else rest), true)
  }

  /** A deposit adds its amount to the total of the balances. */
  lemma DepositTotal(b: Books, accountNo: int, amount: real, draw: nat, date: string, time: string)
    requires AfterDeposit(b, accountNo, amount, draw, date, time).ok
    ensures Total(AfterDeposit(b, accountNo, amount, draw, date, time).books.accounts) == Total(b.accounts) + amount
  {
    TotalCredit(b.accounts, IndexOf(b.accounts, accountNo), amount);
  }

  /** A withdrawal takes its amount off the total of the balances. */
  lemma WithdrawTotal(b: Books, accountNo: int, amount: real, draw: nat, date: string, time: string)
    requires AfterWithdraw(b, accountNo, amount, draw, date, time).ok
    ensures Total(AfterWithdraw(b, accountNo, amount, draw, date, time).books.accounts) == Total(b.accounts) - amount
  {
    TotalCredit(b.accounts, IndexOf(b.accounts, accountNo), -amount);
  }

  /** A transfer, successful or not, keeps the total of the balances. */
  lemma TransferTotal(b: Books, fromAccountNo: int, toAccountNo: int, amount: real,
                      draw1: nat, draw2: nat, date: string, time: string)
    ensures Total(AfterTransfer(b, fromAccountNo, toAccountNo, amount, draw1, draw2, date, time).books.accounts)
            == Total(b.accounts)
  {
    var i := IndexOf(b.accounts, fromAccountNo);
    var j := IndexOf(b.accounts, toAccountNo);
    if i != -1 && j != -1 {
      ShiftTotal(b.accounts, i, -amount, j);
    }
  }

  /** Undoing either leg of a transfer keeps the total of the balances. */
  lemma UndoTransferLegTotal(b: Books)
    requires b.ledger != [] && (b.ledger[0].kind.TransferTo? || b.ledger[0].kind.ReceiveFrom?)
    ensures Total(AfterUndo(b).books.accounts) == Total(b.accounts)
  {
    var last := b.ledger[0];
    var i := IndexOf(b.accounts, last.accountNo);
    var j := IndexOf(b.accounts, last.kind.peer);
    if i != -1 && j != -1 {
      ShiftTotal(b.accounts, i, if last.kind.TransferTo? then last.amount else -last.amount, j);
    }
  }

  /** A deposit followed by an undo restores the balances and the ledger. */
  lemma UndoDeposit(b: Books, accountNo: int, amount: real, draw: nat, date: string, time: string)
    requires AfterDeposit(b, accountNo, amount, draw, date, time).ok
    ensures AfterUndo(AfterDeposit(b, accountNo, amount, draw, date, time).books) == Outcome(b, true)
  {
    var after := AfterDeposit(b, accountNo, amount, draw, date, time).books;
    var i := IndexOf(b.accounts, accountNo);
    SameNumbersIndexOf(after.accounts, b.accounts, accountNo);
    assert Credit(after.accounts, i, -amount) == b.accounts;
  }

  /** A withdrawal followed by an undo restores the balances and the ledger. */
  lemma UndoWithdraw(b: Books, accountNo: int, amount: real, draw: nat, date: string, time: string)
    requires AfterWithdraw(b, accountNo, amount, draw, date, time).ok
    ensures AfterUndo(AfterWithdraw(b, accountNo, amount, draw, date, time).books) == Outcome(b, true)
  {
    var after := AfterWithdraw(b, accountNo, amount, draw, date, time).books;
    var i := IndexOf(b.accounts, accountNo);
    SameNumbersIndexOf(after.accounts, b.accounts, accountNo);
    assert Credit(after.accounts, i, amount) == b.accounts;
  }

  /** A successful transfer's books, spelled out. */
  lemma TransferBooks(b: Books, fromAccountNo: int, toAccountNo: int, amount: real,
                      draw1: nat, draw2: nat, date: string, time: string)
    requires AfterTransfer(b, fromAccountNo, toAccountNo, amount, draw1, draw2, date, time).ok
    ensures var sent := Transaction(TransactionId(draw1), fromAccountNo, TransferTo(toAccountNo), amount, date, time);
      AfterTransfer(b, fromAccountNo, toAccountNo, amount, draw1, draw2, date, time).books
      == Books(Shift(b.accounts, IndexOf(b.accounts, fromAccountNo), -amount, IndexOf(b.accounts, toAccountNo)),
               [Transaction(TransactionId(draw2), toAccountNo, ReceiveFrom(fromAccountNo), amount, date, time)]
               + ([sent] + b.ledger))
  {
  }

  /** An undo whose top record belongs to a known account, spelled out. */
  lemma UndoTop(accounts: seq<Account>, last: Transaction, rest: seq<Transaction>)
    requires IndexOf(accounts, last.accountNo) != -1
    ensures var reversed := Reversal(accounts, last.kind, last.amount, IndexOf(accounts, last.accountNo));
      AfterUndo(Books(accounts, [last] + rest))
      == Outcome(Books(reversed.accounts, if reversed.popsNext then PopRest(rest) else rest), true)
  {
    assert ([last] + rest)[1..] == rest;
  }

  /** Reversing a "receive from" leg whose peer exists shifts the amount back. */
  lemma ReverseReceive(accounts: seq<Account>, kind: TxKind, amount: real, j: int, i: int)
    requires 0 <= j < |accounts| && kind.ReceiveFrom?
    requires IndexOf(accounts, kind.peer) == i && i != -1
    ensures Reversal(accounts, kind, amount, j).accounts == Shift(accounts, j, -amount, i)
    ensures Reversal(accounts, kind, amount, j).popsNext
  {
  }

  /** Undoing a "receive from" record on top of balances that its transfer
      shifted restores the balances and pops the record under it. */
  lemma UndoReceive(accounts: seq<Account>, i: int, j: int, received: Transaction, rest: seq<Transaction>)
    requires 0 <= i < |accounts| && 0 <= j < |accounts| && received.kind.ReceiveFrom?
    requires IndexOf(accounts, received.kind.peer) == i && IndexOf(accounts, received.accountNo) == j
    ensures AfterUndo(Books(Shift(accounts, i, -received.amount, j), [received] + rest))
            == Outcome(Books(accounts, PopRest(rest)), true)
  {
    var moved := Shift(accounts, i, -received.amount, j);
    SameNumbersIndexOf(moved, accounts, received.kind.peer);
    SameNumbersIndexOf(moved, accounts, received.accountNo);
    ShiftBack(accounts, i, -received.amount, j);
    assert Shift(moved, j, -received.amount, i) == accounts;
    ReverseReceive(moved, received.kind, received.amount, j, i);
    UndoTop(moved, received, rest);
  }

  /** A transfer followed by an undo pops the receiver's leg, restores both
      balances and removes both records. */
  lemma UndoTransfer(b: Books, fromAccountNo: int, toAccountNo: int, amount: real,
                     draw1: nat, draw2: nat, date: string, time: string)
    requires AfterTransfer(b, fromAccountNo, toAccountNo, amount, draw1, draw2, date, time).ok
    ensures AfterUndo(AfterTransfer(b, fromAccountNo, toAccountNo, amount, draw1, draw2, date, time).books)
            == Outcome(b, true)
  {
    var sent := Transaction(TransactionId(draw1), fromAccountNo, TransferTo(toAccountNo), amount, date, time);
    var received := Transaction(TransactionId(draw2), toAccountNo, ReceiveFrom(fromAccountNo), amount, date, time);
    TransferBooks(b, fromAccountNo, toAccountNo, amount, draw1, draw2, date, time);
    UndoReceive(b.accounts, IndexOf(b.accounts, fromAccountNo), IndexOf(b.accounts, toAccountNo), received, [sent] + b.ledger);
    assert PopRest([sent] + b.ledger) == b.ledger;
  }
}
