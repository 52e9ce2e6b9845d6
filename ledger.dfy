/** The transaction history: a LIFO stack of posted transactions, most recent
    on top (newbank.c, `transactionStack`, `pushTransaction`, `popTransaction`),
    and the replay that rebuilds the stack from its saved top-to-bottom image. */
module TransactionLedger {

  /** The `type` text of a record: "deposit", "withdraw", "transfer to <peer>"
      and "receive from <peer>". The transfer legs carry the peer account
      number that the source writes into the text and reads back from it.
      `Unrecognised` is any other text, the empty text of a zeroed record among them. */
  datatype TxKind = Deposited | Withdrawn | TransferTo(peer: int) | ReceiveFrom(peer: int) | Unrecognised

  datatype Transaction = Transaction(
    transactionId: int,
    accountNo: int,
    kind: TxKind,
    amount: real,
    date: string,
    time: string)

  /** The all-zero record `{0}` that a pop from an empty stack returns. */
  const ZeroTransaction := Transaction(0, 0, Unrecognised, 0.0, "", "")

  /** Records the replay reads back at most (`transactions[100]`). */
  const ReloadCapacity: nat := 100

  /** The stack `transactionStack`; `entries[0]` is the node the head points to. */
  class Ledger {
    var entries: seq<Transaction>

    constructor ()
      ensures entries == []
    {
      entries := [];
    }

    /** `pushTransaction`: the new record becomes the top. */
    method Push(transaction: Transaction)
      modifies this
      ensures entries == [transaction] + old(entries)
    {
      entries := [transaction] + entries;
    }

    /** `popTransaction`: removes and returns the top record; an empty stack
        yields the zeroed record and stays empty. */
    method Pop() returns (transaction: Transaction)
      modifies this
      ensures old(entries) == [] ==> transaction == ZeroTransaction && entries == []
      ensures old(entries) != [] ==> transaction == old(entries)[0] && entries == old(entries)[1..]
    {
      transaction := ZeroTransaction;
      if entries == [] {
        return;
      }
      transaction := entries[0];
      entries := entries[1..];
    }

    /** The part of `loadTransactionsFromFile` after the file is opened: frees
        the stack node by node, reads up to `ReloadCapacity` records of the
        saved image (written top to bottom) into a buffer, and pushes them back
        from the last one read to the first, which rebuilds the saved order. */
    method Reload(saved: seq<Transaction>)
      modifies this
      ensures |saved| <= ReloadCapacity ==> entries == saved
      ensures |saved| > ReloadCapacity ==> entries == saved[..ReloadCapacity]
    {
      while entries != []
        decreases |entries|
      {
        entries := entries[1..];
      }

      var buffer := new Transaction[ReloadCapacity](_ => ZeroTransaction);
      var count := 0;
      while count < |saved| && count < ReloadCapacity
        invariant 0 <= count <= |saved| && count <= ReloadCapacity
        invariant buffer[..count] == saved[..count] && entries == []
      {
        buffer[count] := saved[count];
        count := count + 1;
      }

      ghost var read := buffer[..count];
      var i := count - 1;
      while i >= 0
        modifies this
        invariant -1 <= i < count && entries == read[i + 1..]
      {
        assert read[i..] == [buffer[i]] + read[i + 1..];
        Push(buffer[i]);
        i := i - 1;
      }
      assert entries == saved[..count];
    }
  }

  /** The buffer slots that the `fread` loop of `loadTransactionsFromFile`
      fills from slot `count` on, for a file of `n` records, as the loop is
      written: each `fread` stores a record into slot `count` before
      `count < 100` is tested, so with a record left at `count == 100` the
      call still stores it, into slot 100 of the 100-slot buffer. */
  function SlotsWrittenAsWritten(n: nat, count: nat): (r: set<nat>)
    requires count <= ReloadCapacity
    ensures forall k :: k in r ==> count <= k < n && k <= ReloadCapacity
    decreases ReloadCapacity - count
  {
    if count >= n then {}
    else if count < ReloadCapacity then {count} + SlotsWrittenAsWritten(n, count + 1)
    else {count}
  }

  /** As written, the loop stores every record up to slot 100 inclusive. */
  lemma {:induction false} SlotsWrittenAsWrittenExact(n: nat, count: nat)
    requires count <= ReloadCapacity
    ensures forall k: nat :: count <= k < n && k <= ReloadCapacity ==> k in SlotsWrittenAsWritten(n, count)
    decreases ReloadCapacity - count
  {
    if count < n && count < ReloadCapacity {
      SlotsWrittenAsWrittenExact(n, count + 1);
    }
  }

  /** A file of more than 100 records makes the loop store slot 100, one
      past the end of `transactions[100]`. */
  lemma ReloadOverrun(n: nat)
    requires n > ReloadCapacity
    ensures ReloadCapacity in SlotsWrittenAsWritten(n, 0)
  {
    SlotsWrittenAsWrittenExact(n, 0);
  }

  /** `saveTransactionsToFile` writes the stack from the top down; a reload
      of that image rebuilds the stack, or its top `ReloadCapacity` records
      when it is deeper. */
  method SaveThenReload(ledger: Ledger)
    modifies ledger
    ensures |old(ledger.entries)| <= ReloadCapacity ==> ledger.entries == old(ledger.entries)
    ensures |old(ledger.entries)| > ReloadCapacity ==> ledger.entries == old(ledger.entries)[..ReloadCapacity]
  {
    var image := ledger.entries;
    ledger.Reload(image);
  }

  /** The stack law: a pop straight after a push returns the pushed record
      and leaves the stack as it was. */
  method PushThenPop(ledger: Ledger, transaction: Transaction) returns (popped: Transaction)
    modifies ledger
    ensures popped == transaction && ledger.entries == old(ledger.entries)
  {
    ledger.Push(transaction);
    popped := ledger.Pop();
  }
}
