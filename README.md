# newbank: a verified model of the banking core

`newbank.c` is a console banking system. This project models its in-memory
core in Dafny and proves properties of that model:

- the **branch network** is a table of at most 10 branches. Each branch has a
  list of directed, weighted connections. The shortest route between two
  branches is found with Dijkstra's algorithm over parallel
  `distance` / `previous` / `visited` arrays, and the route is rebuilt by
  following the predecessors back from the end;
- the **transaction ledger** is a LIFO stack of posted transactions. It can be
  rebuilt from its saved top-to-bottom image;
- the **balance operations** are deposit, withdraw and transfer. A transfer
  posts two records: the sender's "transfer to" and, on top of it, the
  receiver's "receive from". Undo reverses the top record, and for a transfer
  leg also pops the record beneath it;
- the **account directory** is a linked list with new accounts at the head:
  add, find, delete;
- the **service-request queue** is a singly linked FIFO with front and rear
  pointers;
- the **user table** holds at most 10 users: the two initial users, login,
  and adding users.

Files and modules:

| file | module | what it holds |
|---|---|---|
| `branches.dfy` | `Branches` | class `Graph` over an `array` of 10 slots |
| `shortest_path.dfy` | `ShortestPath` | the search, split into its loops; walks, routes and their lemmas |
| `ledger.dfy` | `TransactionLedger` | class `Ledger` |
| `accounts.dfy` | `Accounts` | class `AccountDirectory` |
| `banking.dfy` | `Banking` | each balance operation and undo as a function on the pair (accounts, ledger), plus the lemmas that relate them |
| `bank_operations.dfy` | `BankOperations` | the same operations as methods that update the directory and the ledger in place; each is proved to leave exactly the state its function gives |
| `service_queue.dfy` | `ServiceQueue` | real linked nodes with `front` and `rear`, described by a ghost list of nodes |
| `users.dfy` | `Users` | class `UserTable` over an `array` of 10 users |

Modelling choices:

- Amounts, balances and distances are `real`.
- The source's `FLT_MAX` sentinel is the `Infinite` value of `Dist`.
- A transaction's `type` text is a tagged value, `TxKind`. The transfer legs carry the peer account number as a field.
- `rand()` becomes a `draw` parameter.
- The clock becomes `date` and `time` parameters.
- Pointers into the account list are positions in a sequence, and `NULL` is -1.

## Model

| member | source | states |
|---|---|---|
| Branches.FindIndex | newbank.c:359-369 | -1 exactly when no branch has the id; otherwise the position of the first branch with it |
| Branches.Graph.AddBranch | newbank.c:342-357 | a full table is left unchanged; otherwise the branch is appended with no connections, and no other slot changes |
| Branches.Graph.FindBranchIndex | newbank.c:359-369 | the scan returns the first occupied slot with the id, or -1 (the position `FindIndex` defines) |
| Branches.Graph.AddConnection | newbank.c:371-386 | an unknown source leaves the table unchanged; otherwise only the source's list changes, gaining the new connection at its front; the target is not checked |
| ShortestPath.Initialise | newbank.c:404-411 | every branch starts unvisited, with no predecessor and an infinite distance, except the start at 0 |
| ShortestPath.SelectMin | newbank.c:417-429 | -1 exactly when every branch is visited or at infinite distance; otherwise an unvisited branch of least finite distance, the lowest index among equals |
| ShortestPath.Relax | newbank.c:434-448 | after the relaxation loop, each unvisited branch reached by a connection whose target resolves holds the smaller of its old distance and the relaxed one, and a lowered entry records the selected branch as predecessor |
| ShortestPath.SearchRound | newbank.c:414-449 | one round either finds no candidate (nothing changes, and every finitely labelled branch is visited) or selects an unvisited branch of least finite distance, strictly below every unvisited branch before it (the lowest index among equals), marks it visited, leaves the arrays as that branch's relaxation of the old ones, and keeps the search invariant with one more branch visited |
| ShortestPath.Search | newbank.c:414-449 | after at most one round per branch, every finitely labelled branch is visited, the labelling is closed under connections (and obeys the triangle inequality when no weight is negative), and the predecessors form chains back to the start |
| ShortestPath.FeasibleLowerBound | newbank.c:434-448 | a labelling that obeys the triangle inequality is a lower bound on the cost of every walk |
| ShortestPath.NoWalkTo | newbank.c:452-458 | an infinite distance at the end rules out every walk from the start to it |
| ShortestPath.Optimal | newbank.c:414-458 | with no negative weight, the end's final distance is at most the cost of every walk from the start to it |
| ShortestPath.RebuildPath | newbank.c:466-480 | the walk back along the predecessors stays within the 10-entry buffer, ends at a branch with no predecessor, and the path is that walk read backwards |
| ShortestPath.Reversed | newbank.c:476-480 | the printing loop's order: element i is element n-1-i of the buffer |
| ShortestPath.ChainRoute | newbank.c:466-480 | the rebuilt path is the branch sequence of a real walk from the start to the end, and its weight is the end's distance |
| ShortestPath.FindShortestPath | newbank.c:389-482 | not-found exactly when either id is unknown; no-path exactly when both are known and the end is unreachable; otherwise a route that is a real walk of the reported weight, with no more entries than there are branches, and shortest when no weight is negative; from a branch to itself, the route of weight 0 through that branch alone |
| TransactionLedger.Ledger.Push | newbank.c:278-284 | the new record is on top of the old stack |
| TransactionLedger.Ledger.Pop | newbank.c:286-299 | an empty stack yields the zeroed record and stays empty; otherwise the top record is returned and removed |
| TransactionLedger.PushThenPop | newbank.c:278-299 | popping right after a push returns the pushed record and restores the stack |
| TransactionLedger.Ledger.Reload | newbank.c:546-578 | freeing the stack, buffering the records, and pushing them back from last to first rebuilds the saved image exactly, truncated to its first 100 records |
| TransactionLedger.SaveThenReload | newbank.c:526-578 | saving the stack and reloading it gives the same stack, or its top 100 records when it is deeper |
| TransactionLedger.SlotsWrittenAsWritten | newbank.c:566-569 | the as-written `fread` loop stores only into slots from `count` up to 100 inclusive, and only where the file has a record |
| TransactionLedger.SlotsWrittenAsWrittenExact | newbank.c:566-569 | the as-written loop stores every record up to slot 100 inclusive |
| TransactionLedger.ReloadOverrun | newbank.c:566-569 | a file of more than 100 records makes the as-written loop store into slot 100, past the end of the buffer |
| Accounts.IndexOf | newbank.c:263-275 | the position found holds an account with the number |
| Accounts.IndexOfFirst | newbank.c:263-275 | -1 exactly when no account has the number, and no earlier account has it |
| Accounts.AccountDirectory.FindAccount | newbank.c:263-275 | the head-first scan returns the position of the first account with the number, or -1 |
| Accounts.AccountDirectory.AddAccount | newbank.c:236-261 | added exactly when no account has the number; the new account becomes the head; unique numbers stay unique |
| Accounts.AccountDirectory.SetBalance | newbank.c:712 | only that account's balance changes |
| Accounts.Without | newbank.c:1383-1419 | the list keeps the accounts before the unlinked one and shifts those after it down by one |
| Accounts.WithoutMatch | newbank.c:1383-1419 | in a list with unique numbers, unlinking the match leaves no account with that number, and the numbers stay unique |
| Accounts.SameNumbersIndexOf | newbank.c:263-275 | balance changes never change which account a number resolves to |
| Accounts.AccountDirectory.DeleteAccount | newbank.c:1383-1419 | deleted exactly when the number is present; the first match is unlinked and the others keep their order; with unique numbers, the number is then gone |
| Users.NameIndex | newbank.c:192-199 | the position found holds a user with the name |
| Users.LoginIndex | newbank.c:169-181 | the position found holds a user with both the name and the password |
| Users.FirstFromSpec | newbank.c:169-199 | the scan finds nothing exactly when no user matches, and skips only users that do not match |
| Users.LoginByName | newbank.c:167-206 | with unique names, a login succeeds exactly when the one user with that name has that password |
| Users.UserTable.constructor | newbank.c:153-164 | the table holds admin/admin123 (an admin) and user/user123 (not an admin), the names are unique, and no user is logged in |
| Users.UserTable.Login | newbank.c:167-182 | succeeds exactly when some user matches both name and password; on success that user becomes current and its admin flag is returned; on failure the current user and the caller's flag are unchanged |
| Users.UserTable.AddUser | newbank.c:185-206 | added exactly when the table has room and the name is new; appended at the end; otherwise nothing changes; unique names stay unique |
| ServiceQueue.RequestQueue.Enqueue | newbank.c:302-318 | the request joins the rear, and the front and rear are both set afterwards |
| ServiceQueue.RequestQueue.Dequeue | newbank.c:320-339 | an empty queue yields the zeroed request; otherwise the front request is returned and removed; front and rear are both null exactly when the queue is empty |
| ServiceQueue.EnqueueTwiceThenDequeue | newbank.c:302-339 | first in, first out: requests enqueued behind others leave after them |
| Banking.TransactionId | newbank.c:719 | every drawn transaction id lies in 1000..10999 |
| Banking.Credit | newbank.c:712 | only the chosen account's balance changes, by exactly `delta` |
| Banking.TotalCredit | newbank.c:712 | changing one balance by `delta` changes the total by `delta` |
| Banking.Shift | newbank.c:770-771 | the two balances move in opposite directions by the amount; through the same account nothing changes; the other accounts are untouched |
| Banking.ShiftTotal | newbank.c:770-771 | moving money between two accounts keeps the total |
| Banking.ShiftBack | newbank.c:895-926 | shifting the amount back restores the list |
| Banking.AfterDeposit | newbank.c:704-730 | fails, changing nothing, exactly for an unknown account; otherwise that account gains the amount with its other fields kept, every other account is unchanged, and a deposit record goes on top |
| Banking.AfterWithdraw | newbank.c:732-758 | fails, changing nothing, exactly for an unknown account or a balance below the amount; otherwise that account loses the amount with its other fields kept and its balance stays non-negative, every other account is unchanged, and a withdraw record goes on top |
| Banking.AfterTransfer | newbank.c:760-797 | fails, changing nothing, unless both accounts exist and the sender's balance covers the amount; otherwise the "transfer to" record goes on the stack and the "receive from" record on top of it; the sender loses and the receiver gains the amount, their other fields kept; a self-transfer leaves the balances unchanged; every other account is unchanged |
| Banking.DepositTotal | newbank.c:704-730 | a deposit adds its amount to the total |
| Banking.WithdrawTotal | newbank.c:732-758 | a withdrawal takes its amount off the total |
| Banking.TransferTotal | newbank.c:760-797 | a transfer, whether it succeeds or not, keeps the total |
| Banking.Reversal | newbank.c:887-926 | reversing a record changes balances only, every other field of every account is kept; the next record is popped exactly for a transfer leg whose peer account exists |
| Banking.ReversalBalances | newbank.c:887-926 | reversing a deposit takes the amount off the record's account and a withdrawal puts it back, and no other account changes; a transfer leg whose peer exists moves the amount back between the two accounts ("transfer to" back to the record's account, "receive from" back to the peer), and nothing changes when they are the same account; an unknown peer or an unrecognised record changes nothing |
| Banking.AfterUndo | newbank.c:872-931 | succeeds exactly when the ledger is non-empty and the top record's account exists; an empty ledger changes nothing; a failure leaves the balances alone and has popped exactly the top record; a record other than a transfer leg removes exactly itself; a successful transfer leg removes exactly two records when its peer exists and the ledger has two, and exactly one when its peer is unknown |
| Banking.UndoTransferLegTotal | newbank.c:895-926 | undoing either transfer leg keeps the total |
| Banking.UndoDeposit | newbank.c:887-890 | a deposit followed by an undo restores the balances and the ledger |
| Banking.UndoWithdraw | newbank.c:891-894 | a withdrawal followed by an undo restores the balances and the ledger |
| Banking.UndoReceive | newbank.c:911-926 | undoing a "receive from" record above the balances its transfer shifted restores them, and pops the record beneath |
| Banking.UndoTransfer | newbank.c:872-931 | a transfer followed by an undo restores both balances and removes both records |
| BankOperations.Deposit | newbank.c:704-730 | the directory and ledger end in exactly the state `AfterDeposit` gives, and the result matches |
| BankOperations.Withdraw | newbank.c:732-758 | the directory and ledger end in exactly the state `AfterWithdraw` gives, and the result matches |
| BankOperations.Transfer | newbank.c:760-797 | the directory and ledger end in exactly the state `AfterTransfer` gives, and the result matches |
| BankOperations.UndoLastTransaction | newbank.c:872-931 | the directory and ledger end in exactly the state `AfterUndo` gives, and the result matches |

## Findings

| source | as written | input that shows it | evidently intended | confidence | as-written member | corrected member |
|---|---|---|---|---|---|---|
| newbank.c:566 | `fread(&transactions[count], ...) == 1 && count < 100` reads into slot `count` before the bound is tested | a `transactions.dat` holding 101 or more records: the 101st `fread` stores into `transactions[100]`, past the end of the 100-slot buffer | test `count < 100` first, so that at most 100 records are read and nothing is stored past the buffer | high (not executed) | TransactionLedger.ReloadOverrun | TransactionLedger.Ledger.Reload |

## Left out

- Console input and output, menus, colours and `printf` reporting are not modelled. `findShortestPath` reports its result as a `PathResult` value instead of printing it.
- File persistence is reduced to the ledger's image as a sequence: `saveTransactionsToFile` writing the stack top-down and the reload of that image. Opening and closing files, and the byte layout of `fwrite`/`fread`, are left out.
- The account, branch and connection save/load functions (`saveAccountsToFile`, `loadAccountsFromFile`, `saveBranchesToFile`, `loadBranchesFromFile`) are outside the modelled core.
- `loadBranchesFromFile` replays each saved adjacency list through `addConnection`, which prepends (newbank.c:615-622, 677). Each save/load cycle therefore reverses every branch's connection order. The search does not depend on that order: each relaxation round sets every target to the minimum of its old distance and the offers, whatever order they come in. Only the listing of connections changes. The model has no branch persistence, so this is noted, not modelled.
- `float` rounding and `FLT_MAX` arithmetic are not modelled: amounts and distances are exact reals, and the sentinel is a separate value. A float sum that rounds up to `FLT_MAX` is not captured.
- `rand()` and the clock (`time`, `localtime`) become parameters: `draw`, `date` and `time`.
- The fixed `char` buffers, `strcpy` and `strcmp` become unbounded strings. The model does not capture the overflow of `sprintf` into the 20-byte `type` field for account numbers of seven or more digits: "receive from " is 13 characters, so seven digits and the terminator need 21 bytes (newbank.c:791), and "transfer to " with eight digits needs 21 too (newbank.c:777).
- The transfer peer is a typed field rather than text parsed back with `sscanf` (newbank.c:899, 915). An unparsable text, whose peer is then an uninitialised variable in the source, is not modelled. Any text that is neither "deposit", "withdraw", nor starts with "transfer to" or "receive from" is `Unrecognised`.
- `malloc` and `free` are not modelled. Failed allocation is not modelled. Freed nodes simply drop out of the sequences.
- The account list and the ledger are sequences reassigned by their methods, not linked nodes. Aliasing between nodes is therefore not modelled there. The service queue does use real linked nodes.
- Undo follows the code:
  - after a transfer leg, the second record is popped without checking that it is the matching leg, not treated as a fatal inconsistency;
  - an unknown account for the top record makes the undo fail after that record has already been popped;
  - an unknown peer account reverses nothing, and the undo still succeeds.
- Banking.AfterUndo: its own contract states the outcome and the records popped, not the new balances. Those are the reversal's: the unlisted helper `Banking.UndoTop` equates a successful undo with `Banking.Reversal`, and `Banking.ReversalBalances` gives the balances for each kind of record. Putting them in the function's own contract makes the undo round-trip proofs too costly to check.
- Viewing transactions, service-request creation and processing screens, account viewing and editing, and the report screens are outside the modelled core.
