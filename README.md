# Task manager process table, verified in Dafny

This project models the process table of the TaskManager web API. The table is
a bounded collection of processes. Each process has a PID (the key), a priority
(low < medium < high) and a creation time. The `TaskManagerController` changes
the table in these ways:

- It admits a create request under one of three rules:
  - default: reject with 507 when the table is full;
  - FIFO: kill the first record of the store's scan, then add;
  - priority-based: kill the oldest record of strictly lower priority, or reject with 400.
- It kills one record by PID, every record of a priority name (compared case-insensitively), or every record.
- It answers two queries: the sorted listing and the lookup by PID.

Files:

- `wrappers.dfy` holds `Option`.
- `models.dfy` (module `Models`) holds the `Priority` enumeration, its order, its names and the case-insensitive name match. It also holds the `Process` record and the `ProcessDTO` transfer object.
- `process_table.dfy` (module `ProcessTable`) holds pure functions over the table as a sequence in store order, with lemmas about them:
  - lookup and removal by PID;
  - selection by priority name;
  - the priority-based eviction choice;
  - the listing order.
- `controller.dfy` (module `Controllers`) has three parts:
  - the response tags and the two record/transfer-object conversions;
  - the class `TaskManagerController`. Its fields are `procs` (the table in store order), `clock` (a logical clock standing for `DateTime.Now`) and the constant `capacity`. It has one method per action;
  - a few client methods that run the three rules on a two-record table.

Each state-changing method says exactly what the new table is and what it
answers. Every method keeps the object invariant `Valid()`:

- PIDs are unique;
- records are in strictly increasing creation order;
- every creation time lies before the clock.

Each create method also keeps `WithinCapacity()` when it held before.

In these places the code behaves differently from what the rule names suggest, and the model follows the code:

- FIFO evicts `processes[0]` of the store's unsorted scan, not the first record in sorted order. The code gives that scan no order. The model takes it to be insertion order (see "## Left out"). Only under that assumption, together with `Valid()`, are the two the same record, which `CreateNewProcessFIFO` proves. A store that returns records in PID order, or that reuses freed slots, can put a younger record first, and FIFO then evicts it.
- FIFO with an empty table and capacity 0 answers 500, because indexing the empty list throws. It does not give a dedicated rejection.
- The priority-based eviction orders candidates by (CreatedAt, Priority) only. PID is not part of that key, so ties go to the earlier record in store order.
- The FIFO and priority-based evictions are saved before the insert. If the insert then fails, the record stays evicted. This happens when the PID is already present or, for FIFO, when the priority name does not parse.
- The default rule compares the count with the capacity using `==`. A table already above capacity therefore still admits. In the model, which starts empty with a fixed capacity, this can only happen with a negative configured capacity. In the running system a controller is built per request and re-reads the capacity, while the table outlives it. A table filled under a larger capacity, or seeded, can therefore exceed a non-negative capacity.

## Model

| member | source | states |
|---|---|---|
| `Models.Rank` | TaskManager/Models/Process.cs:19-24 | each priority has exactly one of the underlying values 1, 2, 3, with low = 1 and high = 3 |
| `Models.BelowIsStrictTotalOrder` | TaskManager/Models/Process.cs:19-24 | the `<` used by the priority rule is irreflexive, asymmetric, transitive and total, with low at the bottom and high at the top |
| `Models.PriorityName` | TaskManager/Controllers/TaskManagerController.cs:468 | a priority is rendered as one of the names "low", "medium", "high" |
| `Models.ParsePriority` | TaskManager/Controllers/TaskManagerController.cs:501 | the parse succeeds exactly on the three names, and the parsed priority renders back to the input string |
| `Models.NameRoundTrip` | TaskManager/Models/Process.cs:21-23 | rendering a priority's name and parsing it gives the priority back |
| `Models.MatchesName` | TaskManager/Controllers/TaskManagerController.cs:372 | a record matches a priority argument ignoring case exactly when the lower-cased argument equals the priority's name |
| `Models.MatchesNameUnique` | TaskManager/Controllers/TaskManagerController.cs:372 | one argument matches at most one priority |
| `Models.MatchesUpperCaseName` | TaskManager/Controllers/TaskManagerController.cs:372 | examples only: "HIGH" matches high and "Low" matches low, but "high" does not match medium |
| `ProcessTable.IndexOfPid` | TaskManager/Controllers/TaskManagerController.cs:323 | the lookup finds a record with the PID exactly when one exists, and returns the first such position |
| `ProcessTable.LookupIsUnique` | TaskManager/Models/Process.cs:8-10 | with PID as key, a lookup returns the one record carrying that PID |
| `ProcessTable.WithoutPids` | TaskManager/Controllers/TaskManagerController.cs:329 | removal by PIDs, the store's `Remove` also used at lines 379 and 435, never grows the table, and no record carrying a removed PID survives |
| `ProcessTable.WithoutPidsMembers` | TaskManager/Controllers/TaskManagerController.cs:329 | after removal by PIDs, a record remains exactly when it was there and its PID was not removed |
| `ProcessTable.WithoutPidsKeepsUnique` | TaskManager/Models/Process.cs:8-10 | removing records keeps PIDs unique |
| `ProcessTable.WithoutPidsKeepsAge` | TaskManager/Controllers/TaskManagerController.cs:502 | removing records keeps the records in creation order |
| `ProcessTable.WithoutPidsTwice` | TaskManager/Controllers/TaskManagerController.cs:377-379 | removing one record after another equals removing both sets of PIDs at once |
| `ProcessTable.WithoutHeadPid` | TaskManager/Controllers/TaskManagerController.cs:196-198 | with unique PIDs, killing the first record's PID leaves exactly the rest of the table |
| `ProcessTable.WithoutPidAt` | TaskManager/Controllers/TaskManagerController.cs:323-330 | with unique PIDs, killing the PID at position k removes exactly that record and keeps the others in order |
| `ProcessTable.WithoutAllPids` | TaskManager/Controllers/TaskManagerController.cs:427-436 | removing every PID the table holds empties it |
| `ProcessTable.OfPriorityName` | TaskManager/Controllers/TaskManagerController.cs:372 | the selection holds exactly the records whose priority name equals the argument ignoring case |
| `ProcessTable.OtherPriorities` | TaskManager/Controllers/TaskManagerController.cs:377-379 | what remains holds exactly the records whose priority name differs from the argument ignoring case |
| `ProcessTable.RemoveMatchingLeavesOthers` | TaskManager/Controllers/TaskManagerController.cs:372-390 | with unique PIDs, removing the selected records' PIDs leaves exactly the non-matching records in order |
| `ProcessTable.OldestBelow` | TaskManager/Controllers/TaskManagerController.cs:267-270 | the choice is None exactly when no record has a strictly lower priority. Otherwise it is a strictly-lower record that no other candidate precedes in (CreatedAt, Priority) order, and the earliest in store order among ties |
| `ProcessTable.OldestBelowIsUnique` | TaskManager/Controllers/TaskManagerController.cs:267 | at most one position meets that description, so the eviction choice is determined |
| `ProcessTable.NeverEvictsEqualOrHigher` | TaskManager/Controllers/TaskManagerController.cs:267 | a record of equal or higher priority than the request is never chosen |
| `ProcessTable.OldestBelowIsFirstInStore` | TaskManager/Controllers/TaskManagerController.cs:267-270 | when records are in creation order, the choice is the first lower-priority record in store order |
| `ProcessTable.InsertForListing` | TaskManager/Controllers/TaskManagerController.cs:52 | inserting adds exactly one element, the new record, and keeps every other |
| `ProcessTable.InsertKeepsListingOrder` | TaskManager/Controllers/TaskManagerController.cs:52 | inserting into a table in (CreatedAt, Priority, PID) order keeps it in that order |
| `ProcessTable.SortForListing` | TaskManager/Controllers/TaskManagerController.cs:52 | the listing is ordered by CreatedAt, then Priority, then PID, and is a permutation of the table, so every record appears exactly once |
| `ProcessTable.ListingKeepsCreationOrder` | TaskManager/Controllers/TaskManagerController.cs:52 | a table in creation order is already in listing order |
| `Controllers.ProcessToDTO` | TaskManager/Controllers/TaskManagerController.cs:464-472 | the transfer object keeps the PID and creation time, and its priority name parses back to the record's priority |
| `Controllers.ProcessDTOToProcess` | TaskManager/Controllers/TaskManagerController.cs:496-504 | the conversion fails exactly when the priority name does not parse. Otherwise it keeps the PID and the priority name and stamps the given time |
| `Controllers.RecordRoundTrip` | TaskManager/Controllers/TaskManagerController.cs:464-504 | a record converted to a transfer object and back, at its own creation time, is the same record |
| `Controllers.RequestRoundTrip` | TaskManager/Controllers/TaskManagerController.cs:464-504 | a well-formed request converted to a record and back is the request with the new creation time |
| `Controllers.TaskManagerController.constructor` | TaskManager/Controllers/TaskManagerController.cs:27-33 | the controller starts with an empty, valid table, the given capacity and the clock at 0 |
| `Controllers.TaskManagerController.GetProcesses` | TaskManager/Controllers/TaskManagerController.cs:50-56 | returns one transfer object per stored record, in listing order. Under the invariant this order is also the store order |
| `Controllers.TaskManagerController.GetProcess` | TaskManager/Controllers/TaskManagerController.cs:73-89 | answers NotFound exactly when no record has the PID, including negative PIDs. Otherwise it answers that record's transfer object |
| `Controllers.TaskManagerController.Insert` | TaskManager/Controllers/TaskManagerController.cs:142-143 | a PID already present answers 500 and adds nothing. Otherwise the record is appended and the answer is Created with it |
| `Controllers.TaskManagerController.RemoveEach` | TaskManager/Controllers/TaskManagerController.cs:377-390 | removing the victims one by one leaves the table without exactly their PIDs, in order, and keeps the invariant |
| `Controllers.TaskManagerController.KillProcessDefault` | TaskManager/Controllers/TaskManagerController.cs:319-332 | an absent PID answers NotFound with no change. Otherwise exactly that record goes, the count drops by one, and every other record is kept unchanged |
| `Controllers.TaskManagerController.KillAllProcessesOfPriority` | TaskManager/Controllers/TaskManagerController.cs:364-392 | removes exactly the records whose priority name equals the argument ignoring case and keeps the rest in order. Answers NotFound with no change when nothing matches |
| `Controllers.TaskManagerController.KillAllProcesses` | TaskManager/Controllers/TaskManagerController.cs:423-439 | empties the table. Answers NotFound with no change when it was already empty |
| `Controllers.TaskManagerController.CreateNewProcessDefault` | TaskManager/Controllers/TaskManagerController.cs:127-146 | no body: BadRequest, no change; count equal to capacity: 507, no change; otherwise exactly the new record is appended (count + 1), or 500 with no change for a bad priority name or a duplicate PID; keeps the table within capacity |
| `Controllers.TaskManagerController.CreateNewProcessFIFO` | TaskManager/Controllers/TaskManagerController.cs:185-205 | no body: BadRequest, no change; empty table at capacity 0: 500; at capacity the store's first record (also the first in listing order, given the store's assumed insertion order) is removed and stays removed, then the record is added, leaving the count at capacity; below capacity nothing is removed; keeps the table within capacity |
| `Controllers.TaskManagerController.CreateNewProcessPriorityBased` | TaskManager/Controllers/TaskManagerController.cs:246-285 | no body: BadRequest; bad name: 500, no change; at capacity removes the `OldestBelow` choice then adds, or 400 with no change when none; below capacity adds; above capacity 500 with no change; only strictly lower priorities are ever removed; keeps the table within capacity |

In more detail, the three create methods state:

- `CreateNewProcessDefault`:
  - no body answers BadRequest with no change;
  - a count equal to the capacity answers 507 with no change;
  - otherwise exactly the new record is added, stamped with the clock, and the count grows by one. A bad priority name or a duplicate PID answers 500 with no change;
  - within capacity before implies within capacity after.
- `CreateNewProcessFIFO`:
  - no body answers BadRequest with no change;
  - at capacity 0 with an empty table it answers 500;
  - at capacity the first record of the store is removed before the add, and the removal is kept even if the add then fails;
  - the evicted record is the first in listing order, given the store's assumed insertion order;
  - below capacity nothing is removed;
  - a successful create at capacity leaves the count at the capacity;
  - within capacity is preserved.
- `CreateNewProcessPriorityBased`:
  - no body answers BadRequest with no change;
  - a bad priority name answers 500 with no change;
  - at capacity it removes the record `OldestBelow` chooses and then adds, or answers 400 with no change when there is no candidate;
  - below capacity it adds without looking at priorities;
  - above capacity it answers 500 with no change;
  - every removed record has a strictly lower priority than the request;
  - the count never goes past the capacity unless it already was past it, and within capacity is preserved.

## Left out

- The ASP.NET plumbing is not modelled: routing, `ActionResult` construction, `CreatedAtAction`, the `ModelState` check at TaskManager/Controllers/TaskManagerController.cs:256-259 and the framework's automatic validation, including the regular expression on the transfer object's priority. The actions are modelled as called directly, as the unit tests call them. A missing body is `None`.
- EF Core and `async` are not modelled. Each action is one atomic step on the sequence. The store's unsorted scan order is taken to be insertion order: new records are appended and removals keep the order of the rest. The code does not promise this order. `CreateNewProcessFIFO`'s ensures that the evicted record is the first in listing order depends on it, as do `GetProcesses`' ensures that listing order equals store order and `OldestBelowIsFirstInStore` applied to the stored table.
- Exceptions are modelled only as far as they arise in the modelled operations: an unparsable priority name, a duplicate PID on insert, and indexing an empty list in FIFO. Each answers 500. The 404 answer for `ArgumentNullException` (a null priority string in the request body, reaching `Enum.Parse` at TaskManager/Controllers/TaskManagerController.cs:501) is not modelled. A null `priority` argument to the kill by priority fails at `ToLower()` with a `NullReferenceException`, which answers 500; it is not modelled either, because strings are never null here.
- `ParsePriority` accepts only the three exact names. The numeric strings, surrounding whitespace and comma-separated lists that .NET's `Enum.Parse` also accepts are not modelled.
- `Lower` folds ASCII letters only, as an invariant, non-Turkic culture does. `ToLower()` uses the current culture. Under a Turkish or Azeri culture the ASCII 'I' becomes the dotless 'ı', so "HIGH" would not match high there, although `MatchesUpperCaseName` says it does. Lower-casing of non-ASCII letters is not modelled either.
- `DateTime.Now` is replaced by a logical clock. It ticks on every read, so two records never share a creation time. The system clock gives no such guarantee: `DateTime.Now` is local wall-clock time, which repeats an hour when daylight saving time ends and can tie at its resolution. So `Valid()`'s strictly increasing creation order is a property of the logical clock, not of the program, and so are the equalities that rest on it: `CreateNewProcessFIFO`'s evicted record being first in listing order, `GetProcesses`' listing order equal to store order, and `OldestBelowIsFirstInStore` applied to the stored table. A create action takes its reading only after the priority name has parsed, so a request that fails to parse leaves the clock unchanged. `OldestBelow` and `SortForListing` are still defined and proved for tables with ties.
- The `CreatedAt` date format string is not modelled. The transfer object carries the clock tick instead.
- The text of messages is not modelled: the 507, 400 and 500 bodies, the kill confirmations and the PID list built with `StringBuilder`. They are reduced to response tags.
- PIDs (64-bit) and the capacity (a 32-bit conversion) are unbounded integers. No operation here does arithmetic on them, so no wrap-around arises.
- Concurrency between the count check and the insert is not modelled. The model is sequential.
- Logging, `Stopwatch` and the error transfer object are not modelled.
- TaskManager/Utility/WebAppSettings.cs is replaced by the constructor's capacity parameter. The configured default is 10.
- The private helper `ProcessExists` (TaskManager/Controllers/TaskManagerController.cs:512-515) is not called by any action. The predicate `HasPid` expresses the same test.
- `ProcessToDTOForGetAll` is identical to `ProcessToDTO` and is modelled by it.
- The test database seeding is not part of the core. The controller starts from an empty table.
