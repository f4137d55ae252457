# RATTLE: a model of its tables, processors, arguments, signals and modules

RATTLE keeps everything it knows in one data structure, the table: a growable array of
fixed-size chunks with a byte-packed mask of holes, a cursor, a tail and two counters.
The arguments manager, the signal manager, both processors and the module registry are
clients of that table. This project models the table on arrays and bytes, proves that it
behaves like a sequence of cells, and then proves what its clients rely on.

| file | models |
|---|---|
| `FragMask.dfy` | the mask bytes: shifts, `ffs`, setting and clearing a bit, what a growth clears |
| `TableSpec.dfy` | the table as its callers see it: cells (live chunk or hole), cursor, size |
| `TableRep.dfy` | how chunk memory and mask bytes represent cells |
| `Table.dfy` | the table itself, as a class over arrays, refining `TableSpec` method by method |
| `TableCounters.dfy` | sizes and counters alone, also where the mask has stray bits; what growing costs |
| `TableCorrupt.dfy` | which writes leave a state no cells describe |
| `TableRuns.dfy`, `TableGrowth.dfy`, `TableIterate.dfy`, `TableKeys.dfy` | whole runs, sizes that keep the mask, iteration, keyed tables |
| `Process.dfy`, `Serial.dfy` | processes; the serial processor |
| `Worker.dfy`, `WorkerSafety.dfy` | the worker processor as interleaved steps of any number of threads; its safety |
| `WorkerStart.dfy`, `WorkerMiss.dfy` | exactly when on_start reaches every worker; a run in which it does not |
| `WorkerRegister.dfy`, `WorkerUnregister.dfy` | where a registered process goes and what unregistering removes; which workers on_unregister looks into |
| `WorkerFair.dfy`, `WorkerRun.dfy` | in which order a worker calls its processes; under which lock it runs them, and when it comes to its next scan |
| `ArgsSyntax.dfy`, `Args.dfy` | the command line; the section tables and binding |
| `Signal.dfy` | signal registration, and what a signal calls |
| `Modules.dfy` | module attachment |

Class `Table` uses arrays of chunks and of bytes. The clients keep their tables as values
of `TableSpec.State` in their fields, which also fits the way a signal record holds its
handler table by value; since every method of `Table` is proved to do to its cells what
the function of the same name in `TableSpec` does, what is proved of a client holds on
top of the arrays. An operation that would leave the table outside every state cells can
describe has the outcome `Corrupt`; statements about cells end there, and when exactly it
happens is proved, with the state it leaves (`CorruptIff`, `Table.WriteChunk`). Sizes and
counters do not depend on the mask: what is proved of them holds of every sequence of
events, and the methods of `Table` are proved to come to these events also after a growth
that left stray mask bits (`Table.Roomy`), short of searching a table with a constraint.

Allocators, callbacks and the environment are parameters: `alloc` says whether memory is
granted, `junk` is what reallocated bytes hold, `Answers` and `accepts` are what callbacks
return, `Choice` and the schedule are what the scheduler does.

## Where the code does less than it seems to

Each of these is proved, with the exact condition, and the code is modelled as it is.

* A table whose last live chunk is deleted keeps its holes and never accepts an insert
  again (`EmptiedIsForever`); a push takes it for a fresh table and puts a live chunk
  under a set hole bit (`Table.Push`). So a worker or serial processor whose processes are
  all gone takes no new one (`EmptiedWorkerStays`, `AllTrashEndsRegistration`), a core
  that lost its last module takes no module (`AttachModule`), and the signal table is
  corrupted by the first registration after its last signal went (`SignalRegister`).
* Growing leaves stray mask bits for some sizes (`GrowthClearsIff`); tables created with
  1 or 4 slots never meet one below 459 730 912 slots, tables created with 16 meet one at
  24 (`LadderAppends`, `SixteenSlotsMissAByte`). A growth between multiples of 8 leaves one
  more byte as the allocator returned it, and a growth by less than 8 slots after it makes
  that byte one in use (`GrowthClearsExactly`, `StraySpareByteSurfaces`).
* Searching tests the chunk under the cursor even if it is a hole (`SearchOnHole`).
* `compare_process` of the workers never matches when user data is involved
  (`UnregisterNeedsNullData`).
* The serial processor accepts a process without attributes and reads through the null
  pointer after running it: on_start crashes exactly when some live process with a
  function has null attributes (`Pass`, `OnStart`). Unregistering a null process, or a
  null signal handler, stops at a hole under the cursor and removes nothing
  (`OnUnregister`, `SignalUnregister`).
* on_register and on_unregister move the cursor that on_start walks the worker table
  with. At any point of its walk, with nobody else moving the cursor from there on, on_start
  reaches every worker exactly when its walk is still to come to every stopped one
  (`OnStartReachesAllIff`). So a registration that selects worker p between two workers
  makes it miss one exactly when some worker up to p is still stopped (`SelectionMissesIff`);
  an unregistration that begins there, exactly when the first one is
  (`UnregistrationMissesIff`). A run from the initial state shows it (`StartMissesAWorker`),
  and a worker that was missed stays stopped for good (`MissedForever`).
* on_start takes no lock for that cursor either, so a step of it can hide a worker from
  on_unregister (`LooksIff`, `StartHidesWorker`), and two threads can both get past its test
  of the processor's state (`TwoCanStart`).
* A failed attachment calls the detach callback of a core that was never asked to attach,
  and leaves a module without detach callback attached (`UndoneIff`,
  `RefusalDetachesTooMuch`). Detaching never releases the configuration a module was
  attached with (`DetachUndoesIff`).
* Looking up a hook with the cursor on a hole reads through a null module pointer, so the
  loop of `module_core_detach` goes through only when the hooks fill the end of the table
  and are met from the last slot down (`DetachModule`, `CoreDetachesOnlyBackwards`). After
  that loop the function deletes its entry of the core table and then reads the core's hook
  table through that entry (src/module.c:448-449), which `Table.DelCurrent` proves to be
  zeroed by then; so "no module points at the core" is stated for the end of the loop.
* `ratt_table_pos_isfrag` guards only the shift, not the test (`Table.PosIsFrag`).

## Model

| member | source | states |
|---|---|---|
| FragMask.SetBitChangesOne | modules/data/array/data_array.c:76-90 | setting a hole bit changes that bit of the whole mask and no other |
| FragMask.ClearBitChangesOne | modules/data/array/data_array.c:92-106 | clearing a hole bit changes that bit of the whole mask and no other |
| FragMask.LeastSetBit | modules/data/array/data_array.c:60-68 | the first non-zero byte and `ffs` of it name the least set bit of the whole mask |
| FragMask.GrowthKeepsOldBits | modules/data/array/data_array.c:179-191 | growing never disturbs the hole bits of the old slots |
| FragMask.GrowthClears | modules/data/array/data_array.c:179-191 | for the admitted sizes every mask bit above the old slots is clear, whatever memory held |
| FragMask.GrowthClearsExactly | modules/data/array/data_array.c:60-191 | new slots are clear for arbitrary fresh memory iff the old size is not a multiple of 8, or the new one is, or both share their last mask byte and it was clear there |
| FragMask.GrowthClearsIff | modules/data/array/data_array.c:60-191 | with the spare byte known to be clear, the last case is a matter of sizes alone |
| FragMask.SpareByteIsJunk | modules/data/array/data_array.c:188-191 | a clean growth leaves the next mask byte unknown only between multiples of 8, and it is then what the allocator returned |
| FragMask.StraySpareByteSurfaces | modules/data/array/data_array.c:188-191 | for all sizes, a growth between multiples of 8 followed by one within the next mask byte puts what the allocator returned into the mask of slots in use |
| TableRep.RepGrow | modules/data/array/data_array.c:151-205 | memory and mask after a clean growth still represent the same cells |
| TableRep.RepDelete | modules/data/array/data_array.c:335-364 | zeroing a chunk and moving the tail or setting the hole bit represents the cells without it |
| TableRep.FirstHoleByScan | modules/data/array/data_array.c:310-333 | in a table with a hole the byte scan finds the first hole, at or below the last slot |
| TableRep.CountDelete | modules/data/array/data_array.c:349-361 | a deletion takes one from the chunk count and adds a hole unless the tail went |
| Tables.Table.PosIsFrag | modules/data/array/data_array.c:207-215 | the hole bit inside the table; outside it, bit pos & 7 of the first mask byte |
| Tables.Table.First | modules/data/array/array.h:103-112 | the first slot, hole or not, or nothing when no chunk is live |
| Tables.Table.LastChunk | modules/data/array/array.h:114-123 | the last slot, hole or not, or nothing when no chunk is live |
| Tables.Table.Chunk | modules/data/array/array.h:136-147 | moves the cursor to any slot up to the last, and nowhere else |
| Tables.Table.Prev | modules/data/array/data_array.c:217-233 | the greatest live slot below the cursor, which otherwise ends at 0 |
| Tables.Table.Next | modules/data/array/data_array.c:235-249 | the least live slot above the cursor, which otherwise ends at the last slot |
| Tables.Table.FirstNext | modules/data/array/data_array.c:251-260 | the least live slot |
| Tables.Table.CircularNext | modules/data/array/data_array.c:262-269 | the live slot after the cursor, else the first one |
| Tables.Table.Search | modules/data/array/data_array.c:271-293 | the chunk under the cursor if it matches, else the first live match, with the cursor left there |
| Tables.Table.SatisfyConstrains | modules/data/array/data_array.c:295-308 | fails exactly when the search for a conflicting chunk finds one |
| Tables.Table.FragMaskSet | modules/data/array/data_array.c:76-90 | sets one clear bit and counts it; refuses a set one |
| Tables.Table.FragMaskUnset | modules/data/array/data_array.c:92-106 | clears one set bit and uncounts it; refuses a clear one |
| Tables.Table.SetPosFragFirst | modules/data/array/data_array.c:310-333 | moves the cursor to the least set bit of the whole mask, which is the first hole, iff there is one |
| Tables.Table.DelCurrent | modules/data/array/data_array.c:335-364 | succeeds iff the cursor is on a live chunk; frees that slot, keeps the invariant and zeroes the chunk; counts as stated also with stray mask bits |
| Tables.Table.ReallocAndMove | modules/data/array/data_array.c:151-205 | grows size, memory and mask as computed; keeps the invariant for the admitted sizes; a refusal changes nothing |
| Tables.Table.GetTailNext | modules/data/array/data_array.c:366-404 | hands out the slot behind the tail, growing if needed; an emptied table gets its head back under a set hole bit |
| Tables.Table.GetFragFirst | modules/data/array/data_array.c:406-437 | hands out the first hole, or the next tail; refuses in an emptied table; counts as stated also with stray mask bits |
| Tables.Table.WriteChunk | modules/data/array/data_array.c:108-149 | conflict resolved in place, or chunk placed; keeps the invariant, and otherwise leaves a live chunk under a set hole bit, a stray mask byte, or bytes in a hole, as stated |
| Tables.Table.Push | modules/data/array/data_array.c:439-443 | appends, keeping the invariant; on an emptied table leaves a live chunk at head under a set hole bit, after an unclean growth the old mask as grown |
| Tables.Table.Insert | modules/data/array/data_array.c:445-449 | fills the hole below which every slot is live, or appends, keeping the invariant; the same two exceptions |
| TableCorrupt.CorruptIff | modules/data/array/data_array.c:108-205 | a write leaves the states described by cells iff it resolves a conflict in a hole, takes an emptied table for a fresh one, or grows at a size that misses a mask byte |
| Tables.Table.Create | modules/data/array/data_array.c:469-514 | succeeds iff the table does not exist, the size is within its limits and memory is granted; then it has no cells |
| Tables.Table.SetConstrains | modules/data/array/array.h:150-155 | sets the comparison and nothing else |
| Tables.Table.SetOnConstrains | modules/data/array/array.h:157-163 | sets the resolver and nothing else |
| Tables.Table.Destroy | modules/data/array/data_array.c:451-467 | succeeds iff the table exists, which it then no longer does |
| TableRuns.StepKeepsWf | modules/data/array/data_array.c:217-449 | every operation keeps cursor, last slot and size in their bounds |
| TableRuns.InsertFailsIff | modules/data/array/data_array.c:366-449 | an unconstrained insert fails iff the table was emptied, or is full without a hole to reuse and cannot grow |
| TableRuns.InsertFillsFirst | modules/data/array/data_array.c:310-437 | with holes and a live chunk, an insert binds a hole below which every slot is live, and changes no other slot |
| TableRuns.FixedTableFillsUp | modules/test/table/table_frag.c:79-83 | a fixed table with a live chunk refuses an insert iff all slots are live and no hole is left |
| TableRuns.EmptiedExactlyByLastDelete | modules/data/array/data_array.c:349-361 | a step empties a table iff it deletes the only live chunk |
| TableRuns.EmptiedIsForever | modules/data/array/data_array.c:406-425 | no run without a push changes the cells of an emptied table again |
| TableRuns.StepOnLive | modules/data/array/data_array.c:335-449 | a write binds one slot that was not live, a deletion unbinds the current one, all other bindings stay |
| TableRuns.RunConserves | modules/data/array/data_array.c:335-449 | over every run the live chunks are those written minus those deleted, with multiplicity |
| TableCounters.NextSizeGrows | modules/data/array/data_array.c:157-170 | a growth adds half the size, stops at the limit, and is refused exactly at the limit or where the sum wraps |
| TableCounters.CarriedByGrowth | modules/data/array/data_array.c:157-205 | over every run, whatever the mask holds, the slots carried over are at most three times the slots gained, plus the limit once when it is reached |
| TableCounters.SizeByWrites | modules/data/array/data_array.c:366-404 | a size that was grown to is at most one and a half times the slots used and written |
| TableCounters.WritesCostLinear | modules/data/array/data_array.c:366-404 | n chunks placed into a new table of any size carry over at most 6n slots in all |
| TableGrowth.StepCounts | modules/data/array/data_array.c:335-437 | every operation on cells changes size, last slot and both counters as its event does |
| TableGrowth.RunCounts | modules/data/array/data_array.c:335-437 | so does every run, and each chunk placed was a write that succeeded |
| TableGrowth.LadderAppends | modules/data/array/data_array.c:179-191 | tables created with 1 or 4 slots append cleanly while below 459 730 912 cells |
| TableGrowth.SixteenSlotsMissAByte | modules/data/array/data_array.c:188-191 | a table created with 16 slots is left with an arbitrary mask byte when it grows from 24 to 36 |
| TableIterate.LiveFromLists | modules/data/array/data_array.c:235-260 | the forward order lists every live slot once, increasing |
| TableIterate.LiveSlotsCount | modules/data/array/array.h:48-52 | the number of live slots is the chunk count |
| TableIterate.ForeachVisitsAll | modules/data/array/array.h:165-167 | a FOREACH deleting any set of the chunks it is on visits every initially live chunk once in order and leaves exactly the others |
| TableIterate.ForeachReverseVisits | modules/data/array/array.h:169-171 | a reverse FOREACH visits every live chunk once, preceded by a dead one iff the last slot is a hole |
| TableIterate.LiveBelowLists | modules/data/array/data_array.c:217-233 | the reverse order lists every live slot once, decreasing |
| TableIterate.CirculateRound | modules/data/array/data_array.c:262-269 | n calls return the live slots behind the cursor and then those up to it |
| TableIterate.CircularFairness | modules/data/array/data_array.c:262-269 | whatever calls went before, the next n return every live slot exactly once |
| TableIterate.CircularPeriod | modules/data/array/data_array.c:262-269 | the returned slots repeat with period n |
| TableKeys.SearchIff | modules/data/array/data_array.c:271-293 | when no zeroed chunk matches, search succeeds iff a live chunk matches, and stays on one |
| TableKeys.SearchOnHole | modules/data/array/data_array.c:278-281 | with the cursor on a hole, search succeeds there iff the zeroed chunk matches |
| TableKeys.UpsertLaw | modules/data/array/data_array.c:119-148 | a keyed write binds a free key or resolves exactly the chunk of that key; other keys keep theirs; keys stay unique |
| TableKeys.RunKeepsUnique | modules/data/array/data_array.c:108-149 | over every run live keys stay distinct |
| TableKeys.ConflictIsDone | modules/data/array/data_array.c:119-136 | a write that conflicts with a live chunk never corrupts the table |
| TableKeys.RunBreaksIff | modules/data/array/data_array.c:108-205 | from 1 or 4 slots and below 459 730 912 operations, a run corrupts the table iff it takes an emptied table for a fresh one |
| Serial.Processor.OnRegister | modules/proc/serial/proc_serial.c:99-115 | adds the process; fails iff the table was emptied, or is all live and cannot grow; loses the table iff it grows at an unclean size, which takes 459 730 912 slots |
| Serial.Processor.OnUnregister | modules/proc/serial/proc_serial.c:85-97 | deletes the entry under the cursor if it has the same function, and user data and attributes agree where given, else the first such entry, else nothing; and nothing when it looks for a null process with the cursor on a hole |
| Serial.Processor.Pass | modules/proc/serial/proc_serial.c:130-150 | crashes iff a live process has null attributes, after calling up to it; otherwise one pass calls every process once and keeps exactly the live ones with a function and the sticky flag, emptying the table if there are none |
| Serial.CallsInOrder | modules/proc/serial/proc_serial.c:130-150 | the calls of a pass are the live processes that have a function, each slot once, in increasing order |
| Serial.Processor.OnStart | modules/proc/serial/proc_serial.c:117-155 | crashes iff the first pass does; otherwise the first pass calls all, every later one exactly the sticky ones, until stopped; only those are left |
| Serial.Processor.OnStop | modules/proc/serial/proc_serial.c:157-166 | stops the processor, and fails iff it was stopped |
| Serial.AllTrashEndsRegistration | modules/proc/serial/proc_serial.c:105-109 | after a pass over live processes none of which is sticky, registering fails whatever memory there is |
| WorkerSafety.StepKeepsLocks | modules/proc/worker/proc_worker.c:191-237 | every lock is owned by exactly the thread whose program point holds it |
| WorkerSafety.LocksAscend | modules/proc/worker/proc_worker.c:217-224 | locks are taken in the order process lock, worker table, worker lock, process table |
| WorkerSafety.NoDeadlock | modules/proc/worker/proc_worker.c:383-454 | no circle of threads waiting for one another |
| WorkerSafety.SomeoneCanMove | modules/proc/worker/proc_worker.c:191-237 | a blocked thread waits for one that owns a lock and can take a step |
| WorkerSafety.MutualExclusion | modules/proc/worker/proc_worker.c:106-111 | two threads are never both inside the same critical section |
| WorkerSafety.StepKeepsWorker | modules/proc/worker/proc_worker.c:191-215 | every step of every thread keeps the idle, scan, wake and wait invariants of every worker |
| WorkerSafety.NoLostWakeup | modules/proc/worker/proc_worker.c:437-454 | in every reachable state with the worker's lock free, an idle worker has no process, and a sleeping one told to run, or started and having work, has been signalled; from tables of the created size none is corrupted within 459 730 912 turns |
| WorkerSafety.NeverDeadlocked | modules/proc/worker/proc_worker.c:376-481 | every reachable state is free of wait circles and lets someone move for whoever is blocked |
| WorkerSafety.RoundRobinBalance | modules/proc/worker/proc_worker.c:416-427 | in every reachable state two workers' selection counts differ by at most one, and only existing workers were selected |
| WorkerSafety.UnregisterNeedsNullData | modules/proc/worker/proc_worker.c:337-374 | an entry matches iff neither side has user data and process and attributes agree |
| WorkerSafety.EmptiedWorkerStays | modules/proc/worker/proc_worker.c:437-446 | no step ever puts a process into a worker's table once it was emptied |
| WorkerSafety.TablesStaySmall | modules/proc/worker/proc_worker.c:292-293 | over every schedule a process table takes at most one slot a turn, and is intact while below 459 730 912 |
| WorkerStart.RunKeepsStartWf | modules/proc/worker/proc_worker.c:191-200 | in every reachable state a stopped worker waits, and only a running processor is walked |
| WorkerStart.OnStartReachesAllIff | modules/proc/worker/proc_worker.c:462-481 | from any point of its walk, the cursor being its own from there on, on_start returns with no worker stopped iff the walk is still to come to every stopped one |
| WorkerStart.ReachableStartIff | modules/proc/worker/proc_worker.c:462-481 | so it is in every state reachable from the initial one |
| WorkerStart.OnStartReachesAll | modules/proc/worker/proc_worker.c:462-481 | while no other thread moves the cursor of the worker table, on_start returns only when no worker is stopped |
| WorkerStart.SelectionMissesIff | modules/proc/worker/proc_worker.c:413-427 | a registration that selects its worker between two steps of the walk makes on_start miss one iff some worker up to the selected one is still stopped |
| WorkerStart.UnregistrationMissesIff | modules/proc/worker/proc_worker.c:383-388 | an unregistration that begins there, iff the first worker is still stopped |
| WorkerStart.MissedForever | modules/proc/worker/proc_worker.c:437-446 | a worker the walk is past stays stopped over every schedule after on_start returned |
| WorkerStart.SkippedForever | modules/proc/worker/proc_worker.c:437-446 | so does every stopped worker once nobody is in on_start |
| WorkerStart.StartRefusedIff | modules/proc/worker/proc_worker.c:462-470 | on_start returns at once, having changed nothing, iff the processor is running |
| WorkerStart.TwoCanStart | modules/proc/worker/proc_worker.c:466-470 | two threads that test the state in turn both go on |
| WorkerMiss.StartMissesAWorker | modules/proc/worker/proc_worker.c:413-481 | sixteen turns lead from an initial state of two workers to one where on_start has returned and the second worker never runs |
| WorkerRegister.NoTableRace | modules/proc/worker/proc_worker.c:203-440 | two threads never use the process table of one worker at once |
| WorkerRegister.OnlyUsersChange | modules/proc/worker/proc_worker.c:191-454 | a step of a thread that is not about to use a worker's process table leaves it as it is |
| WorkerRegister.CallBegins | modules/proc/worker/proc_worker.c:376-411 | a thread that calls on_register or on_unregister enters it with the process it names |
| WorkerRegister.RegisterStores | modules/proc/worker/proc_worker.c:437-454 | the insertion binds exactly one slot that was not live to the process and goes on to wake the worker, or loses the table to a missed mask byte; a table that was emptied, or is full without hole or memory, keeps its cells and the call gives up |
| WorkerRegister.UnregisterRemoves | modules/proc/worker/proc_worker.c:337-397 | on_unregister removes the entry with the same process and attributes, no user data on either side: the one under the cursor, else the first, else none, and none at a hole that matches |
| WorkerRegister.ProcessesConserved | modules/proc/worker/proc_worker.c:376-454 | over every schedule that leaves its table intact, a worker's processes are those it had and those inserted minus those deleted, with multiplicity |
| WorkerRegister.RegistersOnce | modules/proc/worker/proc_worker.c:408-458 | whatever is scheduled in between, a whole call of on_register selects one worker, round robin, and offers its process to the table of that worker, once |
| WorkerUnregister.OnlyStartDisturbs | modules/proc/worker/proc_worker.c:383-405 | while on_unregister holds the worker table, only on_start moves its cursor |
| WorkerUnregister.LooksIff | modules/proc/worker/proc_worker.c:386-405 | undisturbed and not cut short, on_unregister looks for its process in exactly the workers its walk is still to come to |
| WorkerUnregister.LookBegins | modules/proc/worker/proc_worker.c:383-386 | a call that got the worker table has every worker ahead, with the process it was made for |
| WorkerUnregister.StartHidesWorker | modules/proc/worker/proc_worker.c:472-478 | a step of on_start to the next worker hides that one from on_unregister |
| WorkerFair.ScanDispatches | modules/proc/worker/proc_worker.c:204-215 | the process in the slot a scan returns is live and is the one the worker then has in hand |
| WorkerFair.CallsCirculate | modules/proc/worker/proc_worker.c:191-237 | while nobody changes its table, a worker calls what the circular cursor returns, whatever else is scheduled |
| WorkerFair.WorkerCallsEachOnce | modules/proc/worker/proc_worker.c:191-237 | in as many scans as it has processes it calls each of them exactly once |
| WorkerRun.FoundRunsNext | modules/proc/worker/proc_worker.c:204-235 | over every schedule, a process in hand that has a function is run next: until then the worker has nothing else in hand |
| WorkerRun.RunWasFound | modules/proc/worker/proc_worker.c:204-235 | over every schedule, a process a worker runs was found by a scan of its own before |
| WorkerRun.RunsUnderLock | modules/proc/worker/proc_worker.c:228-234 | in every reachable state a worker running a process flagged as not thread-safe owns the lock of that process |
| WorkerRun.NeverTogether | modules/proc/worker/proc_worker.c:228-234 | in every reachable state two workers never run processes flagged so that share a lock |
| WorkerRun.ScansOnlyRunning | modules/proc/worker/proc_worker.c:191-215 | in every reachable state a worker that scans was told to run, and one giving its lock back after an empty scan is idle |
| WorkerRun.BoundMoves | modules/proc/worker/proc_worker.c:191-204 | a worker told to run, and signalled if asleep, can move unless a lock blocks it |
| WorkerRun.ComesToScan | modules/proc/worker/proc_worker.c:191-204 | over every schedule, such a worker comes to its scan within four moves of its own |
| ArgsSyntax.MeaningAt | modules/args/args.c:195-221 | each option is one insertion, in order, into the section of the last section word before it and under its name, or into the main section |
| ArgsSyntax.ParseRender | modules/args/args.c:191-234 | parsing a rendering of well-formed sections and options succeeds with exactly their insertions |
| ArgsSyntax.AcceptedIsRendered | modules/args/args.c:191-234 | every accepted command line is such a rendering, up to `--`, and made those insertions |
| ArgsSyntax.AcceptedIff | modules/args/args.c:197-231 | a command line is accepted iff it is such a rendering |
| ArgsSyntax.InsertionsInRange | modules/args/args.c:66-77 | every insertion names a section and an option the tables have a place for |
| Args.SectionPos | modules/args/args.c:66-77 | a place for A to Z and the main section, and no other |
| Args.SectionPosInjective | modules/args/args.c:42-45 | different sections have different tables |
| Args.UpdateOnConstrains | modules/args/args.c:98-126 | updates the declarations, or else counts every option found and takes its argument |
| Args.SummaryCounts | modules/args/args.c:111-123 | `found` is the number of occurrences and `arg` that of the last one |
| Args.InsertEntryLaw | modules/args/args.c:158-189 | an insertion into a section creates or merges the entry of that name and leaves the others |
| Args.BindArgs | modules/args/args.c:236-272 | succeeds iff every declared option that was found was found once if it may be given only once, has an argument if it needs one, and any argument is accepted by a callback; reports every count, or those before the first misfit |
| Args.Manager.InsertArgs | modules/args/args.c:158-189 | every stored entry keeps counting exactly the options inserted so far |
| Args.Manager.ParseArgs | modules/args/args.c:191-234 | terminates on every argv, accepts what the grammar accepts, and stores exactly the options of the command line |
| Args.Manager.ArgsRegister | modules/args/args.c:303-340 | succeeds iff the memory it asks for is granted, none being asked for an entry or slot that is there, and of the options given for that section and name every one that may occur once occurs at most once, and the last occurrence has an argument if one is needed and only one that a callback accepts; stores the declarations, leaves other entries alone, and reports the occurrence counts |
| Signals.Manager.UnregisterSignal | modules/signal/signal.c:137-149 | deletes the records of the signal and takes it out of the mask iff it met one |
| Signals.Manager.RegisterSignal | modules/signal/signal.c:151-198 | succeeds iff the signal is new and allowed and gets its table and record; adds the record and the mask bit, or changes nothing; corrupts exactly an emptied signal table |
| Signals.Manager.SignalRegister | modules/signal/signal.c:224-256 | succeeds iff the handler table of a known signal finds no such handler and has room, or a new signal can be registered; adds exactly the handler with its user data, or on every failing path leaves mask and handlers as they were; corrupts iff a new signal meets an emptied table |
| Signals.Manager.SignalUnregister | modules/signal/signal.c:200-222 | takes that handler away, unless it is null and the search stops at a hole, leaving every other with its user data, and the signal with its last one, which empties the table when it was the last signal |
| Signals.Manager.HandleSignal | modules/signal/signal.c:91-110 | calls exactly the non-null handlers registered for the signal, each once with its user data, those in later slots first, and leaves what is registered |
| Signals.WaitedExactly | modules/signal/signal.c:45-71 | a signal is waited for iff a handler is registered for it, and then one record holds it |
| Modules.AttachedExactly | src/module.c:382-395 | a module points at a core iff the core's hook table holds exactly one hook for it |
| Modules.Registry.RunCallbacks | src/module.c:314-379 | reaches the insertion iff the module is not attached, offers a hook of a size from 1 to the core's at a version not above the core's, and no callback or allocation asked for refuses; a failure always gives back hook and configuration, and the attach callback if the module can detach |
| Modules.Registry.AttachModule | src/module.c:306-397 | succeeds iff those checks do and the hook table, not emptied, has a hole, a free slot or room to grow, losing that table iff its growth misses a mask byte; a failure leaves modules, pointers and hooks as they were, and outstanding effects as stated |
| Modules.UndoneIff | src/module.c:342-393 | a failure gives back hook and configuration; it undoes everything iff the module can detach, or did not attach, and at the insertion the core has both callbacks or neither |
| Modules.RefusalDetachesTooMuch | src/module.c:384-393 | a core with a detach callback alone is told to detach what it never attached |
| Modules.DetachUndoesIff | src/module.c:281-304 | attaching and detaching gives everything back iff there is no configuration and the callbacks come in pairs |
| Modules.Registry.DetachModule | src/module.c:281-304 | crashes iff hooks are left and the cursor is on a hole; otherwise removes hook and pointer of that module only, frees the hook and runs the detach callbacks there are |
| Modules.Registry.DetachAll | src/module.c:439-446 | crashes iff the closed condition below fails; otherwise no module points at the core, all its hooks are gone and freed, and no other pointer or table changed |
| Modules.DetachesOnlyBackwards | src/module.c:287-298 | deleting all hooks in some order goes through iff there are none, or the cursor is on one and, for two or more, they are the last slots and come from the last one down |
| Modules.CoreDetachesOnlyBackwards | src/module.c:425-446 | the look-ups of the loop meet every hook once, so the loop goes through iff that holds of the registry order |

## Left out

- Modules.Registry.AttachModule: counts callbacks instead of running them, and says nothing about a hook table once it is lost.
- TableRuns.RunConserves: speaks of live cells, so it ends where a write leaves a state no cells describe; when that is, `CorruptIff` and `RunBreaksIff` say.
- TableKeys.RunKeepsUnique: ends there too.
- Tables.Table.ReallocAndMove: both reallocations succeed or neither takes effect; the code is left with moved chunks and an old mask when the second one fails.
- Tables.Table.Create: both callocs succeed or neither takes effect; the code leaves `head` pointing at freed memory when the second one fails.
- Signals.Manager.SignalRegister: takes signal numbers to be non-zero, as POSIX numbers are, because registering number 0 can end in the zeroed record of a hole, whose handler table does not exist.
- Signals.Manager.SignalRegister: says when a table is corrupted only while all tables are below 459 730 912 cells.
- Signals.Manager.HandleSignal: takes handlers that do not register or unregister while they run.
- Args.Manager.ParseArgs: stores exactly the command line only when memory is granted and fewer than 459 730 912 insertions were made; the counters are unbounded integers.
- WorkerSafety.NoLostWakeup: safety only; that a signalled worker is scheduled, or gets a lock it waits for, is not stated, and `ComesToScan` counts its own moves.
- WorkerStart.OnStartReachesAllIff: speaks of one thread walking the workers; two in on_start at once share the cursor and each tells some workers to run.
- Tables.Table.WriteChunk: says nothing of a further call on a table with a live chunk under a set hole bit, nor of searching one with stray mask bits.
- Serial.Processor.OnStart: takes the pass during which the processor is stopped as a parameter, and processes that do not register or unregister while they run.
- Thread cancellation in on_stop, and worker_create and its failures: the worker table is fixed before the first step.
- A worker reads its process after releasing the locks; the model takes the process as the value found at selection time.
- Overflow of the byte size of an allocation; sizes and counters in slots wrap as in the code where they are computed.
- args_unregister, args_show, and the debug and trace output.
- Registration of modules and cores, name prefixing, core-providing modules, and unloading; src/core.c repeats src/module.c.
- Loading modules from directories, configuration parsing, the debugger, the alternate signal stack, signal_wait and the test drivers.
