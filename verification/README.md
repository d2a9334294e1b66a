# Verified models of the scan engine, the relayer queue, the codecs and the migration runner

Four parts of the repository carry its correctness arguments, and each is modelled here and proved.

**The scan flow engine.** Ingest appends raw logs to one numbered log per chain. A reader keeps a cursor per
chain, takes the next batch, applies each event leg by leg and commits the rows together with the cursor. A
batch that fails is retried row by row, and an event that keeps failing is parked. A rebuild empties the
tables and replays. `Merge` and `Tables` are the upsert every leg goes through; `EventLog` is the event store;
`ReaderProtocol` is the reader as a state machine whose steps are database transactions, with a crash possible
between any two, and with rows merged and deleted past the reader; `Parking` says which events end up both parked
and committed; `Replay` draws the consequence that drained tables are a function of the store, and `Witnesses` holds
the runs that show its conditions needed. `Passes` is the coalescing of nudges: calls of `start` and `trigger`
interleaved with suspended runs. `Flows`, `Routing`, `Readers` and `Drain` are the program itself, whose every
transaction is proved to be a step of the protocol and whose every nudge, pass and visit of a chain one of `Passes`;
`Rewinds` is the filing and applying of re-scans.

The replay theorem (`Replay.SameStoreSameRow`, and `Drain.DrainsAgree` of the program) is about one row of the
tables, and holds under these hypotheses:

- all legs of the reader key on the primary key, by keys that neither look at the tables nor change them
  (`Replay.Means`, met by `Readers.CommutativeFlowsHaveMeaning`): the intents and the feeds readers;
- the writes to the row that the stored events and the merges lead to agree (`Replay.WritesAgree`);
- since the last rebuild the row was not pruned, and the same was merged into it, past the two readers that are
  compared (`Replay.SameMerges`): the feeds reader prunes, and the intents reader has its settlements merged;
- since then no event had its extrinsic filled in, after it was read, so that it yields other writes
  (`Replay.FillsRead`);
- since then no event that would have yielded a write was given up on after its last attempt
  (`Replay.GivesUpWrongly`); a drain none of whose calls failed never does that.

**Cooperative concurrency.** `BoundedQueue` and `RelayerQueue` treat an async function as run-to-completion
steps between awaits. The state holds the continuations that wait and those that have been woken, any of which
may resume next, and the classes are proved to make exactly those steps.

**Codecs and exact arithmetic.** `Numerals`, `Base58`, `Hex` and `Zcash` are the transparent addresses (draft-msporny-base58,
sections 3 and 4; section 5.6.1.1 of the Zcash Protocol Specification). `Delegate` is the Borsh layout of NEP-366's
signed delegate action. `NttPayload` and `Vaa` are the nested, length-prefixed NTT messages, read in three
different ways and written in one. `Staleness` is the open-market clock, `Coins` the coin selection.

**The migration runner.** `Migration` keeps the state file and the running process apart: a run may die at any
await, and what was saved is what the next one finds.

`Wrappers`, `Text` and `Buffers` hold what several modules share. `dafny verify dfyconfig.toml` checks everything.

## What the models assume

- A COMMIT that reports an error has committed nothing, and each SQL transaction is atomic. Transactions that
  overlap have the effect of running one after the other. Where legs key on the primary key row locks give that:
  a merge or deletion of rows an open transaction has not touched may as well precede it
  (`Tables.UpsertPassesOthers`, `Tables.PrunePassesOthers`), and one of rows it has touched waits.
- Nothing writes a reader's tables but its drain, the upserts by primary key of the settlement, confirm and
  withdraw pollers (the intents and transfers readers) and the hourly pruning (the feeds reader).
- A reader name has one process and a chain has one ingest writer, so event numbers of a chain ascend.
- `saveState` replaces the file atomically and does not throw.
- A leg's key is a function of the event and the tables, which it may change: in the transfers reader
  `adoptOrphan` (basejump/flows.ts:54) renames a row. A leg's patch, a hash, the text codec and the collation are
  functions of their arguments. The theorems hold for every such function, or name what they need of it.
- A relayer process goes on after a rejected `drain()` that nobody awaits: by Node's default an unhandled rejection
  would end it, and no handler is installed. What is said of moments after a balance check or a reload threw is said
  of a process that survives.
- Letter case is ASCII's: the texts compared are addresses, topics and hexadecimal.

## Where the code and its documentation differ

The models follow the code, and each point is a theorem.

- "Legs may arrive in any order" needs agreement: equal ranks keep the first arrival and a column written twice
  keeps the last value (`Merge.OrderCanMatter`; exactly when is `Merge.OrderInsensitiveIffAgreeing`).
- `insertEvents` returns more than "how many were new": it counts extrinsics filled in as well
  (`EventLog.CountExceedsGrowth`; exactly when is `EventLog.TouchedIsGrowthIff`).
- A reload that throws loses its task, which is neither settled nor put back, so promises are left unsettled
  (`RelayerQueue.UnsettledCanHappen`; exactly when is `RelayerQueue.AllSettledIff`); a balance check that throws
  strands pending tasks (`RelayerQueue.StrandedCanHappen`) exactly when no other drain is suspended, until the next
  task is added (`RelayerQueue.StrandedIff`, `RelayerQueue.AddRescues`).
- The advice to skip a failed migration step with `--from` the next step does not skip it
  (`Migration.FromAheadDoesNotSkip`), and "Migration complete" can be recorded with steps missing
  (`Migration.PauseAtDoneLies`, `Migration.FromDoneLies`; exactly when is `Migration.CompleteMeansComplete`).
- The empty body has a base58check text that does not decode (`Base58.EmptyBodyRefused`).
- A payload whose declared lengths run past its end is still read as a transfer (`NttPayload.ShortIsTransfer`,
  `NttPayload.CutShortIsTransfer`; which are read in full is `NttPayload.RebuiltIffWhole`).
- A market age is exact a little beyond its cap too, as long as the market is closed there
  (`Staleness.AgeExactIff`).
- An event may be both parked and committed: a crash between parking it and stepping over it leaves it to be
  tried again (`Witnesses.BothCanHappen`; exactly when is `Parking.BothIffInterrupted`).
- An extrinsic filled in after its event was read reaches the tables by a rebuild only, which then gives other
  tables than the reader had (`Witnesses.FillAfterReadDiffers`).
- "Nothing else writes their tables" (drain.ts:46) is not so of three of the four readers. What pollers merged a
  rebuild loses (`Witnesses.RebuildLosesMerge`), and what was pruned it brings back
  (`Witnesses.RebuildRestoresPruned`).
- State "never regresses" (upsert.ts:18-19) and no row is lost, until a rebuild or a pruning, where keys only look
  (`Readers.RunOnlyAdvances`); a key that renames a row loses it under its old key (`Witnesses.RenamingKeyLosesRow`).

## Model

| member | source | states |
|---|---|---|
| Merge.FoldRowState | agents/scan/src/flow/upsert.ts:43-52 | the state of a row fed any contributions is that of the first one of the highest rank: rank never falls and an equal rank never replaces |
| Merge.UpsertMerges | agents/scan/src/flow/upsert.ts:40-52 | one upsert over a stored row, from the declared numbers and columns alone: the claimed state takes over exactly if its number is greater, an undeclared state counting as -1; a declared column the patch holds takes its value and every other keeps its own; an inserted row holds the claimed state and the declared columns of the patch |
| Merge.DeclaredStateWins | agents/scan/src/flow/schema.ts:48-52 | of two declared states the one with the greater number wins; one numbered 0 or more replaces an undeclared one, and an undeclared one never replaces it |
| Merge.FoldRowGreatest | agents/scan/src/flow/upsert.ts:43-52 | where every contributed state is declared, the row holds the first of those whose declared number is greatest |
| Merge.FoldRowIgnoresUndeclared | agents/scan/src/flow/schema.ts:48-52 | contributions of undeclared states are passed over as soon as one claims a declared state numbered 0 or more; if none is declared, the first one stays |
| Merge.FoldRowColumn | agents/scan/src/flow/upsert.ts:41-52 | a column holds what the last contribution whose patch has it brought, if it is declared, and is NULL exactly while none has brought it |
| Merge.FoldRowMonotone | agents/scan/src/flow/upsert.ts:17-24 | along any run the rank of a row never falls and a set column never becomes NULL |
| Merge.ValidLegsIff | agents/scan/src/flow/schema.ts:57-73 | a row passes the prerequisite predicate exactly when, for every column some contribution set, some contribution set the column it needs, in whatever order and with whatever values |
| Merge.SameContributionsSameRow | agents/scan/src/flow/upsert.ts:17-24 | agreeing contributions leave one row, in any order and however often each is repeated |
| Merge.TopRankedFirstWins | agents/scan/src/flow/upsert.ts:47-50 | a contribution of the highest rank decides the state when it arrives first |
| Merge.LastWriterWins | agents/scan/src/flow/upsert.ts:41-42 | a contribution that writes a column decides it when it arrives last |
| Merge.OrderInsensitiveIffAgreeing | agents/scan/src/flow/upsert.ts:17-24 | the documented "legs may arrive in any order" holds of a set of contributions if and only if non-null writes to a column agree and all contributions of the highest rank claim one state |
| Merge.OrderCanMatter | agents/scan/src/flow/upsert.ts:41-42 | a set for which it fails: two legs that write one column differently, and the row tells which came last |
| Tables.UpsertedRow | agents/scan/src/flow/upsert.ts:40-52 | an upsert by primary key changes its own row and no other, inserting where there was none and merging, state by number and columns by patch, where there was one |
| Tables.RowIsFold | agents/scan/src/flow/upsert.ts:40-52 | every row of a table filled by upserts is the fold of the contributions to it, and exists exactly when there was one |
| Tables.UpsertedAllAppend | agents/scan/src/flow/upsert.ts:40-52 | writing two batches one after the other is writing their concatenation |
| Tables.SameWritesSameTables | agents/scan/src/flow/upsert.ts:17-24 | two sequences with the same set of agreeing writes leave the same tables, whatever the order and repetition |
| Tables.SameRow | agents/scan/src/flow/upsert.ts:17-24 | and a row to which two sequences make the same agreeing contributions is the same, whatever becomes of the other rows |
| Tables.UpsertPassesOthers | agents/scan/src/flow/upsert.ts:40-52 | an upsert of a row that other writes leave alone may as well come before them, so one that waited for no lock of an open transaction has the effect of preceding it |
| Tables.PrunePassesOthers | agents/scan/src/apps/feeds/db.ts:35-41 | and so may the deletion of such rows |
| EventLog.InsertExtends | agents/scan/src/db.ts:132-156 | an insert by the one writer of a chain keeps numbers ascending and keys distinct, and only extends the log: no event moves, vanishes or changes but for an extrinsic filled in |
| EventLog.InsertedRow | agents/scan/src/db.ts:132-156 | one insert, field by field: an event whose transaction and log index no row has is appended with its number and chain, address and sender in lower case and every other field as handed over; otherwise the row it names takes its extrinsic if it has none, and nothing else changes |
| EventLog.RescanIsFree | agents/scan/src/db.ts:123-131 | writing a batch again, under whatever new numbers, changes nothing and counts nothing |
| EventLog.SettledStays | agents/scan/src/db.ts:135-139 | an event whose insert would be ignored stays so through any later insert |
| EventLog.CountsSum | agents/scan/src/db.ts:132-156 | every event of a batch is added, filled in or ignored, and the log grows by exactly those added |
| EventLog.TouchedIsGrowthIff | agents/scan/src/db.ts:123-156 | the number of rows touched is at least the growth of the log, and equals it if and only if no event of the batch is the first to bring an extrinsic to a row, stored or earlier in the batch, that lacks one |
| EventLog.CountExceedsGrowth | agents/scan/src/db.ts:123-156 | a batch for which they differ: an event and then the same event with its extrinsic count two, and add one |
| EventLog.BatchByOneMore | agents/scan/src/db.ts:134-154 | each event of a batch counts one row touched unless it is ignored |
| EventLog.PositionCuts | agents/scan/src/db.ts:303-317 | in an ascending log a watermark separates exactly the events at or below it from those above |
| EventLog.TakeIsNextSlice | agents/scan/src/db.ts:302-309 | a reader is handed the rows straight above its watermark, in order and at most the limit |
| ReaderProtocol.TakenAreNext | agents/scan/src/flow/drain.ts:148-150 | what is taken is empty exactly when the log is drained, and otherwise the next rows above the cursor: 500, or all that are left if fewer |
| ReaderProtocol.TwoAttempts | agents/scan/src/flow/drain.ts:196-211 | a row of a failed batch is tried twice: its first failure leaves one attempt and its second is the last |
| ReaderProtocol.CommittingCursor | agents/scan/src/flow/drain.ts:183-184 | a committed batch makes exactly its own rows seen, and moves no other chain |
| ReaderProtocol.CommittingKeepsDisk | agents/scan/src/flow/drain.ts:177-193 | committing the next rows with their cursor keeps the whole disk invariant |
| ReaderProtocol.CommitRowKeeps | agents/scan/src/flow/drain.ts:203-211 | a row committed by the row-by-row retry keeps the invariant and leaves the rest of the batch as the next rows |
| ReaderProtocol.StepOverKeeps | agents/scan/src/flow/drain.ts:215-216 | stepping over an event already parked skips nothing that is neither committed nor parked |
| ReaderProtocol.IngestKeepsDisk | agents/scan/src/db.ts:15-22 | events inserted while a reader works land above every cursor and keep the disk invariant |
| ReaderProtocol.IngestKeepsNextRows | agents/scan/src/db.ts:15-22 | rows already in a reader's memory remain the next ones of their chain while ingest inserts |
| ReaderProtocol.RebuildKeeps | agents/scan/src/db.ts:351-371 | a rebuild leaves an empty reader with the invariant intact |
| ReaderProtocol.StepKeepsInv | agents/scan/src/flow/drain.ts:145-220 | every step (ingest, batch committed or rolled back, row committed or failed, park, step over, rebuild, crash, a row merged or rows deleted past the reader) keeps: cursors at events, committed events only seen ones and in log order, none skipped, tables equal to what the committed events and the merges and deletions in between make of empty ones |
| ReaderProtocol.RunKeepsInv | agents/scan/src/flow/drain.ts:145-220 | the invariant holds in every state of every run from an empty reader |
| ReaderProtocol.EveryStateIsExactlyOnce | agents/scan/src/flow/drain.ts:30-36 | between any two transactions of any run, crashes included: an event at or below the cursor is committed or parked, none above it is committed, none is committed twice since the last rebuild, and the tables are what the committed events, and the rows merged and deleted past the reader, make of empty ones in the order they came; the committed events alone, if there was nothing else |
| ReaderProtocol.StepGoesForward | agents/scan/src/db.ts:319-331 | nothing but a rebuild moves a cursor back; a committed batch moves it by its length and a committed or skipped row by one; logs only grow |
| Parking.RunAccounts | agents/scan/src/flow/drain.ts:195-220 | in any run a parked event is about to be stepped over, or was stepped over and not committed, or was left by a crash between parking it and stepping over it |
| Parking.BothIffInterrupted | agents/scan/src/flow/drain.ts:212-217 | a committed event is parked as well if and only if, since the last rebuild, the process died between parking it and stepping over it |
| Witnesses.BothCanHappen | agents/scan/src/flow/drain.ts:212-217 | some run, for any event, ends with it both parked and committed |
| Replay.ChangedIsUpserted | agents/scan/src/flow/drain.ts:223-261 | a row that was not pruned is what the writes of the events and merges so far make of it, in order |
| Replay.CommittedIsStored | agents/scan/src/flow/drain.ts:108-220 | once drained, what made the tables is every write that stored events yield and every row merged past the reader, and nothing else, if each committed event yields what it did when it was read and only events that yield nothing were missed |
| Replay.DrainedTablesFromStore | agents/scan/src/flow/drain.ts:108-220 | under the same two conditions on its one state, a row of a drained reader that was not pruned is what the stored writes and the merges make of it, upserted in any order, with any repetition, if the writes to that row agree |
| Replay.DrainIsConfluent | agents/scan/src/flow/drain.ts:108-220 | two such states that have drained the same store agree on every row neither had pruned and into which the same was merged, whatever the interleaving of chains, the batches, the crashes and the rebuilds |
| Replay.StepKeepsUnspoilt | agents/scan/src/flow/drain.ts:145-220 | every step keeps these conditions, merges and deletions past the reader included, unless it fills in an extrinsic so that an event already read yields other writes, or gives up on an event that would have yielded some |
| Replay.RunStaysUnspoilt | agents/scan/src/flow/drain.ts:145-220 | so does every run in which each such step was followed by a rebuild; a first attempt may fail for any reason |
| Replay.SameStoreSameRow | agents/scan/src/db.ts:342-346 | the replay theorem, row by row: two runs that have drained the same store, a rebuild in between or not, agree on every row that neither had pruned, and into which the same was merged past them, since its last rebuild, if the writes to it agree, the legs key on the primary key by keys that do not look at the tables, and since then neither run had an event filled in to another yield after reading it nor gave up on one that would have yielded something |
| Replay.SameStoreSameTables | agents/scan/src/db.ts:342-346 | and the same tables, if all rows meet this: nothing pruned, the same merged, all writes agreeing |
| Witnesses.FillAfterReadDiffers | agents/scan/src/db.ts:123-126 | the condition on fill-ins is needed: a reader that writes the extrinsic, drained before and after a rebuild over one store, has different tables when the extrinsic was filled in after the event was committed |
| Witnesses.RebuildLosesMerge | agents/scan/src/apps/intents/settlement.ts:64-88 | the condition on merges is needed: for any reader and any row merged past it, a rebuild takes the row away, with every other condition met |
| Witnesses.RebuildRestoresPruned | agents/scan/src/apps/feeds/db.ts:28-42 | so is that on pruning: a row pruned is missing from a reader that has read everything, and there in one that has replayed the same store |
| Flows.Client.Reconcile | agents/scan/src/flow/upsert.ts:86-99 | by primary key the row is merged into or inserted, by another column the row that holds the key is merged into, and no other row changes; it fails exactly with two holders of the key or a repeated unique value, and then changes nothing; the result names the merged row, whether it is new and its previous state, or nothing when an alternate key matched none |
| Flows.Client.KeyOf | agents/scan/src/flow/drain.ts:247-248 | a key is asked on the transaction's client, and the tables are as it leaves them |
| Flows.PrimaryReconciled | agents/scan/src/flow/upsert.ts:40-52 | by primary key: the row of that key is merged into, state by declared number and columns by patch, or inserted; every other row stays |
| Flows.AlternateReconciled | agents/scan/src/flow/upsert.ts:54-73 | by another column: the row that holds the key there is merged into, state by declared number and columns by patch; every other row stays, none appears, and with no such row nothing changes |
| Flows.NotScalarIff | agents/scan/src/flow/upsert.ts:37-37 | the subquery for the previous state fails exactly when the key column is not the primary one and two rows of the flow hold the key |
| Flows.UniqueViolationIff | agents/scan/src/flow/schema.ts:30-33 | otherwise the statement fails exactly when the patch would give its row a declared unique value that another row of the flow holds |
| Flows.LegSkips | agents/scan/src/flow/drain.ts:247-248 | a leg throws where its key or patch does, and leaves the tables as its key does where the event is not its own |
| Flows.PrimaryLegMerges | agents/scan/src/flow/drain.ts:229-259 | a leg without a column of its own merges its patch, under its state, into the row its key names, and throws exactly if that would repeat a unique value |
| Flows.AlternateLegMerges | agents/scan/src/flow/drain.ts:229-259 | a leg with a column of its own merges into the row that holds its key there, changes nothing where none does, and throws exactly if two do or the merge would repeat a unique value |
| Flows.ReconcileOnlyAdvances | agents/scan/src/flow/upsert.ts:17-73 | by primary or alternate key: no row vanishes, no rank falls, no set column becomes NULL, other flows are untouched, a row appears only under its primary key, and unique columns stay unique |
| Flows.LegsAdvance | agents/scan/src/flow/drain.ts:223-261 | what the legs make of an event takes no row away, lowers no rank and unsets no column, whatever columns they key on, if no key does more than look |
| Flows.MergedPastIs | agents/scan/src/flow/upsert.ts:86-99 | a row merged past the legs is the upsert, by primary key, of the flow it names |
| Flows.MergedPastMerges | agents/scan/src/flow/upsert.ts:86-99 | row by row: it is merged into or inserted there, and refused exactly if there is no such flow or a unique value would be repeated |
| Flows.LegIsItsWrites | agents/scan/src/flow/drain.ts:229-259 | a leg keyed on the primary key does to any tables exactly its own write, or fails whatever they hold |
| Flows.LegsAreTheirWrites | agents/scan/src/flow/drain.ts:223-261 | with such legs an event is the sequence of its writes, whatever the tables hold |
| Readers.EventGoesToClaimants | agents/scan/src/flow/drain.ts:223-233 | an event is applied by the leg objects that claim it, each once and in definition order, and by no other; one without topics changes nothing |
| Readers.CommutativeFlowsHaveMeaning | agents/scan/src/flow/drain.ts:223-261 | flows whose legs key on the primary key, by keys that do not look at the tables, and have no unique columns make a reader the replay theorem applies to |
| Readers.RunOnlyAdvances | agents/scan/src/flow/upsert.ts:17-24 | in any run, until a rebuild or a pruning takes it away, a row does not vanish, its rank does not fall and no set column of it becomes NULL, whoever merges rows past the reader, if no key does more than look |
| Witnesses.RenamingKeyLosesRow | agents/scan/src/apps/transfers/basejump/flows.ts:54-75 | that is needed: with a key that renames a row as adoptOrphan does, the row vanishes under its old key |
| Routing.Router.constructor | agents/scan/src/flow/drain.ts:49-74 | the loops over flows, legs, watch entries and addresses build an index that for every key lists the claiming legs, and the list of chains read |
| Routing.Router.AddLeg | agents/scan/src/flow/drain.ts:56-71 | one leg over all watch entries adds itself to exactly the keys some entry claims it for, and only where that leg object is not listed yet |
| Routing.Router.AddEntry | agents/scan/src/flow/drain.ts:62-69 | one leg over the addresses of one entry adds itself to each key at most once, though entries share contracts |
| Routing.ClaimingIsExact | agents/scan/src/flow/drain.ts:54-73 | the reference relation lists each claiming leg object exactly once, at its first place in definition order |
| Routing.IndexIsExact | agents/scan/src/flow/drain.ts:54-73 | for every key the lookup holds each leg object some watch entry claims it for exactly once, at its first place in definition order, and nothing else; a leg object two flows share is routed to the first only; a chain is drained exactly when some leg is on an entry of it |
| Routing.ClaimedIff | agents/scan/src/flow/drain.ts:54-73 | an event is claimed by a leg exactly when their topics agree and some watch entry of the event's chain, with the leg's role and among the chains the leg names, if it names any, lists the event's address, letter case aside |
| Routing.RouteKeyInjective | agents/scan/src/flow/drain.ts:285-291 | chains and addresses without a colon are told apart by their route keys, up to letter case |
| Drain.Database.InsertEvents | agents/scan/src/db.ts:132-156 | the batch loop leaves the log with all events inserted and returns the number of rows touched, which is at least the number new, and equals it exactly when no event brings an extrinsic to a row that lacks one |
| Drain.Database.InsertEvent | agents/scan/src/db.ts:135-152 | one insert extends its chain's log by at most a row and moves no reader |
| Drain.Database.ReaderSeq | agents/scan/src/db.ts:311-317 | a reader's cursor, 0 where it has none |
| Drain.Database.TakeRows | agents/scan/src/flow/drain.ts:148-150 | an empty answer means the chain is drained; otherwise the rows are the batch held in memory |
| Drain.Database.Commit | agents/scan/src/flow/drain.ts:183-184 | tables and cursor move together to the result of the batch, as one step of the protocol |
| Drain.Database.RollBack | agents/scan/src/flow/drain.ts:186-189 | a failed transaction writes nothing and leaves the batch to be retried row by row, or the row one attempt further |
| Drain.Database.MergeRow | agents/scan/src/apps/intents/settlement.ts:64-88 | a row merged past the reader is upserted as one step of the protocol, and an upsert that throws changes nothing |
| Drain.Database.PruneRows | agents/scan/src/apps/feeds/db.ts:35-41 | a deletion past the reader is one step of the protocol |
| Drain.Database.DeadLetter | agents/scan/src/db.ts:333-340 | the failing event is parked and nothing else on disk changes |
| Drain.Database.AdvanceReader | agents/scan/src/db.ts:319-331 | the parked event, and only it, is stepped over |
| Drain.Database.ApplyRebuild | agents/scan/src/db.ts:351-371 | a rebuild asked for empties tables, progress and parked events and clears the request; otherwise nothing changes |
| Drain.Database.ValidInv | agents/scan/src/flow/drain.ts:145-220 | whatever the reader's methods have done to the database is a run of the protocol, so its invariant holds at every await |
| Drain.Drain.constructor | agents/scan/src/flow/drain.ts:49-74 | the reader starts idle with an exact routing index and the chains of its watch entries |
| Drain.Drain.Apply | agents/scan/src/flow/drain.ts:223-261 | an event is applied by every claiming leg in turn on the transaction's client, or fails as a whole |
| Drain.Drain.ApplyOne | agents/scan/src/flow/drain.ts:229-259 | one leg skips events that are not its own, ignores an alternate key that matches nothing, and otherwise merges its contribution |
| Drain.Drain.ApplyRows | agents/scan/src/flow/drain.ts:182-182 | the client ends with the rows applied in order, or a call failed, or some row cannot be applied; others may insert and nudge meanwhile |
| Drain.Drain.ApplyBatch | agents/scan/src/flow/drain.ts:177-193 | on success the cursor has moved by the batch and the last changes to the tables are its rows in order; on failure none of it is written, and only a call that failed or a row that cannot be applied to the tables as they were found is one |
| Drain.Drain.Transact | agents/scan/src/flow/drain.ts:178-190 | from BEGIN on nothing but the rows comes between the tables as they were found and as they are committed; a transaction that fails leaves them as they were |
| Drain.Drain.TryRow | agents/scan/src/flow/drain.ts:203-211 | a row is committed within two attempts, or failed for good because a call failed or it cannot be applied to the tables as the last attempt found them |
| Drain.Drain.OneRow | agents/scan/src/flow/drain.ts:201-217 | a row of a failed batch ends committed, or parked and stepped over, unless recording that throws; if no call fails it is committed, or parked because it could not be applied to the tables of some moment during its retries |
| Drain.Drain.ApplyEachRow | agents/scan/src/flow/drain.ts:195-220 | a failed batch is passed row by row: unless a call failed, the cursor is past the whole batch |
| Drain.Drain.NextBatch | agents/scan/src/flow/drain.ts:147-167 | each round moves the cursor up or finds the chain drained, unless a call failed |
| Drain.Drain.DrainChain | agents/scan/src/flow/drain.ts:145-169 | draining a chain ends, and unless a call failed everything stored by then is at or below the cursor |
| Drain.Drain.Rebuild | agents/scan/src/flow/drain.ts:127-143 | unless the call fails, no rebuild is asked for any more, and one that was has emptied tables, cursors and parked events; a failure is ignored and writes nothing; events stored stay stored either way |
| Drain.Drain.VisitChain | agents/scan/src/flow/drain.ts:114-119 | the next chain of the open pass is visited and drained |
| Drain.Drain.Pass | agents/scan/src/flow/drain.ts:112-120 | a pass visits every chain in order, past one that throws; unless a call failed everything stored when it began has been read and a rebuild asked for by then has been run |
| Drain.Drain.Run | agents/scan/src/flow/drain.ts:108-125 | a call opens a pass and the run ends with none open and no nudge pending; its last pass began no earlier than any nudge during it, and unless a call failed whatever was stored, and any rebuild asked for, when the run started and when each nudge arrived has been read and run: no nudge is lost |
| Drain.Drain.Trigger | agents/scan/src/flow/drain.ts:99-106 | a nudge during a pass asks for another and does nothing else; otherwise a run starts, and unless a call fails whatever was stored and asked for by the nudge has been read and run when it ends |
| Drain.Drain.Start | agents/scan/src/flow/drain.ts:84-93 | a reader with chains makes its first run at once, past the guard, with the same result; one without does nothing |
| Drain.ServedIsRebuilt | agents/scan/src/db.ts:342-371 | whatever asked for a rebuild before a moment that has been served, a rebuild has run since that moment |
| Passes.StepKeepsInv | agents/scan/src/flow/drain.ts:99-125 | every call of start or trigger and every resumption of a suspended run keeps: at most one pass open, busy exactly while one is; every pass that ended visited every chain once in order; every nudge has a pass begun after it unless again is set |
| Passes.RunKeepsInv | agents/scan/src/flow/drain.ts:99-125 | and so does every interleaving |
| Passes.PassesNeverOverlap | agents/scan/src/flow/drain.ts:99-125 | at no moment of any interleaving has more than one pass begun and not ended |
| Passes.NoNudgeLost | agents/scan/src/flow/drain.ts:99-106 | after any interleaving a pass began after each nudge, or the nudge is pending behind the one open pass, which will go round again |
| Passes.WholePassAfterNudge | agents/scan/src/flow/drain.ts:108-125 | once no run is suspended, a whole pass over every chain in order lies after each nudge |
| Passes.RunPastGuardOverlapsIff | agents/scan/src/flow/drain.ts:84-93 | calling run past the guard, as start does, makes two passes overlap if and only if one is under way |
| Drain.FairIsClean | agents/scan/src/flow/drain.ts:145-220 | the runs the methods make are among those of the replay theorem: with no call failed, or no row given up on that could be applied, and every event filled in to another yield after being read rebuilt since |
| Drain.DrainsAgree | agents/scan/src/db.ts:342-346 | two drains with the same definition, whose rows were only given up on rightly and whose late fill-ins that matter were rebuilt, that have read all of the same store agree on every row neither had pruned and into which the same was merged, when the flows have a meaning, as flows that key on the primary key do, and the writes to the row agree |
| Rewinds.Database.Rewind | agents/scan/src/admin.ts:30-43 | a command files one request for each cursor named, or one for all, merged with what was filed before |
| Rewinds.Database.ApplyRewinds | agents/scan/src/db.ts:189-213 | in whatever order the rows come: every cursor of the chain ends at the least of where it stood and of each applicable request minus one, no cursor appears or moves forward, other chains are untouched, and a failed transaction changes nothing |
| Rewinds.RewoundIsUnique | agents/scan/src/db.ts:197-205 | that outcome is unique, so the order of the rows does not matter |
| Rewinds.TableHoldsLeast | agents/scan/src/admin.ts:33-39 | after any commands the table holds for each name the least block asked for, and nothing else |
| Rewinds.NothingLost | agents/scan/src/db.ts:180-213 | merging with LEAST loses nothing: a tick sets a cursor to the least of where it stood and of one less than every block ever asked of it, by its name, by * or by a command that names none |
| BoundedQueue.PushingKeepsQueue | agents/scan/src/utils/queue.ts:10-17 | a push resumed among any others wakes a taker for each item it adds and keeps order and bound |
| BoundedQueue.TakingWakes | agents/scan/src/utils/queue.ts:19-27 | a take resumed among any others wakes a pusher for each slot it frees |
| BoundedQueue.TakingKeepsOrder | agents/scan/src/utils/queue.ts:19-27 | it returns items in order, and null only once the queue is closed and empty |
| BoundedQueue.WaitsIff | agents/scan/src/utils/queue.ts:10-27 | a push waits exactly on a full open queue and is dropped exactly on a closed one; a take waits exactly on an empty open one and returns null exactly on an empty closed one |
| BoundedQueue.LongestWaitingWoken | agents/scan/src/utils/queue.ts:10-27 | an appended item wakes the taker that has waited longest, a taken one the pusher that has; the oldest item is taken |
| BoundedQueue.StepKeepsInv | agents/scan/src/utils/queue.ts:2-36 | under every interleaving: waiting pushers stand behind at least as many woken ones as free slots, waiting takers behind as many as items; received items and the buffer are the appended ones in order; the buffer keeps its bound; every call is in exactly one place |
| BoundedQueue.RunKeepsInv | agents/scan/src/utils/queue.ts:2-36 | the invariant holds in every state of every run |
| BoundedQueue.NobodyWaitsInVain | agents/scan/src/utils/queue.ts:10-27 | with nothing about to run, a pusher waits only on a full queue and a taker only on an empty one, never both if there is room for one item, and neither after close |
| BoundedQueue.DeadlockIffNoRoom | agents/scan/src/utils/queue.ts:8-13 | a pusher and a taker can come to wait on each other if and only if the bound is below one |
| BoundedQueue.NullMeansDrained | agents/scan/src/utils/queue.ts:19-36 | items come out in the order they went in; once any take returned null, every item ever appended has been received and no more will be |
| BoundedQueue.BoundedQueue.Push | agents/scan/src/utils/queue.ts:10-17 | the method as written makes exactly the push step, and reports whether its promise settled |
| BoundedQueue.BoundedQueue.ResumePush | agents/scan/src/utils/queue.ts:10-17 | so does a resumed push, which looks at its guard again |
| BoundedQueue.BoundedQueue.Take | agents/scan/src/utils/queue.ts:19-27 | the method as written makes exactly the take step and returns what it hands out |
| BoundedQueue.BoundedQueue.ResumeTake | agents/scan/src/utils/queue.ts:19-27 | so does a resumed take |
| BoundedQueue.BoundedQueue.Close | agents/scan/src/utils/queue.ts:29-35 | closing wakes everyone waiting and leaves nobody waiting |
| RelayerQueue.SubmitKeeps | agents/relayer/src/engine/queue.ts:131-160 | however a submission ends, one at a time, add order and the nonce accounting survive |
| RelayerQueue.SubmissionSettles | agents/relayer/src/engine/queue.ts:131-163 | in any run: a submission that ends rejects its task exactly if it failed, resolves it exactly if it was sent, done already or dead, and ends no task for "nonce too low", which alone goes on to a reload; only success raises the nonce, by one |
| RelayerQueue.ReloadEnds | agents/relayer/src/engine/queue.ts:150-153 | a reload that returns sets the nonce and puts its task first in line; one that throws loses the task and keeps the nonce |
| RelayerQueue.NextIsTakenUp | agents/relayer/src/engine/queue.ts:125-132 | an added task goes last in line; then, and after a check that returns, the first in line is taken up under the current nonce if nothing is being worked on; after a check that throws nothing is |
| RelayerQueue.ReloadKeeps | agents/relayer/src/engine/queue.ts:150-153 | so they do when a reload returns, its task back at the front, or throws |
| RelayerQueue.CheckKeeps | agents/relayer/src/engine/queue.ts:160-164 | so they do when a balance check returns and drains again, or throws |
| RelayerQueue.StepKeepsInv | agents/relayer/src/engine/queue.ts:125-165 | under every interleaving: processing is set exactly while one drain works, under the current nonce; finished, worked-on and pending tasks are all tasks added, in order; pending tasks are behind a suspended drain unless a check ever threw |
| RelayerQueue.RunKeepsInv | agents/relayer/src/engine/queue.ts:125-165 | the invariant holds in every state of every run |
| RelayerQueue.AtMostOneInFlight | agents/relayer/src/engine/queue.ts:125-129 | at most one submission, or reload on its behalf, is ever in flight |
| RelayerQueue.FinishInAddOrder | agents/relayer/src/engine/queue.ts:136-159 | the k-th task to finish is the k-th added, so each settles at most once and in add order, even across "nonce too low" |
| RelayerQueue.NothingLeftAtRest | agents/relayer/src/engine/queue.ts:160-164 | with no drain suspended and no check ever thrown nothing is pending, and every promise handed out has settled if and only if no reload threw |
| RelayerQueue.StrandedIff | agents/relayer/src/engine/queue.ts:160-164 | tasks come to be stranded, pending with no drain left to take them, by one step exactly: the balance check of the last suspended drain throws while tasks are pending |
| RelayerQueue.StrandedCanHappen | agents/relayer/src/engine/queue.ts:160-164 | a run that strands a task: two added, the first sent, its balance check throws |
| RelayerQueue.AddRescues | agents/relayer/src/engine/queue.ts:187-192 | a stranded queue stays so until a task is added, which starts the oldest pending one |
| RelayerQueue.LostPerReload | agents/relayer/src/engine/queue.ts:150-163 | one task is lost, neither settled nor put back, for each reload that threw, and none otherwise |
| RelayerQueue.AllSettledIff | agents/relayer/src/engine/queue.ts:125-165 | at rest every promise ever handed out has settled if and only if no task is stranded and no reload ever threw |
| RelayerQueue.UnsettledCanHappen | agents/relayer/src/engine/queue.ts:150-163 | a run that is at rest, nothing pending and no check thrown, with a promise that never settles: its reload threw |
| RelayerQueue.NoncesConsecutive | agents/relayer/src/engine/queue.ts:131-151 | between reloads a submission's nonce is an earlier one's plus the successes in between: successes are consecutive and done, dead, failed and "too low" outcomes consume none |
| RelayerQueue.Queue.Add | agents/relayer/src/engine/queue.ts:187-192 | queues a task at the back and starts on it if none is being worked on |
| RelayerQueue.Queue.Drain | agents/relayer/src/engine/queue.ts:125-132 | takes the first pending task under the current nonce, and does nothing while another is worked on |
| RelayerQueue.Queue.SubmitEnds | agents/relayer/src/engine/queue.ts:131-163 | says which way the caller's promise settles: it rejects exactly on failure, stays open exactly on "nonce too low", and resolves otherwise; success alone raises the nonce |
| RelayerQueue.Queue.ReloadReturns | agents/relayer/src/engine/queue.ts:150-153 | the reloaded nonce is taken over and its task goes back to the front |
| RelayerQueue.Queue.ReloadThrows | agents/relayer/src/engine/queue.ts:152-163 | its task is neither settled nor put back |
| RelayerQueue.Queue.CheckReturns | agents/relayer/src/engine/queue.ts:160-164 | the follow-up drain starts on the next pending task |
| RelayerQueue.Queue.CheckThrows | agents/relayer/src/engine/queue.ts:160-164 | no drain follows |
| Migration.OutputNames | common/migration/runner.ts:121-133 | the outputs an action sees are named by exactly the completed steps before its own |
| Migration.ReadyFeeds | common/migration/runner.ts:121-133 | and their values are those the state file records |
| Migration.AppendedReady | common/migration/runner.ts:183-207 | a definition that keeps every step of the file at its place is accepted: the file's steps stay as they are, pending ones follow for the further names, and what was completed still is |
| Migration.RefusedIff | common/migration/runner.ts:183-220 | a run exits as changed if and only if some step of the file is not at its place in the definition, by index and name; else for --from if and only if that is given and names no step; both leave the file as it was |
| Migration.LoopsFromResumed | common/migration/runner.ts:183-258 | otherwise, without --from, the loop starts from the file's steps followed by one pending step for each further name, completedAt cleared exactly when one was appended |
| Migration.LoopsFromReset | common/migration/runner.ts:213-233 | with --from the steps from the named one on are pending again, keeping nothing but their names, and that is saved before anything runs |
| Migration.AppendedStepRuns | common/migration/runner.ts:183-312 | a complete migration to which a step was appended runs that step and is complete again |
| Migration.LoopWrites | common/migration/runner.ts:253-307 | every step on disk after a run is as the run found it or exactly what its action made of it: completed with its output, or failed with its message |
| Migration.StepCompletes | common/migration/runner.ts:272-303 | saving a completed step puts its output in the file and disturbs no earlier one |
| Migration.Runner.Prepare | common/migration/runner.ts:177-233 | refused as changed exactly when some step of the file is not at its place in the definition, and as unknown exactly when --from is given and names no step, with the file untouched; otherwise it goes on with the file's steps and pending ones after them, reset and saved if --from asks for it |
| Migration.Runner.ExecuteStep | common/migration/runner.ts:264-303 | a step is fed exactly the recorded outputs of all steps before it; it ends recorded, recorded as failed, or lost with the process, as the action and the remaining life of the process decide |
| Migration.Runner.Execute | common/migration/runner.ts:253-307 | steps run one after the other from the first one not completed, all but perhaps the last recorded; how the loop ends and what the file then holds are determined by the actions and where the process dies |
| Migration.Runner.RunMigration | common/migration/runner.ts:152-312 | exit and file are the function of file, options, actions and place of death that the theorems below are about, and it exits as changed exactly when a step of the file is misplaced; completed steps on disk form a prefix, steps before its start keep their outputs, it executes consecutive steps from there, each fed the recorded outputs of steps 0 to i-1, and at most the last execution is missing from the file |
| Migration.EndsByCause | common/migration/runner.ts:152-312 | a run whose process does not die ends refused, paused, failed at a step, refused for an unknown pause, or finished, each for its cause |
| Migration.CauseIsUnique | common/migration/runner.ts:152-312 | at most one of these causes holds, so a run that does not die takes an exit if and only if its cause holds |
| Migration.CompletedAtOf | common/migration/runner.ts:152-312 | completedAt after a run, for every exit: set by finishing, and otherwise as the file, or the definition resumed from it, had it |
| Migration.Session | common/migration/runner.ts:152-312 | any sequence of runs, crashes, appended steps and options is a sequence of such runs |
| Migration.NeverRunAgain | common/migration/runner.ts:213-233 | a step completed on disk is never run again and keeps its output through any runs and crashes, unless one is asked to start over from it or an earlier step |
| Migration.FromAheadDoesNotSkip | common/migration/runner.ts:296-298 | the printed advice to skip a failed step with --from the next one does not: a run that follows it and executes anything executes the failed step first |
| Migration.CompleteMeansComplete | common/migration/runner.ts:213-262 | told from the file and options before the run: whatever the actions do and wherever the process dies, a file with completedAt set has every step done, if and only if --pause-at does not name a completed step with steps left and --from does not start a complete migration over |
| Migration.PauseAtDoneLies | common/migration/runner.ts:258-262 | an input for the first failure: --pause-at a step already completed stamps completedAt with a step pending |
| Migration.FromDoneLies | common/migration/runner.ts:213-233 | an input for the second: --from over a complete migration, whose step then fails, leaves completedAt set over a failed step |
| Numerals.ValueOfDigits | agents/utxo/src/chains/base58.ts:19-20 | writing a number out digit by digit, in any base, and reading it gives the number back |
| Numerals.DigitsOfValue | agents/utxo/src/chains/base58.ts:19-20 | writing out the number a numeral denotes gives the numeral without its leading zeros |
| Numerals.ValueCons | agents/utxo/src/chains/base58.ts:12-20 | the first digit of a numeral weighs the base to the power of the digits that follow |
| Numerals.LittleEndian | agents/utxo/src/near/delegate.ts:23-28 | byte i of a little-endian number is its digit of weight 256 to the i |
| Numerals.BigEndian | agents/scan/src/ingest/payload.ts:67-85 | and byte i from the end of a big-endian one |
| Base58.IndexOf | agents/utxo/src/chains/base58.ts:13-17 | where a letter first stands in the alphabet, -1 for any other character |
| Base58.AlphabetAscends | agents/utxo/src/chains/base58.ts:3-3 | the alphabet is in strictly ascending character order, so no letter occurs twice |
| Base58.AlphabetIs | agents/utxo/src/chains/base58.ts:3-3 | the alphabet is the digits and letters of ASCII but 0, I, O and l |
| Base58.RebasedBack | agents/utxo/src/chains/base58.ts:12-44 | rewriting a numeral in another base with its leading zeros kept one for one is undone by rewriting it back |
| Base58.DecodeBase58 | agents/utxo/src/chains/base58.ts:12-26 | the big-integer loops end and return the bytes of the text, or throw exactly on a character outside the alphabet |
| Base58.EncodeBase58 | agents/utxo/src/chains/base58.ts:34-44 | the big-integer loops end and return the text of the bytes |
| Base58.DecodedEncoded | agents/utxo/src/chains/base58.ts:34-44 | every byte string, empty and all-zero ones included, comes back from its text |
| Base58.EncodedDecoded | agents/utxo/src/chains/base58.ts:12-26 | every text over the alphabet comes back from its bytes |
| Base58.EncodedValue | agents/utxo/src/chains/base58.ts:34-44 | the text of some bytes is a base 58 numeral of their value, after one "1" for each leading zero byte |
| Base58.CheckedText | agents/utxo/src/chains/base58.ts:65-72 | a base58check text is that of the body followed by its checksum |
| Base58.DecodedCheckIff | agents/utxo/src/chains/base58.ts:52-72 | a text decodes to a body if and only if it is that body's encoding and the body is not empty, for any 4-byte checksum |
| Base58.EmptyBodyRefused | agents/utxo/src/chains/base58.ts:59-59 | the encoding of the empty body is refused |
| Hex.UnhexOfHex | agents/utxo/src/chains/zcash.ts:30-34 | hexadecimal text of bytes reads back as the bytes |
| Hex.HexOfUnhex | agents/utxo/src/chains/zcash.ts:34-34 | the lenient reader keeps exactly the leading pairs that are bytes: written again they are that prefix in lower case, and what follows does not start with a byte |
| Hex.HexAt | agents/utxo/src/chains/zcash.ts:30-30 | each byte is written as its two lower-case hexadecimal digits, high one first |
| Hex.NibbleIff | agents/utxo/src/chains/zcash.ts:34-34 | exactly the hexadecimal digits are read, in either case, each as the digit it is written as |
| Zcash.EncodeIffDecode | agents/utxo/src/chains/zcash.ts:25-39 | an address is written as some bytes exactly when those are in the canonical spelling and read back as that address |
| Zcash.DecodeThenEncode | agents/utxo/src/chains/zcash.ts:33-39 | any spelling that decodes reads as an address whose canonical spelling carries the same body |
| Zcash.AddressTellsBody | agents/utxo/src/chains/zcash.ts:33-39 | distinct bodies have distinct addresses |
| Zcash.AddressIs | agents/utxo/src/chains/zcash.ts:33-39 | an accepted text reads as the base58 text of its 22-byte body and checksum |
| Zcash.PrefixUnread | agents/utxo/src/chains/zcash.ts:34-34 | whatever two characters stand before the hexadecimal digits, they are not looked at |
| Zcash.VersionBytes | agents/utxo/src/chains/zcash.ts:4-5 | the accepted bodies are 22 bytes starting 1C B8 or 1C BD |
| Delegate.ParsedLaidOut | agents/utxo/src/near/delegate.ts:32-47 | the parse of a laid out delegate gives its fields, and refuses as soon as anything follows |
| Delegate.LaidOutParsed | agents/utxo/src/near/delegate.ts:32-47 | whatever parses is the layout of the fields it gives, all within their widths, to the last byte |
| Delegate.BorshTells | agents/utxo/src/near/delegate.ts:49-61 | two delegates with the same bytes are the same |
| Delegate.BorshFields | agents/utxo/src/near/delegate.ts:32-61 | the bytes field by field: counted strings, one action of kind 2, a u64 and a u128, two u64 and an ed25519 key and signature of kind 0 |
| Delegate.DecodedLaidOut | agents/utxo/src/near/delegate.ts:20-63 | every laid out delegate decodes to its fields when its strings are UTF-8, and fails the re-encoding check otherwise |
| Delegate.ReencodingRefusesIff | agents/utxo/src/near/delegate.ts:60-62 | the re-encoding check refuses exactly the well laid out bytes with a string that is not UTF-8 |
| Delegate.DecodedIff | agents/utxo/src/near/delegate.ts:20-63 | the decoder is the inverse of the Borsh encoding: it returns a delegate exactly on that delegate's bytes |
| Delegate.OnlyWholeInputs | agents/utxo/src/near/delegate.ts:47-47 | no proper prefix of accepted bytes is accepted, and no extension |
| Delegate.RefusedFor | agents/utxo/src/near/delegate.ts:32-47 | which throw a wrong count of actions, kind of action, kind of key, kind of signature or trailing byte leads to, the first wrong one deciding |
| Delegate.ShortReadThrows | agents/utxo/src/near/delegate.ts:22-30 | a read throws exactly if the buffer ends before its last byte |
| Delegate.Reader.Raw | agents/utxo/src/near/delegate.ts:22-22 | a slice cut off at the end, with the cursor moved by the whole length regardless |
| Delegate.Reader.U32 | agents/utxo/src/near/delegate.ts:23-23 | a little-endian number, or a throw on a short slice |
| Delegate.Reader.U64 | agents/utxo/src/near/delegate.ts:24-24 | a little-endian number, or a throw on a short slice |
| Delegate.Reader.U128 | agents/utxo/src/near/delegate.ts:25-28 | the two halves read apart and put together |
| Delegate.Reader.Str | agents/utxo/src/near/delegate.ts:29-30 | a counted string and the cursor behind it |
| Delegate.U128Joined | agents/utxo/src/near/delegate.ts:25-28 | the halves put together are the sixteen bytes read as one little-endian number |
| Delegate.DecodeSignedDelegate | agents/utxo/src/near/delegate.ts:20-63 | the cursor program computes the decoder the theorems are about, each throw at its place |
| NttPayload.BytesOfWritten | agents/scan/src/ingest/payload.ts:68-68 | a payload reads as its bytes with or without 0x |
| NttPayload.ParsedLaidOut | agents/scan/src/ingest/payload.ts:67-106 | every field of a laid out transfer comes back, whatever follows it at any level: the sequence is the last 8 bytes of the id if its first 24 are zero and null otherwise, addresses are their last 20 bytes, the digest is over the manager message as it stands |
| NttPayload.ParsedSequenceIff | agents/scan/src/ingest/payload.ts:78-82 | the sequence of any parsed transfer is null if and only if some of the first 24 bytes of its id is not zero, and otherwise the number in its last 8 |
| NttPayload.IsTransferIff | agents/scan/src/ingest/payload.ts:67-77 | byte by byte, which payloads are taken for transfers: at least 215 bytes, the two prefixes, and declared lengths of at least 145 and 79 |
| NttPayload.ParsedFields | agents/scan/src/ingest/payload.ts:67-106 | at which bytes every field of a parsed transfer stands, whatever lengths its messages declare |
| NttPayload.ParsedOutcome | agents/scan/src/ingest/payload.ts:67-106 | null is returned exactly for what is not a transfer, and it throws exactly for a transfer with a source chain id that fits no u16 |
| NttPayload.SequenceOfPadded | agents/scan/src/ingest/payload.ts:78-82 | an id a sequence was written to reads as that sequence |
| NttPayload.ReadersAgree | agents/relayer/src/engine/ntt.ts:38-97 | whenever the parser returns a transfer, no fixed-offset reader finds the payload short, and prefix, sequence (if any), amount at every precision and recipient agree |
| NttPayload.FixedReadersThrowIff | agents/relayer/src/engine/ntt.ts:38-97 | on any payload whatever: when each fixed-offset reader throws, and which bytes it reads otherwise |
| NttPayload.ForManagerIff | agents/relayer/src/engine/ntt.ts:83-85 | a transfer is for a manager exactly when the parser reads that address and its padding is zero |
| NttPayload.NestedIsFixed | agents/relayer/src/engine/ntt.ts:7-19 | the bytes the nested lengths lead to are those at the fixed offsets |
| NttPayload.RebuiltIffWhole | agents/scan/src/ingest/payload.ts:67-85 | a transfer is rebuilt byte for byte from what was read exactly when neither declared length runs past the end |
| NttPayload.CutShortIsTransfer | agents/scan/src/ingest/payload.ts:67-85 | a transfer cut off anywhere from its 215th byte on is still taken for one, and a whole one stays whole exactly when the cut is behind the manager message |
| NttPayload.ShortIsTransfer | agents/scan/src/ingest/payload.ts:67-85 | so there is one that is not rebuilt: 215 bytes that declare a manager message of 65535 |
| Vaa.SignaturesNext | chopsticks/probes/_probeNearNttDelivery.ts:148-152 | each signature comes back as r, s and its recovery id plus 27 |
| Vaa.ParsedBuilt | chopsticks/probes/_probeNearNttDelivery.ts:145-171 | every part of a built VAA comes back: guardian set, signatures, body, emitter chain, emitter, sequence, recipient and transfer |
| Vaa.BodyLayout | crates/near/scripts/ntt-manager/forkVaa.ts:35-65 | where every field of a body is printed, the timestamp, nonce and consistency level that no parser reads back among them |
| Vaa.EnvelopeLayout | crates/near/scripts/ntt-manager/forkVaa.ts:35-65 | where the rest is: version 1, the guardian set, the number of signatures, each under its guardian with r, s and recovery byte in their places, and the body behind them |
| Vaa.RecoveredAt | chopsticks/probes/_probeNearNttDelivery.ts:148-152 | each recovered signature is r, s and the recovery id plus 27 |
| Vaa.SignaturesReadIff | chopsticks/probes/_probeNearNttDelivery.ts:147-152 | reading the signatures succeeds exactly when each has its last byte and that plus 27 fits a byte |
| Vaa.TransferAgrees | chopsticks/probes/_probeNearNttDelivery.ts:155-170 | on a payload the transfer parser accepts, the fixed offsets of the VAA parser read the same decimals, amount, recipient and chain |
| Vaa.ParsersAgree | chopsticks/probes/_probeNearNttDelivery.ts:145-171 | on a VAA around such a payload, the VAA parser fails for nothing but a recovery id, and reads the same transfer and recipient manager |
| Vaa.BuiltReadBack | crates/near/scripts/ntt-manager/forkVaa.ts:35-65 | what the builders print is read back by all three readers: the transfer with its sequence, the settlement sequence, and the VAA with its signatures, header and transfer |
| Staleness.ClosedWindow | agents/broadcaster/src/evm/staleness.ts:6-19 | the market is closed exactly from Friday 16:00 UTC to Monday 0:00 UTC of every week |
| Staleness.SameHour | agents/broadcaster/src/evm/staleness.ts:24-26 | it opens and closes on the hour |
| Staleness.OpenSecondsSplit | agents/broadcaster/src/evm/staleness.ts:21-31 | counting open seconds is additive over any split point |
| Staleness.OpenPerWeek | agents/broadcaster/src/evm/staleness.ts:21-31 | any seven days, from any second on, hold exactly 112 open hours |
| Staleness.MarketAge | agents/broadcaster/src/evm/staleness.ts:32-41 | the segment walk counts exactly the open seconds of the at most 720 hour segments it walks |
| Staleness.AgeExactIff | agents/broadcaster/src/evm/staleness.ts:3-4 | the capped age is the true one exactly when the span ends within the cap, which is 2,592,000 seconds from the start of its first hour, or the market is closed at the cap and has not reopened by the end |
| Staleness.AgeBounded | agents/broadcaster/src/evm/staleness.ts:3-4 | the age is at most 2,592,000 seconds, always |
| Staleness.AgeBeyondCap | agents/broadcaster/src/evm/staleness.ts:32-41 | and beyond the cap it is what had been counted there |
| Staleness.AgeAdds | agents/broadcaster/src/evm/staleness.ts:32-41 | ages add up over any split of a span within the cap |
| Staleness.AgeOfAWeek | agents/broadcaster/src/evm/staleness.ts:32-41 | a round exactly a week old has an age of 112 hours, whenever it was posted |
| Staleness.AgeNextSecond | agents/broadcaster/src/evm/staleness.ts:32-41 | within the cap the age grows by each open second and by no closed one |
| Coins.ListCoins | agents/utxo/src/near/coins.ts:20-31 | over one snapshot every coin is listed once and in order, with one empty page more where the last is full |
| Coins.BridgeFeeRounds | agents/utxo/src/near/coins.ts:46-48 | the bridge fee is the larger of the minimum and the ten-thousandths share rounded towards zero |
| Coins.SortedHead | agents/utxo/src/near/coins.ts:55-57 | the head of the stable sort is the first among the smallest by value and then id |
| Coins.ThrowsIff | agents/utxo/src/near/coins.ts:49-58 | it throws exactly when the fees are not covered, and exactly when no coin is worth the needed amount exactly or that and the minimum change |
| Coins.PickedIsBest | agents/utxo/src/near/coins.ts:45-60 | the coin returned is of least value, ties by id, among those that fit; it pays a positive user output, the miner fee and change that is nothing or enough; the balance pays the first two and the bridge fee |
| Coins.BestIsUnique | agents/utxo/src/near/coins.ts:55-57 | there is only one such coin |
| Coins.OutpointOf | agents/utxo/src/near/coins.ts:59-59 | the first @ becomes a colon and the rest stays |
| Coins.OutpointOfOther | agents/utxo/src/near/coins.ts:59-59 | an id without an @ stays as it is |

## Left out

- Network, RPC, Redis, Discord, server-sent events, the user interface and logging: outcomes of calls are nondeterministic.
- SQL text and its memoisation, DDL and `updated_at`: what the statements do to the tables is modelled.
- `broadcast` and `notifyRow` after a commit: best effort by design, and they change no table.
- `stop` and the backstop timer of a drain: the timer only nudges. `start` is modelled: drain.ts:90 calls `run` past
  the guard, and no await lies between subscribing to nudges and that call, so no pass can be under way
  (`Passes.Enabled`, `Passes.RunPastGuardOverlapsIff`).
- Several readers on one database: they share nothing but the store, which none of them writes.
- Decoding of events by ABI or from JSON: part of a leg's key and patch here.
- A required column that is the primary key or the state: prerequisites are columns of the flow.
- Drain.Drain.Run: does not promise that a pass in which a call failed is repeated, because the code leaves that to the backstop timer.
- Replay.SameStoreSameTables: does not cover readers one of whose flows has alternate-key legs, unique columns or keys that look at the tables (ingest and transfers), because such flows depend on arrival order by design.
- Two writers to one chain: event numbers would then not ascend at insert, as db.ts says.
- The syntax check of a rewind's block argument, the listing of cursors and the filing of rebuilds: they only add easy members.
- The watcher's own cursor writes: rewinds are applied at the start of its tick, so none is under way.
- `init` of the relayer queue, the gas arithmetic and the exit of `checkBalance`: a check returns or throws, and an exit ends every run.
- Classification of reverts by name: the outcome of a submission is one of five.
- Loading of env files and step definitions, wallets, and times of day in the migration state, which are only set or unset.
- Partial writes of the state file: not modelled, see the assumptions.
- An action that returns something other than an object or nothing.
- SHA-256, keccak, ECDSA and ed25519: parameters of any kind, with their lengths where the layout needs them.
- UTF-8 itself: the codec is a pair of functions, and the theorems say which strings survive it.
- near-api-js's own parser and encoder: taken to be base58 of a 32-byte key and the Borsh layout.
- Hexadecimal texts of odd length in the VAA parser, which would read half bytes: a VAA is bytes here.
- Fractional seconds and dates beyond what JavaScript can represent, 8.64e12 seconds from the epoch.
- A coin set that changes between pages: pages are taken from one snapshot.
- Migration definitions, contract scripts, probes' `main` functions, chain watchers, concrete flows and contracts.
