# A verified model of the CRDT relational engine

Every peer keeps an append-only log of ops and derives its relational state from
it; peers converge by exchanging ops.  This Dafny project models that engine and
proves what it is for: that equal logs give equal databases however the ops
arrived, that syncs are set union, that foreign keys and unique columns hold
after concurrent edits as far as they do, and that the fast paths (incremental
execution, indexes, scans, state merge) agree with the plain ones.

`dafny verify dfyconfig.toml` checks the whole project.

## Layout

| file | what it holds |
|---|---|
| `ByteStrings`, `Sorting`, `Splitting` | byte strings and their order; ordered iteration (a BTreeMap is iterated in key order), stable sorting; joining and splitting at a separator |
| `Clocks`, `Ops`, `OpLogs` | hybrid logical clocks, ops and schemas, the log with its two indexes |
| `MvRegisters`, `OrSets`, `RowStores`, `StoreObjects` | cells, row membership, tables and stores: values with their merge laws, and the objects that update them in place |
| `Replay`, `ReplayLaws` | the closed form of replay over the set of ops |
| `Uniqueness`, `Arbitration`, `LosingClaims` | reservations and elections, null-writes for losers, and both read off the ops |
| `UniqueColumns`, `UniqueRuns`, `UniqueLimits` | exactly when UNIQUE holds, runs in which it does, runs in which it fails |
| `Cascade`, `CascadedRows`, `FkResolution`, `KeyChecks` | the cascade fixpoint, what it hides read off the cells, the foreign-key policies, which keys are accepted and kept |
| `Rebuild`, `Rebuilding`, `Incremental` | the rebuild as a function of the log, its loops, and one-op execution against it |
| `Executor`, `SelectLaws`, `SecondaryIndexes`, `Planner`, `PlannerLaws`, `Planning`, `Statements` | queries and what they return, indexes, planning of statements, statements as a whole |
| `Peers`, `PeerInvariants`, `LocalExecution`, `Deletions`, `Effects`, `InsertedCells`, `CascadedDeletes`, `LaggingDeletes` | a peer's whole state and what statements do to it |
| `AntiEntropy`, `Clusters`, `ClusterLaws`, `Sweeps`, `SoloRuns` | exchange of logs, the cluster as a step system, its laws, the sweep, runs with given clock readings |
| `Engines`, `SyncAll` | the engine object and the loop that syncs all engines |

Code that updates its fields is modelled by classes and methods (`HlcClock`,
`OpLog`, `MvRegister`, `OrMap`, `CrdtRow`, `TableState`, `RowStore`,
`UniqueIndex`, `SecondaryIndex`, `Engine`); each method is proved equal to a
function on values, and the theorems are about those functions.  A reachable
cluster is a run of `Clusters.Step`s from fresh peers; `Engine.Execute`,
`SyncWith` and `SyncFrom` are proved to take exactly those steps.

## Conditions

- A statement step requires counters that do not wrap during it
  (`PeerInvariants.CanExecute`); `Clocks.TickAdvancesIff` and `ClockBounds` say
  when they do not.  No clock is observed during a sync, and none is assumed to be:
  a local op may be older than ops received before.
- A CREATE TABLE step requires that claim names do not collide
  (`Planner.NamesApart`): no unique column is named like a composite key and no two
  different composite keys share a joined name.
- UNIQUE is proved for columns whose claims are nulled under the column's own name and
  that no row is given a value of twice (`UniqueRuns.Declares`,
  `UniqueColumns.ValuedOnce`).  Where a composite key covers the column
  `UniqueColumns.NoSharedValue` asks that none of its claims is older than a value its
  row is given; without any such condition `UniqueColumns.UniqueIff` is exact.
- All peers of a cluster share one policy and one decoding of bytes to text.
- `Arbitration` and `UniqueColumns` speak of logs without ops of the pseudo-peer
  `__uniqueness_arbiter__` where they say so; a cluster none of whose peers has that
  name never produces one (`ClusterLaws.ReachableLogs`).

## Where the documentation and the code differ

The model follows the code.

- Membership is documented as add-wins; a merge keeps a tombstone over a concurrent
  re-insert (`OrSets.AddWinsIff`).
- `append` is documented to skip an op whose timestamp was applied; it skips only an
  equal op, and returns the last position rather than that op's.
- `reserve` is documented to fail for a taken value; it always succeeds.
- `composite_key_value` is documented to return nothing when a column is missing;
  it always returns a value, missing parts being empty.
- `rebuild_store` is documented to tombstone the losers of an election; it nulls their
  columns and leaves the rows visible.
- UNIQUE is presented as enforced.  It is where no row is given a value of the column
  twice and no older claim on a composite key covers it (`UniqueColumns.NoSharedValue`,
  for runs `UniqueRuns.ReachableUnique` and, for composite keys, `ReachableKey`).
  Otherwise it can fail, by a second claim of the same value or by an older composite
  claim (`UniqueLimits.UniqueCanFail`); `UniqueColumns.UniqueIff` says exactly when.
- A deleted row is described as hidden from queries; on a peer whose clock lags behind
  the row's insert it returns at the next rebuild (`LaggingDeletes.DeleteIsUndone`).

Two more things hold of the code that no document mentions: parts of a composite key
that contain the zero byte separating them can make different keys equal
(`PlannerLaws.CompositeValuesCollideIff`), and UPDATE claims unique columns only, so a
composite key is claimed by INSERT alone.

## Model

| member | source | states |
|---|---|---|
| `Clusters.InvAlways` | src/api/engine.rs:83-222 | After every run of statements, two-way and one-way syncs, in any interleaving over peers with distinct names: all ops of the cluster are well-formed, each log is duplicate-free and causally closed, each log holds every timestamp group whole or not at all, each peer's own timestamps are not past its clock, and each store knows exactly its log's tables and inserted rows |
| `Clusters.StepKeeps` | src/api/engine.rs:83-222 | Each step keeps that invariant |
| `Clusters.PlannedIsFresh` | src/sql/planner.rs:81-294 | A planned timestamp carries the planner's peer id and differs from every timestamp anywhere in the cluster |
| `ClusterLaws.ReferentialIntegrity` | src/sql/planner.rs:129-140 | Under Tombstone, in every reachable cluster, wherever a row whose foreign-key check passed has arrived, the parent exists for foreign keys in that peer's current store and in the store it rebuilds, whatever was deleted, updated or synced anywhere |
| `ClusterLaws.RebuiltParent` | src/constraints/fk_resolution.rs:140-163 | Unless the policy is Orphan, every peer a checked row reaches has the parent's table and an entry for the parent row after a rebuild |
| `ClusterLaws.CascadeIntegrity` | src/api/engine.rs:325-431 | Under Cascade, in every reachable cluster, a rebuilt child that is visible and one of whose key cells decodes to the parent it was checked against finds that parent known, with an insert token that was not removed |
| `KeyChecks.InsertedKeysHold` | src/sql/planner.rs:129-140 | The same integrity from the inserts alone: under Tombstone, for every insert any step planned and every foreign key it gave a value, the parent exists for foreign keys wherever the row has arrived, at every later moment of the run |
| `KeyChecks.ChildIsRecorded` | src/sql/planner.rs:129-140 | Every foreign key an insert gives a value is on record as checked, from that step to the end of the run |
| `KeyChecks.RefusedParentIsUnknown` | src/sql/planner.rs:129-140 | In every reachable cluster under Tombstone an INSERT that fails on a foreign key gives it a parent that no op in the planner's log ever inserted, or a table none created, and the error says which: a parent deleted since does not stop it |
| `ClusterLaws.PeersConverge` | src/api/engine.rs:224-442 | In every reachable cluster two peers whose logs hold the same ops, in whatever arrival order, rebuild to the same store and uniqueness state and answer every SELECT alike |
| `ClusterLaws.SyncUnites` | src/api/engine.rs:205-222 | A two-way sync leaves both logs with exactly the union of their ops, each old log a prefix of the new one, both peers in one state, and every other peer untouched |
| `ClusterLaws.LogsOnlyGrow` | src/api/engine.rs:83-222 | At every later moment of a run a peer's earlier log is a prefix of its log |
| `ClusterLaws.ReachableLogs` | src/api/engine.rs:83-222 | Logs of a run satisfy what replay, election and exchange assume of logs |
| `Sweeps.SweepUnites` | src/bin/dashboard_server.rs:246-262 | One sweep of pairwise syncs over any number of peers leaves every online peer with the union of the online logs and offline peers untouched |
| `Sweeps.SweepConverges` | src/bin/dashboard_server.rs:246-262 | After one sweep any two online peers are in one and the same rebuilt state |
| `Sweeps.SecondSweepIsIdle` | src/bin/dashboard_server.rs:244-262 | A further sweep changes nothing at all: logs, clocks and states stay equal |
| `SyncAll.SyncAllPeers` | src/bin/dashboard_server.rs:242-263 | Three rounds of the loop nest over engine objects are three sweeps; from any cluster satisfying the invariant they amount to one, and every online engine's log is the union of the online logs; every engine keeps its indexes |
| `SyncAll.SyncPair` | src/bin/dashboard_server.rs:249-259 | Syncing two engine objects of a larger set is one sync step of the cluster; all other engines keep their state, every engine keeps its indexes, and those of the two are exact |
| `Replay.ReplayIsStateOf` | src/api/engine.rs:231-270 | Folding a log in (tier, timestamp) order yields a closed form over the SET of ops: each register holds exactly every peer's latest write, live tokens are all insert times, removed tokens those below some delete, a tombstone is the latest tombstoning delete past every insert, a schema that of the earliest CREATE TABLE |
| `Replay.DmlStep` | src/storage/row_store.rs:168-192 | Applying one insert, update or delete that is later than the ops of its row moves the closed form as adding the op to the set does |
| `Replay.CreateStep` | src/storage/row_store.rs:162-192 | A later CREATE TABLE changes nothing; a first one adds an empty table, given that no row op of the table came before |
| `ReplayLaws.VisibleIffLastIsInsert` | src/crdt/orset.rs:79-116 | After replay a row is visible if and only if the latest insert or delete on it is an insert |
| `ReplayLaws.DeleteSticksIff` | src/api/engine.rs:119-202 | In the replayed state one more delete hides a visible row if and only if every logged insert of the row is earlier |
| `LaggingDeletes.DeleteUndoneIff` | src/sql/planner.rs:260-294 | In every cluster that keeps the invariant, under any policy: a row a DELETE matches is hidden from the deleting peer at once, and its next rebuild shows it again if and only if a logged insert of the row is later than this delete and every logged one, and the cascade does not take the row |
| `LaggingDeletes.DeleteIsUndone` | src/api/engine.rs:119-222 | A run of two peers in which that happens: a peer receives a row from a peer with a faster clock, its DELETE hides the row, and its next sync, which brings nothing new, shows it again |
| `ReplayLaws.InsertedExistsForFk` | src/crdt/orset.rs:106-150 | When all deletes leave tombstones a row once inserted exists for foreign keys in every replay |
| `ReplayLaws.RegisterOfUnion` | src/crdt/mv_register.rs:39-61 | The register replayed from a union of logs is the merge of the registers replayed from each |
| `ReplayLaws.ReplayOfUnionMergesCells` | src/storage/row_store.rs:111-122 | For tables both logs create, the cell data replayed from the union equals the cell data of the merged tables: op replay and state merge agree on cells |
| `Rebuild.Convergence` | src/api/engine.rs:224-442 | Any two well-formed logs with the same set of ops rebuild, under one policy, to the same store and the same uniqueness state, conflict logs included |
| `Rebuild.RebuiltMembership` | src/api/engine.rs:272-322 | A rebuild has exactly the created tables with their earliest schemas, and outside Cascade membership as replay made it |
| `Rebuilding.ReplayAll` | src/api/engine.rs:254-270 | The replay loop computes the fold over the sorted ops, claims going to the uniqueness state and everything else to a fresh store |
| `Rebuilding.NullLosers` | src/api/engine.rs:286-322 | The four nested loops null exactly the losers' columns, in key order of table, column and value, then list order |
| `Rebuilding.RebuildStore` | src/api/engine.rs:231-442 | Sort, replay, arbitration and cascade loop together compute the derived state all rebuild theorems are about |
| `Arbitration.ReplayUniqueConverges` | src/api/engine.rs:234-268 | Two replay orders of one set of ops that a stable sort may produce give one uniqueness state |
| `Arbitration.ColumnsAreIndependent` | src/api/engine.rs:254-268 | Each column's index is what its own claims alone produce |
| `Arbitration.NullWriteSource` | src/api/engine.rs:286-322 | Null-writes stem from exactly the lost reservations, each with the loser's time plus one and the columns its claim covers |
| `Arbitration.ArbitrationKeepsMembership` | src/api/engine.rs:300-318 | Arbitration changes no table, schema, membership entry or visibility |
| `Arbitration.ArbitratedCell` | src/api/engine.rs:304-315 | Of all null-writes on a cell only the last remains, because they share one pseudo-peer; invisible rows are not touched |
| `Arbitration.ArbitratedValue` | src/api/engine.rs:304-318 | A visible cell reads null after arbitration if its last null-write is later than its latest write, and otherwise as before |
| `UniqueRuns.ReachableUnique` | src/api/engine.rs:83-322 | In every run whose CREATE TABLEs of the table declare the column unique and claim it under no other name, and whose statements name no column twice, no peer rebuilds two visible rows that share a non-null value of it, under any policy, while no row is given a value of the column twice |
| `UniqueRuns.ReachableKey` | src/api/engine.rs:83-322 | In every run whose CREATE TABLEs of the table declare a composite key: of two rows inserted with one value of the key, one reads null after every rebuild in each column of the key that no older claim covers |
| `UniqueRuns.ReachableClaims` | src/sql/planner.rs:81-257 | In such a run every log claims exactly the values it writes into the column, no composite claim covers it, and every timestamp leaves the counter room |
| `UniqueRuns.PlannedCounter` | src/crdt/clocks.rs:106-122 | The counter of every planned timestamp leaves room for the successor a null-write takes |
| `UniqueColumns.UniqueIff` | src/api/engine.rs:272-322 | For every well-formed log, under any policy: no two visible rows share a non-null value after a rebuild if and only if no two rows last wrote one value, are last inserted and not deleted, are spared by the cascade and keep their cell; a row keeps its cell unless, of its losing claims that null the cell, the one greatest in column name, value and time nulls it past every write of it |
| `UniqueColumns.FinalValueIs` | src/api/engine.rs:286-322 | For every well-formed log a visible cell ends as null if it is lost in that sense, and otherwise as its latest write |
| `UniqueColumns.ForfeitsIff` | src/api/engine.rs:286-322 | That reading of the ops is what arbitration decides by: a register is nulled by the last null-write if and only if the ops say so |
| `UniqueColumns.UniqueOnceIff` | src/api/engine.rs:286-322 | Where rows write and claim the column once, UNIQUE holds if and only if no two claims of shown rows on one value are both spared by the last null-write of their cell and by the cascade |
| `UniqueColumns.ClaimantKeepsIff` | src/api/engine.rs:286-322 | Where rows write and claim the column once, the row of a claim keeps its value while visible if and only if the last null-write of its cell is not later than the claim |
| `UniqueColumns.OneIsNulled` | src/api/engine.rs:286-322 | Of two rows that claim one value, of a column or of a composite key, one reads null while visible in every column the key names that no older claim covers |
| `UniqueColumns.NoSharedValue` | src/api/engine.rs:272-322 | Where values written into the column are claimed, and no claim on the column or on a composite key over it is older than a value its row is given there, no two visible rows share a non-null value after a rebuild, under any policy |
| `UniqueColumns.NotCoveredIsEnough` | src/crdt/merge.rs:153-167 | Without composite keys over the column, and with no row given a value twice, no claim is older than a value its row is given |
| `UniqueColumns.WinnerKeepsValue` | src/api/engine.rs:286-322 | Where rows write and claim the column once and no composite key covers it, the latest claimant of a value keeps it while its row is visible |
| `LosingClaims.LostIff` | src/constraints/uniqueness_protocol.rs:133-179 | In the election state of a rebuilt log a claim is lost if and only if it is the first its row and peer made on the value and another first claim on that value is later |
| `LosingClaims.LastHitIs` | src/api/engine.rs:286-322 | The null-write that stays on a cell is that of the losing claim greatest in (column, value, time); there is none if and only if no losing claim nulls the cell |
| `UniqueLimits.UniqueCanFail` | src/constraints/uniqueness_protocol.rs:114-119 | UNIQUE is false in general: two runs of one peer, CREATE TABLE, an INSERT of two rows and an UPDATE of both, end with two visible rows holding one e-mail; in one the rows claim it again, in the other a composite key covers it |
| `UniqueLimits.CoveredIsClaimedOnce` | src/api/engine.rs:304-315 | In the second run every row writes and claims the e-mail once, so claiming once is not enough: the older composite claims null last and lose to the newer writes |
| `CascadedRows.RebuiltKeysAreLive` | src/api/engine.rs:394-425 | After a cascading rebuild every visible row's key cells, decoded, name parents that are unknown or live |
| `CascadedRows.RebuiltHidesIff` | src/api/engine.rs:339-431 | A cascading rebuild rewrites no cell or schema and hides, of the rows arbitration left visible, exactly those from which key cells lead, row by visible row, to one all of whose insert tokens are removed; rows that only name each other in a circle stay |
| `CascadedRows.RebuiltHidesOrphans` | src/api/engine.rs:394-425 | Every row it hides has a key cell that decodes to a parent that is known and ends up not live |
| `CascadedRows.DoomedIffPath` | src/api/engine.rs:325-338 | The rows the fixpoint dooms are exactly those with such a path, whatever the order of the foreign keys |
| `Cascade.DoomedIsLeast` | src/api/engine.rs:325-338 | The hidden rows are contained in every closed set |
| `Cascade.RunCascade` | src/api/engine.rs:339-431 | The fixpoint loop terminates, cyclic and self-referencing keys included, and hides exactly the rows of that set, whatever the order of the foreign keys |
| `FkResolution.CascadeDelete` | src/constraints/fk_resolution.rs:87-136 | The eager cascade hides exactly the visible rows one of whose keys names the deleted parent, and nothing else |
| `Planner.RowGroup` | src/sql/planner.rs:153-191 | The ops of one planned row are one write and claims on different columns, all at one time |
| `FkResolution.ValidateInsertIff` | src/constraints/fk_resolution.rs:140-163 | The check accepts exactly a known parent table together with, unless the policy is Orphan, a row that has a token which was not removed, or a tombstone; it refuses an unknown table before an unknown row |
| `PlannerLaws.RowPlannedIff` | src/sql/planner.rs:120-151 | A row is planned if and only if its key has a value, every foreign key with a value names such a parent and every required column without default has a value; otherwise the error is that of the first of these checks that fails |
| `PlannerLaws.FirstViolationIs` | src/sql/planner.rs:129-140 | The foreign-key check reports the first key, in schema order, whose parent does not fit: its table as unknown, or else its row |
| `InsertedCells.InsertIsRead` | src/sql/planner.rs:103-151 | With columns named apart, the i-th value list of an INSERT is for the one row its primary-key value spells, and each of its values reads back under the column the statement, or else the schema, lists at that place, unless a later list for the row names the column again or another peer's entry is later than the i-th tick |
| `InsertedCells.InsertKeepsCells` | src/sql/planner.rs:103-159 | A cell that no list names for its row keeps its register |
| `InsertedCells.InsertKeepsRest` | src/sql/planner.rs:81-195 | INSERT changes no schema and no other table, and no membership entry but those of the rows its lists are for |
| `InsertedCells.ListedRowIsVisible` | src/api/engine.rs:119-202 | In every cluster that keeps the invariant the row of every value list is visible to the inserter at once |
| `PlannerLaws.PlanMatches` | src/sql/planner.rs:81-257 | A statement that names no column twice writes a value into a unique column of a row exactly where it claims that value for the row, at one time; statements on other tables neither write nor claim it |
| `PlannerLaws.PlanClaimsKey` | src/sql/planner.rs:178-191 | A statement claims, for every row it inserts, each composite key of the row's table at the row's time |
| `PlannerLaws.CompositeNamesItsColumns` | src/crdt/merge.rs:165-167 | A lost composite claim nulls exactly the columns of its constraint, if and only if the constraint has columns and no name contains a comma |
| `PlannerLaws.InsertBecomes` | src/sql/planner.rs:81-195 | An INSERT stops at the first refused row with that row's error and without any op, having ticked once for each row tried; otherwise its ops are exactly those of its rows |
| `PlannerLaws.FirstIsLast` | src/sql/planner.rs:153-169 | Claims read the first cell of a name and registers keep the last one; with distinct names they agree |
| `PlannerLaws.CompositeValuesCollideIff` | src/crdt/merge.rs:171-189 | For all rows: two rows claim one composite value if and only if their parts, cut at every zero byte inside them, give the same list of pieces |
| `PlannerLaws.CompositeValuesAgreeIff` | src/crdt/merge.rs:171-189 | Two rows whose parts hold, column by column, equally many zero bytes (none, say) claim one composite value if and only if they agree on every part, a null part counting as empty |
| `PlannerLaws.CompositeValuesCanCollide` | src/crdt/merge.rs:171-189 | Different keys collide: over any two columns a zero byte may end the first part or begin the second |
| `Splitting.JoinsAgreeIff` | src/crdt/merge.rs:171-189 | Lists of parts join to one string if and only if they have the same pieces, because splitting undoes joining |
| `Planning.PlanStatement` | src/sql/planner.rs:44-294 | Planning with the real clock and its loops computes the plan the theorems are about and takes exactly its ticks, also when it fails |
| `Planning.Scan` | src/sql/planner.rs:212-220 | The rows an UPDATE or DELETE touches are the visible rows passing the filter, once each, in row order |
| `PlannerLaws.StatementFailsIff` | src/sql/planner.rs:44-294 | INSERT, UPDATE and DELETE fail on an unknown table, INSERT and UPDATE on a table without a primary key, INSERT also with the error of its first refused row; nothing else fails |
| `Peers.PlannedOp` | src/sql/planner.rs:81-294 | Every planned op carries one of the plan's ticks; updates and deletes name rows the store knows, deletes tombstone exactly under Tombstone, inserted rows have passed their key checks |
| `Peers.PlannedGroup` | src/sql/planner.rs:81-294 | Two ops of a plan share a timestamp only if they were planned for one row |
| `Peers.PlanInOrder` | src/sql/planner.rs:81-294 | A plan lists its rows in the order of their times, each row's write before its claims |
| `Statements.StatementIsAtomic` | src/api/engine.rs:83-202 | A statement that cannot be planned changes neither log nor state and has still moved the clock if it tried a row; any other appends exactly its planned ops, keeps the old log as a prefix and leaves the clock later than each of them |
| `LocalExecution.ExecuteIsRebuild` | src/api/engine.rs:119-202 | Incremental execution refines rebuild: outside Cascade a peer whose state is rebuilt and whose clock is past its log ends, after any statement, in the state a rebuild of its longer log gives, as long as no claim is lost |
| `Incremental.ApplyIsRebuild` | src/api/engine.rs:119-202 | The same for one op that comes last, CREATE TABLE and claims included |
| `Deletions.DeletedAreGone` | src/sql/planner.rs:260-294 | After DELETE WHERE f, under any policy, SELECT WHERE f returns nothing |
| `Deletions.OthersStay` | src/sql/planner.rs:260-294 | Outside Cascade, any query that matches no deleted row returns exactly what it did before |
| `CascadedDeletes.DeleteCascades` | src/api/engine.rs:163-186 | DELETE under Cascade hides from the deleting peer at once exactly the visible rows that match and the visible rows one of whose key cells holds the id of a matching row, and changes no schema, no cell and no other row's membership |
| `Effects.UpdateRewrites` | src/sql/planner.rs:197-257 | UPDATE rewrites rows of its table and changes no schema, membership or other table |
| `Effects.UpdateEffect` | src/sql/planner.rs:197-257 | Exactly the matching rows are written, the i-th of them at the i-th tick; every other row keeps its registers |
| `Effects.UpdateIsRead` | src/crdt/mv_register.rs:39-75 | After UPDATE an assigned cell of a matching row reads as the value written unless another peer's entry is later than the tick, and then as the latest such entry; other cells read as before |
| `Effects.InsertedIsVisible` | src/api/engine.rs:119-202 | In every cluster that keeps the invariant an inserted row is visible to its inserter at once, even if it was deleted, tombstoned or cascaded away before |
| `Engines.Engine.ApplyOp` | src/api/engine.rs:119-202 | Observes, applies and logs the op; the engine has the same indexes on the same columns as before, and outside Cascade every one stays exact |
| `Engines.Engine.Execute` | src/api/engine.rs:83-100 | The engine's new state, clock, log, store and uniqueness, is that of the step system's statement step; it has the same indexes on the same columns, and outside Cascade every one stays exact |
| `Engines.Engine.CascadeEagerly` | src/api/engine.rs:163-186 | Deleting the affected rows once more with a derived time changes nothing |
| `Engines.Engine.Rebuild` | src/api/engine.rs:231-442 | The state becomes what the log determines; the indexes are the same ones on the same columns, each now exact |
| `Engines.Engine.SyncWith` | src/api/engine.rs:205-222 | Both engines end as the step system's receive step says, each with the indexes it had, now exact |
| `Engines.Engine.SyncFrom` | src/api/engine.rs:480-500 | The receiver ends as the receive step says, with the indexes it had, now exact; the source is not modified |
| `Engines.Engine.CreateIndex` | src/api/engine.rs:450-460 | Adds an exact index on the named columns, empty if the table is unknown, and changes nothing else: the state and every other index are the same value |
| `AntiEntropy.ReceiveIsUnion` | src/sync/anti_entropy.rs:167-216 | Receiving appends without duplicates and keeps the old log as a prefix; it yields the union of both logs if and only if the receiver holds, of every timestamp group of the sender, the whole or nothing |
| `AntiEntropy.ReceiveNothing` | src/sync/anti_entropy.rs:175-208 | A log that already holds the sender's ops stays as it is |
| `AntiEntropy.SyncPeers` | src/sync/anti_entropy.rs:167-216 | Both logs receive what the other had before the exchange; the counts returned are the numbers of ops sent |
| `MvRegisters.OperationsKeepOnePerPeer` | src/crdt/mv_register.rs:39-61 | Write, merge and compact leave at most one entry for each peer |
| `MvRegisters.InMerge` | src/crdt/mv_register.rs:48-61 | A merge keeps exactly the entries of either side that no later entry of their peer covers |
| `MvRegisters.MergeCommutes` | src/crdt/mv_register.rs:48-53 | Register merge is commutative where equal timestamps carry equal values |
| `MvRegisters.MergeAssociates` | src/crdt/mv_register.rs:48-61 | Register merge is associative under the same agreement |
| `MvRegisters.MergeIdempotent` | src/crdt/mv_register.rs:48-61 | Register merge is idempotent on compacted registers, the empty register being neutral |
| `MvRegisters.ReadAfterWrite` | src/crdt/mv_register.rs:39-71 | A write is the canonical value at once unless another peer's later entry is there, and then that entry is |
| `MvRegisters.MvRegister.Write` | src/crdt/mv_register.rs:39-45 | Afterwards the new entry is the only one of the writer's peer, newer ones included, and other peers' entries are as before |
| `MvRegisters.MvRegister.Merge` | src/crdt/mv_register.rs:48-61 | The in-place merge loop computes the merge the laws are about |
| `OrSets.EntryLaws` | src/crdt/orset.rs:121-140 | Merging membership entries is commutative, associative and idempotent with the absent entry neutral |
| `OrSets.MergedEntry` | src/crdt/orset.rs:121-140 | A merged entry has the tokens and the removals of both sides and the later of their tombstones |
| `OrSets.MergeAssociates` | src/crdt/orset.rs:121-140 | Membership merge is associative on all maps |
| `OrSets.MergeCommutes` | src/crdt/orset.rs:121-140 | Membership merge is commutative on all maps |
| `OrSets.AddWinsIff` | src/crdt/orset.rs:88-140 | A re-insert the deleter had not seen wins over the delete if and only if the delete left no tombstone |
| `OrSets.OrMap.Insert` | src/crdt/orset.rs:97-102 | Afterwards the row is visible, tombstoned before or not, if and only if it was live or the token is not a removed one; other rows keep their entries |
| `OrSets.OrMap.Delete` | src/crdt/orset.rs:106-116 | Afterwards the row is not live; it exists for foreign keys if and only if it was known and the delete, or an earlier one, left a tombstone; other rows keep their entries |
| `OrSets.OrMap.Merge` | src/crdt/orset.rs:121-140 | The in-place loop computes the merge the laws are about |
| `RowStores.MergeHolds` | src/storage/row_store.rs:195-202 | A merged store has the tables of either side, the first side's schema where both have one, in every cell the merge of both registers and in every row the merge of both entries |
| `RowStores.StoresCommute` | src/storage/row_store.rs:195-202 | Store merge is commutative and idempotent, through tables, rows and registers, on stores that agree on schemas and on the value of each timestamp |
| `RowStores.StoresAssociate` | src/storage/row_store.rs:195-202 | Store merge is associative on such stores |
| `RowStores.ApplyKeepsCompacted` | src/storage/row_store.rs:168-192 | Every op keeps each register at one entry a peer |
| `RowStores.WriteCellsAt` | src/storage/row_store.rs:92-102 | Of several cells with one name the last one given is written; other columns keep their registers |
| `StoreObjects.TableState.Insert` | src/storage/row_store.rs:77-88 | Membership and cells of the row change as the value model says, the schema does not |
| `StoreObjects.RowStore.Apply` | src/storage/row_store.rs:168-192 | The store object applies an op through table and row objects as the value model does; ops on unknown tables change nothing |
| `StoreObjects.RowStore.Merge` | src/storage/row_store.rs:195-202 | The in-place merge loops of all four levels compute the merge the laws are about |
| `Uniqueness.ElectionAlwaysOk` | src/constraints/uniqueness_protocol.rs:109-227 | After any history of reservations and merges every claimed value is elected: one claim is provisional, among several exactly the strongest by (timestamp, row) has won, and every other names it and is on record as having lost to it |
| `Uniqueness.ClaimantsAreKept` | src/constraints/uniqueness_protocol.rs:109-227 | For every history of reservations and merges: every row and peer that ever claimed a value is on record for it, and whatever is on record was claimed; only a second claim of the same row, peer and value is not recorded |
| `Uniqueness.ClaimsAreKept` | src/constraints/uniqueness_protocol.rs:109-227 | Where each row and peer claims a value at one time, the claims on record are exactly those made anywhere in the history |
| `Uniqueness.OutcomeIsOrderIndependent` | src/constraints/uniqueness_protocol.rs:109-227 | Histories that make the same claims on a value, each row and peer at one time, in any order and through any merges, end with the same reservations in the same states |
| `Uniqueness.WinnerIsStrongest` | src/constraints/uniqueness_protocol.rs:143-154 | No claim is stronger than the elected one |
| `Uniqueness.OwnerAndAvailability` | src/constraints/uniqueness_protocol.rs:182-197 | The canonical owner is the strongest claim's row, and a value is available to exactly that row, or to anyone while unclaimed |
| `Uniqueness.UniqueIndex.Reserve` | src/constraints/uniqueness_protocol.rs:109-129 | Ignores a second claim of the same row and peer, otherwise records the claim and re-elects |
| `Uniqueness.UniqueIndex.ResolveConflictsFor` | src/constraints/uniqueness_protocol.rs:133-179 | The two loops elect the last maximum and rewrite states and conflict log as the invariant needs |
| `Uniqueness.ConflictsAre` | src/constraints/uniqueness_protocol.rs:157-179 | An election records each losing claim once, with the value, the loser and the winner, and nobody else |
| `Uniqueness.MergedLog` | src/constraints/uniqueness_protocol.rs:217-226 | Merging conflict logs keeps the first as a prefix and appends records of the second, one for every pair of loser and winner rows that is not on record yet |
| `Uniqueness.UniqueIndex.Merge` | src/constraints/uniqueness_protocol.rs:201-227 | The merge loops compute the merge the invariant and the order-independence law are about |
| `Clocks.BeforeIsStrictTotal` | src/crdt/clocks.rs:58-64 | Timestamps are strictly and totally ordered by wall time, counter and peer id |
| `Clocks.ReadingsIncrease` | src/crdt/clocks.rs:106-148 | Over any sequence of ticks and observations with room in the counter, readings strictly increase and every reading from an observation on exceeds what was observed |
| `Clocks.ClockBounds` | src/crdt/clocks.rs:106-148 | The wall part is exactly the latest physical or remote wall time so far; the counter is at most the largest remote counter plus the number of events |
| `Clocks.ReadingIsLeast` | src/crdt/clocks.rs:106-148 | With room in the counters every tick or observation reads the least time that is not before the physical clock and is past the clock's state and the observed time |
| `Clocks.TickAdvancesIff` | src/crdt/clocks.rs:106-122 | A tick exceeds the clock it started from if and only if physical time has passed it or the 32-bit counter does not wrap |
| `Clocks.HlcClock.Tick` | src/crdt/clocks.rs:106-122 | The object's tick is the reading the run theorems are about: its wall time is the later of the clock's and the physical one, and it exceeds the old clock if and only if physical time passed it or the counter has room |
| `Clocks.HlcClock.Observe` | src/crdt/clocks.rs:126-148 | The object's observation is the reading the run theorems are about: its wall time is the latest of the three, and with room in both counters it exceeds the old clock and the remote time |
| `OpLogs.OpLog.Append` | src/storage/op_log.rs:50-86 | Appends an op the log does not hold and keeps the log invariant: numbers are positions, ops distinct, row index equal to a full scan, each peer's frontier its last position |
| `OpLogs.OpLog.Since` | src/storage/op_log.rs:90-95 | Returns exactly the entries after the cursor's position |
| `OpLogs.OpLog.OpsForRow` | src/storage/op_log.rs:98-108 | Returns what a full scan for the row finds, in log order |
| `OpLogs.AppendAllAdds` | src/storage/op_log.rs:50-86 | Appending any list keeps the old log as a prefix, adds exactly the new ops and leaves no duplicate |
| `OpLogs.ScanRowInBounds` | src/storage/op_log.rs:98-108 | A row's scan lists exactly the positions of its ops, ascending |
| `SecondaryIndexes.ScanFindsIff` | src/index/secondary_index.rs:57-114 | On every table with a primary key a scan finds exactly the visible rows whose leading indexed cells are the prefix, except those for which a later row has the same indexed cells and spells the same primary key |
| `SecondaryIndexes.KeylessScan` | src/index/secondary_index.rs:57-62 | On a table without a primary key a scan finds nothing |
| `SecondaryIndexes.ScanIsComplete` | src/index/secondary_index.rs:101-114 | With consistent primary keys a scan returns exactly the visible rows whose leading indexed values are the prefix |
| `SecondaryIndexes.SecondaryIndex.RangeScan` | src/index/secondary_index.rs:101-114 | Stopping at the first key without the prefix loses no entry; rows come in key order |
| `SecondaryIndexes.PrefixIsConvex` | src/index/secondary_index.rs:101-114 | Between a prefix and a key that starts with it lie only keys that start with it, absent values first |
| `SecondaryIndexes.SecondaryIndex.RebuildFrom` | src/index/secondary_index.rs:57-76 | Each visible row is entered under its own key, the last row winning a shared key; without a primary key the index is empty |
| `SecondaryIndexes.IndexIsUnique` | src/index/secondary_index.rs:57-76 | A table's visible rows determine its index |
| `SecondaryIndexes.IncrementalIsRebuild` | src/index/secondary_index.rs:80-97 | Maintaining an exact index for one changed row agrees with rebuilding it |
| `SecondaryIndexes.SecondaryIndex.UpdateRow` | src/index/secondary_index.rs:80-97 | Given the indexed values of a row before and after a change, turns the exact index of the table before the change into the exact index of the table after it |
| `SelectLaws.SelectIs` | src/sql/executor.rs:34-101 | SELECT answers exactly when the table is known, with one result row for each visible row that passes the filter: it has exactly the listed columns, or all of the schema's in order, and shows under each the row's cell; the rows come by the ORDER BY columns in turn, then by the first column shown (without ORDER BY the primary key), then by row id |
| `SelectLaws.FilterLaws` | src/sql/parser.rs:76-92 | A comparison is decided by the cell: exactly one of less, equal and greater holds, NULL is less than every value and equal to NULL, and values compare byte by byte |
| `Executor.SelectLeads` | src/sql/executor.rs:60-91 | Result rows come in the order of the first ORDER BY column, ascending or descending, or else of the primary key |
| `Executor.SelectDependsOnMatching` | src/sql/executor.rs:34-91 | A query's answer depends on nothing but the rows it matches and the schema |

## Left out

- Parsing of SQL and encoding of values: a statement holds its values as bytes, and a filter is evaluated on the cells of a row.
- Decoding with `from_utf8_lossy` is the function `text` of the configuration; no property of it is assumed.
- Hashing: BLAKE3 digests, `prev_hash`, snapshots and Merkle buckets; stores are compared directly.
- `compute_delta`, `apply_delta` and sync cursors: the engine writes cursors but never reads them, and a fresh cursor skips position 0.
- Version vectors, acknowledgement tracking and compaction: the engine uses none of them, and `compact_before` removes nothing, so a log keeps every op appended to it.
- HTTP, sockets, locks, scenarios and the UI; of the dashboard only the loop nest that syncs all peers is modelled.
- Atomic operations of the clock: the engine runs under a lock, so ticks and observations are sequential; the physical reading is an input.
- Column types and index definitions in a schema, and the empty `unique_column` field of a conflict record: no modelled code reads them.
- Display helpers of query results (`table_rows`, typed getters): they format rows that SELECT has already returned and change no state.
- ColsToNull: does not model the panic of the source's slice for a column literally named `__composite__` or `__composite___`; such a column is treated as an ordinary one.
- Nested owned structures (a register in a row in a table in a store): a method loads the nested value into an object and stores the result back, so in-place aliasing inside a store is not captured.
- The standard library's `sort_by` is the function `Sorting.StableSort`; its loops are not modelled.
- Counters beyond 32 bits: registers, logs and claims are stated for runs in which no counter wraps.
- The eager one-level cascade as an equal of the rebuild: it is neither logged nor transitive; `FkResolution.CascadeDelete` says what it does, and under Cascade indexes are exact after a rebuild only.
- Foreign-key values set by UPDATE are not checked by the planner, so integrity is stated for inserted references.
- The times derived for cascaded deletes (`Cascade.CascadeHlc`): a delete without a tombstone records no time, so nothing can be stated of them.
- Error results of `execute` for several statements in one string: each statement is a step of its own.
