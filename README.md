# MigrationVersion, modelled in Dafny

This project models the version-tracking engine of the CakePHP Migrations
plugin, the class `MigrationVersion` in `Lib/MigrationVersion.php`, and proves
what it promises.

The engine has five parts:

- **The directory scan** (`_enumerateMigrations`). It turns the files of a
  type's migration directory into a listing `version -> (file name, class name)`.
- **The mapping** (`getMapping`). It joins that listing with the
  `schema_migrations` table into one entry per version, ascending. Each entry
  is marked migrated with the created stamp of its row, or null. The table
  identifies a migration by its version in the legacy layout (no `class`
  column), and by its class name otherwise. Mappings are cached per type in
  `__mapping`.
- **Bookkeeping.** `getVersion` reads the highest migrated version, or 0.
  `setVersion` inserts or deletes the row of one migration and evicts that
  type from the cache.
- **The runner** (`run`). It settles a direction and a boundary from its
  options. It walks a snapshot of the mapping ascending (up) or descending
  (down) and breaks at the boundary. Before the break it runs and records
  every pending entry (up) or every migrated entry (down).
- **The bootstrap** (`__initMigrations`). If the table is missing, it runs and
  records unit 1 of the plugin's own migrations. Then, if the plugin lists
  more than one migration of its own, it runs them to the highest one.

Modules:

- `Wrappers`: `Option`.
- `Catalogue` (`catalogue.dfy`): file names, `ParseFile`, and `Enumerated`, the
  listing the scan builds.
- `Store` (`store.dfy`): the table as a sequence of rows. Its three operations
  are `Created` (`find` + `Set::combine`), `Inserted` (`save`) and `Deleted`
  (`deleteAll`).
- `Mapping` (`mapping.dfy`): entries, `Resolve` (the join getMapping computes),
  `LatestMigrated` (what getVersion reads), and `ClassAt`.
- `Runner` (`runner.dfy`): the plan (`Settle`), the walk, and `RunEffect`,
  which is what a run does to the table. It also holds the theorems about
  runs.
- `Versioning` (`migration_version.dfy`): the class `MigrationVersion`. It has
  the table (`store`) and the cache (`cache`) as fields, and one method per PHP
  operation. Each method is proved against the functions above.

The class keeps the invariant `Valid()`: every cached mapping is the one
getMapping would compute from the table now. Every method that touches the
table or the cache preserves it. This is why a cache hit in getMapping returns
the same mapping as a fresh join.

Inputs the PHP code gets from its environment are parameters:

- the migration files of each directory, in the order the folder search lists
  them (`files`);
- `Inflector::camelize`, taken as an uninterpreted function (`camelize`);
- whether the table lacks the `class` column (`bc`);
- the clock that stamps saved rows (`now`);
- which units raise when run (`failing`);
- whether the table exists (`tableExists`).

Running a unit is an abstract step that changes nothing in the model. A unit
in `failing` raises. The exception propagates out of `run`, so the run stops
there with everything before it recorded; the model returns `Aborted(v)`.

How `run` behaves when given no version:

- With direction `up`, the boundary is the latest migrated version + 1
  (`Lib/MigrationVersion.php:219-221`). The walk breaks at the first entry
  above it (`:229`), so it applies pending entries only up to there.
- With direction `down`, the boundary is the latest migrated version (`:222`).
  The walk breaks at the first entry below it (`:230`), and only migrated
  entries run (`:233`), so it reverts only the latest migrated entry.
- With neither a version nor a non-empty direction, `$direction` stays
  undefined. No entry then matches `'up'` or `'down'`, so nothing runs and
  `run` returns true. The model keeps this case instead of excluding it: the
  settled direction is the empty string (`Runner.Settle`).

## Model

| member | source | states |
|---|---|---|
| Catalogue.SplitFacts | Lib/MigrationVersion.php:314-316 | the split is at the first '_': the part before holds no '_', the parts joined by '_' give back the name, and a name without '_' is all prefix |
| Catalogue.SplitAtFirstUnderscore | Lib/MigrationVersion.php:314-316 | a name `a_b` with no '_' in `a` splits into `a` and `b` |
| Catalogue.LeadingDigitsFacts | Lib/MigrationVersion.php:317-318 | the version prefix is read through its leading decimal digits: a prefix of the string, all digits, followed by a non-digit |
| Catalogue.LeadingDigitsOfDigits | Lib/MigrationVersion.php:317-318 | the leading digits of a digit string followed by a non-digit are that string |
| Catalogue.DecimalRoundTrip | Lib/MigrationVersion.php:318 | `(int)` of the decimal spelling of n is n |
| Catalogue.LeadingZerosIgnored | Lib/MigrationVersion.php:318 | zero padding in front of the digits does not change the version |
| Catalogue.ZerosAreZero | Lib/MigrationVersion.php:317 | an all-zero prefix reads as 0 |
| Catalogue.ParseFile | Lib/MigrationVersion.php:314-318 | a kept file has a positive version and is named by the file without ".php" |
| Catalogue.ParseFileShape | Lib/MigrationVersion.php:314-317 | a kept file has a '_' after a non-empty run of leading digits |
| Catalogue.ParseNumberedFile | Lib/MigrationVersion.php:313-319 | `<zeros><n>_<rest>.php` with n > 0 is kept as version n, named `<zeros><n>_<rest>`, with class camelize(rest) |
| Catalogue.ParseZeroVersionSkipped | Lib/MigrationVersion.php:317 | a file whose prefix is all zeros is skipped |
| Catalogue.Enumerated | Lib/MigrationVersion.php:313-321 | every listed version is positive |
| Catalogue.EnumeratedKeys | Lib/MigrationVersion.php:313-321 | a version is listed iff some file is kept under it |
| Catalogue.EnumeratedLastWins | Lib/MigrationVersion.php:318 | a listed version carries the definition of the last file kept under it; no later file is kept under it |
| Versioning.MigrationVersion.EnumerateMigrations | Lib/MigrationVersion.php:303-322 | the loop builds exactly the listing `Enumerated` of the type's files; a missing directory gives the empty listing; every version is positive |
| Store.CreatedFindsLastRow | Lib/MigrationVersion.php:140-151 | a key reads as applied iff a row of that type carries it, and it reads the stamp of the last such row |
| Store.Deleted | Lib/MigrationVersion.php:111-117 | deleteAll keeps exactly the rows not matching type and key, zero matches included |
| Store.InsertedCreated | Lib/MigrationVersion.php:106-110 | after a save the saved key reads as applied at `now`; every other type and key reads as before |
| Store.DeletedCreated | Lib/MigrationVersion.php:111-117 | after a deleteAll the key reads as not applied; every other type and key reads as before |
| Versioning.MigrationVersion.StampsOf | Lib/MigrationVersion.php:140-151 | the loop over the table yields a map holding exactly the keys applied for the type, each with the stamp of its last row |
| Mapping.SortedVersions | Lib/MigrationVersion.php:153 | `ksort`: the listed versions, each once, strictly ascending |
| Mapping.Resolve | Lib/MigrationVersion.php:135-138 | one entry per listed version, so [] (PHP's false) exactly when the listing is empty |
| Mapping.ResolveFacts | Lib/MigrationVersion.php:153-166 | the entries are strictly ascending and cover every listed version; each carries its listed name and class and the type; each reads as migrated with the stamp of its identity (version or class) |
| Mapping.ResolveAscending | Lib/MigrationVersion.php:153 | the mapping is strictly ascending by version |
| Mapping.ResolveJoin | Lib/MigrationVersion.php:140-166 | an entry is migrated iff some row of its type carries its version (legacy layout) or its class (otherwise) |
| Mapping.ResolveAt | Lib/MigrationVersion.php:153-160 | entry i is the entry built for the i-th listed version in ascending order |
| Mapping.ResolveIs | Lib/MigrationVersion.php:153-166 | a sequence of the entries built for each listed version in ascending order is the mapping |
| Mapping.ResolveVersions | Lib/MigrationVersion.php:153-160 | the versions of a mapping and their order depend on the listing alone |
| Mapping.ResolveReadsOnlyItsType | Lib/MigrationVersion.php:140-143 | the mapping of a type depends on the table only through that type's rows |
| Versioning.Combine | Lib/MigrationVersion.php:153-166 | the loop over the sorted listing, marking each entry with the stamp held for its identity, yields exactly `Resolve` |
| Versioning.MigrationVersion.Join | Lib/MigrationVersion.php:140-166 | find, combine and the loop yield exactly `Resolve` of the listing and the current table |
| Versioning.MigrationVersion.GetMapping | Lib/MigrationVersion.php:131-170 | returns the mapping a fresh join would give, hit or miss; a cache hit leaves the cache as it is; a non-empty result is cached; [] is not cached; no other type's cache entry changes; the cache stays coherent |
| Versioning.MigrationVersion.Refresh | Lib/MigrationVersion.php:135-169 | past the cache: [] for an empty listing, otherwise the join, which is then cached; coherence kept |
| Versioning.MigrationVersion.Cache | Lib/MigrationVersion.php:168 | storing the just-computed mapping changes only that type's entry and keeps the cache coherent |
| Mapping.LatestMigratedIsMax | Lib/MigrationVersion.php:78-88 | on an ascending mapping of positive versions, getVersion's answer is 0 iff nothing is migrated; otherwise it is the version of a migrated entry, and no migrated entry is above it |
| Versioning.LatestOf | Lib/MigrationVersion.php:80-87 | the descending scan with early return yields `LatestMigrated` |
| Versioning.MigrationVersion.GetVersion | Lib/MigrationVersion.php:78-88 | returns the latest migrated version of the type's current mapping; the cache changes only as getMapping changes it |
| Versioning.LatestIsLast | Lib/MigrationVersion.php:78-88 | getVersion never reads above the last entry, and reads the last entry when that one is migrated |
| Runner.LatestAtMost | Lib/MigrationVersion.php:78-88 | with nothing migrated above T >= 0, getVersion reads at most T |
| Runner.ResolvedAtMost | Lib/MigrationVersion.php:78-88 | the same for a resolved mapping of positive versions |
| Mapping.ClassAtFindsEntry | Lib/MigrationVersion.php:104 | `$mapping[$version]['class']` is the class of the entry with that version, null when there is none |
| Mapping.ClassAtResolve | Lib/MigrationVersion.php:100-104 | the class setVersion records under is the listing's class for the version, null for an unlisted version |
| Runner.EntryOf | Lib/MigrationVersion.php:102-104 | a listed version has an entry, and that entry reads the key setVersion records it under |
| Runner.EntryReadsSetKey | Lib/MigrationVersion.php:102-104 | every entry reads the key setVersion records its version under |
| Runner.SetKeyDistinct | Lib/MigrationVersion.php:102-104 | in the legacy layout, or with distinct class names, distinct listed versions are recorded under distinct keys |
| Mapping.WriteKeepsOtherTypes | Lib/MigrationVersion.php:106-120 | a save or deleteAll for one type leaves every other type's mapping unchanged, so evicting only that type keeps the cache coherent |
| Versioning.MigrationVersion.Write | Lib/MigrationVersion.php:106-120 | the table gets the saved row, or loses the deleted ones; only that type is evicted; coherence kept |
| Versioning.MigrationVersion.SetVersion | Lib/MigrationVersion.php:99-123 | the table is recorded for the version under its version (legacy) or the mapping's class (otherwise); only the type's cache entry is evicted; coherence kept |
| Runner.RecordedInserts | Lib/MigrationVersion.php:240 | after recording versions as applied, their keys read as applied at `now` and nothing else changes |
| Runner.RecordedDeletes | Lib/MigrationVersion.php:240 | after recording versions as reverted, their keys read as not applied and nothing else changes |
| Runner.RecordRoundTrip | Lib/MigrationVersion.php:99-123 | setVersion(v, true) makes v read as migrated; a following setVersion(v, false) makes it pending again |
| Runner.Reversed | Lib/MigrationVersion.php:224-226 | `krsort` of an ascending mapping: the same entries in reverse |
| Runner.ReversedFacts | Lib/MigrationVersion.php:224-226 | the reversed mapping is strictly descending and migrated at the same versions |
| Runner.WalkUp | Lib/MigrationVersion.php:228-241 | going up over an ascending mapping executes exactly the pending entries at or below the boundary, ascending |
| Runner.WalkDown | Lib/MigrationVersion.php:224-241 | going down over a descending mapping executes exactly the migrated entries at or above the boundary, descending |
| Runner.RunOtherDirection | Lib/MigrationVersion.php:229-233 | a direction other than "up" and "down" executes nothing |
| Runner.RunWithoutTarget | Lib/MigrationVersion.php:211-233 | with neither a version nor a non-empty direction nothing executes |
| Runner.RunToVersionAtOrBelowLatest | Lib/MigrationVersion.php:211-216 | version T <= getVersion: down with boundary T + 1; executes exactly the migrated entries above T, descending |
| Runner.RunToVersionAboveLatest | Lib/MigrationVersion.php:211-213 | version T > getVersion: up with boundary T; executes exactly the pending entries up to T, gaps below the latest included, ascending |
| Runner.RunOneStepUp | Lib/MigrationVersion.php:217-221 | direction up alone: boundary latest + 1; executes exactly the pending entries up to it, ascending |
| Runner.RunOneStepDown | Lib/MigrationVersion.php:217-222 | direction down alone: reverts only the latest migrated version, nothing when it is 0 |
| Runner.DownToLatest | Lib/MigrationVersion.php:217-226 | direction down alone walks down exactly to the latest migrated version |
| Runner.BeforeFailure | Lib/MigrationVersion.php:235-240 | the units done are a prefix of the walk; none of them raises; the unit after them raises |
| Runner.BeforeFailureSplit | Lib/MigrationVersion.php:235-240 | succeeding units followed by nothing or by a raising unit: exactly those are done |
| Versioning.WalkStep | Lib/MigrationVersion.php:228-241 | one loop step: the entry breaks the walk, or is executed next, or is skipped |
| Versioning.EndOfWalk | Lib/MigrationVersion.php:228-242 | a loop that passed every entry has executed the whole walk |
| Versioning.MigrationVersion.RunSteps | Lib/MigrationVersion.php:228-244 | the loop executes the walk up to the first raising unit, records each executed version right after it runs, and reports the raising one; coherence kept |
| Versioning.MigrationVersion.Run | Lib/MigrationVersion.php:206-245 | run on the object does `RunEffect`: settle on getVersion, walk the snapshot from line 208, record each executed unit; other types' cache entries unchanged |
| Runner.RunEffectCompleted | Lib/MigrationVersion.php:228-244 | a completed run executed and recorded its whole planned walk |
| Runner.RunEffectOfEmptyWalk | Lib/MigrationVersion.php:228-244 | an empty walk completes and leaves the table as it is |
| Runner.RevertedAbove | Lib/MigrationVersion.php:228-241 | reverting exactly the migrated entries above T leaves none above T migrated |
| Runner.RevertedAboveLatest | Lib/MigrationVersion.php:228-241 | and leaves getVersion reading at most T |
| Runner.AppliedUpTo | Lib/MigrationVersion.php:228-241 | applying exactly the pending entries up to T leaves the entries migrated exactly up to T (legacy layout, or distinct classes) |
| Runner.RunDownLeavesNothingAbove | Lib/MigrationVersion.php:206-245 | a completed run to T <= getVersion leaves nothing above T migrated, and getVersion then reads at most T |
| Runner.RevertedKeepsBelow | Lib/MigrationVersion.php:228-241 | reverting exactly the migrated entries above T leaves every entry at or below T as it was (legacy layout, or distinct classes) |
| Runner.RunDownKeepsAtOrBelow | Lib/MigrationVersion.php:206-245 | a completed run to T <= getVersion leaves every entry at or below T, T's own record included, as it was (legacy layout, or distinct classes) |
| Runner.RunDownReadsTarget | Lib/MigrationVersion.php:206-245 | a completed run down to a migrated version T leaves getVersion reading exactly T (legacy layout, or distinct classes) |
| Runner.RunUpMigratesUpTo | Lib/MigrationVersion.php:206-245 | a completed run to T > getVersion leaves the entries migrated exactly up to T (legacy layout, or distinct classes) |
| Runner.SettledAt | Lib/MigrationVersion.php:211-241 | on a mapping migrated exactly up to T, a run to T has nothing to do |
| Runner.RunUpTwiceIsNoOp | Lib/MigrationVersion.php:206-245 | after a completed run up to T, a second run to T executes nothing |
| Runner.RunToLastTwiceIsNoOp | Lib/MigrationVersion.php:263-270 | after a completed run to the highest listed version, the same run again completes, executes nothing and leaves the table as it is |
| Versioning.MigrationVersion.CatchUpMigrations | Lib/MigrationVersion.php:263-270 | with more than one own migration, runs to the highest listed version, otherwise does nothing; the result is `CatchUp` |
| Versioning.MigrationVersion.InitMigrations | Lib/MigrationVersion.php:252-271 | on a missing table, aborts if unit 1 is not listed or raises, else records it; then catches up; the result is `Bootstrap` |
| Versioning.BootstrapCompleted | Lib/MigrationVersion.php:254-270 | a completed bootstrap found the table, or ran unit 1, and ends with the catch-up's table |
| Versioning.CatchUpTwiceIsNoOp | Lib/MigrationVersion.php:263-270 | a completed catch-up, done again, executes nothing and leaves the table as it is |
| Versioning.BootstrapIdempotent | Lib/MigrationVersion.php:252-271 | once a bootstrap has completed, the next one (the table now exists) executes nothing and leaves the table as it is |
| Versioning.CatchUpBringsCurrent | Lib/MigrationVersion.php:263-270 | after a completed catch-up, getVersion of the plugin's own migrations reads their highest listed version |
| Versioning.LastMigratedIsLatest | Lib/MigrationVersion.php:78-88 | when the last entry is migrated, getVersion reads it |
| Versioning.BootstrapBringsCurrent | Lib/MigrationVersion.php:252-271 | after a completed bootstrap, getVersion of the plugin's own migrations reads their highest listed version |
| Versioning.MigrationVersion.constructor | Lib/MigrationVersion.php:57-70 | a fresh object has the given files, table and layout and an empty cache, which is coherent |

## Left out

- `getMigration` and `__loadFile` (`Lib/MigrationVersion.php:181-194`, `:280-295`) are not modelled. They load PHP files and instantiate classes. The unit bodies (`$migration->run`, line 238) are external schema changes. Both are one abstract step per version: it succeeds, or it raises when the version is in `failing`. A unit that changes the `schema_migrations` table itself, or its columns, is not modelled.
- `bc` is a constant of the object. In PHP it is re-read from the table's schema at each call (lines 102, 146), so a unit that adds the `class` column mid-run switches the layout. That switch is not modelled.
- The database plumbing is not modelled: `ConnectionManager`, `listSources`, `ClassRegistry::init`, the `connection` option, and `Model::find`/`save`/`deleteAll`/`schema`. The table is the `store` field; whether it exists is the `tableExists` parameter.
- Versioning.MigrationVersion.SetVersion: the boolean `setVersion` returns is not modelled, and neither are failing writes. `save` and `deleteAll` always succeed.
- Versioning.MigrationVersion.Run: the `true` that `run` returns is the `Completed` outcome. An exception from a unit is the `Aborted(v)` outcome. The exception's message and its translation via `__d` are not modelled.
- `Inflector::camelize`, `CakePlugin::path` and `Folder::find` are not modelled. `camelize` is an uninterpreted function. Each existing directory is given with its files in the order the folder search lists them; a missing directory has no entry in `files`.
- Catalogue.NumericPrefix: versions are unbounded integers. PHP's `(int)` at line 318 saturates at PHP_INT_MAX, so two files whose prefixes exceed it share one version there but get distinct versions in the model.
- Runner.Settle: `$targetVersion++` at lines 215 and 220 turns PHP_INT_MAX into a float in PHP; the model just adds 1.
- Catalogue.DecimalRoundTrip: the round trip holds in PHP only for n <= PHP_INT_MAX; the model states it for every n.
- Catalogue.ParseNumberedFile: the parse gives version n in PHP only for n <= PHP_INT_MAX; the model states it for every n.
- PHP loose typing is not modelled. The version prefix is the value of its leading decimal digits. Prefixes that PHP reads in other ways (signs, spaces, exponents) are not modelled. Versions passed to `run` are integers.
- The `created` stamps are integers. A null `created` value in the table is not modelled.
- Versioning.MigrationVersion.constructor: the `autoinit` option is not modelled. The PHP constructor always bootstraps, because `$options` is overwritten before it is read (lines 62-67). The model's constructor leaves the bootstrap to a separate `InitMigrations` call. That call does what the PHP constructor does at line 68.
- The idempotence lemmas (`RunUpTwiceIsNoOp`, `RunToLastTwiceIsNoOp`, `CatchUpTwiceIsNoOp`, `BootstrapIdempotent`), the up-run lemmas and the down-run frame lemmas (`RevertedKeepsBelow`, `RunDownKeepsAtOrBelow`, `RunDownReadsTarget`) assume the legacy layout or distinct class names. With two versions sharing a class name, one row marks both as applied, and a revert of one reverts both. For example, take the listing {1: class A, 2: class A} in the class layout with one row for A. A run to version 1 reverts 2, which deletes the row for A, and entry 1 then reads as pending.
