/**
 * The MigrationVersion object: the migration files it can see, the
 * schema_migrations table it reads and writes, and its per-type mapping
 * cache; getVersion, setVersion, getMapping, run, the bootstrap of the
 * plugin's own migrations, and the directory scan.
 */
module Versioning {
  import opened Wrappers
  import opened Catalogue
  import opened Store
  import opened Mapping
  import opened Runner

  /** Where migrations of a type live: the application's migration directory,
      or the one of the plugin with the given (camelized) name. */
  datatype Directory = AppDir | PluginDir(plugin: string)

  /** "app" names the application; any other type names a plugin, whose
      directory is found under its camelized name. */
  function DirectoryOf(typ: string, camelize: string -> string): Directory {
    if typ == "app" then AppDir else PluginDir(camelize(typ))
  }

  /** What the bootstrap does: on a missing table it runs unit 1 of the
      plugin's own migrations and records it (aborting when that unit is not
      listed or raises); then it catches up. `boot` is the listing the
      missing-table branch scans, `own` the one recorded under "Migrations". */
  function Bootstrap(boot: Listing, own: Listing, rows: seq<Row>, bc: bool, tableExists: bool,
                     failing: set<int>, now: int): RunResult
  {
    if !tableExists && (1 !in boot || 1 in failing) then RunResult(Aborted(1), [], rows)
    else
      var r := CatchUp(own, Installed(own, rows, bc, tableExists, now), bc, failing, now);
      RunResult(r.outcome, (if tableExists then [] else [1]) + r.executed, r.rows)
  }

  /** The table the catch-up starts from: as found, or with unit 1 recorded. */
  function Installed(own: Listing, rows: seq<Row>, bc: bool, tableExists: bool, now: int): seq<Row> {
    if tableExists then rows else Record(rows, own, "Migrations", bc, true, now, 1)
  }

  /** A completed bootstrap is the catch-up from the installed table. */
  lemma BootstrapCompleted(boot: Listing, own: Listing, rows: seq<Row>, bc: bool, tableExists: bool,
                           failing: set<int>, now: int)
    ensures var r := Bootstrap(boot, own, rows, bc, tableExists, failing, now);
            var c := CatchUp(own, Installed(own, rows, bc, tableExists, now), bc, failing, now);
            r.outcome == Completed ==>
              (tableExists || (1 in boot && 1 !in failing)) && r.outcome == c.outcome && r.rows == c.rows
  {
  }

  /** The second half of the bootstrap: when the plugin lists more than one
      migration of its own, run them to the highest listed version. */
  function CatchUp(own: Listing, rows: seq<Row>, bc: bool, failing: set<int>, now: int): RunResult
  {
    var es := Resolve(own, rows, "Migrations", bc);
    if |es| > 1 then RunEffect(own, rows, "Migrations", bc, Some(es[|es| - 1].version), None, failing, now)
    else RunResult(Completed, [], rows)
  }

  /** A completed catch-up, done again, executes nothing and leaves the table
      as it is (legacy layout, or distinct class names). */
  lemma CatchUpTwiceIsNoOp(own: Listing, rows: seq<Row>, bc: bool, failing: set<int>, now: int)
    requires PositiveVersions(own)
    requires bc || DistinctClasses(own)
    ensures var r := CatchUp(own, rows, bc, failing, now);
            r.outcome == Completed ==> CatchUp(own, r.rows, bc, failing, now) == RunResult(Completed, [], r.rows)
  {
    var r := CatchUp(own, rows, bc, failing, now);
    if r.outcome == Completed && |own| > 1 {
      var es := Resolve(own, rows, "Migrations", bc);
      var again := Resolve(own, r.rows, "Migrations", bc);
      ResolveVersions(own, rows, r.rows, "Migrations", bc);
      assert again[|again| - 1].version == es[|es| - 1].version;
      RunToLastTwiceIsNoOp(own, rows, "Migrations", bc, failing, now);
    }
  }

  /** Once a bootstrap has completed, the next one (the table now exists)
      executes nothing and leaves the table as it is (legacy layout, or
      distinct class names). */
  lemma BootstrapIdempotent(boot: Listing, own: Listing, rows: seq<Row>, bc: bool, tableExists: bool,
                            failing: set<int>, now: int)
    requires PositiveVersions(own)
    requires bc || DistinctClasses(own)
    ensures var r := Bootstrap(boot, own, rows, bc, tableExists, failing, now);
            r.outcome == Completed ==>
              Bootstrap(boot, own, r.rows, bc, true, failing, now) == RunResult(Completed, [], r.rows)
  {
    var r := Bootstrap(boot, own, rows, bc, tableExists, failing, now);
    if r.outcome == Completed {
      BootstrapCompleted(boot, own, rows, bc, tableExists, failing, now);
      var installed := Installed(own, rows, bc, tableExists, now);
      var c := CatchUp(own, installed, bc, failing, now);
      CatchUpTwiceIsNoOp(own, installed, bc, failing, now);
      var again := CatchUp(own, c.rows, bc, failing, now);
      assert Bootstrap(boot, own, c.rows, bc, true, failing, now) == RunResult(again.outcome, [] + again.executed, again.rows);
      assert [] + again.executed == [];
    }
  }

  /** getVersion reads the highest version the mapping lists. */
  predicate AtHighest(es: seq<Entry>) {
    |es| > 0 && LatestMigrated(es) == es[|es| - 1].version
  }

  /** After a completed catch-up the plugin's own migrations read as being at
      their highest listed version, when it lists more than one (legacy
      layout, or distinct class names). */

  lemma CatchUpBringsCurrent(own: Listing, rows: seq<Row>, bc: bool, failing: set<int>, now: int)
    requires PositiveVersions(own)
    requires bc || DistinctClasses(own)
    requires |own| > 1
    ensures var r := CatchUp(own, rows, bc, failing, now);
            r.outcome == Completed ==> AtHighest(Resolve(own, r.rows, "Migrations", bc))
  {
    var r := CatchUp(own, rows, bc, failing, now);
    if r.outcome == Completed {
      var es := Resolve(own, rows, "Migrations", bc);
      var target := es[|es| - 1].version;
      var after := Resolve(own, r.rows, "Migrations", bc);
      ResolveVersions(own, rows, r.rows, "Migrations", bc);
      ResolveAscending(own, rows, "Migrations", bc);
      if target > LatestMigrated(es) {
        RunUpMigratesUpTo(own, rows, "Migrations", bc, target, None, failing, now);
        LastMigratedIsLatest(own, r.rows, bc);
      } else {
        ResolvePositive(own, rows, "Migrations", bc);
        LatestIsLast(es);
        LatestMigratedIsMax(es);
        RunToLastTwiceIsNoOp(own, rows, "Migrations", bc, failing, now);
        RunToVersionAtOrBelowLatest(es, target, None);
        NothingAboveLast(es);
        NoMembersIsEmpty(PlannedWalk(es, Some(target), None));
        RunEffectOfEmptyWalk(own, rows, "Migrations", bc, Some(target), None, failing, now);
      }
    }
  }

  /** When the last entry of a mapping of positive versions is migrated, it is
      the latest migrated version. */
  lemma LastMigratedIsLatest(own: Listing, rows: seq<Row>, bc: bool)
    requires PositiveVersions(own) && |own| > 0
    ensures var es := Resolve(own, rows, "Migrations", bc);
            es[|es| - 1].migrated.Some? ==> LatestMigrated(es) == es[|es| - 1].version
  {
    ResolveAscending(own, rows, "Migrations", bc);
    ResolvePositive(own, rows, "Migrations", bc);
    LatestIsLast(Resolve(own, rows, "Migrations", bc));
  }

  /** After a completed bootstrap the plugin's own migrations read as being at
      their highest listed version, when it lists more than one (legacy
      layout, or distinct class names). */
  lemma BootstrapBringsCurrent(boot: Listing, own: Listing, rows: seq<Row>, bc: bool, tableExists: bool,
                               failing: set<int>, now: int)
    requires PositiveVersions(own)
    requires bc || DistinctClasses(own)
    requires |own| > 1
    ensures var r := Bootstrap(boot, own, rows, bc, tableExists, failing, now);
            r.outcome == Completed ==> AtHighest(Resolve(own, r.rows, "Migrations", bc))
  {
    var r := Bootstrap(boot, own, rows, bc, tableExists, failing, now);
    if r.outcome == Completed {
      BootstrapCompleted(boot, own, rows, bc, tableExists, failing, now);
      var c := CatchUp(own, Installed(own, rows, bc, tableExists, now), bc, failing, now);
      CatchUpBringsCurrent(own, Installed(own, rows, bc, tableExists, now), bc, failing, now);
      assert c.outcome == Completed;
      assert r.rows == c.rows;
    }
  }

  /** In an ascending mapping of positive versions the latest migrated version
      is the last entry's when that one is migrated, and never above it. */
  lemma LatestIsLast(es: seq<Entry>)
    requires |es| > 0 && StrictlyAscending(es) && forall i :: 0 <= i < |es| ==> es[i].version > 0
    ensures LatestMigrated(es) <= es[|es| - 1].version
    ensures es[|es| - 1].migrated.Some? ==> LatestMigrated(es) == es[|es| - 1].version
  {
    LatestMigratedIsMax(es);
    NothingAboveLast(es);
  }

  /** Storing a mapping for one type leaves the cache of every other type as it was. */
  lemma CachingKeepsOthers(cache: map<string, seq<Entry>>, typ: string, mapping: seq<Entry>)
    ensures cache[typ := mapping] - {typ} == cache - {typ}
  {
  }

  /** Evicting a type that is already evicted changes nothing else. */
  lemma EvictingAgain(cache: map<string, seq<Entry>>, typ: string)
    ensures (cache - {typ}) - {typ} == cache - {typ}
  {
  }

  /** How `run` settles direction and boundary from its options and the
      latest migrated version. */
  method SettlePlan(version: Option<int>, direction: Option<string>, latest: int) returns (dir: string, target: int)
    ensures Plan(dir, target) == Settle(version, direction, latest)
  {
    target := latest;
    dir := "";
    if version.Some? {
      target := version.value;
      dir := if target <= latest then "down" else "up";
      if dir == "down" {
        target := target + 1;
      }
    } else if direction.Some? && !IsEmptyString(direction.value) {
      dir := direction.value;
      if dir == "up" {
        target := target + 1;
      }
    }
  }

  /** One step of the walk loop: the entry at `i` either stops the walk, or
      is executed or skipped before the walk goes on with the next entry. */
  lemma WalkStep(mapping: seq<Entry>, i: int, p: Plan, executed: seq<int>, walk: seq<int>)
    requires 0 <= i < |mapping|
    requires walk == executed + Walk(mapping[i..], p)
    ensures Stops(mapping[i], p) ==> walk == executed && Walk(mapping[i..], p) == []
    ensures !Stops(mapping[i], p) && Acts(mapping[i], p) ==>
              walk == (executed + [mapping[i].version]) + Walk(mapping[i + 1..], p)
              && Walk(mapping[i..], p) != [] && Walk(mapping[i..], p)[0] == mapping[i].version
              && |walk| > |executed| && walk[|executed|] == mapping[i].version
    ensures !Stops(mapping[i], p) && !Acts(mapping[i], p) ==> walk == executed + Walk(mapping[i + 1..], p)
  {
    var rest := mapping[i..];
    assert rest[1..] == mapping[i + 1..];
    assert rest[0] == mapping[i];
    if Stops(mapping[i], p) {
      assert executed + [] == executed;
    } else if Acts(mapping[i], p) {
      assert walk == executed + ([mapping[i].version] + Walk(mapping[i + 1..], p));
      assert walk[|executed|] == mapping[i].version;
    }
  }

  /** When the loop has passed every entry, the whole walk has been executed. */
  lemma EndOfWalk(mapping: seq<Entry>, i: int, p: Plan, executed: seq<int>, walk: seq<int>)
    requires i == |mapping|
    requires walk == executed + Walk(mapping[i..], p)
    ensures walk == executed
  {
    assert mapping[i..] == [];
    assert executed + [] == executed;
  }

  /** The loop of `getMapping` over the listing in ascending version order
      (`ksort`): each entry takes the listing's name and class and, as its
      migrated stamp, the one `stamps` holds for its identity. */
  method Combine(listing: Listing, stamps: map<Key, int>, ghost rows: seq<Row>, typ: string, bc: bool)
    returns (mapping: seq<Entry>)
    requires forall k :: k in stamps <==> Created(rows, typ, k).Some?
    requires forall k :: k in stamps ==> Created(rows, typ, k) == Some(stamps[k])
    ensures mapping == Resolve(listing, rows, typ, bc)
  {
    var versions := SortedVersions(listing.Keys);
    mapping := [];
    var i := 0;
    while i < |versions|
      invariant 0 <= i <= |versions|
      invariant |mapping| == i
      invariant forall k :: 0 <= k < i ==> versions[k] in listing && mapping[k] == EntryFor(listing, rows, typ, bc, versions[k])
    {
      var v := versions[i];
      assert v in versions;
      var definition := listing[v];
      var migrated := None;
      var identity := Identity(bc, v, definition.className);
      if identity in stamps {
        migrated := Some(stamps[identity]);
      }
      mapping := mapping + [Entry(v, definition.name, definition.className, typ, migrated)];
      i := i + 1;
    }
    ResolveIs(listing, rows, typ, bc, mapping);
  }

  /** getVersion's scan: the mapping sorted by descending version (`krsort`)
      and walked from the top, returning the first migrated version, or 0. */
  method LatestOf(mapping: seq<Entry>) returns (version: int)
    ensures version == LatestMigrated(mapping)
  {
    var i := |mapping|;
    assert mapping[..i] == mapping;
    while i > 0
      invariant 0 <= i <= |mapping|
      invariant LatestMigrated(mapping) == LatestMigrated(mapping[..i])
    {
      assert mapping[..i][..i - 1] == mapping[..i - 1];
      if mapping[i - 1].migrated.Some? {
        return mapping[i - 1].version;
      }
      i := i - 1;
    }
    return 0;
  }

  class MigrationVersion {
    /** The migration directories that exist, each with the `.php` files the
        folder search lists in it, in that order. */
    const files: map<Directory, seq<string>>
    /** `Inflector::camelize`, taken as given. */
    const camelize: string -> string
    /** The legacy layout: the table has no `class` column, so applied
        migrations are identified by version rather than by class. */
    const bc: bool
    /** The schema_migrations table. */
    var store: seq<Row>
    /** `__mapping`: the last mapping computed for each type. */
    var cache: map<string, seq<Entry>>

    /** The listing `_enumerateMigrations(typ)` returns. */
    function ListingOf(typ: string): Listing {
      var d := DirectoryOf(typ, camelize);
      if d in files then Enumerated(files[d], camelize) else map[]
    }

    /** The mapping `getMapping(typ, false)` computes from the table as it is. */
    function MappingOf(typ: string): seq<Entry>
      reads this`store
    {
      Resolve(ListingOf(typ), store, typ, bc)
    }

    /** The cache is coherent: each cached mapping is what getMapping would
        compute now. */
    ghost predicate Valid()
      reads this
    {
      forall t :: t in cache ==> cache[t] == MappingOf(t)
    }

    /** The object with autoinit off; the bootstrap it would otherwise run is
        InitMigrations. */
    constructor(files: map<Directory, seq<string>>, camelize: string -> string, bc: bool, store: seq<Row>)
      ensures this.files == files && this.camelize == camelize && this.bc == bc
      ensures this.store == store && cache == map[]
      ensures Valid()
    {
      this.files := files;
      this.camelize := camelize;
      this.bc := bc;
      this.store := store;
      cache := map[];
    }

    /** `_enumerateMigrations`: every file of the type's directory whose name
        starts with a positive number and an underscore, keyed by that number,
        a later file overwriting an earlier one with the same number. */
    method EnumerateMigrations(typ: string) returns (listing: Listing)
      ensures listing == ListingOf(typ)
      ensures forall v :: v in listing ==> v > 0
    {
      listing := map[];
      var d := DirectoryOf(typ, camelize);
      if d !in files {
        return;
      }
      var found := files[d];
      var i := 0;
      while i < |found|
        invariant 0 <= i <= |found|
        invariant listing == Enumerated(found[..i], camelize)
      {
        var parsed := ParseFile(found[i], camelize);
        if parsed.Some? {
          listing := listing[parsed.value.0 := parsed.value.1];
        }
        assert found[..i + 1][..i] == found[..i];
        i := i + 1;
      }
      assert found[..i] == found;
    }

    /** `find` of the rows of type `typ` and `Set::combine` of them by
        identity: each identity present maps to the created stamp of its last
        row. */
    method StampsOf(typ: string) returns (stamps: map<Key, int>)
      ensures forall k :: k in stamps <==> Created(store, typ, k).Some?
      ensures forall k :: k in stamps ==> Created(store, typ, k) == Some(stamps[k])
    {
      stamps := map[];
      var i := 0;
      while i < |store|
        invariant 0 <= i <= |store|
        invariant forall k :: k in stamps <==> Created(store[..i], typ, k).Some?
        invariant forall k :: k in stamps ==> Created(store[..i], typ, k) == Some(stamps[k])
      {
        var row := store[i];
        if row.typ == typ {
          stamps := stamps[row.key := row.created];
        }
        assert store[..i + 1][..i] == store[..i];
        i := i + 1;
      }
      assert store[..i] == store;
    }

    /** The join of `getMapping`: for each listed version in ascending order
        (`ksort`), an entry with the listing's name and class, marked migrated
        with the created stamp the table holds for its identity. */
    method Join(typ: string, listing: Listing) returns (mapping: seq<Entry>)
      ensures mapping == Resolve(listing, store, typ, bc)
    {
      var stamps := StampsOf(typ);
      mapping := Combine(listing, stamps, store, typ, bc);
    }

    /** `getMapping`: a non-empty cached mapping when the cache is used;
        otherwise [] (PHP's false) for a type with no migration files, or the
        joined mapping, which is then cached. */
    method GetMapping(typ: string, useCache: bool) returns (mapping: seq<Entry>)
      requires Valid()
      modifies this`cache
      ensures Valid()
      ensures mapping == MappingOf(typ)
      ensures cache == if mapping == [] then old(cache) else old(cache)[typ := mapping]
      ensures cache - {typ} == old(cache) - {typ}
    {
      if useCache && typ in cache && cache[typ] != [] {
        mapping := cache[typ];
        assert cache[typ := mapping] == cache;
      } else {
        mapping := Refresh(typ);
      }
    }

    /** getMapping past the cache: [] for a type with no migration files,
        otherwise the joined mapping, which is then cached. */
    method Refresh(typ: string) returns (mapping: seq<Entry>)
      requires Valid()
      modifies this`cache
      ensures Valid()
      ensures mapping == MappingOf(typ)
      ensures cache == if mapping == [] then old(cache) else old(cache)[typ := mapping]
      ensures cache - {typ} == old(cache) - {typ}
    {
      var listing := EnumerateMigrations(typ);
      if |listing| == 0 {
        return [];
      }
      mapping := Join(typ, listing);
      Cache(typ, mapping);
    }

    /** `$this->__mapping[$type] = $mapping`: storing the mapping getMapping
        just computed keeps the cache coherent. */
    method Cache(typ: string, mapping: seq<Entry>)
      requires Valid() && mapping == MappingOf(typ)
      modifies this`cache
      ensures Valid()
      ensures cache == old(cache)[typ := mapping]
      ensures cache - {typ} == old(cache) - {typ}
    {
      CachingKeepsOthers(cache, typ, mapping);
      cache := cache[typ := mapping];
      forall t | t in cache ensures cache[t] == MappingOf(t) {
        if t != typ {
          assert cache[t] == old(cache)[t];
        }
      }
    }

    /** `getVersion`: walking the mapping from the highest version down, the
        first migrated version; 0 when none is. */
    method GetVersion(typ: string) returns (version: int)
      requires Valid()
      modifies this`cache
      ensures Valid()
      ensures version == LatestMigrated(MappingOf(typ))
      ensures cache == if MappingOf(typ) == [] then old(cache) else old(cache)[typ := MappingOf(typ)]
      ensures cache - {typ} == old(cache) - {typ}
    {
      var mapping := GetMapping(typ, true);
      version := LatestOf(mapping);
    }

    /** `setVersion`: records `version` of `typ` as applied (a new row stamped
        `now`) or as not applied (its rows deleted), under its version in the
        legacy layout and under the mapping's class otherwise, then evicts the
        type from the cache. */
    method SetVersion(version: int, typ: string, migrated: bool, now: int)
      requires Valid()
      modifies this`store, this`cache
      ensures Valid()
      ensures store == Record(old(store), ListingOf(typ), typ, bc, migrated, now, version)
      ensures cache == old(cache) - {typ}
    {
      var mapping := GetMapping(typ, true);
      ClassAtResolve(ListingOf(typ), store, typ, bc, version);
      var key := if bc then ByVersion(version) else ByClass(ClassAt(mapping, version));
      Write(typ, key, migrated, now);
      assert cache == old(cache) - {typ};
    }

    /** The write of setVersion: `save` of a row for `key` or `deleteAll` of
        the rows of `typ` under it, then `unset($this->__mapping[$type])`. */
    method Write(typ: string, key: Key, migrated: bool, now: int)
      requires Valid()
      modifies this`store, this`cache
      ensures Valid()
      ensures store == if migrated then Inserted(old(store), key, typ, now) else Deleted(old(store), typ, key)
      ensures cache == old(cache) - {typ}
    {
      if migrated {
        store := Inserted(store, key, typ, now);
      } else {
        store := Deleted(store, typ, key);
      }
      cache := cache - {typ};
      forall t | t in cache ensures cache[t] == MappingOf(t) {
        WriteKeepsOtherTypes(ListingOf(t), old(store), key, typ, migrated, now, t, bc);
      }
    }

    /** `run`: settles direction and boundary, walks a snapshot of the mapping
        taken before the first unit runs, and runs and records each unit to
        apply or revert; a unit in `failing` raises and stops the run. */
    method Run(typ: string, version: Option<int>, direction: Option<string>, failing: set<int>, now: int)
      returns (outcome: Outcome, executed: seq<int>)
      requires Valid()
      modifies this`store, this`cache
      ensures Valid()
      ensures RunResult(outcome, executed, store)
              == RunEffect(ListingOf(typ), old(store), typ, bc, version, direction, failing, now)
      ensures cache - {typ} == old(cache) - {typ}
    {
      var latest := GetVersion(typ);
      var mapping := GetMapping(typ, false);
      var dir, target := SettlePlan(version, direction, latest);
      if dir == "down" {
        mapping := Reversed(mapping);
      }
      outcome, executed := RunSteps(typ, mapping, dir, target, failing, now);
    }

    /** The loop of `run` over the snapshot `mapping`, already in walk order:
        it breaks at the first entry past the boundary, and runs and records
        each entry to apply (up) or revert (down) until a unit in `failing`
        raises. */
    method RunSteps(typ: string, mapping: seq<Entry>, dir: string, target: int, failing: set<int>, now: int)
      returns (outcome: Outcome, executed: seq<int>)
      requires Valid()
      modifies this`store, this`cache
      ensures Valid()
      ensures executed == BeforeFailure(Walk(mapping, Plan(dir, target)), failing)
      ensures outcome == if |executed| == |Walk(mapping, Plan(dir, target))| then Completed
                         else Aborted(Walk(mapping, Plan(dir, target))[|executed|])
      ensures store == Recorded(old(store), ListingOf(typ), typ, bc, dir == "up", now, executed)
      ensures cache - {typ} == old(cache) - {typ}
    {
      ghost var p := Plan(dir, target);
      ghost var walk := Walk(mapping, p);
      ghost var cat := ListingOf(typ);
      ghost var rows := store;
      executed := [];
      var i := 0;
      assert mapping[i..] == mapping;
      while i < |mapping|
        invariant 0 <= i <= |mapping|
        invariant Valid()
        invariant walk == executed + Walk(mapping[i..], p)
        invariant forall v :: v in executed ==> v !in failing
        invariant store == Recorded(rows, cat, typ, bc, dir == "up", now, executed)
        invariant cache - {typ} == old(cache) - {typ}
      {
        var info := mapping[i];
        WalkStep(mapping, i, p, executed, walk);
        if (dir == "up" && info.version > target) || (dir == "down" && info.version < target) {
          break;
        } else if (dir == "up" && info.migrated.None?) || (dir == "down" && info.migrated.Some?) {
          if info.version in failing {
            BeforeFailureSplit(executed, Walk(mapping[i..], p), failing);
            return Aborted(info.version), executed;
          }
          ghost var before := cache;
          SetVersion(info.version, typ, dir == "up", now);
          RecordedSnoc(rows, cat, typ, bc, dir == "up", now, executed, info.version);
          EvictingAgain(before, typ);
          executed := executed + [info.version];
        }
        i := i + 1;
      }
      if i == |mapping| {
        EndOfWalk(mapping, i, p, executed, walk);
      }
      BeforeFailureSplit(executed, [], failing);
      outcome := Completed;
    }

    /** `__initMigrations`: on a missing table, runs and records unit 1 of
        the plugin's own migrations; then catches up. */
    method InitMigrations(tableExists: bool, failing: set<int>, now: int) returns (outcome: Outcome, executed: seq<int>)
      requires Valid()
      modifies this`store, this`cache
      ensures Valid()
      ensures RunResult(outcome, executed, store)
              == Bootstrap(ListingOf("migrations"), ListingOf("Migrations"), old(store), bc, tableExists, failing, now)
    {
      var first := [];
      if !tableExists {
        var boot := EnumerateMigrations("migrations");
        if 1 !in boot || 1 in failing {
          return Aborted(1), [];
        }
        SetVersion(1, "Migrations", true, now);
        first := [1];
      }
      var done;
      outcome, done := CatchUpMigrations(failing, now);
      executed := first + done;
    }

    /** The end of `__initMigrations`: when the plugin lists more than one
        migration of its own, run them to the highest listed version. */
    method CatchUpMigrations(failing: set<int>, now: int) returns (outcome: Outcome, executed: seq<int>)
      requires Valid()
      modifies this`store, this`cache
      ensures Valid()
      ensures RunResult(outcome, executed, store) == CatchUp(ListingOf("Migrations"), old(store), bc, failing, now)
    {
      var mapping := GetMapping("Migrations", true);
      if |mapping| > 1 {
        outcome, executed := Run("Migrations", Some(mapping[|mapping| - 1].version), None, failing, now);
      } else {
        outcome, executed := Completed, [];
      }
    }
  }
}
