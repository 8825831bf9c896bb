/**
 * What `run` does with a snapshot of the mapping: it settles a direction and
 * a boundary from its options, walks the snapshot ascending (up) or
 * descending (down), stops at the boundary, and executes and records the
 * pending (up) or migrated (down) entries before it.
 */
module Runner {
  import opened Wrappers
  import opened Catalogue
  import opened Store
  import opened Mapping

  /** PHP's `empty()` on a string option. */
  predicate IsEmptyString(s: string) {
    s == "" || s == "0"
  }

  /** `run` settles a direction only when given a version or a non-empty direction. */
  predicate HasTarget(version: Option<int>, direction: Option<string>) {
    version.Some? || (direction.Some? && !IsEmptyString(direction.value))
  }

  /** A direction ("up", "down" or whatever string the caller gave) and the boundary of the walk. */
  datatype Plan = Plan(direction: string, boundary: int)

  /** How `run` settles direction and boundary from its options and the latest
      version. With neither option the direction stays unset, which no entry
      matches; it is modelled as the empty direction. */
  function Settle(version: Option<int>, direction: Option<string>, latest: int): Plan {
    if version.Some? then
      if version.value <= latest then Plan("down", version.value + 1) else Plan("up", version.value)
    else if HasTarget(version, direction) then
      if direction.value == "up" then Plan("up", latest + 1) else Plan(direction.value, latest)
    else Plan("", latest)
  }

  /** The entry at which the walk breaks. */
  predicate Stops(e: Entry, p: Plan) {
    (p.direction == "up" && e.version > p.boundary) || (p.direction == "down" && e.version < p.boundary)
  }

  /** The entry the walk executes: pending when going up, migrated when going down. */
  predicate Acts(e: Entry, p: Plan) {
    (p.direction == "up" && e.migrated.None?) || (p.direction == "down" && e.migrated.Some?)
  }

  predicate StrictlyDescending(es: seq<Entry>) {
    forall i, j :: 0 <= i < j < |es| ==> es[i].version > es[j].version
  }

  predicate Descending(vs: seq<int>) {
    forall i, j :: 0 <= i < j < |vs| ==> vs[i] > vs[j]
  }

  /** `krsort` on an ascending mapping. */
  function Reversed(es: seq<Entry>): (r: seq<Entry>)
    ensures |r| == |es| && forall i :: 0 <= i < |es| ==> r[i] == es[|es| - 1 - i]
  {
    if es == [] then [] else Reversed(es[1..]) + [es[0]]
  }

  /** The order `run` walks the snapshot in. */
  function WalkOrder(mapping: seq<Entry>, p: Plan): seq<Entry> {
    if p.direction == "down" then Reversed(mapping) else mapping
  }

  /** The versions the walk executes, in order, when no unit fails. */
  function Walk(es: seq<Entry>, p: Plan): seq<int> {
    if es == [] || Stops(es[0], p) then []
    else (if Acts(es[0], p) then [es[0].version] else []) + Walk(es[1..], p)
  }

  /** The versions executed and recorded before the first unit that fails. */
  function BeforeFailure(w: seq<int>, failing: set<int>): (done: seq<int>)
    ensures |done| <= |w| && done == w[..|done|]
    ensures forall v :: v in done ==> v !in failing
    ensures |done| < |w| ==> w[|done|] in failing
  {
    if w == [] || w[0] in failing then []
    else
      var rest := BeforeFailure(w[1..], failing);
      assert w == [w[0]] + w[1..];
      [w[0]] + rest
  }

  /** A prefix with no failing unit passes through unchanged. */
  lemma {:induction false} BeforeFailureAppend(pre: seq<int>, rest: seq<int>, failing: set<int>)
    requires forall v :: v in pre ==> v !in failing
    ensures BeforeFailure(pre + rest, failing) == pre + BeforeFailure(rest, failing)
  {
    if pre != [] {
      var tail := pre[1..];
      assert (pre + rest)[1..] == tail + rest;
      assert forall v :: v in tail ==> v in pre;
      BeforeFailureAppend(tail, rest, failing);
      assert pre[0] in pre && (pre + rest)[0] == pre[0];
      assert BeforeFailure(pre + rest, failing) == [pre[0]] + BeforeFailure(tail + rest, failing);
      assert pre + BeforeFailure(rest, failing) == [pre[0]] + (tail + BeforeFailure(rest, failing));
    } else {
      assert pre + rest == rest;
    }
  }

  /** Units that succeed followed by nothing or by a failing unit: exactly
      the units before the failure are done. */
  lemma BeforeFailureSplit(done: seq<int>, rest: seq<int>, failing: set<int>)
    requires forall v :: v in done ==> v !in failing
    requires rest == [] || rest[0] in failing
    ensures BeforeFailure(done + rest, failing) == done
  {
    BeforeFailureAppend(done, rest, failing);
    assert done + [] == done;
  }

  /** The key `setVersion` writes or deletes: the version in the legacy layout,
      otherwise the class the mapping lists for the version (null if none). */
  function SetKey(cat: Listing, bc: bool, v: int): Key {
    if bc then ByVersion(v) else ByClass(if v in cat then Some(cat[v].className) else None)
  }

  /** `setVersion(v, typ, migrated)` on the table. */
  function Record(rows: seq<Row>, cat: Listing, typ: string, bc: bool, migrated: bool, now: int, v: int): seq<Row> {
    var key := SetKey(cat, bc, v);
    if migrated then Inserted(rows, key, typ, now) else Deleted(rows, typ, key)
  }

  /** `setVersion` for each of `vs` in turn. */
  function Recorded(rows: seq<Row>, cat: Listing, typ: string, bc: bool, migrated: bool, now: int, vs: seq<int>): seq<Row> {
    if vs == [] then rows
    else Record(Recorded(rows, cat, typ, bc, migrated, now, vs[..|vs| - 1]), cat, typ, bc, migrated, now, vs[|vs| - 1])
  }

  /** Recording one more version after a sequence of them. */
  lemma RecordedSnoc(rows: seq<Row>, cat: Listing, typ: string, bc: bool, migrated: bool, now: int, vs: seq<int>, v: int)
    ensures Recorded(rows, cat, typ, bc, migrated, now, vs + [v])
              == Record(Recorded(rows, cat, typ, bc, migrated, now, vs), cat, typ, bc, migrated, now, v)
  {
    assert (vs + [v])[..|vs|] == vs;
  }

  /** `run` returns true, or a unit raised and the run stopped there. */
  datatype Outcome = Completed | Aborted(version: int)

  datatype RunResult = RunResult(outcome: Outcome, executed: seq<int>, rows: seq<Row>)

  function PlanFor(es: seq<Entry>, version: Option<int>, direction: Option<string>): Plan
  {
    Settle(version, direction, LatestMigrated(es))
  }

  /** The versions `run` would execute over mapping `es` when no unit fails. */
  function PlannedWalk(es: seq<Entry>, version: Option<int>, direction: Option<string>): seq<int>
  {
    var p := PlanFor(es, version, direction);
    Walk(WalkOrder(es, p), p)
  }

  /** What `run` does to the table of one type: the snapshot is resolved once,
      the walk executes until a unit in `failing` raises, and each executed
      version is recorded right after it runs. */
  function RunEffect(cat: Listing, rows: seq<Row>, typ: string, bc: bool, version: Option<int>,
                     direction: Option<string>, failing: set<int>, now: int): RunResult
  {
    var mapping := Resolve(cat, rows, typ, bc);
    var p := PlanFor(mapping, version, direction);
    var walk := PlannedWalk(mapping, version, direction);
    var done := BeforeFailure(walk, failing);
    RunResult(if |done| == |walk| then Completed else Aborted(walk[|done|]), done,
              Recorded(rows, cat, typ, bc, p.direction == "up", now, done))
  }

  /** Some version of `vs` is recorded under key `k`. */
  predicate KeyAmong(cat: Listing, bc: bool, vs: seq<int>, k: Key) {
    vs != [] && (SetKey(cat, bc, vs[|vs| - 1]) == k || KeyAmong(cat, bc, vs[..|vs| - 1], k))
  }

  predicate PositiveVersions(cat: Listing) {
    forall v :: v in cat ==> v > 0
  }

  /** No two listed versions share a class name. */
  predicate DistinctClasses(cat: Listing) {
    forall v, w :: v in cat && w in cat && v != w ==> cat[v].className != cat[w].className
  }

  // ----- the walk -----

  /** Going up over an ascending mapping, the walk executes exactly the pending
      entries at or below the boundary, in ascending order. */
  lemma {:induction false} WalkUp(es: seq<Entry>, p: Plan)
    requires StrictlyAscending(es) && p.direction == "up"
    ensures Ascending(Walk(es, p))
    ensures forall v :: v in Walk(es, p) <==> PendingAt(es, v) && v <= p.boundary
  {
    if es != [] {
      var tail := es[1..];
      assert forall i :: 1 <= i < |es| ==> tail[i - 1] == es[i];
      if Stops(es[0], p) {
        forall v | PendingAt(es, v) ensures v > p.boundary {
          var i :| 0 <= i < |es| && es[i].version == v && es[i].migrated.None?;
          assert i == 0 || es[0].version < es[i].version;
        }
      } else {
        WalkUp(tail, p);
        var w := Walk(tail, p);
        var head := if Acts(es[0], p) then [es[0].version] else [];
        assert Walk(es, p) == head + w;
        forall v | PendingAt(es, v) && v <= p.boundary ensures v in head + w {
          var i :| 0 <= i < |es| && es[i].version == v && es[i].migrated.None?;
          if i > 0 { assert PendingAt(tail, v); }
        }
        forall v | v in w ensures es[0].version < v && PendingAt(es, v) {
          var i :| 0 <= i < |tail| && tail[i].version == v && tail[i].migrated.None?;
          assert es[i + 1] == tail[i];
        }
        if head != [] { AscendingCons(es[0].version, w); }
      }
    }
  }

  /** Going down over a descending mapping, the walk executes exactly the
      migrated entries at or above the boundary, in descending order. */
  lemma {:induction false} WalkDown(ds: seq<Entry>, p: Plan)
    requires StrictlyDescending(ds) && p.direction == "down"
    ensures Descending(Walk(ds, p))
    ensures forall v :: v in Walk(ds, p) <==> MigratedAt(ds, v) && v >= p.boundary
  {
    if ds != [] {
      var tail := ds[1..];
      assert forall i :: 1 <= i < |ds| ==> tail[i - 1] == ds[i];
      if Stops(ds[0], p) {
        forall v | MigratedAt(ds, v) ensures v < p.boundary {
          var i :| 0 <= i < |ds| && ds[i].version == v && ds[i].migrated.Some?;
          assert i == 0 || ds[0].version > ds[i].version;
        }
      } else {
        WalkDown(tail, p);
        var w := Walk(tail, p);
        var head := if Acts(ds[0], p) then [ds[0].version] else [];
        assert Walk(ds, p) == head + w;
        forall v | MigratedAt(ds, v) && v >= p.boundary ensures v in head + w {
          var i :| 0 <= i < |ds| && ds[i].version == v && ds[i].migrated.Some?;
          if i > 0 { assert MigratedAt(tail, v); }
        }
        forall v | v in w ensures ds[0].version > v && MigratedAt(ds, v) {
          var i :| 0 <= i < |tail| && tail[i].version == v && tail[i].migrated.Some?;
          assert ds[i + 1] == tail[i];
        }
        if head != [] { DescendingCons(ds[0].version, w); }
      }
    }
  }

  /** `krsort` of an ascending mapping is descending and holds the same entries. */
  lemma ReversedFacts(es: seq<Entry>)
    requires StrictlyAscending(es)
    ensures StrictlyDescending(Reversed(es))
    ensures forall v :: MigratedAt(Reversed(es), v) <==> MigratedAt(es, v)
  {
    var r := Reversed(es);
    forall v | MigratedAt(es, v) ensures MigratedAt(r, v) {
      var i :| 0 <= i < |es| && es[i].version == v && es[i].migrated.Some?;
      assert r[|es| - 1 - i] == es[i];
    }
    forall v | MigratedAt(r, v) ensures MigratedAt(es, v) {
      var i :| 0 <= i < |r| && r[i].version == v && r[i].migrated.Some?;
      assert r[i] == es[|es| - 1 - i];
    }
  }

  lemma DescendingSingleton(w: seq<int>, x: int)
    requires Descending(w) && forall v :: v in w <==> v == x
    ensures w == [x]
  {
    assert x in w;
    var first := SomeMember(w);
    if |w| > 1 {
      FirstTwoDiffer(w);
      assert false;
    }
  }

  lemma FirstTwoDiffer(w: seq<int>)
    requires Descending(w) && |w| > 1
    ensures w[0] in w && w[1] in w && w[0] != w[1]
  {
  }

  lemma NoMembersIsEmpty(w: seq<int>)
    requires forall v :: v !in w
    ensures w == []
  {
    if |w| > 0 {
      var x := SomeMember(w);
      assert false;
    }
  }

  lemma SomeMember(w: seq<int>) returns (x: int)
    requires |w| > 0
    ensures x in w
  {
    x := w[0];
  }

  lemma AscendingCons(x: int, w: seq<int>)
    requires Ascending(w) && forall v :: v in w ==> x < v
    ensures Ascending([x] + w)
  {
    forall i, j | 0 < i < j < |w| + 1 ensures ([x] + w)[i] < ([x] + w)[j] {
      assert ([x] + w)[i] == w[i - 1];
    }
    forall j | 0 < j < |w| + 1 ensures x < ([x] + w)[j] {
      assert w[j - 1] in w;
    }
  }

  lemma DescendingCons(x: int, w: seq<int>)
    requires Descending(w) && forall v :: v in w ==> x > v
    ensures Descending([x] + w)
  {
    forall i, j | 0 < i < j < |w| + 1 ensures ([x] + w)[i] > ([x] + w)[j] {
      assert ([x] + w)[i] == w[i - 1];
    }
    forall j | 0 < j < |w| + 1 ensures x > ([x] + w)[j] {
      assert w[j - 1] in w;
    }
  }

  /** A version of `vs` puts its key among the keys of `vs`. */
  lemma {:induction false} KeyAmongOf(cat: Listing, bc: bool, vs: seq<int>, v: int)
    requires v in vs
    ensures KeyAmong(cat, bc, vs, SetKey(cat, bc, v))
  {
    var n := |vs| - 1;
    if vs[n] != v {
      assert v in vs[..n] by {
        var i :| 0 <= i < |vs| && vs[i] == v;
        assert vs[..n][i] == v;
      }
      KeyAmongOf(cat, bc, vs[..n], v);
    }
  }

  /** In the legacy layout, or with distinct class names, distinct listed
      versions are recorded under distinct keys. */
  lemma SetKeyDistinct(cat: Listing, bc: bool, v: int, u: int)
    requires v in cat && u in cat && (bc || DistinctClasses(cat))
    requires v != u
    ensures SetKey(cat, bc, v) != SetKey(cat, bc, u)
  {
  }

  /** A listed version outside `vs` does not share its key with any of them
      (legacy layout, or distinct class names). */
  lemma {:induction false} NotAmong(cat: Listing, bc: bool, vs: seq<int>, v: int)
    requires v in cat && (bc || DistinctClasses(cat))
    requires forall u :: u in vs ==> u in cat && u != v
    ensures !KeyAmong(cat, bc, vs, SetKey(cat, bc, v))
  {
    if vs != [] {
      var n := |vs| - 1;
      assert vs[n] in vs;
      SetKeyDistinct(cat, bc, vs[n], v);
      forall u | u in vs[..n] ensures u in cat && u != v {
        var k :| 0 <= k < n && vs[..n][k] == u;
        assert vs[k] == u;
      }
      NotAmong(cat, bc, vs[..n], v);
    }
  }

  // ----- the options of run -----

  /** `run` to an explicit version T at or below the latest migrated version:
      down with boundary T + 1, reverting exactly the migrated entries above T,
      from the highest down; T itself is kept. */
  lemma RunToVersionAtOrBelowLatest(es: seq<Entry>, target: int, direction: Option<string>)
    requires StrictlyAscending(es)
    requires target <= LatestMigrated(es)
    ensures PlanFor(es, Some(target), direction) == Plan("down", target + 1)
    ensures Descending(PlannedWalk(es, Some(target), direction))
    ensures forall v :: v in PlannedWalk(es, Some(target), direction) <==> MigratedAt(es, v) && v > target
  {
    ReversedFacts(es);
    WalkDown(Reversed(es), Plan("down", target + 1));
  }

  /** `run` to an explicit version T above the latest migrated version: up with
      boundary T, applying exactly the pending entries up to T (gaps below the
      latest included) in ascending order, and none above T. */
  lemma RunToVersionAboveLatest(es: seq<Entry>, target: int, direction: Option<string>)
    requires StrictlyAscending(es)
    requires target > LatestMigrated(es)
    ensures PlanFor(es, Some(target), direction) == Plan("up", target)
    ensures Ascending(PlannedWalk(es, Some(target), direction))
    ensures forall v :: v in PlannedWalk(es, Some(target), direction) <==> PendingAt(es, v) && v <= target
  {
    WalkUp(es, Plan("up", target));
  }

  /** `run` with direction "up" and no version reaches only the latest migrated
      version plus one: pending entries up to there, ascending. */
  lemma RunOneStepUp(es: seq<Entry>)
    requires StrictlyAscending(es)
    ensures PlanFor(es, None, Some("up")) == Plan("up", LatestMigrated(es) + 1)
    ensures Ascending(PlannedWalk(es, None, Some("up")))
    ensures forall v :: v in PlannedWalk(es, None, Some("up")) <==> PendingAt(es, v) && v <= LatestMigrated(es) + 1
  {
    WalkUp(es, Plan("up", LatestMigrated(es) + 1));
  }

  /** `run` with direction "down" and no version reverts only the latest
      migrated version, and nothing when none is migrated. */
  lemma RunOneStepDown(es: seq<Entry>)
    requires StrictlyAscending(es)
    requires forall i :: 0 <= i < |es| ==> es[i].version > 0
    ensures PlannedWalk(es, None, Some("down"))
              == if LatestMigrated(es) == 0 then [] else [LatestMigrated(es)]
  {
    var latest := LatestMigrated(es);
    var w := PlannedWalk(es, None, Some("down"));
    DownToLatest(es);
    LatestMigratedIsMax(es);
    forall v ensures v in w <==> latest != 0 && v == latest {
      if v in w {
        var i :| 0 <= i < |es| && es[i].version == v && es[i].migrated.Some?;
      }
    }
    if latest != 0 {
      DescendingSingleton(w, latest);
    } else {
      NoMembersIsEmpty(w);
    }
  }

  /** `run` with direction "down" and no version walks down to the latest
      migrated version. */
  lemma DownToLatest(es: seq<Entry>)
    requires StrictlyAscending(es)
    ensures Descending(PlannedWalk(es, None, Some("down")))
    ensures forall v :: v in PlannedWalk(es, None, Some("down")) <==> MigratedAt(es, v) && v >= LatestMigrated(es)
  {
    var p := Plan("down", LatestMigrated(es));
    assert PlanFor(es, None, Some("down")) == p;
    ReversedFacts(es);
    WalkDown(Reversed(es), p);
  }

  /** A direction other than "up" and "down" executes nothing. */
  lemma {:induction false} RunOtherDirection(es: seq<Entry>, p: Plan)
    requires p.direction != "up" && p.direction != "down"
    ensures Walk(es, p) == []
  {
    if es != [] {
      RunOtherDirection(es[1..], p);
    }
  }

  /** `run` with neither a version nor a non-empty direction executes nothing. */
  lemma RunWithoutTarget(es: seq<Entry>, version: Option<int>, direction: Option<string>)
    requires !HasTarget(version, direction)
    ensures PlannedWalk(es, version, direction) == []
  {
    RunOtherDirection(WalkOrder(es, PlanFor(es, version, direction)), PlanFor(es, version, direction));
  }

  // ----- the table after a run -----

  /** No entry above `target` reads as migrated. */
  predicate NoneMigratedAbove(es: seq<Entry>, target: int) {
    forall i :: 0 <= i < |es| && es[i].version > target ==> es[i].migrated.None?
  }

  /** A mapping of positive versions with nothing migrated above T reads at most T. */
  lemma LatestAtMost(es: seq<Entry>, target: int)
    requires StrictlyAscending(es) && forall i :: 0 <= i < |es| ==> es[i].version > 0
    requires target >= 0
    requires NoneMigratedAbove(es, target)
    ensures LatestMigrated(es) <= target
  {
    LatestMigratedIsMax(es);
    var latest := LatestMigrated(es);
    if latest != 0 {
      var k :| 0 <= k < |es| && es[k].version == latest && es[k].migrated.Some?;
    }
  }

  lemma ResolvePositive(cat: Listing, rows: seq<Row>, typ: string, bc: bool)
    requires PositiveVersions(cat)
    ensures forall i :: 0 <= i < |Resolve(cat, rows, typ, bc)| ==> Resolve(cat, rows, typ, bc)[i].version > 0
  {
    ResolveFacts(cat, rows, typ, bc);
    var es := Resolve(cat, rows, typ, bc);
    forall i | 0 <= i < |es| ensures es[i].version > 0 {
      assert es[i].version in cat;
    }
  }

  /** The entry of listed version `v` in the mapping, which reads the key
      `setVersion` records `v` under. */
  lemma EntryOf(cat: Listing, rows: seq<Row>, typ: string, bc: bool, v: int) returns (j: int)
    requires v in cat
    ensures var es := Resolve(cat, rows, typ, bc);
            0 <= j < |es| && es[j].version == v && es[j].migrated == Created(rows, typ, SetKey(cat, bc, v))
  {
    ResolveFacts(cat, rows, typ, bc);
    var es := Resolve(cat, rows, typ, bc);
    j :| 0 <= j < |es| && es[j].version == v;
    EntryReadsSetKey(cat, rows, typ, bc, j);
  }

  /** Every mapping entry reads the key `setVersion` records its version under. */
  lemma EntryReadsSetKey(cat: Listing, rows: seq<Row>, typ: string, bc: bool, i: int)
    requires 0 <= i < |Resolve(cat, rows, typ, bc)|
    ensures var e := Resolve(cat, rows, typ, bc)[i];
            e.version in cat && e.migrated == Created(rows, typ, SetKey(cat, bc, e.version))
  {
    ResolveFacts(cat, rows, typ, bc);
    var e := Resolve(cat, rows, typ, bc)[i];
    assert e.className == cat[e.version].className;
  }

  /** After recording `vs` as not migrated, each of their keys reads as not
      applied for `typ`; every other (type, key) reads as before. */
  lemma {:induction false} RecordedDeletes(rows: seq<Row>, cat: Listing, typ: string, bc: bool, now: int,
                                           vs: seq<int>, t: string, k: Key)
    ensures Created(Recorded(rows, cat, typ, bc, false, now, vs), t, k)
              == if t == typ && KeyAmong(cat, bc, vs, k) then None
                 else Created(rows, t, k)
  {
    if vs != [] {
      var n := |vs| - 1;
      var init := vs[..n];
      RecordedDeletes(rows, cat, typ, bc, now, init, t, k);
      DeletedCreated(Recorded(rows, cat, typ, bc, false, now, init), typ, SetKey(cat, bc, vs[n]), t, k);
    }
  }

  /** After recording `vs` as migrated, each of their keys reads as applied at
      `now` for `typ`; every other (type, key) reads as before. */
  lemma {:induction false} RecordedInserts(rows: seq<Row>, cat: Listing, typ: string, bc: bool, now: int,
                                           vs: seq<int>, t: string, k: Key)
    ensures Created(Recorded(rows, cat, typ, bc, true, now, vs), t, k)
              == if t == typ && KeyAmong(cat, bc, vs, k) then Some(now)
                 else Created(rows, t, k)
  {
    if vs != [] {
      var n := |vs| - 1;
      var init := vs[..n];
      RecordedInserts(rows, cat, typ, bc, now, init, t, k);
      InsertedCreated(Recorded(rows, cat, typ, bc, true, now, init), SetKey(cat, bc, vs[n]), typ, now, t, k);
    }
  }

  /** Recording a listed version as migrated makes its entry read as migrated;
      recording it as not migrated afterwards makes it read as pending again. */
  lemma RecordRoundTrip(cat: Listing, rows: seq<Row>, typ: string, bc: bool, now: int, v: int)
    requires v in cat
    ensures MigratedAt(Resolve(cat, Record(rows, cat, typ, bc, true, now, v), typ, bc), v)
    ensures PendingAt(Resolve(cat, Record(Record(rows, cat, typ, bc, true, now, v), cat, typ, bc, false, now, v), typ, bc), v)
  {
    var key := SetKey(cat, bc, v);
    var up := Record(rows, cat, typ, bc, true, now, v);
    var down := Record(up, cat, typ, bc, false, now, v);
    InsertedCreated(rows, key, typ, now, typ, key);
    DeletedCreated(up, typ, key, typ, key);
    var i := EntryOf(cat, up, typ, bc, v);
    var j := EntryOf(cat, down, typ, bc, v);
  }

  /** A run that completes executes and records its whole planned walk. */
  lemma RunEffectCompleted(cat: Listing, rows: seq<Row>, typ: string, bc: bool, version: Option<int>,
                           direction: Option<string>, failing: set<int>, now: int)
    requires RunEffect(cat, rows, typ, bc, version, direction, failing, now).outcome == Completed
    ensures var es := Resolve(cat, rows, typ, bc);
            var w := PlannedWalk(es, version, direction);
            var r := RunEffect(cat, rows, typ, bc, version, direction, failing, now);
            r.executed == w && r.rows == Recorded(rows, cat, typ, bc, PlanFor(es, version, direction).direction == "up", now, w)
  {
    var es := Resolve(cat, rows, typ, bc);
    var w := PlannedWalk(es, version, direction);
    var done := BeforeFailure(w, failing);
    assert |done| == |w|;
    assert done == w;
  }

  /** Reverting exactly the migrated entries above T leaves none of them migrated. */
  lemma RevertedAbove(cat: Listing, rows: seq<Row>, typ: string, bc: bool, target: int, now: int, w: seq<int>)
    requires forall v :: v in w <==> MigratedAt(Resolve(cat, rows, typ, bc), v) && v > target
    ensures NoneMigratedAbove(Resolve(cat, Recorded(rows, cat, typ, bc, false, now, w), typ, bc), target)
  {
    var es := Resolve(cat, rows, typ, bc);
    var reverted := Recorded(rows, cat, typ, bc, false, now, w);
    var after := Resolve(cat, reverted, typ, bc);
    forall i | 0 <= i < |after| && after[i].version > target ensures after[i].migrated.None? {
      var v := after[i].version;
      var key := SetKey(cat, bc, v);
      EntryReadsSetKey(cat, reverted, typ, bc, i);
      RecordedDeletes(rows, cat, typ, bc, now, w, typ, key);
      var j := EntryOf(cat, rows, typ, bc, v);
      if es[j].migrated.Some? {
        assert MigratedAt(es, v);
        KeyAmongOf(cat, bc, w, v);
      }
    }
  }

  /** Reverting exactly the migrated entries above T leaves every entry at or
      below T as it was (legacy layout, or distinct class names). */
  lemma RevertedKeepsBelow(cat: Listing, rows: seq<Row>, typ: string, bc: bool, target: int, now: int, w: seq<int>)
    requires bc || DistinctClasses(cat)
    requires forall v :: v in w <==> MigratedAt(Resolve(cat, rows, typ, bc), v) && v > target
    ensures var es := Resolve(cat, rows, typ, bc);
            var after := Resolve(cat, Recorded(rows, cat, typ, bc, false, now, w), typ, bc);
            |after| == |es| && forall i :: 0 <= i < |es| && es[i].version <= target ==> after[i].migrated == es[i].migrated
  {
    var es := Resolve(cat, rows, typ, bc);
    var reverted := Recorded(rows, cat, typ, bc, false, now, w);
    var after := Resolve(cat, reverted, typ, bc);
    ResolveVersions(cat, rows, reverted, typ, bc);
    forall i | 0 <= i < |es| && es[i].version <= target ensures after[i].migrated == es[i].migrated {
      var v := es[i].version;
      var key := SetKey(cat, bc, v);
      EntryReadsSetKey(cat, rows, typ, bc, i);
      EntryReadsSetKey(cat, reverted, typ, bc, i);
      RecordedDeletes(rows, cat, typ, bc, now, w, typ, key);
      forall u | u in w ensures u in cat && u != v {
        var n :| 0 <= n < |es| && es[n].version == u && es[n].migrated.Some?;
        EntryReadsSetKey(cat, rows, typ, bc, n);
      }
      NotAmong(cat, bc, w, v);
    }
  }

  /** Reverting exactly the migrated entries above T leaves getVersion reading at most T. */
  lemma RevertedAboveLatest(cat: Listing, rows: seq<Row>, typ: string, bc: bool, target: int, now: int, w: seq<int>)
    requires forall v :: v in w <==> MigratedAt(Resolve(cat, rows, typ, bc), v) && v > target
    ensures var after := Resolve(cat, Recorded(rows, cat, typ, bc, false, now, w), typ, bc);
            NoneMigratedAbove(after, target) && (PositiveVersions(cat) && target >= 0 ==> LatestMigrated(after) <= target)
  {
    RevertedAbove(cat, rows, typ, bc, target, now, w);
    if PositiveVersions(cat) && target >= 0 {
      ResolvedAtMost(cat, Recorded(rows, cat, typ, bc, false, now, w), typ, bc, target);
    }
  }

  /** A resolved mapping of positive versions with nothing migrated above T reads at most T. */
  lemma ResolvedAtMost(cat: Listing, rows: seq<Row>, typ: string, bc: bool, target: int)
    requires PositiveVersions(cat) && target >= 0
    requires NoneMigratedAbove(Resolve(cat, rows, typ, bc), target)
    ensures LatestMigrated(Resolve(cat, rows, typ, bc)) <= target
  {
    ResolvePositive(cat, rows, typ, bc);
    ResolveAscending(cat, rows, typ, bc);
    LatestAtMost(Resolve(cat, rows, typ, bc), target);
  }

  /** Applying exactly the pending entries up to T, above a latest migrated
      version below T, leaves the entries migrated exactly up to T (legacy
      layout, or distinct class names). */
  lemma AppliedUpTo(cat: Listing, rows: seq<Row>, typ: string, bc: bool, target: int, now: int, w: seq<int>)
    requires bc || DistinctClasses(cat)
    requires forall i :: 0 <= i < |Resolve(cat, rows, typ, bc)| ==>
               (Resolve(cat, rows, typ, bc)[i].migrated.Some? ==> Resolve(cat, rows, typ, bc)[i].version < target)
    requires forall v :: v in w <==> PendingAt(Resolve(cat, rows, typ, bc), v) && v <= target
    ensures var after := Resolve(cat, Recorded(rows, cat, typ, bc, true, now, w), typ, bc);
            forall i :: 0 <= i < |after| ==> (after[i].migrated.Some? <==> after[i].version <= target)
  {
    ResolveFacts(cat, rows, typ, bc);
    var es := Resolve(cat, rows, typ, bc);
    var applied := Recorded(rows, cat, typ, bc, true, now, w);
    var after := Resolve(cat, applied, typ, bc);
    forall i | 0 <= i < |after| ensures after[i].migrated.Some? <==> after[i].version <= target {
      var v := after[i].version;
      var key := SetKey(cat, bc, v);
      EntryReadsSetKey(cat, applied, typ, bc, i);
      RecordedInserts(rows, cat, typ, bc, now, w, typ, key);
      var j := EntryOf(cat, rows, typ, bc, v);
      if v <= target {
        if es[j].migrated.None? {
          assert PendingAt(es, v);
          KeyAmongOf(cat, bc, w, v);
        }
      } else {
        forall u | u in w ensures u in cat && u != v {
          var n :| 0 <= n < |es| && es[n].version == u && es[n].migrated.None?;
        }
        NotAmong(cat, bc, w, v);
      }
    }
  }

  /** A run whose planned walk is empty completes, executes nothing and leaves the table as it is. */
  lemma RunEffectOfEmptyWalk(cat: Listing, rows: seq<Row>, typ: string, bc: bool, version: Option<int>,
                             direction: Option<string>, failing: set<int>, now: int)
    requires PlannedWalk(Resolve(cat, rows, typ, bc), version, direction) == []
    ensures RunEffect(cat, rows, typ, bc, version, direction, failing, now) == RunResult(Completed, [], rows)
  {
  }

  /** Nothing above the last entry of an ascending mapping is migrated. */
  lemma NothingAboveLast(es: seq<Entry>)
    requires StrictlyAscending(es) && |es| > 0
    ensures forall v :: MigratedAt(es, v) ==> v <= es[|es| - 1].version
  {
    forall v | MigratedAt(es, v) ensures v <= es[|es| - 1].version {
      var i :| 0 <= i < |es| && es[i].version == v && es[i].migrated.Some?;
      assert i == |es| - 1 || es[i].version < es[|es| - 1].version;
    }
  }

  /** On a mapping migrated exactly up to T, a run to T has nothing to do. */
  lemma SettledAt(es: seq<Entry>, target: int, direction: Option<string>)
    requires StrictlyAscending(es)
    requires forall i :: 0 <= i < |es| ==> (es[i].migrated.Some? <==> es[i].version <= target)
    ensures PlannedWalk(es, Some(target), direction) == []
  {
    var w := PlannedWalk(es, Some(target), direction);
    if target <= LatestMigrated(es) {
      RunToVersionAtOrBelowLatest(es, target, direction);
      forall v | MigratedAt(es, v) ensures v <= target {
        var i :| 0 <= i < |es| && es[i].version == v && es[i].migrated.Some?;
      }
    } else {
      RunToVersionAboveLatest(es, target, direction);
      forall v | PendingAt(es, v) ensures v > target {
        var i :| 0 <= i < |es| && es[i].version == v && es[i].migrated.None?;
      }
    }
    NoMembersIsEmpty(w);
  }

  /** A completed run to a version T at or below the latest migrated version
      leaves no entry above T migrated, so getVersion then reads at most T. */
  lemma RunDownLeavesNothingAbove(cat: Listing, rows: seq<Row>, typ: string, bc: bool, target: int,
                                  direction: Option<string>, failing: set<int>, now: int)
    requires target <= LatestMigrated(Resolve(cat, rows, typ, bc))
    requires RunEffect(cat, rows, typ, bc, Some(target), direction, failing, now).outcome == Completed
    ensures var after := Resolve(cat, RunEffect(cat, rows, typ, bc, Some(target), direction, failing, now).rows, typ, bc);
            NoneMigratedAbove(after, target) && (PositiveVersions(cat) && target >= 0 ==> LatestMigrated(after) <= target)
  {
    ResolveAscending(cat, rows, typ, bc);
    var es := Resolve(cat, rows, typ, bc);
    RunToVersionAtOrBelowLatest(es, target, direction);
    RunEffectCompleted(cat, rows, typ, bc, Some(target), direction, failing, now);
    var w := PlannedWalk(es, Some(target), direction);
    assert RunEffect(cat, rows, typ, bc, Some(target), direction, failing, now).rows
             == Recorded(rows, cat, typ, bc, false, now, w);
    RevertedAboveLatest(cat, rows, typ, bc, target, now, w);
  }

  /** A completed run to a version T at or below the latest migrated version
      leaves every entry at or below T as it was, T's own record included
      (legacy layout, or distinct class names). */
  lemma RunDownKeepsAtOrBelow(cat: Listing, rows: seq<Row>, typ: string, bc: bool, target: int,
                              direction: Option<string>, failing: set<int>, now: int)
    requires bc || DistinctClasses(cat)
    requires target <= LatestMigrated(Resolve(cat, rows, typ, bc))
    requires RunEffect(cat, rows, typ, bc, Some(target), direction, failing, now).outcome == Completed
    ensures var es := Resolve(cat, rows, typ, bc);
            var after := Resolve(cat, RunEffect(cat, rows, typ, bc, Some(target), direction, failing, now).rows, typ, bc);
            |after| == |es| && forall i :: 0 <= i < |es| && es[i].version <= target ==> after[i].migrated == es[i].migrated
  {
    ResolveAscending(cat, rows, typ, bc);
    var es := Resolve(cat, rows, typ, bc);
    RunToVersionAtOrBelowLatest(es, target, direction);
    RunEffectCompleted(cat, rows, typ, bc, Some(target), direction, failing, now);
    var w := PlannedWalk(es, Some(target), direction);
    assert RunEffect(cat, rows, typ, bc, Some(target), direction, failing, now).rows
             == Recorded(rows, cat, typ, bc, false, now, w);
    RevertedKeepsBelow(cat, rows, typ, bc, target, now, w);
  }

  /** A completed run down to a migrated version T leaves getVersion reading
      exactly T (legacy layout, or distinct class names). */
  lemma RunDownReadsTarget(cat: Listing, rows: seq<Row>, typ: string, bc: bool, target: int,
                           direction: Option<string>, failing: set<int>, now: int)
    requires PositiveVersions(cat)
    requires bc || DistinctClasses(cat)
    requires MigratedAt(Resolve(cat, rows, typ, bc), target)
    requires RunEffect(cat, rows, typ, bc, Some(target), direction, failing, now).outcome == Completed
    ensures LatestMigrated(Resolve(cat, RunEffect(cat, rows, typ, bc, Some(target), direction, failing, now).rows, typ, bc)) == target
  {
    var es := Resolve(cat, rows, typ, bc);
    var after := Resolve(cat, RunEffect(cat, rows, typ, bc, Some(target), direction, failing, now).rows, typ, bc);
    ResolveAscending(cat, rows, typ, bc);
    ResolvePositive(cat, rows, typ, bc);
    LatestMigratedIsMax(es);
    var k :| 0 <= k < |es| && es[k].version == target && es[k].migrated.Some?;
    RunDownLeavesNothingAbove(cat, rows, typ, bc, target, direction, failing, now);
    RunDownKeepsAtOrBelow(cat, rows, typ, bc, target, direction, failing, now);
    ResolveVersions(cat, rows, RunEffect(cat, rows, typ, bc, Some(target), direction, failing, now).rows, typ, bc);
    ResolveAscending(cat, RunEffect(cat, rows, typ, bc, Some(target), direction, failing, now).rows, typ, bc);
    ResolvePositive(cat, RunEffect(cat, rows, typ, bc, Some(target), direction, failing, now).rows, typ, bc);
    LatestMigratedIsMax(after);
    assert after[k].version == target && after[k].migrated.Some?;
  }

  /** In the legacy layout or with distinct class names, the entries of a
      mapping read as migrated after a completed up run to T exactly when they
      are at or below T. */
  lemma RunUpMigratesUpTo(cat: Listing, rows: seq<Row>, typ: string, bc: bool, target: int,
                          direction: Option<string>, failing: set<int>, now: int)
    requires PositiveVersions(cat)
    requires bc || DistinctClasses(cat)
    requires target > LatestMigrated(Resolve(cat, rows, typ, bc))
    requires RunEffect(cat, rows, typ, bc, Some(target), direction, failing, now).outcome == Completed
    ensures var after := Resolve(cat, RunEffect(cat, rows, typ, bc, Some(target), direction, failing, now).rows, typ, bc);
            forall i :: 0 <= i < |after| ==> (after[i].migrated.Some? <==> after[i].version <= target)
  {
    ResolveFacts(cat, rows, typ, bc);
    var es := Resolve(cat, rows, typ, bc);
    RunToVersionAboveLatest(es, target, direction);
    RunEffectCompleted(cat, rows, typ, bc, Some(target), direction, failing, now);
    ResolvePositive(cat, rows, typ, bc);
    LatestMigratedIsMax(es);
    AppliedUpTo(cat, rows, typ, bc, target, now, PlannedWalk(es, Some(target), direction));
  }

  /** Running up to the same version twice: the second run executes nothing
      (legacy layout, or distinct class names). */
  lemma RunUpTwiceIsNoOp(cat: Listing, rows: seq<Row>, typ: string, bc: bool, target: int,
                         direction: Option<string>, failing: set<int>, now: int)
    requires PositiveVersions(cat)
    requires bc || DistinctClasses(cat)
    requires target > LatestMigrated(Resolve(cat, rows, typ, bc))
    requires RunEffect(cat, rows, typ, bc, Some(target), direction, failing, now).outcome == Completed
    ensures var r := RunEffect(cat, rows, typ, bc, Some(target), direction, failing, now);
            PlannedWalk(Resolve(cat, r.rows, typ, bc), Some(target), direction) == []
  {
    var r := RunEffect(cat, rows, typ, bc, Some(target), direction, failing, now);
    RunUpMigratesUpTo(cat, rows, typ, bc, target, direction, failing, now);
    ResolveFacts(cat, r.rows, typ, bc);
    SettledAt(Resolve(cat, r.rows, typ, bc), target, direction);
  }

  /** Running to the highest listed version, then again: the second run
      executes nothing and leaves the table as it is (legacy layout, or
      distinct class names). This is why the bootstrap is a no-op once the
      plugin's own migrations are current. */
  lemma RunToLastTwiceIsNoOp(cat: Listing, rows: seq<Row>, typ: string, bc: bool,
                             failing: set<int>, now: int)
    requires PositiveVersions(cat)
    requires bc || DistinctClasses(cat)
    requires |cat| > 0
    ensures var es := Resolve(cat, rows, typ, bc);
            var last := Some(es[|es| - 1].version);
            var r := RunEffect(cat, rows, typ, bc, last, None, failing, now);
            r.outcome == Completed ==>
              RunEffect(cat, r.rows, typ, bc, last, None, failing, now) == RunResult(Completed, [], r.rows)
  {
    ResolveFacts(cat, rows, typ, bc);
    var es := Resolve(cat, rows, typ, bc);
    var target := es[|es| - 1].version;
    var r := RunEffect(cat, rows, typ, bc, Some(target), None, failing, now);
    if r.outcome == Completed {
      if target > LatestMigrated(es) {
        RunUpTwiceIsNoOp(cat, rows, typ, bc, target, None, failing, now);
      } else {
        RunToVersionAtOrBelowLatest(es, target, None);
        NothingAboveLast(es);
        var w := PlannedWalk(es, Some(target), None);
        NoMembersIsEmpty(w);
        RunEffectOfEmptyWalk(cat, rows, typ, bc, Some(target), None, failing, now);
      }
      RunEffectOfEmptyWalk(cat, r.rows, typ, bc, Some(target), None, failing, now);
    }
  }
}
