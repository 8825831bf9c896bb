/**
 * The mapping `getMapping` returns for a type: the listing joined with the
 * applied-migrations table, one entry per version in ascending order, and
 * the version `getVersion` reads off it.
 */
module Mapping {
  import opened Wrappers
  import opened Catalogue
  import opened Store

  /** One mapping entry; `migrated` is the created stamp of its row, or null. */
  datatype Entry = Entry(version: int, name: string, className: string, typ: string, migrated: Option<int>)

  /** The key under which the table records a migration: its version in the
      legacy layout, its class name otherwise. */
  function Identity(bc: bool, version: int, className: string): Key {
    if bc then ByVersion(version) else ByClass(Some(className))
  }

  predicate Ascending(vs: seq<int>) {
    forall i, j :: 0 <= i < j < |vs| ==> vs[i] < vs[j]
  }

  predicate StrictlyAscending(es: seq<Entry>) {
    forall i, j :: 0 <= i < j < |es| ==> es[i].version < es[j].version
  }

  /** True when `v` is the version of an entry whose `migrated` is set. */
  predicate MigratedAt(es: seq<Entry>, v: int) {
    exists i :: 0 <= i < |es| && es[i].version == v && es[i].migrated.Some?
  }

  /** True when `v` is the version of an entry whose `migrated` is null. */
  predicate PendingAt(es: seq<Entry>, v: int) {
    exists i :: 0 <= i < |es| && es[i].version == v && es[i].migrated.None?
  }

  lemma NonEmptyHasElement(s: set<int>)
    requires s != {}
    ensures exists x :: x in s
  {
    if forall y :: y !in s {
      assert false;
    }
  }

  lemma {:induction false} LeastExists(s: set<int>)
    requires s != {}
    ensures exists m :: m in s && forall y :: y in s ==> m <= y
  {
    NonEmptyHasElement(s);
    var x :| x in s;
    if s != {x} {
      var rest := s - {x};
      LeastExists(rest);
      var m :| m in rest && forall y :: y in rest ==> m <= y;
      var least := if x < m then x else m;
      forall y | y in s ensures least <= y {
        if y != x { assert y in rest; }
      }
    }
  }

  function Least(s: set<int>): (m: int)
    requires s != {}
    ensures m in s && forall y :: y in s ==> m <= y
  {
    LeastExists(s);
    var m :| m in s && forall y :: y in s ==> m <= y;
    m
  }

  /** `ksort` on the listing's keys: its versions in ascending order. */
  function SortedVersions(s: set<int>): (vs: seq<int>)
    ensures Ascending(vs)
    ensures |vs| == |s|
    ensures forall v :: v in vs <==> v in s
    decreases s
  {
    if s == {} then []
    else
      var m := Least(s);
      [m] + SortedVersions(s - {m})
  }

  /** The entry built for listed version `v`: its definition, its type, and
      the created stamp of its identity among the rows of that type. */
  function EntryFor(cat: Listing, rows: seq<Row>, typ: string, bc: bool, v: int): Entry
    requires v in cat
  {
    Entry(v, cat[v].name, cat[v].className, typ, Created(rows, typ, Identity(bc, v, cat[v].className)))
  }

  /** What `getMapping(typ, false)` returns: [] (PHP's false) exactly when the
      listing is empty; otherwise one entry per listed version, ascending.
      ResolveFacts states what the entries hold. */
  function Resolve(cat: Listing, rows: seq<Row>, typ: string, bc: bool): (es: seq<Entry>)
    ensures |es| == |cat|
  {
    EntriesFor(cat, rows, typ, bc, SortedVersions(cat.Keys))
  }

  /** One entry per version of `vs`, in the order of `vs`. */
  function EntriesFor(cat: Listing, rows: seq<Row>, typ: string, bc: bool, vs: seq<int>): (es: seq<Entry>)
    requires forall v :: v in vs ==> v in cat
    ensures |es| == |vs|
  {
    if vs == [] then []
    else [EntryFor(cat, rows, typ, bc, vs[0])] + EntriesFor(cat, rows, typ, bc, vs[1..])
  }

  lemma {:induction false} EntriesForAt(cat: Listing, rows: seq<Row>, typ: string, bc: bool, vs: seq<int>)
    requires forall v :: v in vs ==> v in cat
    ensures forall i :: 0 <= i < |vs| ==> vs[i] in cat && EntriesFor(cat, rows, typ, bc, vs)[i] == EntryFor(cat, rows, typ, bc, vs[i])
  {
    if vs != [] {
      var tail := vs[1..];
      assert forall v :: v in tail ==> v in vs;
      EntriesForAt(cat, rows, typ, bc, tail);
      var es := EntriesFor(cat, rows, typ, bc, vs);
      forall i | 0 <= i < |vs| ensures vs[i] in cat && es[i] == EntryFor(cat, rows, typ, bc, vs[i]) {
        assert vs[i] in vs;
        if i > 0 {
          assert vs[i] == tail[i - 1];
        }
      }
    }
  }

  /** The mapping holds one entry per listed version, in strictly ascending
      order; each carries the listing's definition for its version and the
      type asked for, and reads as migrated with the created stamp of the
      last row of that type carrying its identity, null when there is none. */
  lemma ResolveFacts(cat: Listing, rows: seq<Row>, typ: string, bc: bool)
    ensures var es := Resolve(cat, rows, typ, bc);
            StrictlyAscending(es)
            && (forall v :: v in cat ==> exists i :: 0 <= i < |es| && es[i].version == v)
            && (forall i :: 0 <= i < |es| ==>
                  es[i].version in cat && cat[es[i].version] == Definition(es[i].name, es[i].className) && es[i].typ == typ)
            && (forall i :: 0 <= i < |es| ==>
                  es[i].migrated == Created(rows, typ, Identity(bc, es[i].version, es[i].className)))
  {
    var vs := SortedVersions(cat.Keys);
    var es := Resolve(cat, rows, typ, bc);
    EntriesForAt(cat, rows, typ, bc, vs);
    forall v | v in cat ensures exists i :: 0 <= i < |es| && es[i].version == v {
      var i :| 0 <= i < |vs| && vs[i] == v;
      assert es[i].version == v;
    }
  }

  lemma ResolveAscending(cat: Listing, rows: seq<Row>, typ: string, bc: bool)
    ensures StrictlyAscending(Resolve(cat, rows, typ, bc))
  {
    ResolveFacts(cat, rows, typ, bc);
  }

  /** The join: an entry is migrated iff a row of its type carries its
      identity, by version in the legacy layout and by class otherwise. */
  lemma ResolveJoin(cat: Listing, rows: seq<Row>, typ: string, bc: bool, i: int)
    requires 0 <= i < |Resolve(cat, rows, typ, bc)|
    ensures var e := Resolve(cat, rows, typ, bc)[i];
            e.migrated.Some? <==> exists j :: 0 <= j < |rows| && Matches(rows[j], typ, Identity(bc, e.version, e.className))
  {
    ResolveFacts(cat, rows, typ, bc);
    var e := Resolve(cat, rows, typ, bc)[i];
    CreatedFindsLastRow(rows, typ, Identity(bc, e.version, e.className));
  }

  /** `$mapping[$version]['class']` on a mapping: the class of the entry with
      that version, null when there is none. */
  function ClassAt(es: seq<Entry>, v: int): Option<string> {
    if es == [] then None
    else if es[0].version == v then Some(es[0].className)
    else ClassAt(es[1..], v)
  }

  /** getVersion's scan over a mapping: from the highest key down, the first
      migrated version; 0 when none is migrated. */
  function LatestMigrated(es: seq<Entry>): int {
    if es == [] then 0
    else if es[|es| - 1].migrated.Some? then es[|es| - 1].version
    else LatestMigrated(es[..|es| - 1])
  }

  /** On an ascending mapping of positive versions, getVersion's answer is the
      largest migrated version, and 0 exactly when nothing is migrated. */
  lemma {:induction false} LatestMigratedIsMax(es: seq<Entry>)
    requires StrictlyAscending(es)
    requires forall i :: 0 <= i < |es| ==> es[i].version > 0
    ensures LatestMigrated(es) == 0 <==> forall i :: 0 <= i < |es| ==> es[i].migrated.None?
    ensures LatestMigrated(es) != 0 ==> MigratedAt(es, LatestMigrated(es))
    ensures forall i :: 0 <= i < |es| && es[i].migrated.Some? ==> es[i].version <= LatestMigrated(es)
  {
    if es != [] {
      var n := |es| - 1;
      var init := es[..n];
      if es[n].migrated.None? {
        LatestMigratedIsMax(init);
        assert forall i :: 0 <= i < n ==> init[i] == es[i];
        if LatestMigrated(es) != 0 {
          var i :| 0 <= i < n && init[i].version == LatestMigrated(init) && init[i].migrated.Some?;
          assert es[i] == init[i];
        }
      } else {
        assert MigratedAt(es, es[n].version);
      }
    }
  }

  /** In a mapping without repeated versions, the class read at `v` is the one
      of the entry with that version, and null when no entry has it. */
  lemma {:induction false} ClassAtFindsEntry(es: seq<Entry>, v: int)
    requires StrictlyAscending(es)
    ensures forall i :: 0 <= i < |es| && es[i].version == v ==> ClassAt(es, v) == Some(es[i].className)
    ensures (forall i :: 0 <= i < |es| ==> es[i].version != v) ==> ClassAt(es, v) == None
  {
    if es != [] {
      ClassAtFindsEntry(es[1..], v);
      assert forall i :: 1 <= i < |es| ==> es[1..][i - 1] == es[i];
    }
  }

  /** The class setVersion records under in the class layout is the listing's
      class for the version, null for an unlisted version. */
  lemma ClassAtResolve(cat: Listing, rows: seq<Row>, typ: string, bc: bool, v: int)
    ensures ClassAt(Resolve(cat, rows, typ, bc), v) == if v in cat then Some(cat[v].className) else None
  {
    var es := Resolve(cat, rows, typ, bc);
    ResolveFacts(cat, rows, typ, bc);
    ClassAtFindsEntry(es, v);
    if v in cat {
      var i :| 0 <= i < |es| && es[i].version == v;
    }
  }

  /** The mapping of a type depends on the table only through what the rows of
      that type read at each key. */
  lemma ResolveReadsOnlyItsType(cat: Listing, rows1: seq<Row>, rows2: seq<Row>, typ: string, bc: bool)
    requires forall k :: Created(rows1, typ, k) == Created(rows2, typ, k)
    ensures Resolve(cat, rows1, typ, bc) == Resolve(cat, rows2, typ, bc)
  {
    var es1 := Resolve(cat, rows1, typ, bc);
    var es2 := Resolve(cat, rows2, typ, bc);
    assert |es1| == |es2|;
    forall i | 0 <= i < |es1| ensures es1[i] == es2[i] {
      ResolveAt(cat, rows1, typ, bc, i);
      ResolveAt(cat, rows2, typ, bc, i);
    }
  }

  /** A save or a deleteAll on the rows of type `typ` leaves the mapping of
      every other type as it was, which is why evicting only `typ` from the
      cache is enough. */
  lemma WriteKeepsOtherTypes(cat: Listing, rows: seq<Row>, key: Key, typ: string, migrated: bool, now: int,
                             t: string, bc: bool)
    requires t != typ
    ensures var after := if migrated then Inserted(rows, key, typ, now) else Deleted(rows, typ, key);
            Resolve(cat, after, t, bc) == Resolve(cat, rows, t, bc)
  {
    var after := if migrated then Inserted(rows, key, typ, now) else Deleted(rows, typ, key);
    forall k ensures Created(after, t, k) == Created(rows, t, k) {
      if migrated {
        InsertedCreated(rows, key, typ, now, t, k);
      } else {
        DeletedCreated(rows, typ, key, t, k);
      }
    }
    ResolveReadsOnlyItsType(cat, after, rows, t, bc);
  }

  /** Entry i of the mapping is the entry built for the i-th listed version
      in ascending order. */
  lemma ResolveAt(cat: Listing, rows: seq<Row>, typ: string, bc: bool, i: int)
    requires 0 <= i < |cat|
    ensures |SortedVersions(cat.Keys)| == |cat| && SortedVersions(cat.Keys)[i] in cat
    ensures Resolve(cat, rows, typ, bc)[i] == EntryFor(cat, rows, typ, bc, SortedVersions(cat.Keys)[i])
  {
    var vs := SortedVersions(cat.Keys);
    EntriesForAt(cat, rows, typ, bc, vs);
  }

  /** The versions of a mapping, and their order, depend on the listing alone. */
  lemma ResolveVersions(cat: Listing, rows1: seq<Row>, rows2: seq<Row>, typ: string, bc: bool)
    ensures |Resolve(cat, rows1, typ, bc)| == |Resolve(cat, rows2, typ, bc)|
    ensures forall i :: 0 <= i < |Resolve(cat, rows1, typ, bc)| ==>
              Resolve(cat, rows1, typ, bc)[i].version == Resolve(cat, rows2, typ, bc)[i].version
  {
    var es1 := Resolve(cat, rows1, typ, bc);
    var es2 := Resolve(cat, rows2, typ, bc);
    forall i | 0 <= i < |es1| ensures es1[i].version == es2[i].version {
      ResolveAt(cat, rows1, typ, bc, i);
      ResolveAt(cat, rows2, typ, bc, i);
    }
  }

  /** A sequence holding, in order, the entry built for each listed version in
      ascending order is the mapping. */
  lemma ResolveIs(cat: Listing, rows: seq<Row>, typ: string, bc: bool, es: seq<Entry>)
    requires |es| == |cat|
    requires forall k :: 0 <= k < |es| ==>
               SortedVersions(cat.Keys)[k] in cat && es[k] == EntryFor(cat, rows, typ, bc, SortedVersions(cat.Keys)[k])
    ensures es == Resolve(cat, rows, typ, bc)
  {
    var resolved := Resolve(cat, rows, typ, bc);
    forall k | 0 <= k < |es| ensures es[k] == resolved[k] {
      ResolveAt(cat, rows, typ, bc, k);
    }
  }
}
