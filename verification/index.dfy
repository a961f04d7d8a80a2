/** The index as the object whose methods change the tables, one transaction at a time. */
module Index {
  import opened Keying
  import opened IndexTables
  import opened Wrappers
  import opened IndexTotals
  import opened IndexRuns
  import opened IndexMigration
  import opened IndexWalk

  /** What a migration pass accumulates. */
  class Carried {
    var dirs: map<Key, MigratedDir>
    var totals: IndexTables.Totals

    constructor ()
      ensures dirs == map[] && totals == Totals(0, 0, 0)
    {
      dirs, totals := map[], Totals(0, 0, 0);
    }

    method Absorb(ik: Hash, record: Record)
      modifies this
      ensures Sealed(dirs) == BumpDirs(ik, Sealed(old(dirs)), Ancestors(record.path), 1)
      ensures totals == Learn(old(totals), record)
    {
      var ds := AncestorsOf(record.path);
      for i := 0 to |ds|
        invariant Sealed(dirs) == BumpDirs(ik, Sealed(old(dirs)), ds[..i], 1)
        invariant totals == old(totals)
      {
        CountIsBump(ik, dirs, ds[i]);
        assert ds[..i + 1][..i] == ds[..i];
        dirs := Count(ik, dirs, ds[i]);
      }
      assert ds[..|ds|] == ds;
      totals := Learn(totals, record);
    }
  }

  class Index {
    const ik: Hash
    var records: map<Key, RecordRow>
    var dirs: map<Key, DirRow>
    var totals: Option<Blob<IndexTables.Totals>>
    var version: int

    function State(): Db
      reads this
    {
      Db(records, dirs, totals, version)
    }

    method Rollback(db: Db)
      modifies this
      ensures State() == db
    {
      records, dirs, totals, version := db.records, db.dirs, db.totals, db.version;
    }

    method BumpDir(dir: string, delta: int)
      modifies this`dirs
      ensures dirs == IndexTables.BumpDir(ik, old(dirs), dir, delta)
    {
      var key := ik(dir);
      if delta > 0 {
        var row := DirRow(ik(ParentOf(dir)), Blob(key, dir), delta);
        dirs := dirs[key := if key in dirs then dirs[key].(refs := dirs[key].refs + delta) else row];
      } else {
        if key in dirs {
          dirs := dirs[key := dirs[key].(refs := dirs[key].refs + delta)];
        }
        if key in dirs && dirs[key].refs <= 0 {
          dirs := dirs - {key};
        }
      }
    }

    method BumpAncestors(path: string, delta: int)
      modifies this`dirs
      ensures dirs == BumpDirs(ik, old(dirs), Ancestors(path), delta)
    {
      var ds := AncestorsOf(path);
      for i := 0 to |ds|
        invariant dirs == BumpDirs(ik, old(dirs), ds[..i], delta)
      {
        assert ds[..i + 1][..i] == ds[..i];
        BumpDir(ds[i], delta);
      }
      assert ds[..|ds|] == ds;
    }

    method ShiftTotals(was: Option<Record>, now: Option<Record>) returns (ok: bool)
      modifies this`totals
      ensures ok <==> ReadTotals(ik, old(totals)).Ok?
      ensures ok ==> totals == Some(Blob(ik(TOTALS_DOMAIN), Shift(ReadTotals(ik, old(totals)).value, was, now)))
    {
      match ReadTotals(ik, totals)
      case Err => ok := false;
      case Ok(t) =>
        if was.Some? {
          t := t.(objects := SaturatingSub(t.objects, 1));
          if Unmeasured(was.value) {
            t := t.(unmeasured := SaturatingSub(t.unmeasured, 1));
          } else {
            t := t.(bytes := SaturatingSub(t.bytes, was.value.size));
          }
        }
        if now.Some? {
          t := t.(objects := SaturatingAdd(t.objects, 1));
          if Unmeasured(now.value) {
            t := t.(unmeasured := SaturatingAdd(t.unmeasured, 1));
          } else {
            t := t.(bytes := SaturatingAdd(t.bytes, now.value.size));
          }
        }
        totals := Some(Blob(ik(TOTALS_DOMAIN), t));
        ok := true;
    }

    /** One transaction: either all three tables move or none does. */
    method Put(record: Record) returns (res: Result<()>)
      modifies this
      ensures res.Ok? <==> PutDb(ik, old(State()), record).Ok?
      ensures State() == if res.Ok? then PutDb(ik, old(State()), record).value else old(State())
    {
      hide BumpDirs, Shift;
      var begun := State();
      var key := ik(record.path);
      var read := ReadRecord(records, key);
      if read.Err? {
        return Err;
      }
      records := records[key := RecordRow(ik(ParentOf(record.path)), Blob(key, record))];
      if read.value.None? {
        BumpAncestors(record.path, 1);
      }
      var ok := ShiftTotals(read.value, Some(record));
      if !ok {
        Rollback(begun);
        return Err;
      }
      res := Ok(());
    }

    method Delete(path: string) returns (res: Result<bool>)
      modifies this
      ensures res.Ok? <==> DeleteDb(ik, old(State()), path).Ok?
      ensures State() == if res.Ok? then DeleteDb(ik, old(State()), path).value else old(State())
      ensures res.Ok? ==> (res.value <==> ik(path) in old(records))
    {
      hide BumpDirs, Shift;
      var begun := State();
      var key := ik(path);
      var read := ReadRecord(records, key);
      if read.Err? {
        return Err;
      }
      if read.value.None? {
        return Ok(false);
      }
      records := records - {key};
      BumpAncestors(path, -1);
      var ok := ShiftTotals(read.value, None);
      if !ok {
        Rollback(begun);
        return Err;
      }
      res := Ok(true);
    }

    // -------------------------------------------------------------------------- queries

    /** A lookup in the map the tables stand for; an error only for a row that does not open. */
    method Get(path: string, ghost files: Files) returns (res: Result<Option<Record>>)
      ensures Represents(ik, State(), files) ==> res == Ok(if path in files then Some(files[path]) else None)
      ensures res.Err? <==> ik(path) in records && records[ik(path)].value.bound != ik(path)
    {
      if Represents(ik, State(), files) {
        ReadAgrees(ik, State(), files, path);
      }
      var key := ik(path);
      if key !in records {
        return Ok(None);
      }
      match OpenBlob(key, records[key].value)
      case Ok(r) => return Ok(Some(r));
      case Err => return Err;
    }

    method ContainsDir(dir: string, ghost files: Files) returns (found: bool)
      requires Represents(ik, State(), files)
      ensures found <==> exists p :: p in files.Keys && Beneath(p, dir)
    {
      found := ik(dir) in dirs;
      DirectoriesAreScanned(ik, State(), files, dir);
    }

    /** Open the selected rows one by one, by ascending key if `ordered`, until the visitor has
        seen enough; fail on one that does not open. */
    method Collect(keys: set<Key>, ordered: bool, visit: seq<Record> -> bool, ghost files: Files,
                   ghost paths: set<string>)
      returns (res: Result<seq<Record>>)
      requires keys <= records.Keys
      ensures (forall k <- keys :: records[k].value.bound == k) ==> res.Ok?
      ensures (forall s :: visit(s)) && res.Ok? ==> forall k <- keys :: records[k].value.bound == k
      ensures Represents(ik, State(), files) && KeysOf(ik, files, paths, keys) ==>
                && res.Ok? && Lists(res.value, files, Seen(res.value)) && Seen(res.value) <= paths
                && Heeds(res.value, visit, Seen(res.value) == paths)
                && (ordered ==> InKeyOrder(ik, res.value, paths))
    {
      hide Represents, Lists, KeysOf, Seen, InKeyOrder, KeyBelow, Foremost, Scanned;
      ghost var known := Represents(ik, State(), files) && KeysOf(ik, files, paths, keys);
      var out: seq<Record> := [];
      var rest, going := keys, true;
      NothingScanned(ik, files, rest, ordered);
      assert keys - rest == {};
      while rest != {} && going
        invariant rest <= keys
        invariant forall k <- keys :: k in rest || records[k].value.bound == k
        invariant known ==> Scanned(ik, files, out, keys - rest, rest, ordered)
        invariant forall i :: 0 < i < |out| ==> visit(out[..i])
        invariant going <==> out == [] || visit(out)
        decreases |rest|
      {
        SomeKeyIsForemost(rest);
        var key :| key in rest && (ordered ==> Foremost(key, rest));
        if known {
          ScanOn(ik, State(), files, out, keys - rest, rest, ordered, key);
          assert keys - (rest - {key}) == (keys - rest) + {key};
        }
        if OpenBlob(key, records[key].value).Err? {
          return Err;
        }
        VisitedOn(out, visit, OpenBlob(key, records[key].value).value);
        out := out + [OpenBlob(key, records[key].value).value];
        rest := rest - {key};
        going := visit(out);
      }
      if known {
        ScanSaw(ik, files, out, keys, rest, ordered, paths);
      }
      res := Ok(out);
    }

    /** The files directly in a directory: the rows whose parent column is its key. */
    method Children(dir: string, visit: seq<Record> -> bool, ghost files: Files) returns (res: Result<seq<Record>>)
      ensures Represents(ik, State(), files) ==>
                var paths := InDir(files.Keys, dir);
                && res.Ok? && Lists(res.value, files, Seen(res.value)) && Seen(res.value) <= paths
                && Heeds(res.value, visit, Seen(res.value) == paths)
    {
      hide Represents, Lists, KeysOf;
      var parent := ik(dir);
      if Represents(ik, State(), files) {
        ParentColumn(ik, State(), files, dir);
      }
      var keys := set k | k in records && records[k].parent == parent;
      res := Collect(keys, false, visit, files, InDir(files.Keys, dir));
    }

    /** Every stored record by ascending key, until the visitor has seen enough. */
    method ForEach(visit: seq<Record> -> bool, ghost files: Files) returns (res: Result<seq<Record>>)
      ensures Represents(ik, State(), files) ==>
                && res.Ok? && Lists(res.value, files, Seen(res.value)) && Seen(res.value) <= files.Keys
                && Heeds(res.value, visit, Seen(res.value) == files.Keys)
                && InKeyOrder(ik, res.value, files.Keys)
    {
      hide Represents, Lists, KeysOf;
      if Represents(ik, State(), files) {
        ParentColumn(ik, State(), files, "");
      }
      res := Collect(records.Keys, true, visit, files, files.Keys);
    }

    /** The directories directly in a directory, until the visitor has seen enough. */
    method ChildDirs(dir: string, visit: seq<string> -> bool, ghost files: Files) returns (res: Result<seq<string>>)
      ensures Represents(ik, State(), files) ==>
                && res.Ok? && Names(res.value, set d <- res.value) && (set d <- res.value) <= SubDirs(files.Keys, dir)
                && Heeds(res.value, visit, (set d <- res.value) == SubDirs(files.Keys, dir))
    {
      hide Represents, SubDirs;
      hide Injective, Dirs;
      var parent := ik(dir);
      var keys := set k | k in dirs && dirs[k].parent == parent;
      ghost var known := Represents(ik, State(), files);
      if known {
        ParentColumnOfDirs(ik, State(), files, dir);
      }
      var out: seq<string> := [];
      var rest, going := keys, true;
      while rest != {} && going
        invariant rest <= keys
        invariant known ==> DirsSeen(ik, SubDirs(files.Keys, dir), out, rest)
        invariant forall i :: 0 < i < |out| ==> visit(out[..i])
        invariant going <==> out == [] || visit(out)
        decreases |rest|
      {
        var key :| key in rest;
        if known {
          DirOpens(ik, State(), files, key);
        }
        if OpenBlob(key, dirs[key].value).Err? {
          return Err;
        }
        var d := OpenBlob(key, dirs[key].value).value;
        if known {
          SubDirOpens(ik, State(), files, dir, key);
          StateInjective(ik, State(), files);
          DirsOn(ik, SubDirs(files.Keys, dir), out, rest, d);
        }
        VisitedOn(out, visit, d);
        out := out + [d];
        rest := rest - {key};
        going := visit(out);
      }
      res := Ok(out);
    }

    /** A recursive listing through `Children` and `ChildDirs` alone: it ends, and it lists
        each stored path under `dir` once. */
    method Walk(dir: string, ghost files: Files) returns (out: seq<Record>)
      requires Represents(ik, State(), files)
      ensures Lists(out, files, Within(files.Keys, dir))
      decreases Deeper(files.Keys, dir)
    {
      hide Represents, Lists, InDir, SubDirs, Under, Deeper, Seen;
      var own := Children(dir, _ => true, files);
      var below := ChildDirs(dir, _ => true, files);
      out := own.value;
      var subs := below.value;
      assert InDir(files.Keys, dir) + Trees(files.Keys, subs, 0) == InDir(files.Keys, dir);
      for i := 0 to |subs|
        invariant Lists(out, files, InDir(files.Keys, dir) + Trees(files.Keys, subs, i))
      {
        TreesDisjoint(files.Keys, dir, subs, i);
        FewerDeeper(files.Keys, dir, subs[i]);
        var more := Walk(subs[i], files);
        ListsConcat(out, more, files, InDir(files.Keys, dir) + Trees(files.Keys, subs, i), Under(files.Keys, subs[i]));
        OneMoreTree(files.Keys, dir, subs, i);
        out := out + more;
      }
      TreesCover(files.Keys, dir, subs);
    }

    // ----------------------------------------------------------------------- migration

    /** Stream every row into a table that carries its parent; count what goes past.
        `files` is what the sealed rows hold, when they hold the rows of any index. */
    method RewriteWithParents(ghost files: Files) returns (ok: bool, migrating: map<Key, RecordRow>, carried: Carried)
      requires Injective(ik) && Filed(files)
      ensures fresh(carried)
      ensures ok <==> forall k <- records :: records[k].value.bound == k
      ensures ok && RowsOf(ik, records, files) ==> Carries(ik, files, migrating, carried.dirs, carried.totals)
    {
      hide Injective, Carries, SeenIs, RowsOf, BumpDirs, Filed;
      ghost var known := RowsOf(ik, records, files);
      carried := new Carried();
      migrating := map[];
      var rest := records.Keys;
      ghost var seen: Files := map[];
      CarryNone(ik, seen);
      SeenNone(ik, files, seen);
      assert records.Keys - rest == {};
      while rest != {}
        invariant rest <= records.Keys
        invariant forall k <- records :: k in rest || records[k].value.bound == k
        invariant known ==> Carries(ik, seen, migrating, carried.dirs, carried.totals)
        invariant known ==> SeenIs(ik, files, seen, records.Keys - rest)
      {
        var key :| key in rest;
        var blob := records[key].value;
        if OpenBlob(key, blob).Err? {
          return false, migrating, carried;
        }
        var record := OpenBlob(key, blob).value;
        ghost var dirs0, totals0 := carried.dirs, carried.totals;
        carried.Absorb(ik, record);
        if known {
          RowHolds(ik, records, files, key);
          SeenMore(ik, files, seen, records.Keys - rest, record.path);
          CarryOne(ik, seen, migrating, dirs0, totals0, record, carried.dirs, carried.totals);
          seen := seen[record.path := record];
          assert records.Keys - (rest - {key}) == (records.Keys - rest) + {key};
        }
        migrating := migrating[key := RecordRow(ik(ParentOf(record.path)), blob)];
        rest := rest - {key};
      }
      if known {
        assert records.Keys - rest == records.Keys;
        SeenAll(ik, records, files, seen);
      }
      ok := true;
    }

    /** The pass that carries an older database forward. */
    method Migrate(ghost files: Files) returns (ok: bool)
      requires Injective(ik) && Filed(files)
      modifies this
      ensures ok <==> old(version) >= SCHEMA_VERSION || forall k <- old(records) :: old(records)[k].value.bound == k
      ensures !ok || old(version) >= SCHEMA_VERSION ==> State() == old(State())
      ensures old(version) < SCHEMA_VERSION && RowsOf(ik, old(records), files)
          ==> ok && State() == Migrated(ik, old(State()), files)
    {
      if version >= SCHEMA_VERSION {
        return true;
      }
      var carried, migrating;
      ok, migrating, carried := RewriteWithParents(files);
      RowsOpen(ik, records, files);
      if ok {
        var rows := WriteDirs(carried.dirs);
        records, dirs, totals, version :=
          migrating, rows, Some(Blob(ik(TOTALS_DOMAIN), carried.totals)), SCHEMA_VERSION;
      }
    }

    /** Insert each carried directory, setting the count where a row is already there. */
    method WriteDirs(carried: map<Key, MigratedDir>) returns (rows: map<Key, DirRow>)
      ensures rows == Merge(dirs, Sealed(carried))
    {
      rows := dirs;
      var rest := carried.Keys;
      while rest != {}
        invariant rest <= carried.Keys
        invariant rows.Keys == dirs.Keys + (carried.Keys - rest)
        invariant forall k <- rows ::
                    rows[k] == if k in carried && k !in rest then MergedRow(dirs, Sealed(carried), k) else dirs[k]
      {
        var key :| key in rest;
        rows := rows[key := if key in rows then rows[key].(refs := carried[key].refs) else SealedRow(carried, key)];
        rest := rest - {key};
      }
    }
  }

  // ------------------------------------------------------------------ the pass, row by row

  /** The accumulators after the rows of `seen`, in whatever order they came. */
  ghost predicate Carries(ik: Hash, seen: Files, migrating: map<Key, RecordRow>, dirs: map<Key, MigratedDir>,
                          totals: IndexTables.Totals)
    requires Injective(ik)
  {
    && migrating == Keyed(ik, RecordTable(ik, seen))
    && Sealed(dirs) == Keyed(ik, DirTable(ik, seen.Keys))
    && totals == Saturated(seen)
  }

  /** `seen` is the part of `files` whose keys are in `keys`. */
  ghost predicate SeenIs(ik: Hash, files: Files, seen: Files, keys: set<Key>)
  {
    && seen.Keys <= files.Keys
    && forall p <- files :: (p in seen <==> ik(p) in keys) && (p in seen ==> seen[p] == files[p])
  }

  lemma CarryNone(ik: Hash, seen: Files)
    requires Injective(ik) && seen == map[]
    ensures Carries(ik, seen, map[], map[], Totals(0, 0, 0))
  {
    hide Injective, Keyed, DirTable, RecordTable, Saturated, Sealed;
    EmptyTables(ik, seen);
    NothingCounted(seen);
    NothingSealed();
  }

  lemma NothingCounted(seen: Files)
    requires seen == map[]
    ensures Saturated(seen) == Totals(0, 0, 0)
  {
    UnknownAtMostAll(seen);
  }

  lemma NothingSealed()
    ensures Sealed(map[]) == map[]
  {
  }

  lemma SeenNone(ik: Hash, files: Files, seen: Files)
    requires seen == map[]
    ensures SeenIs(ik, files, seen, {})
  {
  }

  /** The rows of an index all open. */
  lemma RowsOpen(ik: Hash, records: map<Key, RecordRow>, files: Files)
    requires Injective(ik)
    ensures RowsOf(ik, records, files) ==> forall k <- records :: records[k].value.bound == k
  {
    if RowsOf(ik, records, files) {
      forall k | k in records
        ensures records[k].value.bound == k
      {
        var p :| p in RecordTable(ik, files) && ik(p) == k;
        KeyedAt(ik, RecordTable(ik, files), p);
      }
    }
  }

  lemma CarryOne(ik: Hash, seen: Files, migrating: map<Key, RecordRow>, dirs: map<Key, MigratedDir>,
                 totals: IndexTables.Totals, r: Record, dirs': map<Key, MigratedDir>, totals': IndexTables.Totals)
    requires Injective(ik) && r.path !in seen && Carries(ik, seen, migrating, dirs, totals)
    requires Sealed(dirs') == BumpDirs(ik, Sealed(dirs), Ancestors(r.path), 1) && totals' == Learn(totals, r)
    ensures Carries(ik, seen[r.path := r],
                    migrating[ik(r.path) := RecordRow(ik(ParentOf(r.path)), Blob(ik(r.path), r))], dirs', totals')
  {
    hide Injective, Keyed, BumpDirs, Learn, Saturated, Sealed;
    var p := r.path;
    var row := RecordRow(ik(ParentOf(p)), Blob(ik(p), r));
    KeyedPut(ik, RecordTable(ik, seen), p, row);
    assert RecordTable(ik, seen[p := r]) == RecordTable(ik, seen)[p := row];
    BumpPath(ik, seen.Keys, p);
    assert seen[p := r].Keys == seen.Keys + {p};
    LearnSaturated(seen, r);
  }

  lemma RowHolds(ik: Hash, records: map<Key, RecordRow>, files: Files, key: Key)
    requires Injective(ik) && Filed(files) && RowsOf(ik, records, files) && key in records
    ensures var r := records[key].value.plain;
            r.path in files && files[r.path] == r && ik(r.path) == key && records[key].value == Blob(key, r)
  {
    var t := RecordTable(ik, files);
    var p :| p in t && ik(p) == key;
    KeyedAt(ik, t, p);
  }

  lemma SeenMore(ik: Hash, files: Files, seen: Files, keys: set<Key>, p: string)
    requires Injective(ik) && SeenIs(ik, files, seen, keys) && p in files && ik(p) !in keys
    ensures p !in seen && SeenIs(ik, files, seen[p := files[p]], keys + {ik(p)})
  {
  }

  lemma SeenAll(ik: Hash, records: map<Key, RecordRow>, files: Files, seen: Files)
    requires Injective(ik) && RowsOf(ik, records, files) && SeenIs(ik, files, seen, records.Keys)
    ensures seen == files
  {
    forall p | p in files
      ensures p in seen
    {
      KeyedAt(ik, RecordTable(ik, files), p);
    }
  }
}
