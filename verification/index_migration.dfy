/** What a migration pass writes, and that it agrees with the incremental history. */
module IndexMigration {
  import opened Words
  import opened Keying
  import opened IndexTables
  import opened Wrappers
  import opened IndexTotals
  import opened IndexRuns

  /** One directory discovered on the way past, before its name is sealed. */
  datatype MigratedDir = MigratedDir(path: string, parent: Key, refs: nat)

  function SealedRow(carried: map<Key, MigratedDir>, k: Key): DirRow
    requires k in carried
  {
    DirRow(carried[k].parent, Blob(k, carried[k].path), carried[k].refs)
  }

  function Sealed(carried: map<Key, MigratedDir>): map<Key, DirRow>
  {
    map k | k in carried :: SealedRow(carried, k)
  }

  /** `entry(key).or_insert_with(..).refs += 1` */
  function Count(ik: Hash, carried: map<Key, MigratedDir>, dir: string): map<Key, MigratedDir>
  {
    var key := ik(dir);
    var was := if key in carried then carried[key] else MigratedDir(dir, ik(ParentOf(dir)), 0);
    carried[key := was.(refs := was.refs + 1)]
  }

  lemma CountIsBump(ik: Hash, carried: map<Key, MigratedDir>, dir: string)
    ensures Sealed(Count(ik, carried, dir)) == BumpDir(ik, Sealed(carried), dir, 1)
  {
  }

  function Least(x: nat): u64
  {
    if x <= U64_MAX then x else U64_MAX
  }

  /** The totals a single saturating pass over the records ends with, in any order. */
  ghost function Saturated(files: Files): Totals
  {
    Totals(Least(|files|), Least(MeasuredSum(files)), Least(Unknown(files)))
  }

  lemma LearnSaturated(rest: Files, r: Record)
    requires r.path !in rest
    ensures Learn(Saturated(rest), r) == Saturated(rest[r.path := r])
  {
    var files := rest[r.path := r];
    assert files - {r.path} == rest;
    SumSplit(files, SizeOf, r.path);
    SumSplit(files, CountUnmeasured, r.path);
    assert |files| == |rest| + 1;
  }

  /** `INSERT .. ON CONFLICT(key) DO UPDATE SET refs = excluded.refs` */
  function MergedRow(dirs: map<Key, DirRow>, carried: map<Key, DirRow>, k: Key): DirRow
    requires k in dirs.Keys + carried.Keys
  {
    if k !in carried then dirs[k] else if k in dirs then dirs[k].(refs := carried[k].refs) else carried[k]
  }

  function Merge(dirs: map<Key, DirRow>, carried: map<Key, DirRow>): map<Key, DirRow>
  {
    map k | k in dirs.Keys + carried.Keys :: MergedRow(dirs, carried, k)
  }

  /** The sealed values are those of the files; the parent column is not looked at. */
  ghost predicate RowsOf(ik: Hash, records: map<Key, RecordRow>, files: Files)
    requires Injective(ik)
  {
    var t := Keyed(ik, RecordTable(ik, files));
    records.Keys == t.Keys && forall k <- records :: records[k].value == t[k].value
  }

  ghost function Migrated(ik: Hash, db: Db, files: Files): Db
    requires Injective(ik)
  {
    Db(Keyed(ik, RecordTable(ik, files)), Merge(db.dirs, Keyed(ik, DirTable(ik, files.Keys))),
       Some(Blob(ik(TOTALS_DOMAIN), Saturated(files))), SCHEMA_VERSION)
  }

  /** A database as a version-0 build left it: keys and sealed values, nothing derived. */
  function Stripped(db: Db): Db
  {
    Db(map k | k in db.records :: WithoutParent(db.records, k), map[], None, 0)
  }

  function WithoutParent(records: map<Key, RecordRow>, k: Key): RecordRow
    requires k in records
  {
    RecordRow([], records[k].value)
  }

  /** Stripping a reachable state and migrating gives back its rows, parents and counts.  The
      migrated totals are the saturated sums, so they are the true ones if and only if the sums
      fit, and those of the history if and only if the history kept the saturated sums. */
  lemma MigrationAgrees(ik: Hash, db: Db, files: Files)
    requires Represents(ik, db, files)
    ensures RowsOf(ik, Stripped(db).records, files)
    ensures Represents(ik, Migrated(ik, Stripped(db), files), files)
    ensures var m := Migrated(ik, Stripped(db), files);
            && m.records == db.records && m.dirs == db.dirs && m.version == db.version
            && (ExactDb(ik, m, files) <==> Fits(files))
            && (ReadTotals(ik, m.totals) == ReadTotals(ik, db.totals)
                <==> ReadTotals(ik, db.totals).value == Saturated(files))
            && (ExactDb(ik, db, files) ==> ReadTotals(ik, m.totals) == ReadTotals(ik, db.totals))
  {
    hide Keyed, Injective, DirTable;
    UnknownAtMostAll(files);
    assert Merge(map[], db.dirs) == db.dirs;
  }

  /** A second pass over a migrated state sets the same counts again: nothing changes. */
  lemma MigrationRepeats(ik: Hash, db: Db, files: Files)
    requires Represents(ik, db, files)
    ensures RowsOf(ik, db.records, files)
    ensures var m := Migrated(ik, db, files);
            && m.records == db.records && m.dirs == db.dirs && m.version == db.version
            && Migrated(ik, m, files) == m
            && (ExactDb(ik, db, files) ==> ReadTotals(ik, m.totals) == ReadTotals(ik, db.totals))
  {
    hide Keyed, Injective, DirTable;
    UnknownAtMostAll(files);
    assert Merge(db.dirs, db.dirs) == db.dirs;
  }

  /** The row under `k` is for a directory of the paths: it names it and its parent. */
  ghost predicate RowOf(ik: Hash, paths: set<string>, k: Key, row: DirRow)
  {
    exists d :: d in Dirs(paths) && ik(d) == k && row.value == Blob(k, d) && row.parent == ik(ParentOf(d))
  }

  /** Over directory rows of whatever origin the migration leaves every count right, and the whole
      index if and only if each row there was one for a directory. */
  lemma MigrationRepairsIff(ik: Hash, db: Db, files: Files)
    requires Injective(ik) && Filed(files)
    ensures var m := Migrated(ik, db, files);
            && (forall d <- Dirs(files.Keys) :: ik(d) in m.dirs && m.dirs[ik(d)].refs == |Under(files.Keys, d)|)
            && m.version == 1 && m.totals == Some(Blob(ik("\0totals"), Saturated(files)))
            && (Represents(ik, m, files) <==> forall k <- db.dirs :: RowOf(ik, files.Keys, k, db.dirs[k]))
  {
    hide RowOf, Represents;
    var t, m := DirTable(ik, files.Keys), Migrated(ik, db, files);
    forall d | d in Dirs(files.Keys)
      ensures ik(d) in m.dirs && m.dirs[ik(d)].refs == |Under(files.Keys, d)|
    {
      KeyedAt(ik, t, d);
    }
    forall k | k in db.dirs
      ensures k in m.dirs
      ensures k in Keyed(ik, t) && m.dirs[k] == Keyed(ik, t)[k] <==> RowOf(ik, files.Keys, k, db.dirs[k])
    {
      RowOfIff(ik, files.Keys, k, db.dirs[k], m.dirs[k]);
    }
    hide Keyed, DirTable, RowOf, Under, Dirs;
    RestIs(ik, db, files, m);
  }

  lemma RowOfIff(ik: Hash, paths: set<string>, k: Key, row: DirRow, merged: DirRow)
    requires Injective(ik)
    requires var t := Keyed(ik, DirTable(ik, paths)); merged == if k in t then row.(refs := t[k].refs) else row
    ensures var t := Keyed(ik, DirTable(ik, paths)); k in t && merged == t[k] <==> RowOf(ik, paths, k, row)
  {
    var t := DirTable(ik, paths);
    if k in Keyed(ik, t) {
      var d :| d in t && ik(d) == k;
      KeyedAt(ik, t, d);
    }
    if d :| d in Dirs(paths) && ik(d) == k && row.value == Blob(k, d) && row.parent == ik(ParentOf(d)) {
      KeyedAt(ik, t, d);
    }
  }

  lemma RestIs(ik: Hash, db: Db, files: Files, m: Db)
    requires Injective(ik) && Filed(files) && m == Migrated(ik, db, files)
    ensures Represents(ik, m, files)
       <==> var t := Keyed(ik, DirTable(ik, files.Keys)); forall k <- db.dirs :: k in t && m.dirs[k] == t[k]
  {
    hide Keyed, DirTable, Merge;
    MergeIs(db.dirs, Keyed(ik, DirTable(ik, files.Keys)));
  }

  lemma MergeIs(dirs: map<Key, DirRow>, t: map<Key, DirRow>)
    ensures Merge(dirs, t) == t <==> forall k <- dirs :: k in t && Merge(dirs, t)[k] == t[k]
    ensures Merge(dirs, t).Keys == dirs.Keys + t.Keys
  {
    var m := Merge(dirs, t);
    if forall k <- dirs :: k in t && m[k] == t[k] {
      assert m.Keys == t.Keys;
      assert forall k <- t :: m[k] == t[k];
    }
  }

  lemma SaturatedExact(files: Files)
    requires Fits(files)
    ensures Exact(Saturated(files), files)
  {
    UnknownAtMostAll(files);
  }

  /** A new database is the empty index. */
  lemma FreshRepresents(ik: Hash, db: Db, none: Files)
    requires Injective(ik) && none == map[]
    requires db.records == map[] && db.dirs == map[] && db.totals == None
    ensures RowsOf(ik, db.records, none)
    ensures Represents(ik, Migrated(ik, db, none), none) && ExactDb(ik, Migrated(ik, db, none), none)
  {
    EmptyTables(ik, none);
    assert Fits(none);
    SaturatedExact(none);
    hide Injective, DirTable, RecordTable, Keyed, Saturated, Exact, Fits;
    assert Merge(db.dirs, db.dirs) == db.dirs;
  }
}
