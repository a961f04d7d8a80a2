/** The three tables of the index as values, what each statement does to them, and the scan
    of all records that they stand for. */
module IndexTables {
  import opened Words
  import opened Keying
  import opened Wrappers

  type Key = Bytes

  /** `index_key`: a keyed hash, taken to be injective. */
  type Hash = string -> Key

  ghost predicate Injective(ik: Hash)
  {
    forall p, q :: ik(p) == ik(q) ==> p == q
  }

  /** An ideal seal: it opens under the key it was bound to and under no other. */
  datatype Blob<+T> = Blob(bound: Key, plain: T)

  function OpenBlob<T>(key: Key, b: Blob<T>): Result<T>
  {
    if b.bound == key then Ok(b.plain) else Err
  }

  datatype Record = Record(path: string, objectKey: string, size: u64, modifiedUnix: Option<int>, contentHash: Bytes)

  predicate Unmeasured(r: Record)
  {
    r.size == 0 && r.contentHash == []
  }

  datatype Totals = Totals(objects: u64, bytes: u64, unmeasured: u64)

  function MeasuredBytes(t: Totals): Option<u64>
  {
    if t.unmeasured == 0 then Some(t.bytes) else None
  }

  datatype RecordRow = RecordRow(parent: Key, value: Blob<Record>)
  datatype DirRow = DirRow(parent: Key, value: Blob<string>, refs: int)

  datatype Db = Db(records: map<Key, RecordRow>, dirs: map<Key, DirRow>, totals: Option<Blob<Totals>>, version: int)

  const SCHEMA_VERSION := 1
  const TOTALS_DOMAIN := "\0totals"
  const U64_MAX: u64 := 0xffff_ffff_ffff_ffff

  // ------------------------------------------------------------------------- the statements

  function ReadRecord(records: map<Key, RecordRow>, key: Key): Result<Option<Record>>
  {
    if key !in records then Ok(None)
    else match OpenBlob(key, records[key].value) case Ok(r) => Ok(Some(r)) case Err => Err
  }

  function ReadTotals(ik: Hash, totals: Option<Blob<Totals>>): Result<Totals>
  {
    match totals
    case None => Ok(Totals(0, 0, 0))
    case Some(b) => OpenBlob(ik(TOTALS_DOMAIN), b)
  }

  function BumpDir(ik: Hash, dirs: map<Key, DirRow>, dir: string, delta: int): map<Key, DirRow>
  {
    var key := ik(dir);
    if delta > 0 then
      if key in dirs then dirs[key := dirs[key].(refs := dirs[key].refs + delta)]
      else dirs[key := DirRow(ik(ParentOf(dir)), Blob(key, dir), delta)]
    else if key in dirs then
      if dirs[key].refs + delta <= 0 then dirs - {key}
      else dirs[key := dirs[key].(refs := dirs[key].refs + delta)]
    else dirs
  }

  function BumpDirs(ik: Hash, dirs: map<Key, DirRow>, ds: seq<string>, delta: int): map<Key, DirRow>
  {
    if ds == [] then dirs
    else BumpDir(ik, BumpDirs(ik, dirs, ds[..|ds| - 1], delta), ds[|ds| - 1], delta)
  }

  function SaturatingAdd(x: u64, y: u64): u64
  {
    if x + y as int > U64_MAX then U64_MAX else x + y
  }

  function SaturatingSub(x: u64, y: u64): u64
  {
    if x < y then 0 else x - y
  }

  function Forget(t: Totals, r: Record): Totals
  {
    var t := t.(objects := SaturatingSub(t.objects, 1));
    if Unmeasured(r) then t.(unmeasured := SaturatingSub(t.unmeasured, 1))
    else t.(bytes := SaturatingSub(t.bytes, r.size))
  }

  function Learn(t: Totals, r: Record): Totals
  {
    var t := t.(objects := SaturatingAdd(t.objects, 1));
    if Unmeasured(r) then t.(unmeasured := SaturatingAdd(t.unmeasured, 1))
    else t.(bytes := SaturatingAdd(t.bytes, r.size))
  }

  function Shift(t: Totals, was: Option<Record>, now: Option<Record>): Totals
  {
    var t := if was.Some? then Forget(t, was.value) else t;
    if now.Some? then Learn(t, now.value) else t
  }

  function PutDb(ik: Hash, db: Db, r: Record): Result<Db>
  {
    var key := ik(r.path);
    match ReadRecord(db.records, key)
    case Err => Err
    case Ok(previous) =>
      match ReadTotals(ik, db.totals)
      case Err => Err
      case Ok(t) =>
        Ok(Db(db.records[key := RecordRow(ik(ParentOf(r.path)), Blob(key, r))],
              if previous.None? then BumpDirs(ik, db.dirs, Ancestors(r.path), 1) else db.dirs,
              Some(Blob(ik(TOTALS_DOMAIN), Shift(t, previous, Some(r)))),
              db.version))
  }

  function DeleteDb(ik: Hash, db: Db, path: string): Result<Db>
  {
    var key := ik(path);
    match ReadRecord(db.records, key)
    case Err => Err
    case Ok(None) => Ok(db)
    case Ok(Some(previous)) =>
      match ReadTotals(ik, db.totals)
      case Err => Err
      case Ok(t) =>
        Ok(Db(db.records - {key},
              BumpDirs(ik, db.dirs, Ancestors(path), -1),
              Some(Blob(ik(TOTALS_DOMAIN), Shift(t, Some(previous), None))),
              db.version))
  }

  // --------------------------------------------------------------- the scan they stand for

  /** The index as its users see it: each stored path with its record. */
  type Files = map<string, Record>

  ghost predicate Filed(files: Files)
  {
    forall p <- files :: files[p].path == p
  }

  function Keyed<V>(ik: Hash, t: map<string, V>): map<Key, V>
    requires Injective(ik)
  {
    map p | p in t :: ik(p) := t[p]
  }

  function RowOfFile(ik: Hash, files: Files, p: string): RecordRow
    requires p in files
  {
    RecordRow(ik(ParentOf(p)), Blob(ik(p), files[p]))
  }

  function RecordTable(ik: Hash, files: Files): map<string, RecordRow>
  {
    map p | p in files :: RowOfFile(ik, files, p)
  }

  /** The stored paths under a directory, found by looking at every path. */
  function Under(paths: set<string>, d: string): set<string>
  {
    set p | p in paths && Beneath(p, d)
  }

  function Dirs(paths: set<string>): set<string>
  {
    set p, i | p in paths && 0 <= i < |p| && Beneath(p, p[..i]) :: p[..i]
  }

  function RowOfDir(ik: Hash, paths: set<string>, d: string): DirRow
    requires d in Dirs(paths)
  {
    DirRow(ik(ParentOf(d)), Blob(ik(d), d), |Under(paths, d)|)
  }

  function DirTable(ik: Hash, paths: set<string>): map<string, DirRow>
  {
    map d | d in Dirs(paths) :: RowOfDir(ik, paths, d)
  }

  /** Rows, directories and version are those implied by the files; the totals row opens. */
  ghost predicate Represents(ik: Hash, db: Db, files: Files)
  {
    && Injective(ik) && Filed(files)
    && db.records == Keyed(ik, RecordTable(ik, files))
    && db.dirs == Keyed(ik, DirTable(ik, files.Keys))
    && ReadTotals(ik, db.totals).Ok?
    && db.version == SCHEMA_VERSION
  }

  // -------------------------------------------------------------------- keyed tables

  lemma KeyedAt<V>(ik: Hash, t: map<string, V>, p: string)
    requires Injective(ik)
    ensures ik(p) in Keyed(ik, t) <==> p in t
    ensures p in t ==> Keyed(ik, t)[ik(p)] == t[p]
  {
  }

  lemma KeyedPath<V>(ik: Hash, t: map<string, V>, k: Key) returns (p: string)
    requires Injective(ik) && k in Keyed(ik, t)
    ensures p in t && ik(p) == k && Keyed(ik, t)[k] == t[p]
  {
    p :| p in t && ik(p) == k;
  }

  lemma KeyedPut<V>(ik: Hash, t: map<string, V>, p: string, v: V)
    requires Injective(ik)
    ensures Keyed(ik, t[p := v]) == Keyed(ik, t)[ik(p) := v]
  {
    var u := t[p := v];
    hide Keyed, Injective;
    KeyedAt(ik, u, p);
    forall k | k in Keyed(ik, u)
      ensures k in Keyed(ik, t)[ik(p) := v] && Keyed(ik, u)[k] == Keyed(ik, t)[ik(p) := v][k]
    {
      var q := KeyedPath(ik, u, k);
      KeyedAt(ik, t, q);
      if k == ik(p) {
        KeyedAt(ik, u, p);
      }
    }
    forall k | k in Keyed(ik, t)
      ensures k in Keyed(ik, u)
    {
      var q := KeyedPath(ik, t, k);
      KeyedAt(ik, u, q);
    }
  }

  lemma KeyedDrop<V>(ik: Hash, t: map<string, V>, p: string)
    requires Injective(ik)
    ensures Keyed(ik, t - {p}) == Keyed(ik, t) - {ik(p)}
  {
    var u := t - {p};
    hide Keyed, Injective;
    KeyedAt(ik, u, p);
    forall k | k in Keyed(ik, u)
      ensures k in Keyed(ik, t) && k != ik(p) && Keyed(ik, u)[k] == Keyed(ik, t)[k]
    {
      var q := KeyedPath(ik, u, k);
      KeyedAt(ik, t, q);
    }
    forall k | k in Keyed(ik, t) && k != ik(p)
      ensures k in Keyed(ik, u)
    {
      var q := KeyedPath(ik, t, k);
      KeyedAt(ik, u, q);
    }
  }

  // ------------------------------------------------------------------ directory counts

  /** A directory is in the table iff some stored path lies beneath it. */
  lemma DirsAreScanned(paths: set<string>, d: string)
    ensures d in Dirs(paths) <==> exists p :: p in paths && Beneath(p, d)
    ensures d in Dirs(paths) <==> Under(paths, d) != {}
  {
    if p :| p in paths && Beneath(p, d) {
      assert p in Under(paths, d);
      assert d == p[..|d|];
    }
    if Under(paths, d) != {} {
      var p :| p in Under(paths, d);
    }
  }

  /** What one bump does to the row of `d`, seen on the tables before and after. */
  predicate StepsTo(ik: Hash, before: map<string, DirRow>, after: map<string, DirRow>, d: string, delta: int)
  {
    if delta > 0 then
      && d in after
      && after[d] == if d in before then before[d].(refs := before[d].refs + delta)
                     else DirRow(ik(ParentOf(d)), Blob(ik(d), d), delta)
    else
      && d in before
      && if before[d].refs + delta <= 0 then d !in after
         else d in after && after[d] == before[d].(refs := before[d].refs + delta)
  }

  /** The table part of the way through: the directories in `done` already stepped. */
  function Blend(before: map<string, DirRow>, after: map<string, DirRow>, done: set<string>): map<string, DirRow>
  {
    map d | d in before.Keys + after.Keys && d in (if d in done then after else before)
      :: if d in done then after[d] else before[d]
  }

  lemma BumpOne(ik: Hash, before: map<string, DirRow>, after: map<string, DirRow>, done: set<string>, d: string,
                delta: int)
    requires Injective(ik) && d !in done && StepsTo(ik, before, after, d, delta)
    ensures BumpDir(ik, Keyed(ik, Blend(before, after, done)), d, delta)
         == Keyed(ik, Blend(before, after, done + {d}))
  {
    hide Injective, Keyed;
    var t, t' := Blend(before, after, done), Blend(before, after, done + {d});
    KeyedAt(ik, t, d);
    if d in after {
      assert t' == t[d := after[d]];
      KeyedPut(ik, t, d, after[d]);
    } else {
      assert t' == t - {d};
      KeyedDrop(ik, t, d);
    }
  }

  lemma {:induction false} BumpChain(ik: Hash, before: map<string, DirRow>, after: map<string, DirRow>,
                                     ds: seq<string>, delta: int)
    requires Injective(ik) && Ascending(ds)
    requires forall d <- ds :: StepsTo(ik, before, after, d, delta)
    ensures BumpDirs(ik, Keyed(ik, before), ds, delta) == Keyed(ik, Blend(before, after, set d <- ds))
  {
    hide Injective, Keyed, BumpDir, StepsTo, Blend;
    if ds == [] {
      assert (set x <- ds) == {};
      BlendNone(before, after);
    } else {
      var front, d := ds[..|ds| - 1], ds[|ds| - 1];
      BumpChain(ik, before, after, front, delta);
      assert d !in front;
      assert (set x <- ds) == (set x <- front) + {d};
      BumpOne(ik, before, after, (set x <- front), d, delta);
    }
  }

  lemma BlendNone(before: map<string, DirRow>, after: map<string, DirRow>)
    ensures Blend(before, after, {}) == before
  {
  }

  lemma BlendAll(before: map<string, DirRow>, after: map<string, DirRow>, done: set<string>)
    requires forall d :: d !in done ==> (d in before <==> d in after) && (d in before ==> before[d] == after[d])
    ensures Blend(before, after, done) == after
  {
  }

  /** Bumping every ancestor of a path turns the table of one path set into that of the other. */
  lemma BumpPath(ik: Hash, paths: set<string>, p: string)
    requires Injective(ik) && p !in paths
    ensures BumpDirs(ik, Keyed(ik, DirTable(ik, paths)), Ancestors(p), 1) == Keyed(ik, DirTable(ik, paths + {p}))
    ensures BumpDirs(ik, Keyed(ik, DirTable(ik, paths + {p})), Ancestors(p), -1) == Keyed(ik, DirTable(ik, paths))
  {
    hide Injective, Keyed, BumpDir, StepsTo, Blend, DirTable;
    var few, many := DirTable(ik, paths), DirTable(ik, paths + {p});
    var done := set d <- Ancestors(p);
    AncestorsAscend(p);
    forall d
      ensures d in done ==> StepsTo(ik, few, many, d, 1) && StepsTo(ik, many, few, d, -1)
      ensures d !in done ==> (d in few <==> d in many) && (d in few ==> few[d] == many[d])
    {
      AncestorsAreBeneath(p, d);
      PathStep(ik, paths, p, d);
    }
    BumpChain(ik, few, many, Ancestors(p), 1);
    BumpChain(ik, many, few, Ancestors(p), -1);
    BlendAll(few, many, done);
    BlendAll(many, few, done);
  }

  lemma PathStep(ik: Hash, paths: set<string>, p: string, d: string)
    requires p !in paths
    ensures var few, many := DirTable(ik, paths), DirTable(ik, paths + {p});
            if Beneath(p, d) then StepsTo(ik, few, many, d, 1) && StepsTo(ik, many, few, d, -1)
            else (d in few <==> d in many) && (d in few ==> few[d] == many[d])
  {
    CountPath(paths, p, d);
    DirsAreScanned(paths, d);
    DirsAreScanned(paths + {p}, d);
  }

  lemma CountPath(paths: set<string>, p: string, d: string)
    requires p !in paths
    ensures Under(paths + {p}, d) == Under(paths, d) + if Beneath(p, d) then {p} else {}
    ensures |Under(paths + {p}, d)| == |Under(paths, d)| + if Beneath(p, d) then 1 else 0
  {
    assert Under(paths + {p}, d) == Under(paths, d) + if Beneath(p, d) then {p} else {};
  }

  // ---------------------------------------------------------------------- refinement

  /** A lookup by key is a lookup by path. */
  lemma ReadAgrees(ik: Hash, db: Db, files: Files, p: string)
    requires Represents(ik, db, files)
    ensures ReadRecord(db.records, ik(p)) == Ok(if p in files then Some(files[p]) else None)
  {
    hide Injective, Keyed;
    KeyedAt(ik, RecordTable(ik, files), p);
  }

  /** `put` is the map update, whatever was there before. */
  lemma PutRefines(ik: Hash, db: Db, files: Files, r: Record)
    requires Represents(ik, db, files)
    ensures PutDb(ik, db, r).Ok?
    ensures Represents(ik, PutDb(ik, db, r).value, files[r.path := r])
  {
    hide Injective, Keyed, DirTable, BumpDirs, Shift;
    var p, t := r.path, RecordTable(ik, files);
    var row := RecordRow(ik(ParentOf(p)), Blob(ik(p), r));
    KeyedAt(ik, t, p);
    KeyedPut(ik, t, p, row);
    assert RecordTable(ik, files[p := r]) == t[p := row];
    if p in files {
      assert files[p := r].Keys == files.Keys;
    } else {
      assert files[p := r].Keys == files.Keys + {p};
      BumpPath(ik, files.Keys, p);
    }
  }

  lemma DeleteRefines(ik: Hash, db: Db, files: Files, path: string)
    requires Represents(ik, db, files)
    ensures DeleteDb(ik, db, path).Ok?
    ensures Represents(ik, DeleteDb(ik, db, path).value, files - {path})
  {
    hide Injective, Keyed, DirTable, BumpDirs, Shift;
    var t := RecordTable(ik, files);
    KeyedAt(ik, t, path);
    KeyedDrop(ik, t, path);
    if path in files {
      assert RecordTable(ik, files - {path}) == t - {path};
      var rest := (files - {path}).Keys;
      assert rest + {path} == files.Keys;
      BumpPath(ik, rest, path);
    } else {
      assert files - {path} == files;
    }
  }

  lemma EmptyTables(ik: Hash, none: Files)
    requires Injective(ik) && none == map[]
    ensures Keyed(ik, RecordTable(ik, none)) == map[] && Keyed(ik, DirTable(ik, none.Keys)) == map[]
  {
    assert Dirs(none.Keys) == {};
    assert DirTable(ik, none.Keys) == map[] && RecordTable(ik, none) == map[];
  }

  /** Empty tables at the current version are the empty index. */
  lemma EmptyRepresents(ik: Hash, db: Db, none: Files)
    requires Injective(ik) && none == map[] && db == Db(map[], map[], None, SCHEMA_VERSION)
    ensures Represents(ik, db, none)
  {
    hide Injective, Keyed, RecordTable, DirTable;
    EmptyTables(ik, none);
  }
}
