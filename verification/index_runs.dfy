/** Whole runs of `put` and `delete`, and the laws they obey on all three tables at once. */
module IndexRuns {
  import opened Words
  import opened Keying
  import opened IndexTables
  import opened Wrappers
  import opened IndexTotals

  /** `Crash`: the process dies inside a transaction on `path`, and the open transaction goes with it. */
  datatype Op = Put(record: Record) | Delete(path: string) | Crash(path: string)

  function Target(op: Op): string
  {
    match op case Put(r) => r.path case Delete(p) => p case Crash(p) => p
  }

  function Apply(ik: Hash, db: Db, op: Op): Result<Db>
  {
    match op case Put(r) => PutDb(ik, db, r) case Delete(p) => DeleteDb(ik, db, p) case Crash(_) => Ok(db)
  }

  function ApplyFiles(files: Files, op: Op): Files
  {
    match op case Put(r) => files[r.path := r] case Delete(p) => files - {p} case Crash(_) => files
  }

  /** The state after a run, the last operation applied last. */
  function Run(ik: Hash, db: Db, ops: seq<Op>): Result<Db>
    decreases |ops|
  {
    if ops == [] then Ok(db)
    else match Run(ik, db, ops[..|ops| - 1]) case Err => Err case Ok(d) => Apply(ik, d, ops[|ops| - 1])
  }

  function RunFiles(files: Files, ops: seq<Op>): Files
    decreases |ops|
  {
    if ops == [] then files else ApplyFiles(RunFiles(files, ops[..|ops| - 1]), ops[|ops| - 1])
  }

  ghost predicate ExactDb(ik: Hash, db: Db, files: Files)
  {
    ReadTotals(ik, db.totals).Ok? && Exact(ReadTotals(ik, db.totals).value, files)
  }

  lemma StepRefines(ik: Hash, db: Db, files: Files, op: Op)
    requires Represents(ik, db, files)
    ensures Apply(ik, db, op).Ok? && Represents(ik, Apply(ik, db, op).value, ApplyFiles(files, op))
  {
    match op
    case Put(r) => PutRefines(ik, db, files, r);
    case Delete(p) => DeleteRefines(ik, db, files, p);
    case Crash(_) =>
  }

  /** What the row of an operation's path held before it. */
  function Was(files: Files, op: Op): Option<Record>
  {
    if op.Crash? || Target(op) !in files then None else Some(files[Target(op)])
  }

  /** What it holds afterwards. */
  function Now(op: Op): Option<Record>
  {
    match op case Put(r) => Some(r) case Delete(_) => None case Crash(_) => None
  }

  /** Every operation moves the totals row past one record being replaced by another. */
  lemma StepTotals(ik: Hash, db: Db, files: Files, op: Op)
    requires Represents(ik, db, files)
    ensures ReadTotals(ik, db.totals).Ok? && Apply(ik, db, op).Ok?
    ensures ReadTotals(ik, Apply(ik, db, op).value.totals)
            == Ok(Shift(ReadTotals(ik, db.totals).value, Was(files, op), Now(op)))
  {
    StepRefines(ik, db, files, op);
    TotalsReadable(ik, db, files);
    ReadAgrees(ik, db, files, Target(op));
    hide Represents, BumpDirs, Forget, Learn;
  }

  /** No run fails, and every state a run reaches stands for the files the run left. */
  lemma {:induction false} RunRefines(ik: Hash, db: Db, files: Files, ops: seq<Op>)
    requires Represents(ik, db, files)
    ensures Run(ik, db, ops).Ok? && Represents(ik, Run(ik, db, ops).value, RunFiles(files, ops))
    decreases |ops|
  {
    hide Represents, Apply, ApplyFiles;
    if ops != [] {
      var front := ops[..|ops| - 1];
      RunRefines(ik, db, files, front);
      StepRefines(ik, Run(ik, db, front).value, RunFiles(files, front), ops[|ops| - 1]);
    }
  }

  /** The sums fit after every step of the run. */
  ghost predicate FitThroughout(files: Files, ops: seq<Op>)
    decreases |ops|
  {
    (ops != [] ==> FitThroughout(files, ops[..|ops| - 1])) && Fits(RunFiles(files, ops))
  }

  /** The totals row holds the true sums after every step of the run. */
  ghost predicate ExactThroughout(ik: Hash, db: Db, files: Files, ops: seq<Op>)
    decreases |ops|
  {
    && (ops != [] ==> ExactThroughout(ik, db, files, ops[..|ops| - 1]))
    && Run(ik, db, ops).Ok? && ExactDb(ik, Run(ik, db, ops).value, RunFiles(files, ops))
  }

  lemma StepExactIff(ik: Hash, db: Db, files: Files, op: Op)
    requires Represents(ik, db, files) && ExactDb(ik, db, files)
    ensures Apply(ik, db, op).Ok?
    ensures ExactDb(ik, Apply(ik, db, op).value, ApplyFiles(files, op)) <==> Fits(ApplyFiles(files, op))
  {
    hide Represents, BumpDirs, Shift, Exact, Fits;
    StepRefines(ik, db, files, op);
    var p, t := Target(op), ReadTotals(ik, db.totals).value;
    ReadAgrees(ik, db, files, p);
    match op
    case Put(r) => PutExactIff(t, files, r);
    case Delete(_) =>
      if p in files {
        DeleteExact(t, files, p);
        ExactFits(Shift(t, Some(files[p]), None), files - {p});
      } else {
        assert files - {p} == files;
        ExactFits(t, files);
      }
    case Crash(_) => ExactFits(t, files);
  }

  lemma ExactFits(t: Totals, files: Files)
    requires Exact(t, files)
    ensures Fits(files)
  {
  }

  /** From exact totals, the totals stay exact in every state of a run if and only if every
      state's sums fit. */
  lemma {:induction false} RunExactIff(ik: Hash, db: Db, files: Files, ops: seq<Op>)
    requires Represents(ik, db, files) && ExactDb(ik, db, files)
    ensures ExactThroughout(ik, db, files, ops) <==> FitThroughout(files, ops)
    decreases |ops|
  {
    hide Represents, Apply, ApplyFiles, Exact, Fits;
    if ops == [] {
      ExactFits(ReadTotals(ik, db.totals).value, files);
    } else {
      var front := ops[..|ops| - 1];
      RunExactIff(ik, db, files, front);
      RunRefines(ik, db, files, front);
      if FitThroughout(files, front) {
        assert ExactDb(ik, Run(ik, db, front).value, RunFiles(files, front));
        StepExactIff(ik, Run(ik, db, front).value, RunFiles(files, front), ops[|ops| - 1]);
      }
    }
  }

  const HALF: u64 := 0x8000_0000_0000_0000

  /** Two files of 2^63 bytes each: the byte total sticks at 2^64 - 1, and deleting the first
      again leaves it one short. */
  lemma TotalsCanClamp(ik: Hash, db: Db, none: Files, big: Record, other: Record)
    requires Injective(ik) && db == Db(map[], map[], None, SCHEMA_VERSION) && none == map[]
    requires big.size == other.size == HALF && big.path != other.path
    ensures var clamped := Run(ik, db, [Put(big), Put(other)]);
            clamped.Ok? && ReadTotals(ik, clamped.value.totals) == Ok(Totals(2, U64_MAX, 0))
    ensures var after := Run(ik, db, [Put(big), Put(other), Delete(big.path)]);
            after.Ok? && ReadTotals(ik, after.value.totals) == Ok(Totals(1, HALF - 1, 0))
  {
    hide Run, RunFiles, Apply, Represents, Injective;
    var x, y, z := Put(big), Put(other), Delete(big.path);
    EmptyRepresents(ik, db, none);
    NothingRun(ik, db, none);
    StepOnwards(ik, db, none, [], x);
    StepOnwards(ik, db, none, [x], y);
    StepOnwards(ik, db, none, [x, y], z);
    assert [] + [x] == [x] && [x] + [y] == [x, y] && [x, y] + [z] == [x, y, z];
  }

  lemma NothingRun(ik: Hash, db: Db, files: Files)
    ensures Run(ik, db, []) == Ok(db) && RunFiles(files, []) == files
  {
  }

  /** One more operation, seen on the totals and on the files. */
  lemma StepOnwards(ik: Hash, db: Db, files: Files, ops: seq<Op>, op: Op)
    requires Represents(ik, db, files)
    ensures Run(ik, db, ops).Ok? && Run(ik, db, ops + [op]).Ok?
    ensures RunFiles(files, ops + [op]) == ApplyFiles(RunFiles(files, ops), op)
    ensures var t := ReadTotals(ik, Run(ik, db, ops).value.totals);
            t.Ok? && ReadTotals(ik, Run(ik, db, ops + [op]).value.totals)
                     == Ok(Shift(t.value, Was(RunFiles(files, ops), op), Now(op)))
  {
    assert (ops + [op])[..|ops|] == ops;
    RunRefines(ik, db, files, ops);
    hide Represents, Apply, ApplyFiles, Shift, Was, Now;
    StepTotals(ik, Run(ik, db, ops).value, RunFiles(files, ops), op);
  }

  // ------------------------------------------------------------------------- what queries see

  /** `contains_dir` and the directory row agree with a scan of every stored path. */
  lemma DirectoriesAreScanned(ik: Hash, db: Db, files: Files, d: string)
    requires Represents(ik, db, files)
    ensures ik(d) in db.dirs <==> exists p :: p in files.Keys && Beneath(p, d)
    ensures ik(d) in db.dirs ==> db.dirs[ik(d)] == DirRow(ik(ParentOf(d)), Blob(ik(d), d), |Under(files.Keys, d)|)
  {
    KeyedAt(ik, DirTable(ik, files.Keys), d);
    DirsAreScanned(files.Keys, d);
  }

  /** Nobody has measured a file that has neither a size nor a hash; an empty file has a hash. */
  function Unread(files: Files): set<string>
  {
    set p | p in files && files[p].size == 0 && files[p].contentHash == []
  }

  lemma {:induction false} UnknownIsUnread(files: Files)
    ensures Unknown(files) == |Unread(files)|
    decreases |files|
  {
    if q :| q in files {
      var rest := files - {q};
      SumSplit(files, CountUnmeasured, q);
      UnknownIsUnread(rest);
      hide Unknown;
      UnreadSplit(files, rest, q);
    }
  }

  lemma UnreadSplit(files: Files, rest: Files, q: string)
    requires q in files && rest == files - {q}
    ensures |Unread(files)| == |Unread(rest)| + CountUnmeasured(files[q])
  {
    assert q !in Unread(rest);
    if Unmeasured(files[q]) {
      assert Unread(files) == Unread(rest) + {q};
    } else {
      assert Unread(files) == Unread(rest);
    }
  }

  /** What exact totals are, on the fields of the records: how many there are, the sum of all their
      sizes, and how many nobody has measured. */
  lemma ExactIff(t: Totals, files: Files)
    ensures Exact(t, files)
       <==> t.objects == |files| && t.bytes == Sum(files, (r: Record) => r.size) && t.unmeasured == |Unread(files)|
  {
    UnknownIsUnread(files);
    SameSum(files, SizeOf, (r: Record) => r.size);
  }

  /** `measured_bytes` answers exactly when every file has a size or a hash, and then with the sum
      of all sizes. */
  lemma MeasuredBytesIsSum(t: Totals, files: Files)
    requires Exact(t, files)
    ensures MeasuredBytes(t).Some? <==> forall p <- files :: files[p].size != 0 || files[p].contentHash != []
    ensures MeasuredBytes(t).Some? ==> MeasuredBytes(t).value == Sum(files, (r: Record) => r.size)
  {
    ExactIff(t, files);
    assert forall p <- files :: p in Unread(files) <==> files[p].size == 0 && files[p].contentHash == [];
    assert Unread(files) == {} <==> forall p <- files :: files[p].size != 0 || files[p].contentHash != [];
  }

  lemma {:induction false} SameSum(files: Files, v: Record -> nat, w: Record -> nat)
    requires forall p <- files :: v(files[p]) == w(files[p])
    ensures Sum(files, v) == Sum(files, w)
    decreases |files|
  {
    if q :| q in files {
      SumSplit(files, v, q);
      SumSplit(files, w, q);
      SameSum(files - {q}, v, w);
    }
  }

  // -------------------------------------------------------------------------------- laws

  /** States that stand for the same files agree on records and directories, and on the
      totals too when both are exact. */
  lemma RepresentsUnique(ik: Hash, a: Db, b: Db, files: Files)
    requires Represents(ik, a, files) && Represents(ik, b, files)
    ensures a.records == b.records && a.dirs == b.dirs && a.version == b.version
    ensures ExactDb(ik, a, files) && ExactDb(ik, b, files) ==> ReadTotals(ik, a.totals) == ReadTotals(ik, b.totals)
  {
  }

  /** One figure of the totals row, past `was` and on to `now`. */
  function Moved(v: u64, was: u64, now: u64): u64
  {
    SaturatingAdd(SaturatingSub(v, was), now)
  }

  function Larger(x: int, y: int): int
  {
    if x < y then y else x
  }

  function Smaller(x: int, y: int): int
  {
    if x < y then x else y
  }

  /** Whether two moves of one figure can be swapped.  Each order confines the net result to a
      range of its own: the move made last sets the ceiling by what it takes off, and the floor
      by what it leaves of the other's addition.  The orders agree if the net result is inside
      both ranges, or leaves them where they end alike. */
  predicate Swappable(v: u64, was: u64, now: u64, was': u64, now': u64)
  {
    var net := v as int - was + now - was' + now';
    var drop, drop' := Larger(was as int - now, 0), Larger(was' as int - now', 0);
    var floor := Smaller(Larger(now' as int - was, 0) + now, U64_MAX);
    var floor' := Smaller(Larger(now as int - was', 0) + now', U64_MAX);
    && (drop == drop' || net <= U64_MAX as int - Larger(drop, drop'))
    && (floor == floor' || net >= Larger(floor, floor'))
  }

  lemma MovesSwapIff(v: u64, was: u64, now: u64, was': u64, now': u64)
    ensures Moved(Moved(v, was, now), was', now') == Moved(Moved(v, was', now'), was, now)
       <==> Swappable(v, was, now, was', now')
  {
  }

  function Objects(r: Option<Record>): u64
  {
    if r.Some? then 1 else 0
  }

  function Size(r: Option<Record>): u64
  {
    if r.Some? then SizeOf(r.value) else 0
  }

  function Unmeasureds(r: Option<Record>): u64
  {
    if r.Some? then CountUnmeasured(r.value) else 0
  }

  lemma ShiftMoves(t: Totals, was: Option<Record>, now: Option<Record>)
    ensures Shift(t, was, now)
         == Totals(Moved(t.objects, Objects(was), Objects(now)), Moved(t.bytes, Size(was), Size(now)),
                   Moved(t.unmeasured, Unmeasureds(was), Unmeasureds(now)))
  {
  }

  /** Each of the three figures can take the two operations in either order. */
  predicate TotalsSwap(t: Totals, was: Option<Record>, now: Option<Record>, was': Option<Record>, now': Option<Record>)
  {
    && Swappable(t.objects, Objects(was), Objects(now), Objects(was'), Objects(now'))
    && Swappable(t.bytes, Size(was), Size(now), Size(was'), Size(now'))
    && Swappable(t.unmeasured, Unmeasureds(was), Unmeasureds(now), Unmeasureds(was'), Unmeasureds(now'))
  }

  lemma ShiftsSwapIff(t: Totals, was: Option<Record>, now: Option<Record>, was': Option<Record>, now': Option<Record>)
    ensures Shift(Shift(t, was, now), was', now') == Shift(Shift(t, was', now'), was, now)
            <==> TotalsSwap(t, was, now, was', now')
  {
    hide Shift, Swappable, Moved;
    ShiftMoves(t, was, now);
    ShiftMoves(Shift(t, was, now), was', now');
    ShiftMoves(t, was', now');
    ShiftMoves(Shift(t, was', now'), was, now);
    MovesSwapIff(t.objects, Objects(was), Objects(now), Objects(was'), Objects(now'));
    MovesSwapIff(t.bytes, Size(was), Size(now), Size(was'), Size(now'));
    MovesSwapIff(t.unmeasured, Unmeasureds(was), Unmeasureds(now), Unmeasureds(was'), Unmeasureds(now'));
  }

  /** Operations on different paths commute on records and directories, always, and on the
      totals if and only if each figure's moves can be swapped. */
  lemma OperationsCommute(ik: Hash, db: Db, files: Files, x: Op, y: Op)
    requires Represents(ik, db, files) && Target(x) != Target(y)
    ensures Run(ik, db, [x, y]).Ok? && Run(ik, db, [y, x]).Ok? && ReadTotals(ik, db.totals).Ok?
    ensures var a, b := Run(ik, db, [x, y]).value, Run(ik, db, [y, x]).value;
            && a.records == b.records && a.dirs == b.dirs
            && (ReadTotals(ik, a.totals) == ReadTotals(ik, b.totals)
                <==> TotalsSwap(ReadTotals(ik, db.totals).value, Was(files, x), Now(x), Was(files, y), Now(y)))
  {
    hide Represents, Apply, Run, RunFiles, ApplyFiles, Shift, TotalsSwap, Was, Now;
    RunRefines(ik, db, files, [x, y]);
    RunRefines(ik, db, files, [y, x]);
    FilesCommute(files, x, y);
    RepresentsUnique(ik, Run(ik, db, [x, y]).value, Run(ik, db, [y, x]).value, RunFiles(files, [x, y]));
    TwoSteps(ik, db, files, x, y);
    TwoSteps(ik, db, files, y, x);
    ShiftsSwapIff(ReadTotals(ik, db.totals).value, Was(files, x), Now(x), Was(files, y), Now(y));
  }

  lemma TwoSteps(ik: Hash, db: Db, files: Files, x: Op, y: Op)
    requires Represents(ik, db, files) && Target(x) != Target(y)
    ensures Run(ik, db, [x, y]).Ok? && ReadTotals(ik, db.totals).Ok?
    ensures ReadTotals(ik, Run(ik, db, [x, y]).value.totals)
         == Ok(Shift(Shift(ReadTotals(ik, db.totals).value, Was(files, x), Now(x)), Was(files, y), Now(y)))
  {
    OtherUntouched(files, x, y);
    hide Represents, Apply, Run, RunFiles, ApplyFiles, Shift, Was, Now;
    NothingRun(ik, db, files);
    StepOnwards(ik, db, files, [], x);
    StepOnwards(ik, db, files, [x], y);
    assert [] + [x] == [x] && [x] + [y] == [x, y];
  }

  lemma OtherUntouched(files: Files, x: Op, y: Op)
    requires Target(x) != Target(y)
    ensures Was(ApplyFiles(files, x), y) == Was(files, y)
  {
  }

  /** In particular they commute on exact totals while the sums fit along both orders. */
  lemma FittingOrdersAgree(ik: Hash, db: Db, files: Files, x: Op, y: Op)
    requires Represents(ik, db, files) && Target(x) != Target(y)
    requires ExactDb(ik, db, files) && FitThroughout(files, [x, y]) && FitThroughout(files, [y, x])
    ensures Run(ik, db, [x, y]).Ok? && Run(ik, db, [y, x]).Ok?
    ensures ReadTotals(ik, Run(ik, db, [x, y]).value.totals) == ReadTotals(ik, Run(ik, db, [y, x]).value.totals)
  {
    hide Represents, Apply, Exact, Fits;
    RunRefines(ik, db, files, [x, y]);
    RunRefines(ik, db, files, [y, x]);
    FilesCommute(files, x, y);
    RepresentsUnique(ik, Run(ik, db, [x, y]).value, Run(ik, db, [y, x]).value, RunFiles(files, [x, y]));
    RunExactIff(ik, db, files, [x, y]);
    RunExactIff(ik, db, files, [y, x]);
  }

  lemma FilesCommute(files: Files, x: Op, y: Op)
    requires Target(x) != Target(y)
    ensures RunFiles(files, [x, y]) == RunFiles(files, [y, x])
  {
    assert [x, y][..1] == [x] && [y, x][..1] == [y];
    assert RunFiles(files, [x]) == ApplyFiles(files, x) by {
      assert [x][..0] == [];
    }
    assert RunFiles(files, [y]) == ApplyFiles(files, y) by {
      assert [y][..0] == [];
    }
    assert ApplyFiles(ApplyFiles(files, x), y) == ApplyFiles(ApplyFiles(files, y), x);
  }

  /** A second identical `put` changes nothing, in any state whatever. */
  lemma PutIdempotent(ik: Hash, db: Db, r: Record)
    requires PutDb(ik, db, r).Ok?
    ensures PutDb(ik, PutDb(ik, db, r).value, r) == PutDb(ik, db, r)
  {
    hide BumpDirs, Shift;
    var key := ik(r.path);
    var once := PutDb(ik, db, r).value;
    var row := RecordRow(ik(ParentOf(r.path)), Blob(key, r));
    assert once.records[key := row] == once.records;
    ShiftTwice(ReadTotals(ik, db.totals).value, ReadRecord(db.records, key).value, r);
  }

  lemma ShiftTwice(t: Totals, was: Option<Record>, r: Record)
    ensures Shift(Shift(t, was, Some(r)), Some(r), Some(r)) == Shift(t, was, Some(r))
  {
  }

  /** Deleting a path just added restores records and directories; it restores the totals if
      and only if the addition did not clamp them. */
  lemma DeleteUndoesPut(ik: Hash, db: Db, files: Files, r: Record)
    requires Represents(ik, db, files) && r.path !in files
    ensures PutDb(ik, db, r).Ok? && DeleteDb(ik, PutDb(ik, db, r).value, r.path).Ok?
    ensures var after, t := DeleteDb(ik, PutDb(ik, db, r).value, r.path).value, ReadTotals(ik, db.totals).value;
            && after.records == db.records && after.dirs == db.dirs && after.version == db.version
            && (ReadTotals(ik, after.totals) == ReadTotals(ik, db.totals)
                <==> t.objects < U64_MAX
                     && (if Unmeasured(r) then t.unmeasured < U64_MAX else t.bytes + r.size as int <= U64_MAX))
  {
    hide Represents, BumpDirs, Shift;
    TotalsReadable(ik, db, files);
    var t := ReadTotals(ik, db.totals).value;
    PutRefines(ik, db, files, r);
    var mid := PutDb(ik, db, r).value;
    DeleteRefines(ik, mid, files[r.path := r], r.path);
    assert files[r.path := r] - {r.path} == files;
    RepresentsUnique(ik, db, DeleteDb(ik, mid, r.path).value, files);
    ReadAgrees(ik, db, files, r.path);
    ReadAgrees(ik, mid, files[r.path := r], r.path);
    ShiftBack(t, r);
  }

  lemma TotalsReadable(ik: Hash, db: Db, files: Files)
    requires Represents(ik, db, files)
    ensures ReadTotals(ik, db.totals).Ok?
  {
  }

  lemma ShiftBack(t: Totals, r: Record)
    ensures Shift(Shift(t, None, Some(r)), Some(r), None) == t
       <==> t.objects < U64_MAX
            && (if Unmeasured(r) then t.unmeasured < U64_MAX else t.bytes + r.size as int <= U64_MAX)
  {
  }
}
