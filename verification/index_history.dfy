/** When a migration gives back the totals the incremental history arrived at. */
module IndexHistory {
  import opened IndexTables
  import opened Wrappers
  import opened IndexTotals
  import opened IndexRuns
  import opened IndexMigration

  /** Stripping the state and migrating it restores its totals. */
  ghost predicate Agrees(ik: Hash, db: Db, files: Files)
    requires Injective(ik)
  {
    ReadTotals(ik, Migrated(ik, Stripped(db), files).totals) == ReadTotals(ik, db.totals)
  }

  /** Whether an operation keeps totals that agree.  Subtracting from a clamped sum is what goes
      wrong: a deletion does it, a replacement only if it makes the clamped sum smaller, and a
      new path never. */
  ghost predicate Keeps(files: Files, op: Op)
  {
    match op
    case Put(r) => r.path in files ==>
      var was := files[r.path];
      && (MeasuredSum(files) <= U64_MAX || SizeOf(was) <= SizeOf(r))
      && (Unknown(files) <= U64_MAX || CountUnmeasured(was) <= CountUnmeasured(r))
    case Delete(p) => p in files ==>
      |files| <= U64_MAX && (MeasuredSum(files) <= U64_MAX || SizeOf(files[p]) == 0)
    case Crash(_) => true
  }

  lemma ForgetKeepsIff(files: Files, p: string)
    requires p in files
    ensures Shift(Saturated(files), Some(files[p]), None) == Saturated(files - {p}) <==> Keeps(files, Delete(p))
  {
    SumSplit(files, SizeOf, p);
    SumSplit(files, CountUnmeasured, p);
    UnknownAtMostAll(files);
    assert files.Keys == (files - {p}).Keys + {p};
  }

  lemma ReplaceKeepsIff(files: Files, r: Record)
    requires r.path in files
    ensures Shift(Saturated(files), Some(files[r.path]), Some(r)) == Saturated(files[r.path := r])
            <==> Keeps(files, Put(r))
  {
    var p := r.path;
    var rest, files' := files - {p}, files[p := r];
    assert files' - {p} == rest && files'.Keys == files.Keys;
    SumSplit(files, SizeOf, p);
    SumSplit(files, CountUnmeasured, p);
    SumSplit(files', SizeOf, p);
    SumSplit(files', CountUnmeasured, p);
  }

  lemma SaturatedKeepsIff(files: Files, op: Op)
    ensures Shift(Saturated(files), Was(files, op), Now(op)) == Saturated(ApplyFiles(files, op)) <==> Keeps(files, op)
  {
    match op
    case Put(r) =>
      if r.path in files {
        ReplaceKeepsIff(files, r);
      } else {
        LearnSaturated(files, r);
      }
    case Delete(p) =>
      if p in files {
        ForgetKeepsIff(files, p);
      } else {
        assert files - {p} == files;
      }
    case Crash(_) =>
  }

  /** From totals that agree, the next totals agree if and only if the operation keeps them. */
  lemma StepAgreesIff(ik: Hash, db: Db, files: Files, op: Op)
    requires Represents(ik, db, files) && Agrees(ik, db, files)
    ensures Apply(ik, db, op).Ok?
    ensures Agrees(ik, Apply(ik, db, op).value, ApplyFiles(files, op)) <==> Keeps(files, op)
  {
    hide Represents, Apply, ApplyFiles, Shift, Saturated, Keeps, Was, Now;
    StepTotals(ik, db, files, op);
    SaturatedKeepsIff(files, op);
  }

  /** The migration would restore the totals of every state of the run. */
  ghost predicate AgreesThroughout(ik: Hash, db: Db, files: Files, ops: seq<Op>)
    requires Injective(ik)
    decreases |ops|
  {
    && (ops != [] ==> AgreesThroughout(ik, db, files, ops[..|ops| - 1]))
    && Run(ik, db, ops).Ok? && Agrees(ik, Run(ik, db, ops).value, RunFiles(files, ops))
  }

  /** Every operation of the run keeps totals that agree. */
  ghost predicate KeepsThroughout(files: Files, ops: seq<Op>)
    decreases |ops|
  {
    ops != [] ==>
      var front := ops[..|ops| - 1];
      KeepsThroughout(files, front) && Keeps(RunFiles(files, front), ops[|ops| - 1])
  }

  /** Migration agrees with history in every state of a run if and only if no operation of the
      run takes a clamped sum down. */
  lemma {:induction false} RunAgreesIff(ik: Hash, db: Db, files: Files, ops: seq<Op>)
    requires Represents(ik, db, files) && Agrees(ik, db, files)
    ensures AgreesThroughout(ik, db, files, ops) <==> KeepsThroughout(files, ops)
    decreases |ops|
  {
    hide Represents, Apply, ApplyFiles, Agrees, Keeps;
    if ops != [] {
      var front := ops[..|ops| - 1];
      RunAgreesIff(ik, db, files, front);
      RunRefines(ik, db, files, front);
      if KeepsThroughout(files, front) {
        StepAgreesIff(ik, Run(ik, db, front).value, RunFiles(files, front), ops[|ops| - 1]);
      }
    }
  }

  /** A run whose sums fit throughout is one of those. */
  lemma {:induction false} FittingRunKeeps(files: Files, ops: seq<Op>)
    requires FitThroughout(files, ops)
    ensures KeepsThroughout(files, ops)
    decreases |ops|
  {
    if ops != [] {
      var front := ops[..|ops| - 1];
      FittingRunKeeps(files, front);
      UnknownAtMostAll(RunFiles(files, front));
    }
  }

  /** A run whose migration differs from its history although every sum fits again at its end:
      two files of 2^63 bytes, the first deleted.  One step earlier the sums do not fit, and
      the two agree on the same clamped total. */
  lemma MigrationCanDiffer(ik: Hash, db: Db, none: Files, big: Record, other: Record)
    requires Injective(ik) && db == Db(map[], map[], None, SCHEMA_VERSION) && none == map[]
    requires big.size == other.size == HALF && big.path != other.path
    ensures var ops := [Put(big), Put(other)];
            && Run(ik, db, ops).Ok? && !Fits(RunFiles(none, ops))
            && Agrees(ik, Run(ik, db, ops).value, RunFiles(none, ops))
    ensures var ops := [Put(big), Put(other), Delete(big.path)];
            && Run(ik, db, ops).Ok? && Fits(RunFiles(none, ops))
            && !Agrees(ik, Run(ik, db, ops).value, RunFiles(none, ops))
  {
    hide Run, RunFiles, Represents, Injective, Agrees;
    var two, one := [Put(big), Put(other)], [Put(big), Put(other), Delete(big.path)];
    TotalsCanClamp(ik, db, none, big, other);
    EmptyRepresents(ik, db, none);
    RunRefines(ik, db, none, two);
    RunRefines(ik, db, none, one);
    HalvesRun(none, big, other);
    AgreesIff(ik, Run(ik, db, two).value, RunFiles(none, two));
    AgreesIff(ik, Run(ik, db, one).value, RunFiles(none, one));
  }

  lemma AgreesIff(ik: Hash, db: Db, files: Files)
    requires Represents(ik, db, files)
    ensures ReadTotals(ik, db.totals).Ok?
    ensures Agrees(ik, db, files) <==> ReadTotals(ik, db.totals).value == Saturated(files)
  {
  }

  /** The sums after two files of 2^63 bytes, and after the first is gone. */
  lemma HalvesRun(none: Files, big: Record, other: Record)
    requires none == map[] && big.size == other.size == HALF && big.path != other.path
    ensures var files := RunFiles(none, [Put(big), Put(other)]);
            |files| == 2 && MeasuredSum(files) == 2 * HALF && Unknown(files) == 0
    ensures var files := RunFiles(none, [Put(big), Put(other), Delete(big.path)]);
            |files| == 1 && MeasuredSum(files) == HALF && Unknown(files) == 0
  {
    var x, y, z := Put(big), Put(other), Delete(big.path);
    var first := none[big.path := big];
    var both := first[other.path := other];
    RunInto(none, x);
    RunOnto(none, [x], y);
    RunOnto(none, [x, y], z);
    hide RunFiles, MeasuredSum, Unknown;
    assert [x] + [y] == [x, y] && [x, y] + [z] == [x, y, z];
    assert first - {big.path} == none && both - {other.path} == first && both - {big.path} - {other.path} == none;
    Halves(first, none, big);
    Halves(both, first, other);
    Halves(both - {big.path}, none, other);
    EmptySums(none);
  }

  lemma EmptySums(none: Files)
    requires none == map[]
    ensures |none| == 0 && MeasuredSum(none) == 0 && Unknown(none) == 0
  {
  }

  lemma RunInto(files: Files, op: Op)
    ensures RunFiles(files, [op]) == ApplyFiles(files, op)
  {
    assert [op][..0] == [];
  }

  lemma RunOnto(files: Files, ops: seq<Op>, op: Op)
    ensures RunFiles(files, ops + [op]) == ApplyFiles(RunFiles(files, ops), op)
  {
    assert (ops + [op])[..|ops|] == ops;
  }

  lemma Halves(files: Files, rest: Files, r: Record)
    requires r.path in files && files[r.path] == r && rest == files - {r.path} && r.size == HALF
    ensures MeasuredSum(files) == HALF + MeasuredSum(rest) && Unknown(files) == Unknown(rest) && |files| == |rest| + 1
  {
    SumSplit(files, SizeOf, r.path);
    SumSplit(files, CountUnmeasured, r.path);
    assert files.Keys == rest.Keys + {r.path};
  }
}
