/** The running totals against the sums a scan of every record would give. */
module IndexTotals {
  import opened IndexTables
  import opened Wrappers

  function SizeOf(r: Record): nat
  {
    if Unmeasured(r) then 0 else r.size
  }

  function CountUnmeasured(r: Record): nat
  {
    if Unmeasured(r) then 1 else 0
  }

  /** The sum of `w` over every record, visited in some order. */
  ghost function Sum(files: Files, w: Record -> nat): nat
    decreases |files|
  {
    if files == map[] then 0
    else
      var p :| p in files;
      w(files[p]) + Sum(files - {p}, w)
  }

  /** The order of the visit does not matter: any record can be taken out first. */
  lemma {:induction false} SumSplit(files: Files, w: Record -> nat, p: string)
    requires p in files
    ensures Sum(files, w) == w(files[p]) + Sum(files - {p}, w)
    decreases |files|
  {
    var q :| q in files && Sum(files, w) == w(files[q]) + Sum(files - {q}, w);
    if q != p {
      SumSplit(files - {q}, w, p);
      SumSplit(files - {p}, w, q);
      assert files - {q} - {p} == files - {p} - {q};
    }
  }

  ghost function MeasuredSum(files: Files): nat
  {
    Sum(files, SizeOf)
  }

  ghost function Unknown(files: Files): nat
  {
    Sum(files, CountUnmeasured)
  }

  lemma {:induction false} UnknownAtMostAll(files: Files)
    ensures Unknown(files) <= |files|
    decreases |files|
  {
    if files != map[] {
      var p :| p in files
               && Sum(files, CountUnmeasured) == CountUnmeasured(files[p]) + Sum(files - {p}, CountUnmeasured);
      UnknownAtMostAll(files - {p});
    }
  }

  /** Every figure fits the 64 bits the totals row gives it. */
  ghost predicate Fits(files: Files)
  {
    |files| <= U64_MAX && MeasuredSum(files) <= U64_MAX
  }

  ghost predicate Exact(t: Totals, files: Files)
  {
    t.objects == |files| && t.bytes == MeasuredSum(files) && t.unmeasured == Unknown(files)
  }

  /** From exact totals a `put` leaves exact totals if and only if the new sums fit: the
      saturating additions clamp on no other occasion. */
  lemma PutExactIff(t: Totals, files: Files, r: Record)
    requires Exact(t, files)
    ensures var was := if r.path in files then Some(files[r.path]) else None;
            Exact(Shift(t, was, Some(r)), files[r.path := r]) <==> Fits(files[r.path := r])
  {
    var p, files' := r.path, files[r.path := r];
    var rest := files - {p};
    assert files' == rest[p := r];
    if p in files {
      ForgetExact(t, files, p);
      LearnExactIff(Forget(t, files[p]), rest, r);
    } else {
      assert rest == files;
      LearnExactIff(t, rest, r);
    }
  }

  lemma LearnExactIff(t: Totals, rest: Files, r: Record)
    requires Exact(t, rest) && r.path !in rest
    ensures Exact(Learn(t, r), rest[r.path := r]) <==> Fits(rest[r.path := r])
  {
    var files := rest[r.path := r];
    assert files - {r.path} == rest;
    SumSplit(files, SizeOf, r.path);
    SumSplit(files, CountUnmeasured, r.path);
    UnknownAtMostAll(files);
    assert |files| == |rest| + 1;
  }

  lemma ForgetExact(t: Totals, files: Files, p: string)
    requires Exact(t, files) && p in files
    ensures Exact(Forget(t, files[p]), files - {p})
  {
    SumSplit(files, SizeOf, p);
    SumSplit(files, CountUnmeasured, p);
    assert files.Keys == (files - {p}).Keys + {p};
  }

  /** A deletion never clamps. */
  lemma DeleteExact(t: Totals, files: Files, path: string)
    requires Exact(t, files) && path in files
    ensures Exact(Shift(t, Some(files[path]), None), files - {path})
  {
    ForgetExact(t, files, path);
  }
}
