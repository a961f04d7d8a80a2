/** Path arithmetic of the index: which directories a logical path lies beneath. */
module Keying {

  const SEPARATOR: char := '/'

  /** `str::rfind(SEPARATOR)`; -1 when there is none. */
  function LastSeparator(path: string): (at: int)
    ensures -1 <= at < |path|
    ensures at >= 0 ==> path[at] == SEPARATOR
    ensures forall i :: at < i < |path| ==> path[i] != SEPARATOR
  {
    if path == "" then -1
    else if path[|path| - 1] == SEPARATOR then |path| - 1
    else LastSeparator(path[..|path| - 1])
  }

  /** `path[from..].find(SEPARATOR)`, as an index into `path`; -1 when there is none. */
  function NextSeparator(path: string, from: nat): (at: int)
    requires from <= |path|
    ensures at == -1 || from <= at < |path|
    ensures at >= 0 ==> path[at] == SEPARATOR
    ensures forall i :: from <= i < (if at == -1 then |path| else at) ==> path[i] != SEPARATOR
    decreases |path| - from
  {
    if from == |path| then -1
    else if path[from] == SEPARATOR then from
    else NextSeparator(path, from + 1)
  }

  function ParentOf(path: string): string
  {
    var at := LastSeparator(path);
    if at >= 0 then path[..at] else ""
  }

  /** `path` lies somewhere under the directory `dir`; the root is not counted. */
  predicate Beneath(path: string, dir: string)
  {
    dir != "" && |dir| < |path| && path[|dir|] == SEPARATOR && path[..|dir|] == dir
  }

  /** The non-empty prefixes of `path` that end before one of its first `n` separators' positions. */
  function PrefixesBefore(path: string, n: nat): seq<string>
    requires n <= |path|
  {
    if n == 0 then []
    else PrefixesBefore(path, n - 1) + if path[n - 1] == SEPARATOR && n > 1 then [path[..n - 1]] else []
  }

  function Ancestors(path: string): seq<string>
  {
    PrefixesBefore(path, |path|)
  }

  lemma {:induction false} PrefixesSkip(path: string, from: nat, to: nat)
    requires from <= to <= |path|
    requires forall i :: from <= i < to ==> path[i] != SEPARATOR
    ensures PrefixesBefore(path, to) == PrefixesBefore(path, from)
  {
    if from < to {
      PrefixesSkip(path, from, to - 1);
    }
  }

  /** `ancestors_of`: a forward scan that skips an empty prefix. */
  method AncestorsOf(path: string) returns (out: seq<string>)
    ensures out == Ancestors(path)
  {
    out := [];
    var at := 0;
    var end := NextSeparator(path, at);
    while end >= 0
      invariant 0 <= at <= |path| && end == NextSeparator(path, at)
      invariant out == PrefixesBefore(path, at)
      decreases |path| - at
    {
      PrefixesSkip(path, at, end);
      if end > 0 {
        out := out + [path[..end]];
      }
      at := end + 1;
      end := NextSeparator(path, at);
    }
    PrefixesSkip(path, at, |path|);
  }

  lemma {:induction false} InPrefixes(path: string, n: nat, d: string)
    requires n <= |path|
    ensures d in PrefixesBefore(path, n) <==> Beneath(path, d) && |d| < n
  {
    if n > 0 {
      InPrefixes(path, n - 1, d);
      if path[n - 1] == SEPARATOR && n > 1 && |d| == n - 1 {
        assert Beneath(path, d) <==> d == path[..n - 1];
      }
    }
  }

  /** The forward scan finds exactly the directories the path lies beneath. */
  lemma AncestorsAreBeneath(path: string, d: string)
    ensures d in Ancestors(path) <==> Beneath(path, d)
  {
    InPrefixes(path, |path|, d);
  }

  predicate Ascending(ds: seq<string>)
  {
    forall i, j :: 0 <= i < j < |ds| ==> |ds[i]| < |ds[j]|
  }

  lemma {:induction false} PrefixesAscend(path: string, n: nat)
    requires n <= |path|
    ensures Ascending(PrefixesBefore(path, n))
    ensures forall d <- PrefixesBefore(path, n) :: |d| < n
  {
    if n > 0 {
      PrefixesAscend(path, n - 1);
    }
  }

  /** Outermost first, so no directory is named twice. */
  lemma AncestorsAscend(path: string)
    ensures Ascending(Ancestors(path))
  {
    PrefixesAscend(path, |path|);
  }

  lemma {:induction false} PrefixesOfPrefix(path: string, cut: nat, n: nat)
    requires n <= cut <= |path|
    ensures PrefixesBefore(path[..cut], n) == PrefixesBefore(path, n)
  {
    if n > 0 {
      PrefixesOfPrefix(path, cut, n - 1);
      assert path[..cut][..n - 1] == path[..n - 1];
    }
  }

  /** For every string, the ancestors are the chain of iterated parents without the root:
      the forward search and the reverse search agree. */
  lemma AncestorsAreParentChain(path: string)
    ensures Ancestors(path) == if ParentOf(path) == "" then [] else Ancestors(ParentOf(path)) + [ParentOf(path)]
  {
    var at := LastSeparator(path);
    if at < 0 {
      PrefixesSkip(path, 0, |path|);
    } else {
      PrefixesSkip(path, at + 1, |path|);
      PrefixesOfPrefix(path, at, at);
      if at == 0 {
        assert PrefixesBefore(path, 1) == PrefixesBefore(path, 0);
      }
    }
  }

  /** The parent is the innermost directory a path lies beneath. */
  lemma ParentIsInnermost(path: string, d: string)
    requires Beneath(path, d)
    ensures Beneath(path, ParentOf(path)) && (d == ParentOf(path) || Beneath(ParentOf(path), d))
  {
    AncestorsAreParentChain(path);
    AncestorsAreBeneath(path, d);
    AncestorsAreBeneath(path, ParentOf(path));
    AncestorsAreBeneath(ParentOf(path), d);
  }

  lemma BeneathTransitive(path: string, d: string, e: string)
    requires Beneath(path, d) && Beneath(d, e)
    ensures Beneath(path, e)
  {
    assert path[..|e|] == d[..|e|];
  }
}
