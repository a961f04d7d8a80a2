/** What a directory listing owes, and why listings cover the tree without repeating. */
module IndexWalk {
  import opened Keying
  import opened IndexTables

  /** The stored paths directly in a directory. */
  function InDir(paths: set<string>, dir: string): set<string>
  {
    set p | p in paths && ParentOf(p) == dir
  }

  function SubDirs(paths: set<string>, dir: string): set<string>
  {
    set d | d in Dirs(paths) && ParentOf(d) == dir
  }

  /** Everything at or below a directory; the root holds every path. */
  function Within(paths: set<string>, dir: string): set<string>
  {
    if dir == "" then paths else Under(paths, dir)
  }

  /** `out` names each of `paths` once, with the record stored for it, and nothing else. */
  ghost predicate Lists(out: seq<Record>, files: Files, paths: set<string>)
  {
    && (forall i :: 0 <= i < |out| ==> out[i].path in paths && out[i].path in files && out[i] == files[out[i].path])
    && (forall i, j :: 0 <= i < j < |out| ==> out[i].path != out[j].path)
    && (forall p <- paths :: exists i :: 0 <= i < |out| && out[i].path == p)
  }

  lemma ListsConcat(a: seq<Record>, b: seq<Record>, files: Files, ps: set<string>, qs: set<string>)
    requires Lists(a, files, ps) && Lists(b, files, qs) && ps !! qs
    ensures Lists(a + b, files, ps + qs)
  {
    forall p | p in ps + qs
      ensures exists i :: 0 <= i < |a + b| && (a + b)[i].path == p
    {
      if p in ps {
        var i :| 0 <= i < |a| && a[i].path == p;
        assert (a + b)[i].path == p;
      } else {
        var i :| 0 <= i < |b| && b[i].path == p;
        assert (a + b)[|a| + i].path == p;
      }
    }
  }

  lemma ParentIsShorter(path: string)
    requires path != ""
    ensures |ParentOf(path)| < |path|
  {
  }

  /** A path below `dir` is in it or below one of its subdirectories. */
  lemma {:induction false} Descend(paths: set<string>, p: string, q: string, dir: string) returns (c: string)
    requires p in paths && (q == p || Beneath(p, q))
    requires q != dir && (dir == "" || Beneath(q, dir))
    requires ParentOf(p) != dir
    ensures c in SubDirs(paths, dir) && Beneath(p, c)
    decreases |q|
  {
    if ParentOf(q) == dir {
      c := q;
      DirsAreScanned(paths, c);
    } else {
      var up := ParentOf(q);
      AncestorsAreParentChain(q);
      if dir == "" {
        AncestorsAreBeneath(q, up);
      } else {
        ParentIsInnermost(q, dir);
      }
      if q != p {
        BeneathTransitive(p, q, up);
      }
      c := Descend(paths, p, up, dir);
    }
  }

  /** The parts of one listing do not meet: a directory is not below its own parent's other
      children, nor is a file of the parent below any of them. */
  lemma PartsDisjoint(p: string, c: string, d: string, dir: string)
    requires Beneath(p, c) && ParentOf(c) == dir
    ensures ParentOf(p) != dir
    ensures Beneath(p, d) && ParentOf(d) == dir ==> c == d
  {
    ParentIsShorter(c);
    ParentIsInnermost(p, c);
    if Beneath(p, d) && ParentOf(d) == dir && c != d {
      ParentIsShorter(d);
      var short, long := if |c| < |d| then c else d, if |c| < |d| then d else c;
      assert long[..|short|] == short && long[|short|] == p[|short|];
      ParentIsInnermost(long, short);
    }
  }

  /** A directory's tree is its own files and its subdirectories' trees. */
  lemma WithinSplits(paths: set<string>, dir: string)
    ensures Within(paths, dir) == InDir(paths, dir) + set c, p | c in SubDirs(paths, dir) && p in Under(paths, c) :: p
  {
    var below := set c, p | c in SubDirs(paths, dir) && p in Under(paths, c) :: p;
    forall p | p in Within(paths, dir) && ParentOf(p) != dir
      ensures p in below
    {
      var c := Descend(paths, p, p, dir);
      assert p in Under(paths, c);
    }
    forall p | p in paths && dir != "" && ParentOf(p) == dir
      ensures Beneath(p, dir)
    {
      AncestorsAreParentChain(p);
      AncestorsAreBeneath(p, dir);
    }
    forall c, p | c in SubDirs(paths, dir) && p in Under(paths, c) && dir != ""
      ensures Beneath(p, dir)
    {
      AncestorsAreParentChain(c);
      AncestorsAreBeneath(c, dir);
      BeneathTransitive(p, c, dir);
    }
  }

  // ----------------------------------------------------------------- rows and what they name

  /** `keys` are the keys of `paths` and of no other stored path. */
  ghost predicate KeysOf(ik: Hash, files: Files, paths: set<string>, keys: set<Key>)
  {
    paths <= files.Keys && forall p <- files :: p in paths <==> ik(p) in keys
  }

  lemma ListsMore(out: seq<Record>, files: Files, done: set<string>, r: Record)
    requires Lists(out, files, done) && r.path !in done && r.path in files && r == files[r.path]
    ensures Lists(out + [r], files, done + {r.path})
  {
    assert [r][0].path == r.path;
    ListsConcat(out, [r], files, done, {r.path});
  }

  lemma KeysMore(ik: Hash, files: Files, done: set<string>, keys: set<Key>, p: string)
    requires Injective(ik) && KeysOf(ik, files, done, keys) && p in files && ik(p) !in keys
    ensures p !in done && KeysOf(ik, files, done + {p}, keys + {ik(p)})
  {
  }

  lemma KeysAll(ik: Hash, files: Files, done: set<string>, paths: set<string>, keys: set<Key>)
    requires KeysOf(ik, files, done, keys) && KeysOf(ik, files, paths, keys)
    ensures done == paths
  {
  }

  /** Every row opens and holds the record of the path it is keyed by. */
  lemma RowOpens(ik: Hash, db: Db, files: Files, key: Key)
    requires Represents(ik, db, files) && key in db.records
    ensures var r := db.records[key].value.plain;
            db.records[key].value.bound == key && r.path in files && files[r.path] == r && ik(r.path) == key
            && db.records[key].parent == ik(ParentOf(r.path))
  {
    hide DirTable;
    var t := RecordTable(ik, files);
    var p :| p in t && ik(p) == key;
    KeyedAt(ik, t, p);
  }

  /** The parent column selects exactly the files of a directory. */
  lemma ParentColumn(ik: Hash, db: Db, files: Files, dir: string)
    requires Represents(ik, db, files)
    ensures KeysOf(ik, files, InDir(files.Keys, dir), set k | k in db.records && db.records[k].parent == ik(dir))
    ensures KeysOf(ik, files, files.Keys, db.records.Keys)
  {
    forall p | p in files
      ensures ik(p) in db.records && db.records[ik(p)].parent == ik(ParentOf(p))
    {
      KeyedAt(ik, RecordTable(ik, files), p);
    }
  }

  lemma DirOpens(ik: Hash, db: Db, files: Files, key: Key)
    requires Represents(ik, db, files) && key in db.dirs
    ensures var d := db.dirs[key].value.plain;
            && db.dirs[key].value.bound == key && d in Dirs(files.Keys) && ik(d) == key
            && db.dirs[key].parent == ik(ParentOf(d))
  {
    var t := DirTable(ik, files.Keys);
    var d :| d in t && ik(d) == key;
    KeyedAt(ik, t, d);
  }

  // --------------------------------------------------------------- a visitor and the row order

  /** The order of a BLOB column: byte by byte, a prefix first. */
  predicate KeyBelow(a: Key, b: Key)
  {
    if b == [] then false
    else if a == [] then true
    else a[0] < b[0] || (a[0] == b[0] && KeyBelow(a[1..], b[1..]))
  }

  /** The keys agree before `k`, and there the first ends or has the smaller byte. */
  predicate LowerAt(a: Key, b: Key, k: int)
  {
    0 <= k <= |a| && k < |b| && a[..k] == b[..k] && (k == |a| || a[k] < b[k])
  }

  lemma {:induction false} KeyBelowIff(a: Key, b: Key)
    ensures KeyBelow(a, b) <==> exists k :: LowerAt(a, b, k)
  {
    if KeyBelow(a, b) {
      var k := LowerWhere(a, b);
    }
    forall k | LowerAt(a, b, k)
      ensures KeyBelow(a, b)
    {
      LowerIsBelow(a, b, k);
    }
  }

  lemma {:induction false} LowerWhere(a: Key, b: Key) returns (k: nat)
    requires KeyBelow(a, b)
    ensures LowerAt(a, b, k)
  {
    k := 0;
    if a != [] && a[0] == b[0] {
      k := LowerWhere(a[1..], b[1..]);
      assert a[..k + 1] == [a[0]] + a[1..][..k] && b[..k + 1] == [b[0]] + b[1..][..k];
      k := k + 1;
    }
  }

  lemma {:induction false} LowerIsBelow(a: Key, b: Key, k: nat)
    requires LowerAt(a, b, k)
    ensures KeyBelow(a, b)
  {
    if k > 0 {
      assert a[0] == a[..k][0] == b[..k][0] == b[0];
      assert a[1..][..k - 1] == a[..k][1..] && b[1..][..k - 1] == b[..k][1..];
      LowerIsBelow(a[1..], b[1..], k - 1);
    }
  }

  lemma {:induction false} KeyOrderTotal(a: Key, b: Key)
    ensures !KeyBelow(a, a)
    ensures a == b || KeyBelow(a, b) || KeyBelow(b, a)
  {
    if a != [] {
      KeyOrderTotal(a[1..], if b == [] then [] else b[1..]);
      if b != [] && a[0] == b[0] && a[1..] == b[1..] {
        assert a == [a[0]] + a[1..] && b == [b[0]] + b[1..];
      }
    }
  }

  lemma {:induction false} KeyOrderTransitive(a: Key, b: Key, c: Key)
    requires KeyBelow(a, b) && KeyBelow(b, c)
    ensures KeyBelow(a, c)
  {
    if a != [] && a[0] == b[0] == c[0] {
      KeyOrderTransitive(a[1..], b[1..], c[1..]);
    }
  }

  /** `key` comes first among `keys`. */
  predicate Foremost(key: Key, keys: set<Key>)
  {
    key in keys && forall k <- keys :: k == key || KeyBelow(key, k)
  }

  lemma {:induction false} SomeKeyIsForemost(keys: set<Key>)
    requires keys != {}
    ensures exists key :: key in keys && Foremost(key, keys)
    decreases |keys|
  {
    var one :| one in keys;
    var others := keys - {one};
    assert forall k <- keys :: k == one || k in others;
    if others == {} {
      assert Foremost(one, keys);
    } else {
      SomeKeyIsForemost(others);
      var least :| least in others && Foremost(least, others);
      KeyOrderTotal(one, least);
      if KeyBelow(one, least) {
        forall k | k in others && k != least
          ensures KeyBelow(one, k)
        {
          KeyOrderTransitive(one, least, k);
        }
        assert Foremost(one, keys);
      } else {
        assert Foremost(least, keys);
      }
    }
  }

  function Seen(out: seq<Record>): set<string>
  {
    set i | 0 <= i < |out| :: out[i].path
  }

  /** The visitor saw `out`, told to go on each time but perhaps the last; unless it saw
      everything there was, it was the visitor that stopped. */
  ghost predicate Heeds<T>(out: seq<T>, visit: seq<T> -> bool, everything: bool)
  {
    (forall i :: 0 < i < |out| ==> visit(out[..i])) && (everything || (out != [] && !visit(out)))
  }

  /** Records come by ascending key, and before the record of every stored path left out. */
  ghost predicate InKeyOrder(ik: Hash, out: seq<Record>, paths: set<string>)
  {
    && (forall i, j :: 0 <= i < j < |out| ==> KeyBelow(ik(out[i].path), ik(out[j].path)))
    && forall i, p :: 0 <= i < |out| && p in paths && p !in Seen(out) ==> KeyBelow(ik(out[i].path), ik(p))
  }

  /** A scan under way: `out` lists the rows of `done`, by ascending key if it is ordered. */
  ghost predicate Scanned(ik: Hash, files: Files, out: seq<Record>, done: set<Key>, rest: set<Key>, ordered: bool)
  {
    && Lists(out, files, Seen(out)) && KeysOf(ik, files, Seen(out), done)
    && (ordered ==>
          && (forall i, j :: 0 <= i < j < |out| ==> KeyBelow(ik(out[i].path), ik(out[j].path)))
          && forall i, k :: 0 <= i < |out| && k in rest ==> KeyBelow(ik(out[i].path), k))
  }

  lemma NothingScanned(ik: Hash, files: Files, rest: set<Key>, ordered: bool)
    ensures Scanned(ik, files, [], {}, rest, ordered)
  {
  }

  lemma ScanOn(ik: Hash, db: Db, files: Files, out: seq<Record>, done: set<Key>, rest: set<Key>, ordered: bool,
               key: Key)
    requires Represents(ik, db, files) && key in db.records && key !in done && key in rest
    requires Scanned(ik, files, out, done, rest, ordered) && (ordered ==> Foremost(key, rest))
    ensures db.records[key].value.bound == key
    ensures Scanned(ik, files, out + [db.records[key].value.plain], done + {key}, rest - {key}, ordered)
  {
    hide Represents, Lists, KeysOf, Seen;
    RowOpens(ik, db, files, key);
    StateInjective(ik, db, files);
    var r := db.records[key].value.plain;
    KeysMore(ik, files, Seen(out), done, r.path);
    ListsMore(out, files, Seen(out), r);
    SeenSnoc(out, r);
  }

  lemma SeenSnoc(out: seq<Record>, r: Record)
    ensures Seen(out + [r]) == Seen(out) + {r.path}
  {
    var all := out + [r];
    assert all[|out|] == r;
    assert forall i :: 0 <= i < |out| ==> all[i] == out[i];
  }

  /** What a finished scan of all the keys of `paths` saw. */
  lemma ScanSaw(ik: Hash, files: Files, out: seq<Record>, keys: set<Key>, rest: set<Key>, ordered: bool,
                paths: set<string>)
    requires rest <= keys && KeysOf(ik, files, paths, keys) && Scanned(ik, files, out, keys - rest, rest, ordered)
    ensures Lists(out, files, Seen(out))
    ensures Seen(out) <= paths && (rest == {} ==> Seen(out) == paths) && (ordered ==> InKeyOrder(ik, out, paths))
  {
    hide Lists, Seen;
    if rest == {} {
      assert keys - rest == keys;
      KeysAll(ik, files, Seen(out), paths, keys);
    }
    forall p | p in paths && p !in Seen(out)
      ensures ik(p) in rest
    {
      assert p in files;
    }
  }

  lemma StateInjective(ik: Hash, db: Db, files: Files)
    requires Represents(ik, db, files)
    ensures Injective(ik)
  {
  }

  /** A listing of names without repetition. */
  ghost predicate Names(out: seq<string>, names: set<string>)
  {
    (forall i, j :: 0 <= i < j < |out| ==> out[i] != out[j]) && forall d :: d in out <==> d in names
  }

  lemma ParentColumnOfDirs(ik: Hash, db: Db, files: Files, dir: string)
    requires Represents(ik, db, files)
    ensures forall d <- SubDirs(files.Keys, dir) ::
              ik(d) in db.dirs && db.dirs[ik(d)].parent == ik(dir) && db.dirs[ik(d)].value.plain == d
  {
    forall d | d in SubDirs(files.Keys, dir)
      ensures ik(d) in db.dirs && db.dirs[ik(d)].parent == ik(dir) && db.dirs[ik(d)].value.plain == d
    {
      KeyedAt(ik, DirTable(ik, files.Keys), d);
    }
  }

  lemma SubDirOpens(ik: Hash, db: Db, files: Files, dir: string, key: Key)
    requires Represents(ik, db, files) && key in db.dirs && db.dirs[key].parent == ik(dir)
    ensures db.dirs[key].value.plain in SubDirs(files.Keys, dir)
  {
    DirOpens(ik, db, files, key);
  }

  /** A listing of subdirectories under way: the keys in `rest` are still to come. */
  ghost predicate DirsSeen(ik: Hash, subs: set<string>, out: seq<string>, rest: set<Key>)
  {
    && (forall i, j :: 0 <= i < j < |out| ==> out[i] != out[j])
    && (forall d <- out :: d in subs && ik(d) !in rest)
    && (forall d <- subs :: d in out || ik(d) in rest)
  }

  lemma DirsOn(ik: Hash, subs: set<string>, out: seq<string>, rest: set<Key>, d: string)
    requires Injective(ik) && DirsSeen(ik, subs, out, rest) && d in subs && ik(d) in rest
    ensures DirsSeen(ik, subs, out + [d], rest - {ik(d)})
  {
  }

  lemma VisitedOn<T>(out: seq<T>, visit: seq<T> -> bool, x: T)
    requires (forall i :: 0 < i < |out| ==> visit(out[..i])) && (out == [] || visit(out))
    ensures forall i :: 0 < i < |out + [x]| ==> visit((out + [x])[..i])
  {
    var all := out + [x];
    assert all[..|out|] == out && forall i :: 0 < i < |out| ==> all[..i] == out[..i];
  }

  /** The trees of the first `n` subdirectories. */
  ghost function Trees(paths: set<string>, subs: seq<string>, n: nat): set<string>
    requires n <= |subs|
  {
    if n == 0 then {} else Trees(paths, subs, n - 1) + Under(paths, subs[n - 1])
  }

  lemma {:induction false} InTrees(paths: set<string>, subs: seq<string>, n: nat, p: string)
    requires n <= |subs|
    ensures p in Trees(paths, subs, n) <==> p in paths && exists i :: 0 <= i < n && Beneath(p, subs[i])
  {
    if n > 0 {
      InTrees(paths, subs, n - 1, p);
    }
  }

  lemma TreesDisjoint(paths: set<string>, dir: string, subs: seq<string>, n: nat)
    requires n < |subs| && Names(subs, SubDirs(paths, dir))
    ensures InDir(paths, dir) + Trees(paths, subs, n) !! Under(paths, subs[n])
    ensures subs[n] in Dirs(paths) && |dir| < |subs[n]|
  {
    var c := subs[n];
    assert c in subs;
    DirsAreScanned(paths, c);
    ParentIsShorter(c);
    forall p | p in Under(paths, c)
      ensures p !in InDir(paths, dir) && p !in Trees(paths, subs, n)
    {
      InTrees(paths, subs, n, p);
      PartsDisjoint(p, c, c, dir);
      forall i | 0 <= i < n
        ensures !Beneath(p, subs[i])
      {
        assert subs[i] in subs;
        PartsDisjoint(p, c, subs[i], dir);
      }
    }
  }

  lemma OneMoreTree(paths: set<string>, dir: string, subs: seq<string>, n: nat)
    requires n < |subs|
    ensures InDir(paths, dir) + Trees(paths, subs, n + 1)
            == InDir(paths, dir) + Trees(paths, subs, n) + Under(paths, subs[n])
  {
    hide InDir, Under;
  }

  lemma TreesCover(paths: set<string>, dir: string, subs: seq<string>)
    requires Names(subs, SubDirs(paths, dir))
    ensures InDir(paths, dir) + Trees(paths, subs, |subs|) == Within(paths, dir)
  {
    WithinSplits(paths, dir);
    forall p
      ensures p in Trees(paths, subs, |subs|) <==> exists c :: c in SubDirs(paths, dir) && p in Under(paths, c)
    {
      InTrees(paths, subs, |subs|, p);
      if c :| c in SubDirs(paths, dir) && p in Under(paths, c) {
        assert c in subs;
      }
      if i :| 0 <= i < |subs| && Beneath(p, subs[i]) {
        assert subs[i] in subs;
      }
    }
  }

  /** The directories a walk can still descend to. */
  function Deeper(paths: set<string>, dir: string): set<string>
  {
    set d | d in Dirs(paths) && |d| > |dir|
  }

  lemma FewerDeeper(paths: set<string>, dir: string, sub: string)
    requires sub in Dirs(paths) && |dir| < |sub|
    ensures Deeper(paths, sub) < Deeper(paths, dir)
  {
    assert sub in Deeper(paths, dir) && sub !in Deeper(paths, sub);
  }
}
