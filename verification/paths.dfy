/** Which logical paths are accepted, and why every directory above an accepted path is too. */
module Paths {
  import I = IndexTables
  import opened Keying
  import opened Words
  import opened Wrappers
  import Names
  import Utf8

  const MAX_PATH_BYTES := 4096
  const MAX_SEGMENT_BYTES := 255

  datatype PathError =
    | EmptyPath | PathTooLong | EdgeSlash
    | Control | Backslash | Noncharacter | Unassigned
    | DriveLetter | EmptySegment | DotSegment | SegmentTooLong

  // ------------------------------------------------------------------------------ segments

  /** `path.split('/')`. */
  function Segments(path: string): (s: seq<string>)
    ensures |s| >= 1
    decreases |path|
  {
    var at := NextSeparator(path, 0);
    if at == -1 then [path] else [path[..at]] + Segments(path[at + 1..])
  }

  function Join(segments: seq<string>): string
    requires |segments| >= 1
  {
    if |segments| == 1 then segments[0] else segments[0] + [SEPARATOR] + Join(segments[1..])
  }

  lemma {:induction false} JoinSegments(path: string)
    ensures Join(Segments(path)) == path
    decreases |path|
  {
    var at := NextSeparator(path, 0);
    if at != -1 {
      JoinSegments(path[at + 1..]);
      assert Segments(path)[1..] == Segments(path[at + 1..]);
      assert path == path[..at] + [SEPARATOR] + path[at + 1..];
    }
  }

  /** Splitting at any separator splits the list of segments. */
  lemma {:induction false} SegmentsSplit(path: string, at: nat)
    requires at < |path| && path[at] == SEPARATOR
    ensures Segments(path) == Segments(path[..at]) + Segments(path[at + 1..])
    decreases |path|
  {
    hide NextSeparator, Segments;
    var first, front := NextSeparator(path, 0), path[..at];
    SegmentsHead(path, first);
    if first == at {
      NextUnique(front, 0, -1);
      SegmentsHead(front, -1);
    } else {
      NextUnique(front, 0, first);
      SegmentsHead(front, first);
      var rest, n := path[first + 1..], at - first - 1;
      SegmentsSplit(rest, n);
      assert rest[..n] == front[first + 1..] && rest[n + 1..] == path[at + 1..];
      assert front[..first] == path[..first];
    }
  }

  lemma SegmentsHead(path: string, at: int)
    requires NextSeparator(path, 0) == at
    ensures at == -1 ==> Segments(path) == [path]
    ensures at != -1 ==> Segments(path) == [path[..at]] + Segments(path[at + 1..])
  {
  }

  lemma NextUnique(path: string, from: nat, at: int)
    requires from <= |path| && (at == -1 || (from <= at < |path| && path[at] == SEPARATOR))
    requires forall i :: from <= i < (if at == -1 then |path| else at) ==> path[i] != SEPARATOR
    ensures NextSeparator(path, from) == at
  {
  }

  lemma OneSegment(path: string)
    requires forall i :: 0 <= i < |path| ==> path[i] != SEPARATOR
    ensures Segments(path) == [path]
  {
    NextUnique(path, 0, -1);
  }

  // ----------------------------------------------------------------------------- characters

  predicate IsBannedControl(c: char)
  {
    c as int <= 0x1f || c as int == 0x7f || 0x80 <= c as int <= 0x9f
  }

  predicate IsNoncharacter(c: char)
  {
    0xfdd0 <= c as int <= 0xfdef || And(c as int, 0xfffe) == 0xfffe
  }

  /** The masked comparison finds the last two code points of every plane. */
  lemma NoncharacterIs(c: char)
    ensures IsNoncharacter(c) <==> 0xfdd0 <= c as int <= 0xfdef || c as int % 0x1_0000 >= 0xfffe
  {
    var n := c as int;
    FifteenBits(n / 2);
    hide And;
    AndBit(n, 0xfffe);
    DivModUnique(n, 0x1_0000, n / 2 / 0x8000, 2 * (n / 2 % 0x8000) + n % 2);
  }

  lemma FifteenBits(y: nat)
    ensures And(y, 0x7fff) == y % 0x8000
  {
    assert Pow2(15) == 0x8000;
    hide And, Low, Shr, Pow2;
    AndLow(y, 15);
    ShrIsDiv(y, 15);
  }

  /** The first test a character fails; `table` is the pinned Unicode table. */
  function CharError(c: char, table: char -> bool): Option<PathError>
  {
    if IsBannedControl(c) then Some(Control)
    else if c == '\\' then Some(Backslash)
    else if IsNoncharacter(c) then Some(Noncharacter)
    else if !table(c) then Some(Unassigned)
    else None
  }

  function CharsError(s: string, table: char -> bool): Option<PathError>
  {
    if s == "" then None
    else if CharError(s[0], table).Some? then CharError(s[0], table)
    else CharsError(s[1..], table)
  }

  predicate HasDriveLetter(segment: string)
  {
    |segment| >= 2 && ('a' <= segment[0] <= 'z' || 'A' <= segment[0] <= 'Z') && segment[1] == ':'
  }

  function SegmentError(s: string): Option<PathError>
  {
    if s == "" then Some(EmptySegment)
    else if s == "." || s == ".." then Some(DotSegment)
    else if |Utf8.Encode(s)| > MAX_SEGMENT_BYTES then Some(SegmentTooLong)
    else None
  }

  function SegmentsError(segments: seq<string>): Option<PathError>
  {
    if segments == [] then None
    else if SegmentError(segments[0]).Some? then SegmentError(segments[0])
    else SegmentsError(segments[1..])
  }

  /** `validate`: the first failed test, if any. */
  function Validate(path: string, table: char -> bool): Option<PathError>
  {
    if path == "" then Some(EmptyPath)
    else if |Utf8.Encode(path)| > MAX_PATH_BYTES then Some(PathTooLong)
    else if path[0] == SEPARATOR || path[|path| - 1] == SEPARATOR then Some(EdgeSlash)
    else if CharsError(path, table).Some? then CharsError(path, table)
    else if HasDriveLetter(Segments(path)[0]) then Some(DriveLetter)
    else SegmentsError(Segments(path))
  }

  // ---------------------------------------------------------------------- what is accepted

  /** A path is valid by its segments alone: there is no separate rule about slashes. */
  predicate Valid(path: string, table: char -> bool)
  {
    && |Utf8.Encode(path)| <= MAX_PATH_BYTES
    && (forall c <- path :: CharError(c, table).None?)
    && !HasDriveLetter(Segments(path)[0])
    && forall s <- Segments(path) :: SegmentError(s).None?
  }

  lemma {:induction false} CharsErrorNone(s: string, table: char -> bool)
    ensures CharsError(s, table).None? <==> forall c <- s :: CharError(c, table).None?
  {
    if s != "" {
      CharsErrorNone(s[1..], table);
      assert s == [s[0]] + s[1..];
    }
  }

  lemma {:induction false} SegmentsErrorNone(segments: seq<string>)
    ensures SegmentsError(segments).None? <==> forall s <- segments :: SegmentError(s).None?
  {
    if segments != [] {
      SegmentsErrorNone(segments[1..]);
      assert segments == [segments[0]] + segments[1..];
    }
  }

  /** A slash at either edge leaves an empty segment there. */
  lemma EdgeSegments(path: string)
    ensures path == "" ==> Segments(path) == [""]
    ensures path != "" && path[0] == SEPARATOR ==> "" in Segments(path)
    ensures path != "" && path[|path| - 1] == SEPARATOR ==> "" in Segments(path)
  {
    if path != "" && path[0] == SEPARATOR {
      SegmentsSplit(path, 0);
      assert Segments(path[..0]) == [""];
    }
    if path != "" && path[|path| - 1] == SEPARATOR {
      SegmentsSplit(path, |path| - 1);
      assert Segments(path[|path|..]) == [""];
    }
  }

  /** The ordered tests accept exactly the valid paths. */
  lemma ValidateIff(path: string, table: char -> bool)
    ensures Validate(path, table).None? <==> Valid(path, table)
  {
    hide CharError, Segments, Utf8.Encode;
    CharsErrorNone(path, table);
    SegmentsErrorNone(Segments(path));
    EdgeSegments(path);
    assert SegmentError("").Some?;
  }

  /** `path[a..b]` stands between slashes or edges and has no slash inside. */
  predicate SegmentAt(path: string, a: int, b: int)
  {
    && 0 <= a <= b <= |path| && (a == 0 || path[a - 1] == '/') && (b == |path| || path[b] == '/')
    && forall i :: a <= i < b ==> path[i] != '/'
  }

  lemma {:induction false} SegmentsLie(path: string, a: int, b: int)
    requires SegmentAt(path, a, b)
    ensures path[a..b] in Segments(path)
    decreases |path|
  {
    var at := NextSeparator(path, 0);
    if at == -1 || a == 0 {
      assert a == 0 && b == if at == -1 then |path| else at;
      assert path[0..b] == path[..b] && path[..|path|] == path;
      assert Segments(path)[0] == path[a..b];
    } else {
      SegmentAfter(path, at + 1, a, b);
      SegmentsLie(path[at + 1..], a - at - 1, b - at - 1);
    }
  }

  lemma {:induction false} SegmentsFound(path: string, s: string)
    requires s in Segments(path)
    ensures exists a, b :: SegmentAt(path, a, b) && path[a..b] == s
    decreases |path|
  {
    var at := NextSeparator(path, 0);
    if at == -1 {
      assert SegmentAt(path, 0, |path|) && path[0..|path|] == s;
    } else if s == path[..at] {
      assert SegmentAt(path, 0, at) && path[0..at] == s;
    } else {
      var rest := path[at + 1..];
      SegmentsFound(rest, s);
      var a, b :| SegmentAt(rest, a, b) && rest[a..b] == s;
      SegmentMoves(path, at + 1, a, b);
    }
  }

  lemma SegmentMoves(path: string, at: nat, a: int, b: int)
    requires 0 < at <= |path| && path[at - 1] == '/' && SegmentAt(path[at..], a, b)
    ensures SegmentAt(path, at + a, at + b) && path[at + a..at + b] == path[at..][a..b]
  {
    forall i | at + a <= i < at + b
      ensures path[i] != '/'
    {
      assert path[at..][i - at] == path[i];
    }
  }

  lemma SegmentAfter(path: string, at: nat, a: int, b: int)
    requires 0 < at <= a && SegmentAt(path, a, b)
    ensures SegmentAt(path[at..], a - at, b - at) && path[at..][a - at..b - at] == path[a..b]
  {
  }

  /** What is accepted, in full: at most 4096 bytes; every character printable, assigned, no
      backslash and no noncharacter; every segment neither empty nor a dot segment and at most 255
      bytes; and no drive letter at the front. */
  lemma AcceptedIff(path: string, table: char -> bool)
    ensures Validate(path, table).None?
       <==> && |Utf8.Encode(path)| <= 4096
            && (forall i :: 0 <= i < |path| ==>
                  var n := path[i] as int;
                  && !(n <= 0x1f || 0x7f <= n <= 0x9f) && path[i] != '\\'
                  && !(0xfdd0 <= n <= 0xfdef) && n % 0x1_0000 < 0xfffe && table(path[i]))
            && (forall a, b :: SegmentAt(path, a, b) ==>
                  a < b && path[a..b] != "." && path[a..b] != ".." && |Utf8.Encode(path[a..b])| <= 255)
            && !(|path| >= 2 && path[1] == ':' && ('a' <= path[0] <= 'z' || 'A' <= path[0] <= 'Z'))
  {
    hide Validate, Segments, Utf8.Encode;
    ValidateIff(path, table);
    CharactersIff(path, table);
    SegmentsIff(path);
    DriveIff(path);
  }

  lemma CharactersIff(path: string, table: char -> bool)
    ensures (forall c <- path :: CharError(c, table).None?)
       <==> forall i :: 0 <= i < |path| ==>
              var n := path[i] as int;
              && !(n <= 0x1f || 0x7f <= n <= 0x9f) && path[i] != '\\'
              && !(0xfdd0 <= n <= 0xfdef) && n % 0x1_0000 < 0xfffe && table(path[i])
  {
    forall i | 0 <= i < |path|
      ensures path[i] in path
      ensures CharError(path[i], table).None?
         <==> var n := path[i] as int;
              && !(n <= 0x1f || 0x7f <= n <= 0x9f) && path[i] != '\\'
              && !(0xfdd0 <= n <= 0xfdef) && n % 0x1_0000 < 0xfffe && table(path[i])
    {
      NoncharacterIs(path[i]);
    }
    hide CharError;
  }

  lemma SegmentsIff(path: string)
    ensures (forall s <- Segments(path) :: SegmentError(s).None?)
       <==> forall a, b :: SegmentAt(path, a, b) ==>
              a < b && path[a..b] != "." && path[a..b] != ".." && |Utf8.Encode(path[a..b])| <= 255
  {
    hide Segments, Utf8.Encode;
    if forall s <- Segments(path) :: SegmentError(s).None? {
      forall a, b | SegmentAt(path, a, b)
        ensures SegmentError(path[a..b]).None?
      {
        SegmentsLie(path, a, b);
      }
    } else {
      var s :| s in Segments(path) && SegmentError(s).Some?;
      SegmentsFound(path, s);
      var a, b :| SegmentAt(path, a, b) && path[a..b] == s;
      assert a == b || s == "." || s == ".." || |Utf8.Encode(path[a..b])| > 255;
    }
  }

  lemma DriveIff(path: string)
    ensures HasDriveLetter(Segments(path)[0])
       <==> |path| >= 2 && path[1] == ':' && ('a' <= path[0] <= 'z' || 'A' <= path[0] <= 'Z')
  {
    FirstSegment(path);
    hide Segments, NextSeparator;
    var at := NextSeparator(path, 0);
    if |path| >= 2 && path[1] == ':' && path[0] != '/' {
      assert at == -1 || at >= 2;
    }
  }

  lemma FirstSegment(path: string)
    ensures var at := NextSeparator(path, 0); Segments(path)[0] == if at == -1 then path else path[..at]
  {
  }

  // --------------------------------------------------------------------------- upward closure

  lemma {:induction false} EncodePrefix(path: string, n: nat)
    requires n <= |path|
    ensures |Utf8.Encode(path[..n])| <= |Utf8.Encode(path)|
  {
    Utf8.EncodeConcat(path[..n], path[n..]);
    assert path == path[..n] + path[n..];
  }

  /** Every directory a valid path lies beneath is itself valid. */
  lemma ValidAbove(path: string, d: string, table: char -> bool)
    requires Validate(path, table).None? && Beneath(path, d)
    ensures Validate(d, table).None?
  {
    hide CharError, Segments, Utf8.Encode, SegmentError, HasDriveLetter;
    ValidateIff(path, table);
    ValidateIff(d, table);
    EncodePrefix(path, |d|);
    SegmentsSplit(path, |d|);
    assert Segments(path)[0] == Segments(d)[0];
    forall s | s in Segments(d)
      ensures SegmentError(s).None?
    {
      assert s in Segments(path);
    }
    forall c | c in d
      ensures CharError(c, table).None?
    {
      assert c in path;
    }
  }

  /** So the index only ever holds valid directories: each ancestor of a valid path, and its
      parent unless that is the root. */
  lemma AncestorsAreValid(path: string, table: char -> bool)
    requires Validate(path, table).None?
    ensures forall d <- Ancestors(path) :: Validate(d, table).None?
    ensures ParentOf(path) != "" ==> Validate(ParentOf(path), table).None?
  {
    hide Validate;
    forall d | d in Ancestors(path)
      ensures Validate(d, table).None?
    {
      AncestorsAreBeneath(path, d);
      ValidAbove(path, d, table);
    }
    AncestorsAreParentChain(path);
  }

  /** An empty first segment, before a leading slash, is the one prefix that is skipped. */
  function Skipped(path: string): nat
  {
    if path != "" && path[0] == SEPARATOR then 1 else 0
  }

  /** The ancestors of any string are its proper component prefixes, outermost first, without
      the empty one before a leading slash. */
  lemma {:induction false} AncestorsAreComponentPrefixes(path: string)
    ensures |Ancestors(path)| == |Segments(path)| - 1 - Skipped(path)
    ensures forall k :: 0 <= k < |Ancestors(path)| ==>
              Ancestors(path)[k] == Join(Segments(path)[..k + 1 + Skipped(path)])
    decreases |path|
  {
    hide Segments, Ancestors, Join;
    var at := LastSeparator(path);
    AncestorsAreParentChain(path);
    if at < 0 {
      OneSegment(path);
    } else {
      var parent := ParentOf(path);
      SegmentsSplit(path, at);
      OneSegment(path[at + 1..]);
      if at == 0 {
        OneSegment(parent);
      } else {
        AncestorsAreComponentPrefixes(parent);
        JoinSegments(parent);
        PrefixesExtend(path, Segments(path), parent, Segments(parent), Skipped(path));
      }
    }
  }

  /** One more segment: the old prefixes stay and the parent is the new one. */
  lemma PrefixesExtend(path: string, all: seq<string>, parent: string, front: seq<string>, skip: nat)
    requires 1 <= |front| == |all| - 1 && front == all[..|front|] && Join(front) == parent
    requires Ancestors(path) == Ancestors(parent) + [parent] && |Ancestors(parent)| == |front| - 1 - skip
    requires forall k :: 0 <= k < |Ancestors(parent)| ==> Ancestors(parent)[k] == Join(front[..k + 1 + skip])
    ensures forall k :: 0 <= k < |Ancestors(path)| ==> Ancestors(path)[k] == Join(all[..k + 1 + skip])
  {
    hide Ancestors, Join;
    forall k | 0 <= k < |Ancestors(path)|
      ensures Ancestors(path)[k] == Join(all[..k + 1 + skip])
    {
      var n := k + 1 + skip;
      FrontOf(all, front, n);
      if k == |Ancestors(parent)| {
        assert front[..n] == front;
      }
    }
  }

  lemma FrontOf(all: seq<string>, front: seq<string>, n: nat)
    requires n <= |front| <= |all| && front == all[..|front|]
    ensures all[..n] == front[..n]
  {
  }

  /** No row of a stored path is sealed under the key of the totals. */
  lemma TotalsKeyIsNoPath(ik: I.Hash, path: string, table: char -> bool)
    requires I.Injective(ik) && Validate(path, table).None?
    ensures ik(path) != ik(I.TOTALS_DOMAIN)
  {
    TotalsKeyIsRefused(table);
  }

  lemma TotalsKeyIsRefused(table: char -> bool)
    ensures Validate(I.TOTALS_DOMAIN, table).Some?
  {
    hide Segments, Utf8.Encode;
    var path := I.TOTALS_DOMAIN;
    ValidateIff(path, table);
    assert path[0] in path && CharError(path[0], table) == Some(Control);
  }

  /** A name record can be sealed for every valid path. */
  lemma ValidFitsRecord(path: string, table: char -> bool, fileId: Bytes, metadataGen: u64)
    requires Validate(path, table).None? && |fileId| == 16
    ensures Names.RecordFields(Names.NameRecord(fileId, metadataGen, path))
  {
    hide CharError, Segments, Utf8.Encode;
    ValidateIff(path, table);
  }
}
