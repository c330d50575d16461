// The clipboard parsers and the collision-free target name used when files
// are pasted into the workspace.
module FileHandlers {
  import opened Wrappers
  import opened Strings
  import opened Paths

  // ---- macOS clipboard: the NSFilenamesPboardType property list ----------

  const OPEN_TAG: string := "<string>"
  const CLOSE_TAG: string := "</string>"

  /** `<string>` at p, `</string>` at k, and one line of text between them. */
  predicate Enclosed(s: string, p: nat, k: nat)
  {
    && OccursAt(s, OPEN_TAG, p)
    && p + |OPEN_TAG| <= k
    && OccursAt(s, CLOSE_TAG, k)
    && forall i :: p + |OPEN_TAG| <= i < k ==> !LineTerminator(s[i])
  }

  /** Where the lazy match `<string>(.*?)</string>` that starts at p closes. */
  function MatchAt(s: string, p: nat): (r: Option<nat>)
    ensures r.Some? ==> p + |OPEN_TAG| <= r.value && r.value + |CLOSE_TAG| <= |s|
  {
    if !OccursAt(s, OPEN_TAG, p) then None
    else match IndexOf(s, CLOSE_TAG, p + |OPEN_TAG|)
      case None => None
      case Some(k) =>
        if forall i :: p + |OPEN_TAG| <= i < k ==> !LineTerminator(s[i]) then Some(k) else None
  }

  /** MatchAt closes at the nearest `</string>` that keeps the match on one line, if any. */
  lemma MatchAtIsLazy(s: string, p: nat)
    ensures MatchAt(s, p).Some? ==> Enclosed(s, p, MatchAt(s, p).value)
    ensures MatchAt(s, p).Some? ==> forall k :: p <= k < MatchAt(s, p).value ==> !Enclosed(s, p, k)
    ensures MatchAt(s, p).None? ==> forall k :: !Enclosed(s, p, k)
  {
    IndexOfFinds(s, CLOSE_TAG, p + |OPEN_TAG|);
  }

  /** regex.exec with lastIndex `from`: the earliest match at or after `from`, as (start, close). */
  function Exec(s: string, from: nat): (r: Option<(nat, nat)>)
    ensures r.Some? ==> from <= r.value.0 && r.value.0 + |OPEN_TAG| <= r.value.1 && r.value.1 + |CLOSE_TAG| <= |s|
    decreases |s| - from
  {
    if from + |OPEN_TAG| > |s| then None
    else match MatchAt(s, from)
      case Some(k) => Some((from, k))
      case None => Exec(s, from + 1)
  }

  /** Exec finds the leftmost match at or after `from`, closed lazily. */
  lemma ExecIsLeftmost(s: string, from: nat)
    ensures var r := Exec(s, from);
      && (r.Some? ==> Enclosed(s, r.value.0, r.value.1))
      && (r.Some? ==> forall k :: r.value.0 <= k < r.value.1 ==> !Enclosed(s, r.value.0, k))
      && (r.Some? ==> forall p, k :: from <= p < r.value.0 ==> !Enclosed(s, p, k))
      && (r.None? ==> forall p, k :: from <= p ==> !Enclosed(s, p, k))
  {
    var r := Exec(s, from);
    ExecFound(s, from);
    if r.Some? {
      MatchAtIsLazy(s, r.value.0);
    }
    forall p, k | from <= p && (r.None? || p < r.value.0)
      ensures !Enclosed(s, p, k)
    {
      ExecSkips(s, from, p);
      MatchAtIsLazy(s, p);
    }
  }

  /** What Exec returns is a match. */
  lemma {:induction false} ExecFound(s: string, from: nat)
    ensures Exec(s, from).Some? ==> MatchAt(s, Exec(s, from).value.0) == Some(Exec(s, from).value.1)
    decreases |s| - from
  {
    if from + |OPEN_TAG| <= |s| && MatchAt(s, from).None? {
      ExecFound(s, from + 1);
    }
  }

  /** No match starts between `from` and what Exec returns. */
  lemma {:induction false} ExecSkips(s: string, from: nat, p: nat)
    requires from <= p
    requires Exec(s, from).None? || p < Exec(s, from).value.0
    ensures MatchAt(s, p).None?
    decreases p - from
  {
    if p > from && from + |OPEN_TAG| <= |s| {
      ExecSkips(s, from + 1, p);
    }
  }

  /** The captured texts of every match at or after `from`, in order. */
  function PlistFrom(s: string, from: nat): seq<string>
    decreases |s| - from
  {
    match Exec(s, from)
    case None => []
    case Some((p, k)) => [s[p + |OPEN_TAG|..k]] + PlistFrom(s, k + |CLOSE_TAG|)
  }

  /** Every captured text lies on one line. */
  lemma {:induction false} PlistTextsAreOneLine(s: string, from: nat)
    ensures forall j, i :: 0 <= j < |PlistFrom(s, from)| && 0 <= i < |PlistFrom(s, from)[j]| ==>
      !LineTerminator(PlistFrom(s, from)[j][i])
    decreases |s| - from
  {
    match Exec(s, from)
    case None =>
    case Some((p, k)) =>
      var text := s[p + |OPEN_TAG|..k];
      EnclosedTextOneLine(s, from, p, k);
      PlistTextsAreOneLine(s, k + |CLOSE_TAG|);
      OneLineCons(text, PlistFrom(s, k + |CLOSE_TAG|));
  }

  /** No line ends inside t. */
  predicate OneLine(t: string)
  {
    forall i :: 0 <= i < |t| ==> !LineTerminator(t[i])
  }

  /** The text of the match Exec finds lies on one line. */
  lemma EnclosedTextOneLine(s: string, from: nat, p: nat, k: nat)
    requires Exec(s, from) == Some((p, k))
    ensures p + |OPEN_TAG| <= k <= |s|
    ensures OneLine(s[p + |OPEN_TAG|..k])
  {
    ExecIsLeftmost(s, from);
    var text := s[p + |OPEN_TAG|..k];
    assert forall i :: 0 <= i < |text| ==> text[i] == s[p + |OPEN_TAG| + i];
  }

  /** A one-line text in front of one-line texts keeps them all on one line. */
  lemma OneLineCons(text: string, tail: seq<string>)
    requires OneLine(text)
    requires forall j, i :: 0 <= j < |tail| && 0 <= i < |tail[j]| ==> !LineTerminator(tail[j][i])
    ensures forall j, i :: 0 <= j < |[text] + tail| && 0 <= i < |([text] + tail)[j]| ==>
      !LineTerminator(([text] + tail)[j][i])
  {
    var r := [text] + tail;
    forall j, i | 0 <= j < |r| && 0 <= i < |r[j]|
      ensures !LineTerminator(r[j][i])
    {
      if j > 0 {
        assert r[j] == tail[j - 1];
      }
    }
  }

  /** One match taken off the front of PlistFrom. */
  lemma PlistStep(s: string, from: nat, p: nat, k: nat)
    requires Exec(s, from) == Some((p, k))
    ensures p + |OPEN_TAG| <= k && k + |CLOSE_TAG| <= |s|
    ensures PlistFrom(s, from) == [s[p + |OPEN_TAG|..k]] + PlistFrom(s, k + |CLOSE_TAG|)
  {
    var r := Exec(s, from);
    assert r.value.0 == p && r.value.1 == k;
  }

  /** One more match read: its capture moves from what remains to what was read. */
  lemma PlistAdvance(s: string, from: nat, p: nat, k: nat, next: nat, paths: seq<string>)
    requires Exec(s, from) == Some((p, k)) && next == k + |CLOSE_TAG|
    ensures p + |OPEN_TAG| <= k && next <= |s|
    ensures paths + PlistFrom(s, from) == paths + [s[p + |OPEN_TAG|..k]] + PlistFrom(s, next)
  {
    PlistStep(s, from, p, k);
    SnocAssoc(paths, s[p + |OPEN_TAG|..k], PlistFrom(s, next));
  }

  /** parsePlistFilePaths: every lazy `<string>…</string>` match, in order. */
  method ParsePlistFilePaths(plistXml: string) returns (paths: seq<string>)
    ensures paths == PlistFrom(plistXml, 0)
  {
    paths := [];
    var lastIndex: nat := 0;
    var m := Exec(plistXml, lastIndex);
    while m.Some?
      invariant m == Exec(plistXml, lastIndex)
      invariant paths + PlistFrom(plistXml, lastIndex) == PlistFrom(plistXml, 0)
      decreases |plistXml| - lastIndex
    {
      var p, k := m.value.0, m.value.1;
      var next := k + |CLOSE_TAG|;
      PlistAdvance(plistXml, lastIndex, p, k, next, paths);
      paths := paths + [plistXml[p + |OPEN_TAG|..k]];
      lastIndex := next;
      m := Exec(plistXml, lastIndex);
    }
    PlistEnd(plistXml, lastIndex);
    AppendEmpty(paths);
  }

  /** No match left: nothing more is read. */
  lemma PlistEnd(s: string, from: nat)
    requires Exec(s, from).None?
    ensures PlistFrom(s, from) == []
  {
  }

  /** One property-list entry naming a path. */
  function Entry(path: string): string
  {
    OPEN_TAG + path + CLOSE_TAG
  }

  function Entries(paths: seq<string>): string
  {
    if paths == [] then [] else Entry(paths[0]) + Entries(paths[1..])
  }

  /** The match at p closes at the first `</string>` after the opening tag when no line ends before it. */
  lemma MatchAtFirstClose(s: string, p: nat, k: nat)
    requires OccursAt(s, OPEN_TAG, p)
    requires IndexOf(s, CLOSE_TAG, p + |OPEN_TAG|) == Some(k)
    requires forall i :: p + |OPEN_TAG| <= i < k ==> !LineTerminator(s[i])
    ensures Exec(s, p) == Some((p, k))
  {
  }

  /** The first `</string>` after an entry's opening tag is its own closing tag. */
  lemma EntryClose(pre: string, path: string, rest: string)
    requires '<' !in path
    ensures IndexOf(pre + Entry(path) + rest, CLOSE_TAG, |pre| + |OPEN_TAG|) == Some(|pre| + |OPEN_TAG| + |path|)
  {
    var a := pre + OPEN_TAG;
    assert pre + Entry(path) + rest == a + path + CLOSE_TAG + rest;
    IndexOfPlacedFrom(a, path, CLOSE_TAG, rest);
  }

  /** An entry's text between its tags is the path. */
  lemma EntryText(pre: string, path: string, rest: string)
    ensures var s := pre + Entry(path) + rest;
      && OccursAt(s, OPEN_TAG, |pre|)
      && |pre| + |OPEN_TAG| + |path| <= |s|
      && s[|pre| + |OPEN_TAG|..|pre| + |OPEN_TAG| + |path|] == path
  {
    var s := pre + Entry(path) + rest;
    assert s == (pre + OPEN_TAG) + path + (CLOSE_TAG + rest);
    assert s[|pre|..|pre| + |OPEN_TAG|] == OPEN_TAG;
  }

  /** An entry for a plain one-line path is matched where it starts, closing right after the path. */
  lemma EntryMatch(pre: string, path: string, rest: string)
    requires '<' !in path
    requires forall i :: 0 <= i < |path| ==> !LineTerminator(path[i])
    ensures Exec(pre + Entry(path) + rest, |pre|) == Some((|pre|, |pre| + |OPEN_TAG| + |path|))
  {
    var s := pre + Entry(path) + rest;
    var start := |pre| + |OPEN_TAG|;
    EntryText(pre, path, rest);
    EntryClose(pre, path, rest);
    SliceOneLine(s, start, path);
    MatchAtFirstClose(s, |pre|, start + |path|);
  }

  /** A one-line text found at `start` puts no line end between `start` and its end. */
  lemma SliceOneLine(s: string, start: nat, t: string)
    requires start + |t| <= |s| && s[start..start + |t|] == t
    requires forall i :: 0 <= i < |t| ==> !LineTerminator(t[i])
    ensures forall i :: start <= i < start + |t| ==> !LineTerminator(s[i])
  {
    forall i | start <= i < start + |t|
      ensures !LineTerminator(s[i])
    {
      assert s[i] == s[start..start + |t|][i - start];
    }
  }

  /** Plain one-line paths written as entries are read back in order. */
  lemma {:induction false} PlistOfEntries(pre: string, paths: seq<string>)
    requires forall j :: 0 <= j < |paths| ==> '<' !in paths[j]
    requires forall j, i :: 0 <= j < |paths| && 0 <= i < |paths[j]| ==> !LineTerminator(paths[j][i])
    ensures PlistFrom(pre + Entries(paths), |pre|) == paths
    decreases |paths|
  {
    if paths == [] {
      assert pre + Entries(paths) == pre;
    } else {
      EntryStep(pre, paths);
      PlistOfEntries(pre + Entry(paths[0]), paths[1..]);
    }
  }

  /** The first entry is read, and reading goes on right after it. */
  lemma EntryStep(pre: string, paths: seq<string>)
    requires paths != []
    requires '<' !in paths[0]
    requires forall i :: 0 <= i < |paths[0]| ==> !LineTerminator(paths[0][i])
    ensures pre + Entries(paths) == (pre + Entry(paths[0])) + Entries(paths[1..])
    ensures PlistFrom(pre + Entries(paths), |pre|) ==
      [paths[0]] + PlistFrom((pre + Entry(paths[0])) + Entries(paths[1..]), |pre + Entry(paths[0])|)
  {
    EntriesCons(pre, paths);
    EntryRead(pre, paths[0], Entries(paths[1..]));
  }

  /** Entries written after a prefix: the first entry, then the others. */
  lemma EntriesCons(pre: string, paths: seq<string>)
    requires paths != []
    ensures pre + Entries(paths) == (pre + Entry(paths[0])) + Entries(paths[1..])
  {
    assert Entries(paths) == Entry(paths[0]) + Entries(paths[1..]);
    SeqAssoc(pre, Entry(paths[0]), Entries(paths[1..]));
  }

  /** An entry for a plain one-line path is read, and reading goes on right after it. */
  lemma EntryRead(pre: string, path: string, rest: string)
    requires '<' !in path
    requires forall i :: 0 <= i < |path| ==> !LineTerminator(path[i])
    ensures PlistFrom(pre + Entry(path) + rest, |pre|) ==
      [path] + PlistFrom(pre + Entry(path) + rest, |pre + Entry(path)|)
  {
    var t := pre + Entry(path) + rest;
    EntryMatch(pre, path, rest);
    EntryText(pre, path, rest);
    PlistStep(t, |pre|, |pre|, |pre| + |OPEN_TAG| + |path|);
    assert |pre + Entry(path)| == |pre| + |OPEN_TAG| + |path| + |CLOSE_TAG|;
  }

  lemma PlistRoundTrip(paths: seq<string>)
    requires forall j :: 0 <= j < |paths| ==> '<' !in paths[j]
    requires forall j, i :: 0 <= j < |paths| && 0 <= i < |paths[j]| ==> !LineTerminator(paths[j][i])
    ensures PlistFrom(Entries(paths), 0) == paths
  {
    PlistOfEntries([], paths);
    assert [] + Entries(paths) == Entries(paths);
  }

  // ---- Windows clipboard: the FileNameW buffer ---------------------------

  const NUL: char := '\0'

  predicate NonEmpty(s: string)
  {
    |s| > 0
  }

  /**
   * parseWindowsFilePaths on the decoded text: the NUL-separated pieces
   * that are not empty, so every path read is non-empty and free of NUL.
   */
  function ParseWindowsFilePaths(text: string): (r: seq<string>)
    ensures forall j :: 0 <= j < |r| ==> r[j] != [] && NUL !in r[j]
  {
    var pieces := Split(text, NUL);
    NonEmptyPiecesArePlain(pieces);
    Filter(pieces, NonEmpty)
  }

  lemma NonEmptyPiecesArePlain(pieces: seq<string>)
    requires forall k :: 0 <= k < |pieces| ==> NUL !in pieces[k]
    ensures forall j :: 0 <= j < |Filter(pieces, NonEmpty)| ==>
      Filter(pieces, NonEmpty)[j] != [] && NUL !in Filter(pieces, NonEmpty)[j]
  {
    var r := Filter(pieces, NonEmpty);
    FilterMembers(pieces, NonEmpty);
    forall j | 0 <= j < |r|
      ensures r[j] != [] && NUL !in r[j]
    {
      var k :| 0 <= k < |pieces| && pieces[k] == r[j];
    }
  }

  /** A double-NUL-terminated list of NUL-free paths is read back as that list. */
  lemma WindowsRoundTrip(paths: seq<string>)
    requires forall j :: 0 <= j < |paths| ==> paths[j] != [] && NUL !in paths[j]
    ensures ParseWindowsFilePaths(Join(paths, NUL) + [NUL, NUL]) == paths
  {
    if paths == [] {
      var buffer := Join(paths, NUL) + [NUL, NUL];
      assert buffer == [NUL, NUL];
      WindowsEmpty();
    } else {
      WindowsNonEmpty(paths);
    }
  }

  lemma WindowsEmpty()
    ensures ParseWindowsFilePaths([NUL, NUL]) == []
  {
    var none: string := [];
    var parts := [none, none, none];
    assert Join([none], NUL) == none;
    assert Join([none, none], NUL) == [NUL];
    assert parts[1..] == [none, none] && [none, none][1..] == [none];
    assert Join(parts, NUL) == [NUL, NUL];
    SplitJoin(parts, NUL);
    assert Split([NUL, NUL], NUL) == parts;
    var empty: seq<string> := [];
    assert parts == [none, none] + [none] && [none, none] == [none] + [none] && [none] == empty + [none];
    DropEmptyLast([none, none]);
    DropEmptyLast([none]);
    DropEmptyLast(empty);
  }

  lemma WindowsNonEmpty(paths: seq<string>)
    requires paths != []
    requires forall j :: 0 <= j < |paths| ==> paths[j] != [] && NUL !in paths[j]
    ensures ParseWindowsFilePaths(Join(paths, NUL) + [NUL, NUL]) == paths
  {
    var none: string := [];
    var once := paths + [none];
    SplitJoinTerminated(paths, NUL);
    assert paths + [none, none] == once + [none];
    var pieces := Split(Join(paths, NUL) + [NUL, NUL], NUL);
    assert pieces == once + [none];
    DropEmptyLast(once);
    DropEmptyLast(paths);
    assert forall j :: 0 <= j < |paths| ==> NonEmpty(paths[j]);
    FilterKeepsAll(paths, NonEmpty);
    assert Filter(pieces, NonEmpty) == paths;
  }

  lemma DropEmptyLast(s: seq<string>)
    ensures Filter(s + [[]], NonEmpty) == Filter(s, NonEmpty)
  {
    assert (s + [[]])[..|s|] == s;
  }

  // ---- getUniquePath -----------------------------------------------------

  /** `${base}_${i}${ext}`. */
  function Placed(base: string, ext: string, i: nat): string
  {
    base + "_" + NatToString(i) + ext
  }

  /** The path without its extension. */
  function WithoutExt(p: string): string
  {
    p[..|p| - |ExtName(p)|]
  }

  /**
   * The i-th candidate: `${base}_${i}${ext}` when the path has an
   * extension, else `${targetPath}_${i}`; either way "_i" longer than the
   * target.
   */
  function Candidate(targetPath: string, i: nat): (r: string)
    ensures |r| == |targetPath| + 1 + |NatToString(i)|
  {
    var ext := ExtName(targetPath);
    if ext != [] then Placed(WithoutExt(targetPath), ext, i) else targetPath + "_" + NatToString(i)
  }

  /** Both branches put the counter between the path without its extension and the extension. */
  lemma CandidateIsPlaced(targetPath: string, i: nat)
    ensures Candidate(targetPath, i) == Placed(WithoutExt(targetPath), ExtName(targetPath), i)
  {
    if ExtName(targetPath) == [] {
      CandidateNoExt(targetPath, i);
    }
  }

  /** With no extension the counter goes at the end of the path itself. */
  lemma CandidateNoExt(p: string, i: nat)
    requires ExtName(p) == []
    ensures Candidate(p, i) == Placed(WithoutExt(p), [], i)
  {
    var n := |ExtName(p)|;
    assert WithoutExt(p) == p[..|p| - n];
    PlacedNoExt(p, n, i);
  }

  lemma PlacedNoExt(p: string, n: nat, i: nat)
    requires n == 0
    ensures Placed(p[..|p| - n], [], i) == p + "_" + NatToString(i)
  {
    assert p[..|p| - n] == p;
    AppendEmpty(p + "_" + NatToString(i));
  }

  /** Different counters place different names. */
  lemma PlacedInjective(base: string, ext: string, i: nat, j: nat)
    requires Placed(base, ext, i) == Placed(base, ext, j)
    ensures i == j
  {
    var head := base + "_";
    var a, b := Placed(base, ext, i), Placed(base, ext, j);
    assert a == head + NatToString(i) + ext;
    assert b == head + NatToString(j) + ext;
    assert NatToString(i) == a[|head|..|a| - |ext|];
    assert NatToString(j) == b[|head|..|b| - |ext|];
    NatToStringInjective(i, j);
  }

  lemma CandidateInjective(targetPath: string, i: nat, j: nat)
    requires Candidate(targetPath, i) == Candidate(targetPath, j)
    ensures i == j
  {
    CandidateIsPlaced(targetPath, i);
    CandidateIsPlaced(targetPath, j);
    PlacedInjective(WithoutExt(targetPath), ExtName(targetPath), i, j);
  }

  /** The names placed with counters 1 .. i - 1. */
  function PlacedBelow(base: string, ext: string, i: nat): set<string>
  {
    if i <= 1 then {} else PlacedBelow(base, ext, i - 1) + {Placed(base, ext, i - 1)}
  }

  /** A counter at or past i places a name not among those below i. */
  lemma {:induction false} PlacedAbove(base: string, ext: string, i: nat, k: nat)
    requires k >= i
    ensures Placed(base, ext, k) !in PlacedBelow(base, ext, i)
  {
    if i > 1 {
      PlacedAbove(base, ext, i - 1, k);
      if Placed(base, ext, k) == Placed(base, ext, i - 1) {
        PlacedInjective(base, ext, k, i - 1);
      }
    }
  }

  /** PlacedBelow holds every counter from 1 to i - 1. */
  lemma {:induction false} PlacedBelowHas(base: string, ext: string, i: nat, j: nat)
    requires 1 <= j < i
    ensures Placed(base, ext, j) in PlacedBelow(base, ext, i)
  {
    if j < i - 1 {
      PlacedBelowHas(base, ext, i - 1, j);
    }
  }

  lemma {:induction false} PlacedBelowCount(base: string, ext: string, i: nat)
    requires i >= 1
    ensures |PlacedBelow(base, ext, i)| == i - 1
  {
    if i > 1 {
      PlacedBelowCount(base, ext, i - 1);
      PlacedAbove(base, ext, i - 1, i - 1);
    }
  }

  /**
   * getUniquePath over the finite set of paths that exist: the target itself
   * when free, else the first free candidate.
   */
  method GetUniquePath(targetPath: string, existing: set<string>) returns (r: string)
    ensures r !in existing
    ensures targetPath !in existing ==> r == targetPath
    ensures targetPath in existing ==>
      exists i :: i >= 1 && r == Candidate(targetPath, i)
        && forall j :: 1 <= j < i ==> Candidate(targetPath, j) in existing
  {
    if targetPath !in existing {
      return targetPath;
    }
    ghost var ext := ExtName(targetPath);
    ghost var base := WithoutExt(targetPath);
    var i := 1;
    var candidate := Candidate(targetPath, i);
    while candidate in existing
      invariant i >= 1 && candidate == Candidate(targetPath, i)
      invariant PlacedBelow(base, ext, i) <= existing
      decreases |existing| - (i - 1)
    {
      CandidateIsPlaced(targetPath, i);
      assert PlacedBelow(base, ext, i + 1) <= existing;
      PlacedBelowCount(base, ext, i + 1);
      SubsetCount(PlacedBelow(base, ext, i + 1), existing);
      i := i + 1;
      candidate := Candidate(targetPath, i);
    }
    CandidatesBelowTaken(targetPath, existing, i);
    r := candidate;
  }

  /** Every candidate below i is taken once the names placed below i all exist. */
  lemma CandidatesBelowTaken(targetPath: string, existing: set<string>, i: nat)
    requires PlacedBelow(WithoutExt(targetPath), ExtName(targetPath), i) <= existing
    ensures forall j :: 1 <= j < i ==> Candidate(targetPath, j) in existing
  {
    forall j | 1 <= j < i
      ensures Candidate(targetPath, j) in existing
    {
      CandidateIsPlaced(targetPath, j);
      PlacedBelowHas(WithoutExt(targetPath), ExtName(targetPath), i, j);
    }
  }

  lemma SubsetCount(a: set<string>, b: set<string>)
    requires a <= b
    ensures |a| <= |b|
  {
    assert b == a + (b - a);
  }
}
