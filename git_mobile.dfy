// The mobile git service: status classification, the unified-diff hunk
// parser and the diff counts. isomorphic-git and the diff library are
// outside the model: the status matrix, the blobs read and the patch text
// arrive as parameters.
module GitMobile {
  import opened Wrappers
  import opened Strings
  import opened GitModels
  import GitDesktop

  // ---- getStatus ---------------------------------------------------------

  /** The mobile rule: new and not added is untracked, else the stage against HEAD, else the working copy against the stage. */
  function Classify(row: StatusRow): (k: Kind)
    ensures k == Omitted <==>
      (row.head, row.workdir, row.stage) != (0, 2, 0) && row.stage == row.head && row.workdir == row.stage
  {
    if row.head == 0 && row.workdir == 2 && row.stage == 0 then Untracked
    else if row.stage != row.head then Staged
    else if row.workdir != row.stage then Unstaged
    else Omitted
  }

  /** Wherever the desktop lists a triple, the mobile lists it alike. */
  lemma AgreesWithDesktop(row: StatusRow)
    requires GitDesktop.Classify(row) != Omitted
    ensures Classify(row) == GitDesktop.Classify(row)
  {
  }

  /**
   * getStatus over the status matrix (None when reading it throws) and the
   * outcome of the current-branch lookup.
   */
  method GetStatus(matrix: Option<seq<StatusRow>>, currentBranch: Option<string>) returns (status: GitStatus)
    ensures matrix.None? ==> status == GitStatus(DEFAULT_BRANCH, [], [], [])
    ensures matrix.Some? ==> status == GitStatus(
      BranchOrMain(currentBranch),
      Listed(matrix.value, Classify, Staged), Listed(matrix.value, Classify, Unstaged),
      Listed(matrix.value, Classify, Untracked))
  {
    if matrix.None? {
      return GitStatus(DEFAULT_BRANCH, [], [], []);
    }
    var rows := matrix.value;
    var staged, unstaged, untracked := [], [], [];
    var n := 0;
    while n < |rows|
      invariant n <= |rows|
      invariant staged == Listed(rows[..n], Classify, Staged)
      invariant unstaged == Listed(rows[..n], Classify, Unstaged)
      invariant untracked == Listed(rows[..n], Classify, Untracked)
    {
      var row := rows[n];
      assert rows[..n + 1][..n] == rows[..n];
      if row.head == 0 && row.workdir == 2 && row.stage == 0 {
        untracked := untracked + [row.filepath];
      } else if row.stage != row.head {
        staged := staged + [row.filepath];
      } else if row.workdir != row.stage {
        unstaged := unstaged + [row.filepath];
      }
      n := n + 1;
    }
    assert rows[..n] == rows;
    status := GitStatus(BranchOrMain(currentBranch), staged, unstaged, untracked);
  }

  // ---- parseHunks ----------------------------------------------------------

  const HUNK_MARK: string := "@@"

  datatype Header = Header(oldStart: nat, oldLines: nat, newStart: nat, newLines: nat)

  /** Where `^` matches in multiline mode. */
  predicate LineStart(s: string, p: nat)
  {
    p == 0 || (p <= |s| && LineTerminator(s[p - 1]))
  }

  /** `(\d+)(?:,(\d+))?` at i: the start, the count (1 when it is left out) and where the range ends. */
  function RangeAt(s: string, i: nat): (r: Option<(nat, nat, nat)>)
    requires i <= |s|
    ensures r.Some? ==> i < r.value.2 <= |s|
  {
    var d := DigitEnd(s, i);
    if d == i then None
    else
      var start := DecimalValue(s[i..d]);
      if d < |s| && s[d] == ',' && DigitEnd(s, d + 1) > d + 1 then
        var e := DigitEnd(s, d + 1);
        Some((start, DecimalValue(s[d + 1..e]), e))
      else Some((start, 1, d))
  }

  /** `^@@\s+-a[,b]\s+\+c[,d]\s+@@` at p: the numbers and where the header ends. */
  function HeaderAt(s: string, p: nat): (r: Option<(Header, nat)>)
    ensures r.Some? ==> p < r.value.1 <= |s|
    ensures r.Some? ==> LineStart(s, p) && OccursAt(s, HUNK_MARK, p)
  {
    if !(p <= |s| && LineStart(s, p) && OccursAt(s, HUNK_MARK, p)) then None
    else OldRangeAt(s, p + 2)
  }

  /** `\s+-a[,b]` from i, then the rest of the header. */
  function OldRangeAt(s: string, i: nat): (r: Option<(Header, nat)>)
    requires i <= |s|
    ensures r.Some? ==> i < r.value.1 <= |s|
  {
    var a := SpaceEnd(s, i);
    if a == i || a == |s| || s[a] != '-' then None
    else match RangeAt(s, a + 1)
      case None => None
      case Some((oldStart, oldLines, b)) => NewRangeAt(s, b, oldStart, oldLines)
  }

  /** `\s+\+c[,d]` from b, then the closing mark. */
  function NewRangeAt(s: string, b: nat, oldStart: nat, oldLines: nat): (r: Option<(Header, nat)>)
    requires b <= |s|
    ensures r.Some? ==> b < r.value.1 <= |s|
  {
    var c := SpaceEnd(s, b);
    if c == b || c == |s| || s[c] != '+' then None
    else match RangeAt(s, c + 1)
      case None => None
      case Some((newStart, newLines, d)) => CloseAt(s, d, Header(oldStart, oldLines, newStart, newLines))
  }

  /** `\s+@@` from d: the header is complete. */
  function CloseAt(s: string, d: nat, h: Header): (r: Option<(Header, nat)>)
    requires d <= |s|
    ensures r.Some? ==> d < r.value.1 <= |s| && r.value.0 == h
  {
    var e := SpaceEnd(s, d);
    if e == d || !OccursAt(s, HUNK_MARK, e) then None else Some((h, e + 2))
  }

  /** hunkRegex.exec with lastIndex `from`: the first header at or after `from`, as (start, numbers, end). */
  function ExecHeader(s: string, from: nat): (r: Option<(nat, Header, nat)>)
    ensures r.Some? ==> from <= r.value.0 < r.value.2 <= |s|
    ensures r.Some? ==> HeaderAt(s, r.value.0) == Some((r.value.1, r.value.2))
  {
    match FirstFound((q: nat) => HeaderAt(s, q), from, |s|)
    case None => None
    case Some((p, m)) => Some((p, m.0, m.1))
  }

  /** Where the body that starts at e ends: the next header's start, or the end of the patch. */
  function NextStart(s: string, e: nat): (r: nat)
    requires e <= |s|
    ensures e <= r <= |s|
  {
    match ExecHeader(s, e)
    case Some(next) => next.0
    case None => |s|
  }

  predicate Kept(line: string)
  {
    StartsWithChar(line, '+') || StartsWithChar(line, '-') || StartsWithChar(line, ' ')
  }

  /** A hunk's body text split at '\n', keeping the lines that start with '+', '-' or ' '. */
  function BodyLines(content: string): seq<string>
  {
    Filter(Split(content, '\n'), Kept)
  }

  /** Splitting and filtering go line by line: each line is kept exactly when Kept holds. */
  lemma BodyLinesCons(line: string, more: string)
    requires '\n' !in line
    ensures BodyLines(line + "\n" + more) == (if Kept(line) then [line] else []) + BodyLines(more)
  {
    SplitConcat(line, more, '\n');
    FilterCons(line, Split(more, '\n'), Kept);
  }

  /** The hunks parseHunks reads from `from` on: one per header, each with the body up to the next header. */
  function HunksFrom(s: string, from: nat): seq<DiffHunk>
    decreases |s| - from
  {
    match ExecHeader(s, from)
    case None => []
    case Some((p, h, e)) =>
      var endIdx := NextStart(s, e);
      [DiffHunk(h.oldStart, h.oldLines, h.newStart, h.newLines, BodyLines(s[e..endIdx]))] + HunksFrom(s, endIdx)
  }

  /** One hunk taken off the front of HunksFrom. */
  lemma HunksStep(s: string, from: nat, p: nat, h: Header, e: nat)
    requires ExecHeader(s, from) == Some((p, h, e))
    ensures e <= NextStart(s, e) <= |s|
    ensures HunksFrom(s, from) ==
      [DiffHunk(h.oldStart, h.oldLines, h.newStart, h.newLines, BodyLines(s[e..NextStart(s, e)]))]
        + HunksFrom(s, NextStart(s, e))
  {
  }

  /** ExecHeader finds the leftmost header at or after `from`, or reports that there is none. */
  lemma ExecHeaderIsFirst(s: string, from: nat)
    ensures match ExecHeader(s, from)
      case Some((p, h, e)) =>
        && HeaderAt(s, p) == Some((h, e))
        && forall q :: from <= q < p ==> HeaderAt(s, q).None?
      case None => forall q :: from <= q ==> HeaderAt(s, q).None?
  {
    var f := (q: nat) => HeaderAt(s, q);
    FirstFoundIsFirst(f, from, |s|);
    assert forall q :: from <= q < |s| ==> f(q) == HeaderAt(s, q);
  }

  /** Searching again from where a header was found finds that same header. */
  lemma ExecHeaderAgain(s: string, from: nat)
    requires ExecHeader(s, from).Some?
    ensures ExecHeader(s, ExecHeader(s, from).value.0) == ExecHeader(s, from)
  {
    FirstFoundAgain((q: nat) => HeaderAt(s, q), from, |s|);
  }

  /** Moving lastIndex back to the next header's start finds that header next. */
  lemma ExecAtNextStart(s: string, e: nat)
    requires e <= |s|
    ensures ExecHeader(s, NextStart(s, e)) == ExecHeader(s, e)
  {
    if ExecHeader(s, e).Some? {
      ExecHeaderAgain(s, e);
    }
  }

  /** The successive matches of the global regex from `from` on, each search starting where the last match ended. */
  function Matches(s: string, from: nat): (r: seq<(nat, Header, nat)>)
    ensures forall i :: 0 <= i < |r| ==> from <= r[i].0 < r[i].2 <= |s|
    decreases |s| - from
  {
    match ExecHeader(s, from)
    case None => []
    case Some(m) => [m] + Matches(s, m.2)
  }

  /** The hunk made from one match: its numbers and the body up to the next header. */
  function HunkOf(s: string, m: (nat, Header, nat)): DiffHunk
    requires m.2 <= |s|
  {
    DiffHunk(m.1.oldStart, m.1.oldLines, m.1.newStart, m.1.newLines, BodyLines(s[m.2..NextStart(s, m.2)]))
  }

  /** HunksFrom depends only on what the search from its start finds. */
  lemma HunksFromSameSearch(s: string, f: nat, g: nat)
    requires ExecHeader(s, f) == ExecHeader(s, g)
    ensures HunksFrom(s, f) == HunksFrom(s, g)
  {
  }

  /** The hunks are the matches, one hunk per header match, in order. */
  lemma {:induction false} HunksAreMatches(s: string, from: nat)
    ensures |HunksFrom(s, from)| == |Matches(s, from)|
    ensures forall i :: 0 <= i < |Matches(s, from)| ==> HunksFrom(s, from)[i] == HunkOf(s, Matches(s, from)[i])
    decreases |s| - from
  {
    match ExecHeader(s, from)
    case None =>
    case Some(m) =>
      var n := NextStart(s, m.2);
      ExecAtNextStart(s, m.2);
      HunksFromSameSearch(s, n, m.2);
      HunksStep(s, from, m.0, m.1, m.2);
      HunksAreMatches(s, m.2);
      var ms, hs := Matches(s, from), HunksFrom(s, from);
      assert ms == [m] + Matches(s, m.2);
      assert hs == [HunkOf(s, m)] + HunksFrom(s, m.2);
      forall i | 0 <= i < |ms|
        ensures hs[i] == HunkOf(s, ms[i])
      {
        if i > 0 {
          assert ms[i] == Matches(s, m.2)[i - 1] && hs[i] == HunksFrom(s, m.2)[i - 1];
        }
      }
  }

  /** Each match is what the search from the end of the previous one (or from `from`) finds; after the last, nothing. */
  lemma {:induction false} MatchesChain(s: string, from: nat)
    ensures var ms := Matches(s, from);
      && (ms == [] <==> ExecHeader(s, from).None?)
      && (ms != [] ==> ExecHeader(s, from) == Some(ms[0]) && ExecHeader(s, ms[|ms| - 1].2).None?)
      && (forall i :: 0 <= i < |ms| - 1 ==> ExecHeader(s, ms[i].2) == Some(ms[i + 1]))
    decreases |s| - from
  {
    match ExecHeader(s, from)
    case None =>
    case Some(m) =>
      var ms := Matches(s, from);
      var rest := Matches(s, m.2);
      assert ms == [m] + rest;
      MatchesChain(s, m.2);
      forall i | 0 <= i < |ms| - 1
        ensures ExecHeader(s, ms[i].2) == Some(ms[i + 1])
      {
        if i > 0 {
          assert ms[i] == rest[i - 1] && ms[i + 1] == rest[i];
        }
      }
  }

  /** Where the search for match i starts: `from` for the first, the end of match i - 1 after. */
  function SearchStart(ms: seq<(nat, Header, nat)>, from: nat, i: nat): nat
    requires i <= |ms|
  {
    if i == 0 then from else ms[i - 1].2
  }

  /** Each match is a header, and no header starts between the previous match's end and it, nor after the last. */
  lemma MatchesAreHeaders(s: string, from: nat)
    ensures var ms := Matches(s, from);
      && (forall i :: 0 <= i < |ms| ==> HeaderAt(s, ms[i].0) == Some((ms[i].1, ms[i].2)))
      && (forall i, q :: 0 <= i < |ms| && SearchStart(ms, from, i) <= q < ms[i].0 ==> HeaderAt(s, q).None?)
      && (forall q :: SearchStart(ms, from, |ms|) <= q ==> HeaderAt(s, q).None?)
  {
    var ms := Matches(s, from);
    forall i | 0 <= i < |ms|
      ensures HeaderAt(s, ms[i].0) == Some((ms[i].1, ms[i].2))
      ensures forall q :: SearchStart(ms, from, i) <= q < ms[i].0 ==> HeaderAt(s, q).None?
    {
      MatchIsFirstFrom(s, from, i);
    }
    MatchesChain(s, from);
    ExecHeaderIsFirst(s, SearchStart(ms, from, |ms|));
  }

  /** Match i is the first header from where its search starts. */
  lemma MatchIsFirstFrom(s: string, from: nat, i: nat)
    requires i < |Matches(s, from)|
    ensures var ms := Matches(s, from);
      && HeaderAt(s, ms[i].0) == Some((ms[i].1, ms[i].2))
      && forall q :: SearchStart(ms, from, i) <= q < ms[i].0 ==> HeaderAt(s, q).None?
  {
    var ms := Matches(s, from);
    var start := SearchStart(ms, from, i);
    MatchesChain(s, from);
    assert ExecHeader(s, start) == Some(ms[i]);
    ExecHeaderIsFirst(s, start);
  }

  /** Each hunk body stops where the next match starts, the last one at the end of the patch. */
  lemma MatchBodiesEnd(s: string, from: nat)
    ensures var ms := Matches(s, from);
      && (forall i :: 0 <= i < |ms| - 1 ==> NextStart(s, ms[i].2) == ms[i + 1].0)
      && (ms != [] ==> NextStart(s, ms[|ms| - 1].2) == |s|)
  {
    var ms := Matches(s, from);
    MatchesChain(s, from);
    forall i | 0 <= i < |ms| - 1
      ensures NextStart(s, ms[i].2) == ms[i + 1].0
    {
      NextStartOfSome(s, ms[i].2, ms[i + 1]);
    }
    if ms != [] {
      NextStartOfNone(s, ms[|ms| - 1].2);
    }
  }

  lemma NextStartOfSome(s: string, e: nat, n: (nat, Header, nat))
    requires e <= |s| && ExecHeader(s, e) == Some(n)
    ensures NextStart(s, e) == n.0
  {
  }

  lemma NextStartOfNone(s: string, e: nat)
    requires e <= |s| && ExecHeader(s, e).None?
    ensures NextStart(s, e) == |s|
  {
  }

  /** parseHunks: the global regex loop, its lastIndex moved back to each next header. */
  method ParseHunks(patch: string) returns (hunks: seq<DiffHunk>)
    ensures hunks == HunksFrom(patch, 0)
  {
    hunks := [];
    var lastIndex: nat := 0;
    var m := ExecHeader(patch, lastIndex);
    while m.Some?
      invariant lastIndex <= |patch|
      invariant m == ExecHeader(patch, lastIndex)
      invariant hunks + HunksFrom(patch, lastIndex) == HunksFrom(patch, 0)
      decreases |patch| - lastIndex
    {
      var p, h, startIdx := m.value.0, m.value.1, m.value.2;
      HunksStep(patch, lastIndex, p, h, startIdx);
      var nextMatch := ExecHeader(patch, startIdx);
      var endIdx := if nextMatch.Some? then nextMatch.value.0 else |patch|;
      assert endIdx == NextStart(patch, startIdx);
      var content := patch[startIdx..endIdx];
      var lines := BodyLines(content);
      var hunk := DiffHunk(h.oldStart, h.oldLines, h.newStart, h.newLines, lines);
      ghost var rest := HunksFrom(patch, endIdx);
      assert HunksFrom(patch, lastIndex) == [hunk] + rest;
      AppendOne(hunks, hunk, rest, HunksFrom(patch, 0));
      hunks := hunks + [hunk];
      lastIndex := endIdx;
      m := ExecHeader(patch, lastIndex);
    }
  }

  // ---- hunks as unified-diff text -------------------------------------------

  /**
   * A hunk range as section 2.2.2.2 of the GNU diffutils manual writes it:
   * `start,count`, or the start alone when the hunk spans one line.
   */
  function RangeText(start: nat, count: nat): string
  {
    if count == 1 then NatToString(start) else NatToString(start) + "," + NatToString(count)
  }

  /** A hunk header line as the diff engine writes it, one space between the parts. */
  function HeaderText(h: Header): string
  {
    HUNK_MARK + " -" + RangeText(h.oldStart, h.oldLines) + " +" + RangeText(h.newStart, h.newLines) + " " + HUNK_MARK
  }

  /** `start,count` found by position: digits, a comma, digits, then a non-digit. */
  lemma RangeAtParts(s: string, i: nat, d: nat, e: nat)
    requires i < d && d + 1 < e <= |s|
    requires AllDigits(s[i..d]) && s[d] == ',' && AllDigits(s[d + 1..e])
    requires e == |s| || !IsDigit(s[e])
    ensures RangeAt(s, i) == Some((DecimalValue(s[i..d]), DecimalValue(s[d + 1..e]), e))
  {
    forall k | i <= k < d
      ensures IsDigit(s[k])
    {
      assert s[k] == s[i..d][k - i];
    }
    forall k | d + 1 <= k < e
      ensures IsDigit(s[k])
    {
      assert s[k] == s[d + 1..e][k - d - 1];
    }
    DigitEndAt(s, i, d);
    DigitEndAt(s, d + 1, e);
  }

  /** A range written as the start alone reads back with count 1. */
  lemma RangeAtSingle(pre: string, a: string, rest: string)
    requires a != [] && AllDigits(a)
    requires rest != [] && RegexSpace(rest[0])
    ensures var s := pre + a + rest;
      var d: nat := |pre| + |a|;
      && d <= |s| && s[|pre|..d] == a
      && RangeAt(s, |pre|) == Some((DecimalValue(s[|pre|..d]), 1, d))
  {
    var s := pre + a + rest;
    var d := |pre| + |a|;
    DigitsPlaced(pre, a, rest);
    assert s[d] == rest[0];
  }

  /** A range written as `start,count` reads back as both numbers. */
  lemma RangeAtPair(pre: string, a: string, c: string, rest: string)
    requires a != [] && AllDigits(a) && c != [] && AllDigits(c)
    requires rest != [] && RegexSpace(rest[0])
    ensures var s := pre + a + "," + c + rest;
      var i, d := |pre|, |pre| + |a|;
      var e: nat := d + 1 + |c|;
      && e <= |s| && s[i..d] == a && s[d + 1..e] == c
      && RangeAt(s, i) == Some((DecimalValue(s[i..d]), DecimalValue(s[d + 1..e]), e))
  {
    var s := pre + a + "," + c + rest;
    var i, d := |pre|, |pre| + |a|;
    var e := d + 1 + |c|;
    assert s[i..d] == a;
    assert s[d + 1..e] == c;
    assert s[d] == ',';
    assert s[e] == rest[0];
    RangeAtParts(s, i, d, e);
  }

  /** Regrouping a text written in five parts. */
  lemma Regroup<T>(pre: seq<T>, a: seq<T>, x: seq<T>, c: seq<T>, rest: seq<T>)
    ensures pre + (a + x + c) + rest == pre + a + x + c + rest
  {
  }

  /** A written range is read back, its count defaulting to 1 when left out. */
  lemma RangeAtText(pre: string, start: nat, count: nat, rest: string)
    requires rest != [] && RegexSpace(rest[0])
    ensures RangeAt(pre + RangeText(start, count) + rest, |pre|) == Some((start, count, |pre| + |RangeText(start, count)|))
  {
    var a := NatToString(start);
    DecimalValueNatToString(start);
    if count == 1 {
      RangeAtSingle(pre, a, rest);
    } else {
      RangeAtTextPair(pre, start, count, rest);
    }
  }

  lemma RangeAtTextPair(pre: string, start: nat, count: nat, rest: string)
    requires rest != [] && RegexSpace(rest[0]) && count != 1
    ensures RangeAt(pre + RangeText(start, count) + rest, |pre|) == Some((start, count, |pre| + |RangeText(start, count)|))
  {
    var a, c := NatToString(start), NatToString(count);
    DecimalValueNatToString(start);
    DecimalValueNatToString(count);
    assert RangeText(start, count) == a + "," + c;
    Regroup(pre, a, ",", c, rest);
    RangeAtPair(pre, a, c, rest);
    SameRange(RangeAt(pre + RangeText(start, count) + rest, |pre|), (start, count, |pre| + |RangeText(start, count)|));
  }

  /** A range read whose three numbers are those of t is t. */
  lemma SameRange(r: Option<(nat, nat, nat)>, t: (nat, nat, nat))
    requires r.Some? && r.value.0 == t.0 && r.value.1 == t.1 && r.value.2 == t.2
    ensures r == Some(t)
  {
  }

  /** A written range read where it lies inside other text. */
  lemma RangeAtTextIn(s: string, i: nat, start: nat, count: nat)
    requires OccursAt(s, RangeText(start, count), i)
    requires i + |RangeText(start, count)| < |s| && RegexSpace(s[i + |RangeText(start, count)|])
    ensures RangeAt(s, i) == Some((start, count, i + |RangeText(start, count)|))
  {
    var j := i + |RangeText(start, count)|;
    assert s == s[..i] + RangeText(start, count) + s[j..];
    RangeAtText(s[..i], start, count, s[j..]);
  }

  /** RangeAtTextIn, with the end of the range named by the caller. */
  lemma RangeEndsAt(s: string, i: nat, start: nat, count: nat, e: nat)
    requires OccursAt(s, RangeText(start, count), i) && e == i + |RangeText(start, count)|
    requires e < |s| && RegexSpace(s[e])
    ensures RangeAt(s, i) == Some((start, count, e))
  {
    RangeAtTextIn(s, i, start, count);
  }

  /** The pieces of a header line, by position. */
  lemma HeaderTextPieces(h: Header)
    ensures var t := HeaderText(h);
      var r1, r2 := RangeText(h.oldStart, h.oldLines), RangeText(h.newStart, h.newLines);
      var b := 4 + |r1|;
      var d := b + 2 + |r2|;
      && |t| == d + 3
      && t[..2] == HUNK_MARK && t[2] == ' ' && t[3] == '-'
      && t[4..b] == r1 && t[b] == ' ' && t[b + 1] == '+'
      && t[b + 2..d] == r2 && t[d] == ' ' && t[d + 1..d + 3] == HUNK_MARK && t[d + 1] == '@'
  {
  }

  /** The closing `\s+@@` found by position. */
  lemma CloseAtParts(s: string, d: nat, e: nat, h: Header)
    requires d < e <= |s| && SpaceEnd(s, d) == e && OccursAt(s, HUNK_MARK, e)
    ensures CloseAt(s, d, h) == Some((h, e + 2))
  {
  }

  /** The new range and what follows, found by position. */
  lemma NewRangeAtParts(s: string, b: nat, c: nat, d: nat, x: Header, r: Option<(Header, nat)>)
    requires b < c < |s| && SpaceEnd(s, b) == c && s[c] == '+'
    requires RangeAt(s, c + 1) == Some((x.newStart, x.newLines, d))
    requires CloseAt(s, d, x) == r
    ensures NewRangeAt(s, b, x.oldStart, x.oldLines) == r
  {
  }

  /** The old range and what follows, found by position. */
  lemma OldRangeAtParts(s: string, i: nat, a: nat, b: nat, x: Header, r: Option<(Header, nat)>)
    requires i < a < |s| && SpaceEnd(s, i) == a && s[a] == '-'
    requires RangeAt(s, a + 1) == Some((x.oldStart, x.oldLines, b))
    requires NewRangeAt(s, b, x.oldStart, x.oldLines) == r
    ensures OldRangeAt(s, i) == r
  {
    var m := RangeAt(s, a + 1).value;
    assert m == (x.oldStart, x.oldLines, b);
    assert OldRangeAt(s, i) == NewRangeAt(s, m.2, m.0, m.1);
  }

  /** A header line read where it lies in the patch. */
  lemma HeaderAtIn(s: string, p: nat, h: Header)
    requires OccursAt(s, HeaderText(h), p) && LineStart(s, p)
    ensures HeaderAt(s, p) == Some((h, p + |HeaderText(h)|))
  {
    var b, d := HeaderScanned(s, p, h);
    var e := d + 3;
    HeaderAtFound(s, p, b, d, h, e);
    SameResult(HeaderAt(s, p), (h, p + |HeaderText(h)|), e);
  }

  /** A header read with the end `e` is the one with any equal end. */
  lemma SameResult(r: Option<(Header, nat)>, t: (Header, nat), e: nat)
    requires r == Some((t.0, e)) && e == t.1
    ensures r == Some(t)
  {
  }

  /** What the scanning functions find at each part of a written header. */
  lemma HeaderScanned(s: string, p: nat, h: Header) returns (b: nat, d: nat)
    requires OccursAt(s, HeaderText(h), p)
    ensures
      && p + |HeaderText(h)| == d + 3 <= |s| && p + 4 < b && b + 2 < d
      && OccursAt(s, HUNK_MARK, p) && SpaceEnd(s, p + 2) == p + 3 && s[p + 3] == '-'
      && RangeAt(s, p + 4) == Some((h.oldStart, h.oldLines, b))
      && SpaceEnd(s, b) == b + 1 && s[b + 1] == '+'
      && RangeAt(s, b + 2) == Some((h.newStart, h.newLines, d))
      && SpaceEnd(s, d) == d + 1 && OccursAt(s, HUNK_MARK, d + 1)
  {
    b := OldRangeScanned(s, p, h);
    d := NewRangeScanned(s, p, h);
  }

  lemma OldRangeScanned(s: string, p: nat, h: Header) returns (b: nat)
    requires OccursAt(s, HeaderText(h), p)
    ensures b == p + 4 + |RangeText(h.oldStart, h.oldLines)| && b + 2 <= |s|
    ensures OccursAt(s, HUNK_MARK, p) && SpaceEnd(s, p + 2) == p + 3 && s[p + 3] == '-'
    ensures RangeAt(s, p + 4) == Some((h.oldStart, h.oldLines, b))
    ensures SpaceEnd(s, b) == b + 1 && s[b + 1] == '+'
  {
    b := p + 4 + |RangeText(h.oldStart, h.oldLines)|;
    HeaderLaidOut(s, p, h);
    SpaceEndOne(s, p + 2, '-');
    SpaceEndOne(s, b, '+');
    RangeEndsAt(s, p + 4, h.oldStart, h.oldLines, b);
  }

  lemma NewRangeScanned(s: string, p: nat, h: Header) returns (d: nat)
    requires OccursAt(s, HeaderText(h), p)
    ensures var b := p + 4 + |RangeText(h.oldStart, h.oldLines)|;
      && d == b + 2 + |RangeText(h.newStart, h.newLines)| && p + |HeaderText(h)| == d + 3 <= |s|
      && RangeAt(s, b + 2) == Some((h.newStart, h.newLines, d))
      && SpaceEnd(s, d) == d + 1 && OccursAt(s, HUNK_MARK, d + 1)
  {
    var b := p + 4 + |RangeText(h.oldStart, h.oldLines)|;
    d := b + 2 + |RangeText(h.newStart, h.newLines)|;
    HeaderLaidOut(s, p, h);
    SpaceEndOne(s, d, '@');
    RangeAtTextIn(s, b + 2, h.newStart, h.newLines);
  }

  /** Where each part of a written header lies. */
  lemma HeaderLaidOut(s: string, p: nat, h: Header)
    requires OccursAt(s, HeaderText(h), p)
    ensures var r1, r2 := RangeText(h.oldStart, h.oldLines), RangeText(h.newStart, h.newLines);
      var b := p + 4 + |r1|;
      var d := b + 2 + |r2|;
      && p + |HeaderText(h)| == d + 3 <= |s|
      && OccursAt(s, HUNK_MARK, p) && s[p + 2] == ' ' && s[p + 3] == '-'
      && OccursAt(s, r1, p + 4) && s[b] == ' ' && s[b + 1] == '+'
      && OccursAt(s, r2, b + 2) && s[d] == ' ' && OccursAt(s, HUNK_MARK, d + 1) && s[d + 1] == '@'
  {
    var t := HeaderText(h);
    var r1, r2 := RangeText(h.oldStart, h.oldLines), RangeText(h.newStart, h.newLines);
    var b := 4 + |r1|;
    var d := b + 2 + |r2|;
    HeaderTextPieces(h);
    HeaderPieceAt(s, p, t, 0, 2);
    HeaderPieceAt(s, p, t, 4, b);
    HeaderPieceAt(s, p, t, b + 2, d);
    HeaderPieceAt(s, p, t, d + 1, d + 3);
    HeaderCharAt(s, p, t, 2);
    HeaderCharAt(s, p, t, 3);
    HeaderCharAt(s, p, t, b);
    HeaderCharAt(s, p, t, b + 1);
    HeaderCharAt(s, p, t, d);
    HeaderCharAt(s, p, t, d + 1);
  }

  /** The header's parts found in place, one space before each. */
  lemma HeaderAtFound(s: string, p: nat, b: nat, d: nat, x: Header, e: nat)
    requires LineStart(s, p) && OccursAt(s, HUNK_MARK, p)
    requires p + 4 <= |s| && SpaceEnd(s, p + 2) == p + 3 && s[p + 3] == '-'
    requires RangeAt(s, p + 4) == Some((x.oldStart, x.oldLines, b))
    requires b + 2 <= |s| && SpaceEnd(s, b) == b + 1 && s[b + 1] == '+'
    requires RangeAt(s, b + 2) == Some((x.newStart, x.newLines, d))
    requires d + 1 <= |s| && SpaceEnd(s, d) == d + 1 && OccursAt(s, HUNK_MARK, d + 1)
    requires e == d + 3
    ensures HeaderAt(s, p) == Some((x, e))
  {
    CloseAtParts(s, d, d + 1, x);
    NewRangeAtParts(s, b, b + 1, d, x, Some((x, d + 3)));
    OldRangeAtParts(s, p + 2, p + 3, b, x, Some((x, d + 3)));
  }

  lemma HeaderCharAt(s: string, p: nat, t: string, i: nat)
    requires OccursAt(s, t, p) && i < |t|
    ensures s[p + i] == t[i]
  {
    assert s[p + i] == s[p..p + |t|][i];
  }

  lemma HeaderPieceAt(s: string, p: nat, t: string, i: nat, j: nat)
    requires OccursAt(s, t, p) && i <= j <= |t|
    ensures s[p + i..p + j] == t[i..j]
  {
    forall k | 0 <= k < j - i
      ensures s[p + i..p + j][k] == t[i..j][k]
    {
      assert s[p + i + k] == s[p..p + |t|][i + k];
    }
  }

  // ---- getDiff -------------------------------------------------------------

  /** `hunks.reduce((sum, h) => sum + h.lines.filter((l) => l.startsWith(c)).length, 0)`. */
  function ReduceCount(hunks: seq<DiffHunk>, c: char, sum: nat): nat
  {
    if hunks == [] then sum
    else ReduceCount(hunks[1..], c, sum + |Filter(hunks[0].lines, (l: string) => StartsWithChar(l, c))|)
  }

  /** The reduce counts the same lines as the desktop's counting loop. */
  lemma {:induction false} ReduceCountIsTotal(hunks: seq<DiffHunk>, c: char, sum: nat)
    ensures ReduceCount(hunks, c, sum) == sum + TotalStarting(hunks, c)
    decreases |hunks|
  {
    if hunks != [] {
      CountIsFilterLength(hunks[0].lines, c);
      ReduceCountIsTotal(hunks[1..], c, sum + CountStarting(hunks[0].lines, c));
      TotalStartingCons(hunks, c);
    }
  }

  /** TotalStarting taken from the front. */
  lemma {:induction false} TotalStartingCons(hunks: seq<DiffHunk>, c: char)
    requires hunks != []
    ensures TotalStarting(hunks, c) == CountStarting(hunks[0].lines, c) + TotalStarting(hunks[1..], c)
    decreases |hunks|
  {
    if |hunks| > 1 {
      var init := hunks[..|hunks| - 1];
      TotalStartingCons(init, c);
      assert init[0] == hunks[0] && init[1..] == hunks[1..][..|hunks[1..]| - 1];
    } else {
      assert hunks[..|hunks| - 1] == [] && hunks[1..] == [];
    }
  }

  /**
   * getDiff: both revisions are read with the '' fallback, the patch engine
   * renders a unified diff, and its hunks are parsed and counted.
   */
  method GetDiff(relativePath: string, blob1: Option<string>, blob2: Option<string>,
                 createPatch: (string, string, string) -> string) returns (diff: GitDiff)
    ensures var hunks := HunksFrom(createPatch(relativePath, ContentOrEmpty(blob1), ContentOrEmpty(blob2)), 0);
      diff == GitDiff(TotalStarting(hunks, '+'), TotalStarting(hunks, '-'), hunks)
  {
    var content1 := ContentOrEmpty(blob1);
    var content2 := ContentOrEmpty(blob2);
    var patch := createPatch(relativePath, content1, content2);
    var hunks := ParseHunks(patch);
    var additions := ReduceCount(hunks, '+', 0);
    var deletions := ReduceCount(hunks, '-', 0);
    ReduceCountIsTotal(hunks, '+', 0);
    ReduceCountIsTotal(hunks, '-', 0);
    diff := GitDiff(additions, deletions, hunks);
  }
}
