// The git records both apps exchange with their user interfaces: a row of
// isomorphic-git's status matrix, the classified status, and a diff as hunks.
module GitModels {
  import opened Wrappers
  import opened Strings

  /** One status-matrix row: HEAD, working-directory and stage status codes. */
  datatype StatusRow = StatusRow(filepath: string, head: int, workdir: int, stage: int)

  datatype GitStatus = GitStatus(
    branch: string,
    staged: seq<string>,
    unstaged: seq<string>,
    untracked: seq<string>)

  datatype DiffHunk = DiffHunk(
    oldStart: nat,
    oldLines: nat,
    newStart: nat,
    newLines: nat,
    lines: seq<string>)

  datatype GitDiff = GitDiff(additions: nat, deletions: nat, hunks: seq<DiffHunk>)

  /** Where a path is listed in a GitStatus. */
  datatype Kind = Untracked | Staged | Unstaged | Omitted

  const DEFAULT_BRANCH: string := "main"

  /**
   * The branch reported: the current branch when one is named, 'main' when
   * the lookup fails (None) or yields nothing (`|| 'main'`).
   */
  function BranchOrMain(current: Option<string>): (r: string)
    ensures r != []
    ensures current.Some? && current.value != [] ==> r == current.value
    ensures current.None? || current.value == [] ==> r == DEFAULT_BRANCH
  {
    if current.Some? && current.value != [] then current.value else DEFAULT_BRANCH
  }

  /**
   * A revision's text as both apps read it for a diff: the blob's text, or ''
   * when it cannot be read (desktop getFileContentSafe, mobile getFileContent).
   */
  function ContentOrEmpty(blob: Option<string>): (r: string)
    ensures blob.None? ==> r == []
    ensures blob.Some? ==> r == blob.value
  {
    if blob.Some? then blob.value else []
  }

  predicate StartsWithChar(line: string, c: char)
  {
    |line| > 0 && line[0] == c
  }

  /** How many lines start with c. */
  function CountStarting(lines: seq<string>, c: char): (n: nat)
    ensures n <= |lines|
  {
    if lines == [] then 0
    else CountStarting(lines[..|lines| - 1], c) + (if StartsWithChar(lines[|lines| - 1], c) then 1 else 0)
  }

  /** How many lines start with c, over every hunk. */
  function TotalStarting(hunks: seq<DiffHunk>, c: char): nat
  {
    if hunks == [] then 0
    else TotalStarting(hunks[..|hunks| - 1], c) + CountStarting(hunks[|hunks| - 1].lines, c)
  }

  function TotalLines(hunks: seq<DiffHunk>): nat
  {
    if hunks == [] then 0 else TotalLines(hunks[..|hunks| - 1]) + |hunks[|hunks| - 1].lines|
  }

  /** CountStarting is the length of the filter keeping the lines that start with c. */
  lemma {:induction false} CountIsFilterLength(lines: seq<string>, c: char)
    ensures CountStarting(lines, c) == |Filter(lines, (l: string) => StartsWithChar(l, c))|
  {
    if lines != [] {
      CountIsFilterLength(lines[..|lines| - 1], c);
    }
  }

  /** No line starts with two different characters, so the two counts fit in the lines. */
  lemma {:induction false} CountsDisjoint(lines: seq<string>, a: char, b: char)
    requires a != b
    ensures CountStarting(lines, a) + CountStarting(lines, b) <= |lines|
  {
    if lines != [] {
      CountsDisjoint(lines[..|lines| - 1], a, b);
    }
  }

  /** Additions and deletions together never exceed the lines of the diff. */
  lemma {:induction false} TotalsDisjoint(hunks: seq<DiffHunk>, a: char, b: char)
    requires a != b
    ensures TotalStarting(hunks, a) + TotalStarting(hunks, b) <= TotalLines(hunks)
  {
    if hunks != [] {
      TotalsDisjoint(hunks[..|hunks| - 1], a, b);
      CountsDisjoint(hunks[|hunks| - 1].lines, a, b);
    }
  }

  // ---- status lists --------------------------------------------------------

  /** The paths of the rows, in matrix order, that `kind` puts under k: getStatus's push loop. */
  function Listed(rows: seq<StatusRow>, kind: StatusRow -> Kind, k: Kind): seq<string>
  {
    if rows == [] then []
    else
      var row := rows[|rows| - 1];
      Listed(rows[..|rows| - 1], kind, k) + (if kind(row) == k then [row.filepath] else [])
  }

  function Paths(rows: seq<StatusRow>): (r: seq<string>)
    ensures |r| == |rows| && forall i :: 0 <= i < |rows| ==> r[i] == rows[i].filepath
  {
    seq(|rows|, i requires 0 <= i < |rows| => rows[i].filepath)
  }

  /** A path is listed under k exactly when some row for it has kind k. */
  lemma {:induction false} ListedMembers(rows: seq<StatusRow>, kind: StatusRow -> Kind, k: Kind, x: string)
    ensures x in Listed(rows, kind, k) <==>
      exists i :: 0 <= i < |rows| && rows[i].filepath == x && kind(rows[i]) == k
  {
    if rows != [] {
      var init := rows[..|rows| - 1];
      ListedMembers(init, kind, k, x);
      assert forall i :: 0 <= i < |init| ==> init[i] == rows[i];
    }
  }

  /** With one row per path, no path is listed under two kinds. */
  lemma ListedDisjoint(rows: seq<StatusRow>, kind: StatusRow -> Kind, k1: Kind, k2: Kind, x: string)
    requires forall i, j :: 0 <= i < j < |rows| ==> rows[i].filepath != rows[j].filepath
    requires k1 != k2
    ensures !(x in Listed(rows, kind, k1) && x in Listed(rows, kind, k2))
  {
    ListedMembers(rows, kind, k1, x);
    ListedMembers(rows, kind, k2, x);
  }

  /** Each list keeps the matrix order. */
  lemma {:induction false} ListedInMatrixOrder(rows: seq<StatusRow>, kind: StatusRow -> Kind, k: Kind)
    ensures Subsequence(Listed(rows, kind, k), Paths(rows))
  {
    if rows != [] {
      var init := rows[..|rows| - 1];
      var row := rows[|rows| - 1];
      ListedInMatrixOrder(init, kind, k);
      var p := Paths(rows);
      assert p[..|p| - 1] == Paths(init);
      var l := Listed(init, kind, k);
      assert p[|p| - 1] == row.filepath;
      if kind(row) == k {
        var l' := l + [row.filepath];
        assert Listed(rows, kind, k) == l';
        assert l'[..|l'| - 1] == l && l'[|l'| - 1] == p[|p| - 1];
      } else {
        assert Listed(rows, kind, k) == l;
        SubsequenceDropLast(l, p);
      }
    }
  }

  lemma SubsequenceDropLast(a: seq<string>, b: seq<string>)
    requires b != [] && Subsequence(a, b[..|b| - 1])
    ensures Subsequence(a, b)
  {
  }

  /** The three lists together hold one entry per row that is not omitted. */
  lemma {:induction false} ListedCount(rows: seq<StatusRow>, kind: StatusRow -> Kind)
    ensures |Listed(rows, kind, Staged)| + |Listed(rows, kind, Unstaged)| + |Listed(rows, kind, Untracked)|
      == |rows| - |Listed(rows, kind, Omitted)|
  {
    if rows != [] {
      ListedCount(rows[..|rows| - 1], kind);
    }
  }
}
