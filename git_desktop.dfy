// The desktop git service: status classification, diff counting, the staging
// done before a commit and the front-matter timestamp saveVersion rewrites.
// isomorphic-git, the diff library and the file system are outside the model:
// their answers arrive as parameters and the git calls made are returned.
module GitDesktop {
  import opened Wrappers
  import opened Strings
  import opened GitModels

  // ---- getStatus ---------------------------------------------------------

  const AI_NOTE_DIR: string := ".ai-note"

  predicate Skipped(row: StatusRow)
  {
    StartsWith(row.filepath, AI_NOTE_DIR)
  }

  /** The status-matrix triples the desktop lists, and where. */
  function Classify(row: StatusRow): (k: Kind)
    ensures k == Untracked <==> (row.head, row.workdir, row.stage) == (0, 2, 0)
    ensures k == Staged <==> (row.head, row.workdir, row.stage) in {(0, 2, 2), (1, 2, 2), (1, 0, 0)}
    ensures k == Unstaged <==> (row.head, row.workdir, row.stage) in {(1, 2, 1), (1, 0, 1)}
  {
    if row.head == 0 && row.workdir == 2 && row.stage == 0 then Untracked
    else if row.head == 0 && row.workdir == 2 && row.stage == 2 then Staged
    else if row.head == 1 && row.workdir == 2 && row.stage == 1 then Unstaged
    else if row.head == 1 && row.workdir == 2 && row.stage == 2 then Staged
    else if row.head == 1 && row.workdir == 0 && row.stage == 0 then Staged
    else if row.head == 1 && row.workdir == 0 && row.stage == 1 then Unstaged
    else Omitted
  }

  /** Where the desktop lists a row: nowhere under .ai-note, else by its triple. */
  function KindOf(row: StatusRow): Kind
  {
    if Skipped(row) then Omitted else Classify(row)
  }

  /**
   * getStatus over the status matrix and the outcome of the current-branch
   * lookup (None when it throws or names no branch).
   */
  method GetStatus(matrix: seq<StatusRow>, currentBranch: Option<string>) returns (status: GitStatus)
    ensures status == GitStatus(
      BranchOrMain(currentBranch),
      Listed(matrix, KindOf, Staged), Listed(matrix, KindOf, Unstaged), Listed(matrix, KindOf, Untracked))
  {
    var staged, unstaged, untracked := [], [], [];
    var n := 0;
    while n < |matrix|
      invariant n <= |matrix|
      invariant staged == Listed(matrix[..n], KindOf, Staged)
      invariant unstaged == Listed(matrix[..n], KindOf, Unstaged)
      invariant untracked == Listed(matrix[..n], KindOf, Untracked)
    {
      var row := matrix[n];
      assert matrix[..n + 1][..n] == matrix[..n];
      if !StartsWith(row.filepath, AI_NOTE_DIR) {
        if row.head == 0 && row.workdir == 2 && row.stage == 0 {
          untracked := untracked + [row.filepath];
        } else if row.head == 0 && row.workdir == 2 && row.stage == 2 {
          staged := staged + [row.filepath];
        } else if row.head == 1 && row.workdir == 2 && row.stage == 1 {
          unstaged := unstaged + [row.filepath];
        } else if row.head == 1 && row.workdir == 2 && row.stage == 2 {
          staged := staged + [row.filepath];
        } else if row.head == 1 && row.workdir == 0 && row.stage == 0 {
          staged := staged + [row.filepath];
        } else if row.head == 1 && row.workdir == 0 && row.stage == 1 {
          unstaged := unstaged + [row.filepath];
        }
      }
      n := n + 1;
    }
    assert matrix[..n] == matrix;
    var branch := DEFAULT_BRANCH;
    if currentBranch.Some? && currentBranch.value != [] {
      branch := currentBranch.value;
    }
    status := GitStatus(branch, staged, unstaged, untracked);
  }

  /** No listed path lies under .ai-note. */
  lemma ListedSkipsAiNote(rows: seq<StatusRow>, k: Kind, x: string)
    requires k != Omitted && x in Listed(rows, KindOf, k)
    ensures !StartsWith(x, AI_NOTE_DIR)
  {
    ListedMembers(rows, KindOf, k, x);
  }

  // ---- getDiff -----------------------------------------------------------

  /** The counting loop of getDiff over the hunks structuredPatch produced. */
  method CountChanges(hunks: seq<DiffHunk>) returns (diff: GitDiff)
    ensures diff == GitDiff(TotalStarting(hunks, '+'), TotalStarting(hunks, '-'), hunks)
  {
    var additions, deletions := 0, 0;
    var copied := [];
    var h := 0;
    while h < |hunks|
      invariant h <= |hunks|
      invariant additions == TotalStarting(hunks[..h], '+')
      invariant deletions == TotalStarting(hunks[..h], '-')
      invariant copied == hunks[..h]
    {
      var hunk := hunks[h];
      assert hunks[..h + 1][..h] == hunks[..h];
      var lines := hunk.lines;
      var l := 0;
      while l < |lines|
        invariant l <= |lines|
        invariant additions == TotalStarting(hunks[..h], '+') + CountStarting(lines[..l], '+')
        invariant deletions == TotalStarting(hunks[..h], '-') + CountStarting(lines[..l], '-')
      {
        assert lines[..l + 1][..l] == lines[..l];
        if StartsWithChar(lines[l], '+') {
          additions := additions + 1;
        }
        if StartsWithChar(lines[l], '-') {
          deletions := deletions + 1;
        }
        l := l + 1;
      }
      assert lines[..l] == lines;
      copied := copied + [DiffHunk(hunk.oldStart, hunk.oldLines, hunk.newStart, hunk.newLines, hunk.lines)];
      h := h + 1;
    }
    assert hunks[..h] == hunks;
    diff := GitDiff(additions, deletions, copied);
  }

  /**
   * getDiff: both revisions are read with the '' fallback and handed to the
   * patch engine, whose hunks are counted and copied.
   */
  method GetDiff(oldBlob: Option<string>, newBlob: Option<string>,
                 structuredPatch: (string, string) -> seq<DiffHunk>) returns (diff: GitDiff)
    ensures var hunks := structuredPatch(ContentOrEmpty(oldBlob), ContentOrEmpty(newBlob));
      diff == GitDiff(TotalStarting(hunks, '+'), TotalStarting(hunks, '-'), hunks)
  {
    var oldContent := ContentOrEmpty(oldBlob);
    var newContent := ContentOrEmpty(newBlob);
    diff := CountChanges(structuredPatch(oldContent, newContent));
  }

  // ---- commit --------------------------------------------------------------

  const AUTHOR_NAME: string := "INote"
  const AUTHOR_EMAIL: string := "inote@local"

  datatype GitCall =
    | Add(filepath: string)
    | Remove(filepath: string)
    | CommitCall(message: string, authorName: string, authorEmail: string)

  /** The files commit stages: the list given, or every unstaged and untracked path. */
  function CommitTargets(files: Option<seq<string>>, matrix: seq<StatusRow>): seq<string>
  {
    if files.Some? && |files.value| > 0 then files.value
    else Listed(matrix, KindOf, Unstaged) + Listed(matrix, KindOf, Untracked)
  }

  /**
   * The calls made for one file: git.add when it exists, git.remove when it
   * does not or when the add throws.
   */
  function StageOne(file: string, present: set<string>, addFails: set<string>): seq<GitCall>
  {
    if file in present && file !in addFails then [Add(file)]
    else if file in present then [Add(file), Remove(file)]
    else [Remove(file)]
  }

  /**
   * The calls made staging `files` in order, and whether staging finished: a
   * git.remove that throws ends commit with that exception.
   */
  function StageAll(files: seq<string>, present: set<string>, addFails: set<string>, removeFails: set<string>):
    (seq<GitCall>, bool)
  {
    if files == [] then ([], true)
    else
      var (calls, ok) := StageAll(files[..|files| - 1], present, addFails, removeFails);
      var file := files[|files| - 1];
      if !ok then (calls, false)
      else
        var tried := StageOne(file, present, addFails);
        (calls + tried, tried[|tried| - 1] != Remove(file) || file !in removeFails)
  }

  /**
   * commit: stages the targets one by one (existence is `present`, the
   * outcomes of git.add and git.remove are `addFails` and `removeFails`),
   * then commits with the fixed author. `committed` is false when a removal
   * threw, and then no commit is made.
   */
  method Commit(message: string, files: Option<seq<string>>, matrix: seq<StatusRow>,
                currentBranch: Option<string>, present: set<string>,
                addFails: set<string>, removeFails: set<string>)
    returns (calls: seq<GitCall>, committed: bool)
    ensures var (staging, ok) := StageAll(CommitTargets(files, matrix), present, addFails, removeFails);
      && committed == ok
      && calls == (if ok then staging + [CommitCall(message, AUTHOR_NAME, AUTHOR_EMAIL)] else staging)
  {
    var targets;
    if files.Some? && |files.value| > 0 {
      targets := files.value;
    } else {
      var status := GetStatus(matrix, currentBranch);
      targets := status.unstaged + status.untracked;
    }
    calls := [];
    var n := 0;
    while n < |targets|
      invariant n <= |targets|
      invariant StageAll(targets[..n], present, addFails, removeFails) == (calls, true)
    {
      var file := targets[n];
      StageAllStep(targets, n, present, addFails, removeFails);
      ghost var before := calls;
      if file in present && file !in addFails {
        calls := calls + [Add(file)];
      } else {
        if file in present {
          calls := calls + [Add(file)];
        }
        calls := calls + [Remove(file)];
        assert calls == before + StageOne(file, present, addFails);
        if file in removeFails {
          StageAllStops(targets, n + 1, present, addFails, removeFails);
          assert targets[..|targets|] == targets;
          return calls, false;
        }
      }
      assert calls == before + StageOne(file, present, addFails);
      n := n + 1;
    }
    assert targets[..n] == targets;
    calls := calls + [CommitCall(message, AUTHOR_NAME, AUTHOR_EMAIL)];
    committed := true;
  }

  /** Staging one more file appends its calls; staging goes on unless its removal threw. */
  lemma StageAllStep(files: seq<string>, n: nat, present: set<string>, addFails: set<string>, removeFails: set<string>)
    requires n < |files| && StageAll(files[..n], present, addFails, removeFails).1
    ensures var tried := StageOne(files[n], present, addFails);
      StageAll(files[..n + 1], present, addFails, removeFails) ==
        (StageAll(files[..n], present, addFails, removeFails).0 + tried,
         tried[|tried| - 1] != Remove(files[n]) || files[n] !in removeFails)
  {
    assert files[..n + 1][..n] == files[..n];
  }

  /** Once staging has stopped, later files add no calls. */
  lemma {:induction false} StageAllStops(files: seq<string>, n: nat, present: set<string>,
                                         addFails: set<string>, removeFails: set<string>)
    requires n <= |files|
    requires !StageAll(files[..n], present, addFails, removeFails).1
    ensures StageAll(files, present, addFails, removeFails) == StageAll(files[..n], present, addFails, removeFails)
    decreases |files| - n
  {
    if n < |files| {
      assert files[..n + 1][..n] == files[..n];
      StageAllStops(files, n + 1, present, addFails, removeFails);
    } else {
      assert files[..n] == files;
    }
  }

  /** When git.add and git.remove succeed, each file is added if it exists and removed if not. */
  lemma {:induction false} StageAllWithoutFailures(files: seq<string>, present: set<string>)
    ensures StageAll(files, present, {}, {}) == (AddOrRemove(files, present), true)
  {
    if files != [] {
      var init := files[..|files| - 1];
      StageAllWithoutFailures(init, present);
      var a, b := AddOrRemove(files, present), AddOrRemove(init, present);
      assert a == b + [a[|a| - 1]];
    }
  }

  /** One add for each file present, one removal for each absent one, in order. */
  function AddOrRemove(files: seq<string>, present: set<string>): (r: seq<GitCall>)
    ensures |r| == |files|
  {
    seq(|files|, i requires 0 <= i < |files| => if files[i] in present then Add(files[i]) else Remove(files[i]))
  }

  // ---- saveVersion ---------------------------------------------------------

  const UPDATED_KEY: string := "updated:"

  /** The last position in [lo, hi) holding a character `.` matches. */
  function LastDotChar(s: string, lo: nat, hi: nat): (r: Option<nat>)
    requires lo <= hi <= |s|
    ensures r.Some? ==> lo <= r.value < hi && !LineTerminator(s[r.value])
    ensures r.Some? ==> forall k :: r.value < k < hi ==> LineTerminator(s[k])
    ensures r.None? ==> forall k :: lo <= k < hi ==> LineTerminator(s[k])
    decreases hi - lo
  {
    if lo == hi then None
    else if !LineTerminator(s[hi - 1]) then Some(hi - 1)
    else LastDotChar(s, lo, hi - 1)
  }

  /** The end of the line containing i: the first line terminator at or after i, or the end. */
  function LineEnd(s: string, i: nat): (t: nat)
    requires i <= |s|
    ensures i <= t <= |s| && (t < |s| ==> LineTerminator(s[t]))
    ensures forall k :: i <= k < t ==> !LineTerminator(s[k])
    decreases |s| - i
  {
    if i < |s| && !LineTerminator(s[i]) then LineEnd(s, i + 1) else i
  }

  /**
   * `(updated:\s*).+` tried at p: where the value starts (the greedy `\s*`
   * gives back just enough for `.+`) and where it ends, the end of that line.
   */
  function UpdatedAt(s: string, p: nat): (r: Option<(nat, nat)>)
    ensures r.Some? ==> p + |UPDATED_KEY| <= r.value.0 < r.value.1 <= |s|
  {
    if !OccursAt(s, UPDATED_KEY, p) then None
    else
      var q := p + |UPDATED_KEY|;
      var e := SpaceEnd(s, q);
      if e < |s| then
        assert !LineTerminator(s[e]);
        Some((e, LineEnd(s, e + 1)))
      else match LastDotChar(s, q, e)
        case None => None
        case Some(j) => Some((j, LineEnd(s, j + 1)))
  }

  /** The leftmost match of `(updated:\s*).+` at or after `from`: where it starts, where its value starts and ends. */
  function FindUpdated(s: string, from: nat): (r: Option<(nat, nat, nat)>)
    ensures r.Some? ==> from <= r.value.0 && r.value.0 + |UPDATED_KEY| <= r.value.1 < r.value.2 <= |s|
    decreases |s| - from
  {
    if from + |UPDATED_KEY| > |s| then None
    else match UpdatedAt(s, from)
      case Some((j, t)) => Some((from, j, t))
      case None => FindUpdated(s, from + 1)
  }

  /** content.replace(/(updated:\s*).+/, `$1${now}`): one replacement, of the first match's value. */
  function ReplaceUpdated(content: string, now: string): (r: string)
    ensures FindUpdated(content, 0).None? ==> r == content
    ensures FindUpdated(content, 0).Some? ==>
      var (_, j, t) := FindUpdated(content, 0).value;
      j <= |r| && r[..j] == content[..j] && r[j..] == now + content[t..]
  {
    match FindUpdated(content, 0)
    case None => content
    case Some((_, j, t)) => content[..j] + now + content[t..]
  }

  /** The value replaced runs from its start to the end of its line, and is not empty. */
  lemma UpdatedAtValue(s: string, p: nat)
    requires UpdatedAt(s, p).Some?
    ensures var (j, t) := UpdatedAt(s, p).value;
      && OccursAt(s, UPDATED_KEY, p)
      && (forall k :: p + |UPDATED_KEY| <= k < j ==> RegexSpace(s[k]))
      && (forall k :: j <= k < t ==> !LineTerminator(s[k]))
      && (t == |s| || LineTerminator(s[t]))
  {
    var q := p + |UPDATED_KEY|;
    var e := SpaceEnd(s, q);
    SpaceEndSpaces(s, q);
    if e == |s| {
      var j := LastDotChar(s, q, e).value;
      assert forall k :: q <= k < j ==> RegexSpace(s[k]);
    }
  }

  /** FindUpdated reports the match at the leftmost position that has one. */
  lemma {:induction false} FindUpdatedIsFirst(s: string, from: nat)
    requires FindUpdated(s, from).Some?
    ensures var r := FindUpdated(s, from).value;
      && UpdatedAt(s, r.0) == Some((r.1, r.2))
      && forall p :: from <= p < r.0 ==> UpdatedAt(s, p).None?
    decreases |s| - from
  {
    if UpdatedAt(s, from).None? {
      var next := from + 1;
      assert FindUpdated(s, from) == FindUpdated(s, next);
      FindUpdatedIsFirst(s, next);
      var r := FindUpdated(s, next).value;
      forall p | from <= p < r.0
        ensures UpdatedAt(s, p).None?
      {
        if p != from {
          assert next <= p;
        }
      }
    }
  }

  /** When FindUpdated finds nothing, no position has a match. */
  lemma {:induction false} FindUpdatedNone(s: string, from: nat)
    requires FindUpdated(s, from).None?
    ensures forall p :: from <= p ==> UpdatedAt(s, p).None?
    decreases |s| - from
  {
    if from + |UPDATED_KEY| <= |s| {
      FindUpdatedNone(s, from + 1);
    }
  }

  /**
   * Only the first match's value changes: the text up to it, including the
   * key and the spaces after it, and everything from the end of its line on
   * are kept.
   */
  lemma ReplaceUpdatedKeepsRest(content: string, now: string)
    requires FindUpdated(content, 0).Some?
    ensures var (p, j, t) := FindUpdated(content, 0).value;
      && ReplaceUpdated(content, now) == content[..j] + now + content[t..]
      && OccursAt(ReplaceUpdated(content, now), UPDATED_KEY, p)
  {
    var (p, j, t) := FindUpdated(content, 0).value;
    FindUpdatedIsFirst(content, 0);
    UpdatedAtValue(content, p);
    var r := ReplaceUpdated(content, now);
    assert r[p..p + |UPDATED_KEY|] == content[p..p + |UPDATED_KEY|];
  }

  lemma {:induction false} FindUpdatedWithoutKey(content: string, from: nat)
    requires forall p :: !OccursAt(content, UPDATED_KEY, p)
    ensures FindUpdated(content, from) == None
    decreases |content| - from
  {
    if from + |UPDATED_KEY| <= |content| {
      FindUpdatedWithoutKey(content, from + 1);
    }
  }

  /** A text without the key is written back unchanged. */
  lemma ReplaceUpdatedWithoutKey(content: string, now: string)
    requires forall p :: !OccursAt(content, UPDATED_KEY, p)
    ensures ReplaceUpdated(content, now) == content
  {
    FindUpdatedWithoutKey(content, 0);
  }

  /** FindUpdated skips positions where the key does not occur. */
  lemma {:induction false} FindUpdatedAt(s: string, from: nat, p: nat)
    requires from <= p && UpdatedAt(s, p).Some?
    requires forall k :: from <= k < p ==> !OccursAt(s, UPDATED_KEY, k)
    ensures FindUpdated(s, from) == Some((p, UpdatedAt(s, p).value.0, UpdatedAt(s, p).value.1))
    decreases p - from
  {
    if from < p {
      assert UpdatedAt(s, from).None?;
      FindUpdatedAt(s, from + 1, p);
    }
  }

  /** The key placed after a text that lacks it is its first occurrence. */
  lemma KeyFirstPlaced(pre: string, rest: string)
    requires !Contains(pre, UPDATED_KEY)
    ensures forall k :: 0 <= k < |pre| ==> !OccursAt(pre + UPDATED_KEY + rest, UPDATED_KEY, k)
  {
    var s := pre + UPDATED_KEY + rest;
    forall k | 0 <= k < |pre|
      ensures !OccursAt(s, UPDATED_KEY, k)
    {
      if k + |UPDATED_KEY| <= |pre| {
        assert s[k..k + |UPDATED_KEY|] == pre[k..k + |UPDATED_KEY|];
        assert !OccursAt(pre, UPDATED_KEY, k);
      } else {
        assert s[k..k + |UPDATED_KEY|][|pre| - k] == 'u';
      }
    }
  }

  /** LineEnd stops at the first line terminator. */
  lemma {:induction false} LineEndAt(s: string, i: nat, t: nat)
    requires i <= t <= |s|
    requires forall k :: i <= k < t ==> !LineTerminator(s[k])
    requires t == |s| || LineTerminator(s[t])
    ensures LineEnd(s, i) == t
    decreases t - i
  {
    if i < t {
      LineEndAt(s, i + 1, t);
    }
  }

  /**
   * The first `updated:`, one `\s` character `gap` and a one-line value: that
   * value, and only it, is replaced by `now`. With a space for `gap` this is
   * the usual front-matter line; with a newline, an `updated:` left empty
   * has the next line's text replaced instead.
   */
  lemma ReplaceUpdatedValue(pre: string, gap: char, value: string, post: string, now: string)
    requires !Contains(pre, UPDATED_KEY)
    requires RegexSpace(gap)
    requires value != [] && !RegexSpace(value[0])
    requires forall k :: 0 <= k < |value| ==> !LineTerminator(value[k])
    requires post == [] || LineTerminator(post[0])
    ensures ReplaceUpdated(pre + UPDATED_KEY + [gap] + value + post, now) == pre + UPDATED_KEY + [gap] + now + post
  {
    var head := pre + UPDATED_KEY + [gap];
    var s := head + value + post;
    var q := |pre| + |UPDATED_KEY|;
    var j := q + 1;
    var t := j + |value|;
    assert s == pre + UPDATED_KEY + ([gap] + value + post);
    KeyFirstPlaced(pre, [gap] + value + post);
    assert s[|pre|..q] == UPDATED_KEY;
    assert s[q] == gap && s[j] == value[0];
    forall k | j <= k < t
      ensures !LineTerminator(s[k])
    {
      assert s[k] == value[k - j];
    }
    assert t < |s| ==> s[t] == post[0];
    UpdatedAtGap(s, |pre|, t);
    FindUpdatedAt(s, 0, |pre|);
    assert s[..j] == head && s[t..] == post;
  }

  /** The key, one `\s` character, then a one-line value that does not start with a space: the value is matched. */
  lemma UpdatedAtGap(s: string, p: nat, t: nat)
    requires OccursAt(s, UPDATED_KEY, p)
    requires p + |UPDATED_KEY| + 1 < t <= |s|
    requires RegexSpace(s[p + |UPDATED_KEY|]) && !RegexSpace(s[p + |UPDATED_KEY| + 1])
    requires forall k :: p + |UPDATED_KEY| + 1 <= k < t ==> !LineTerminator(s[k])
    requires t == |s| || LineTerminator(s[t])
    ensures UpdatedAt(s, p) == Some((p + |UPDATED_KEY| + 1, t))
  {
    var q := p + |UPDATED_KEY|;
    assert SpaceEnd(s, q) == q + 1;
    LineEndAt(s, q + 2, t);
  }

  /**
   * saveVersion: the text read with its first `updated:` value replaced by
   * `now` is written back, then the file is staged and committed. A failed
   * read throws first.
   */
  function SaveVersion(relativePath: string, description: string, read: Option<string>, now: string):
    (r: Option<(string, seq<GitCall>)>)
    ensures r.None? <==> read.None?
    ensures r.Some? ==> r.value.1 == [Add(relativePath), CommitCall(description, AUTHOR_NAME, AUTHOR_EMAIL)]
    ensures r.Some? && FindUpdated(read.value, 0).Some? ==>
      r.value.0 == read.value[..FindUpdated(read.value, 0).value.1] + now + read.value[FindUpdated(read.value, 0).value.2..]
  {
    if read.None? then None
    else Some((ReplaceUpdated(read.value, now), [Add(relativePath), CommitCall(description, AUTHOR_NAME, AUTHOR_EMAIL)]))
  }
}
