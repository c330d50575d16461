// The mobile file service: every path it is given is relative to the
// workspace, checked by validatePath, and resolved by prefixing the
// workspace path. The file-system calls it makes are recorded, in order,
// as the requests the service sends to the device's file system.
module MobileFileService {
  import opened Wrappers
  import opened Strings
  import opened SyncModels
  import opened Ordering
  import opened FileTree
  import Desk = DesktopFileService
  import SyncProtocol
  import EditorDesktop

  // ---- validatePath and resolvePath ------------------------------------------

  const TRAVERSAL_ERROR: string := "Path traversal not allowed"
  const CONFIG_ERROR: string := "Cannot access config directory"

  /** resolvePath: the workspace path, a separator, then the relative path. */
  function ResolvePath(workspace: string, rel: string): (r: string)
    ensures StartsWith(r, workspace + "/")
    ensures r[|workspace| + 1..] == rel
  {
    workspace + "/" + rel
  }

  /** validatePath as written: no ".." anywhere, and no leading ".ai-note". */
  function ValidatePathAsWritten(rel: string): (r: Result<()>)
    ensures r.Ok? <==> !Contains(rel, "..") && !StartsWith(rel, CONFIG_DIR)
    ensures r.Err? && Contains(rel, "..") ==> r.error == TRAVERSAL_ERROR
    ensures r.Err? && !Contains(rel, "..") ==> r.error == CONFIG_ERROR
  {
    if Contains(rel, "..") then Err(TRAVERSAL_ERROR)
    else if StartsWith(rel, CONFIG_DIR) then Err(CONFIG_ERROR)
    else Ok(())
  }

  /** The first segment of the relative path once empty and "." segments are dropped. */
  function FirstSegment(rel: string): Option<string>
  {
    var n := Desk.Normalize(Split(rel, '/'));
    if n == [] then None else Some(n[0])
  }

  /**
   * validatePath with the config directory refused however the path spells
   * it: a path whose first real segment is ".ai-note" (after "./" or a
   * leading "/") is refused too.
   */
  function ValidatePath(rel: string): (r: Result<()>)
    ensures r.Ok? <==> ValidatePathAsWritten(rel).Ok? && FirstSegment(rel) != Some(CONFIG_DIR)
    ensures r.Err? && ValidatePathAsWritten(rel).Err? ==> r == ValidatePathAsWritten(rel)
    ensures r.Err? && ValidatePathAsWritten(rel).Ok? ==> r.error == CONFIG_ERROR
  {
    var w := ValidatePathAsWritten(rel);
    if w.Err? then w
    else if FirstSegment(rel) == Some(CONFIG_DIR) then Err(CONFIG_ERROR)
    else Ok(())
  }

  /** Normalizing a path then more segments without ".." normalizes each part. */
  lemma {:induction false} NormalizeAppend(xs: seq<string>, ys: seq<string>)
    requires forall k :: 0 <= k < |xs| ==> '/' !in xs[k]
    requires forall k :: 0 <= k < |ys| ==> '/' !in ys[k] && ys[k] != ".."
    ensures Desk.Normalize(xs + ys) == Desk.Normalize(xs) + Desk.Normalize(ys)
  {
    if ys == [] {
      assert xs + ys == xs;
    } else {
      var init := ys[..|ys| - 1];
      assert (xs + ys)[..|xs + ys| - 1] == xs + init;
      assert (xs + ys)[|xs + ys| - 1] == ys[|ys| - 1];
      NormalizeAppend(xs, init);
    }
  }

  /** The segments of a resolved path: the workspace's, then the relative path's. */
  lemma ResolvedSegments(workspace: string, rel: string)
    requires !Contains(rel, "..")
    ensures Desk.Segments(ResolvePath(workspace, rel)) ==
            Desk.Segments(workspace) + Desk.Normalize(Split(rel, '/'))
  {
    SplitAppend(workspace, rel, '/');
    var ys := Split(rel, '/');
    forall k | 0 <= k < |ys| ensures ys[k] != ".." {
      SplitPieceOccurs(rel, '/', k);
    }
    NormalizeAppend(Split(workspace, '/'), ys);
  }

  /** The config directory's segments: the workspace's and ".ai-note". */
  lemma ConfigDirSegments(workspace: string)
    ensures Desk.Segments(workspace + "/" + CONFIG_DIR) == Desk.Segments(workspace) + [CONFIG_DIR]
  {
    SplitAppend(workspace, CONFIG_DIR, '/');
    SplitNoSep(CONFIG_DIR, '/');
    var xs := Split(workspace, '/');
    assert (xs + [CONFIG_DIR])[..|xs|] == xs;
  }

  /** A path that passes the check as written resolves inside the workspace. */
  lemma ValidatedStaysInside(workspace: string, rel: string)
    requires ValidatePathAsWritten(rel).Ok?
    ensures Desk.Within(workspace, ResolvePath(workspace, rel))
  {
    ResolvedSegments(workspace, rel);
    var xs := Desk.Segments(workspace);
    assert (xs + Desk.Normalize(Split(rel, '/')))[..|xs|] == xs;
  }

  /** Without "..", a path resolves into the config directory exactly when its first segment names it. */
  lemma InConfigDir(workspace: string, rel: string)
    requires !Contains(rel, "..")
    ensures Desk.Within(workspace + "/" + CONFIG_DIR, ResolvePath(workspace, rel))
            <==> FirstSegment(rel) == Some(CONFIG_DIR)
  {
    ResolvedSegments(workspace, rel);
    ConfigDirSegments(workspace);
    var xs := Desk.Segments(workspace);
    var n := Desk.Normalize(Split(rel, '/'));
    var ys := xs + n;
    if n != [] {
      assert ys[|xs|] == n[0];
      if n[0] == CONFIG_DIR {
        assert ys[..|xs| + 1] == xs + [CONFIG_DIR];
      } else {
        assert ys[..|xs| + 1][|xs|] != (xs + [CONFIG_DIR])[|xs|];
      }
    }
  }

  /** A path the corrected check accepts lies in the workspace and outside its config directory. */
  lemma ValidatePathConfined(workspace: string, rel: string)
    requires ValidatePath(rel).Ok?
    ensures Desk.Within(workspace, ResolvePath(workspace, rel))
    ensures !Desk.Within(workspace + "/" + CONFIG_DIR, ResolvePath(workspace, rel))
  {
    ValidatedStaysInside(workspace, rel);
    InConfigDir(workspace, rel);
  }

  /** A text with at most one dot, at a known place, has no "..". */
  lemma OneDot(a: string, x: char, b: string)
    requires '.' !in a && '.' !in b
    ensures !Contains(a + [x] + b, "..")
  {
    var s := a + [x] + b;
    forall i | 0 <= i <= |s| ensures !OccursAt(s, "..", i) {
      if i + 2 > |s| {
      } else if i < |a| {
        assert s[i..i + 2][0] == a[i];
      } else if i > |a| {
        assert s[i..i + 2][0] == b[i - |a| - 1];
      } else {
        assert s[i..i + 2][1] == b[0];
      }
    }
  }

  /** Joining two texts without ".." by a separator gives none either. */
  lemma NoDotDotJoined(a: string, b: string)
    requires !Contains(a, "..") && !Contains(b, "..")
    ensures !Contains(a + "/" + b, "..")
  {
    var pat := "..";
    assert pat[0] != '/' && pat[1] != '/';
    NoPairJoined(a, '/', b, pat);
  }

  /** Joining two sequences without a two-element pattern, by a separator foreign to it, gives none either. */
  lemma NoPairJoined<T>(a: seq<T>, sep: T, b: seq<T>, pat: seq<T>)
    requires |pat| == 2 && pat[0] != sep && pat[1] != sep
    requires !Contains(a, pat) && !Contains(b, pat)
    ensures !Contains(a + [sep] + b, pat)
  {
    var s := a + [sep] + b;
    forall i | 0 <= i <= |s| ensures !OccursAt(s, pat, i) {
      if i + 2 > |s| {
      } else if i + 2 <= |a| {
        assert s[i..i + 2] == a[i..i + 2];
        assert !OccursAt(a, pat, i);
      } else if i >= |a| + 1 {
        assert s[i..i + 2] == b[i - |a| - 1..i - |a| + 1];
        assert !OccursAt(b, pat, i - |a| - 1);
      } else if i == |a| {
        assert s[i..i + 2][0] == sep;
      } else {
        assert s[i..i + 2][1] == sep;
      }
    }
  }

  /** "./.ai-note/config.json". */
  const DOT_CONFIG_PATH: string := "." + "/" + CONFIG_DIR + "/" + CONFIG_FILE

  lemma DotConfigPathPasses()
    ensures ValidatePathAsWritten(DOT_CONFIG_PATH).Ok?
  {
    OneDot([], '.', []);
    OneDot([], '.', "ai-note");
    OneDot("config", '.', "json");
    assert CONFIG_DIR == [] + ['.'] + "ai-note";
    assert CONFIG_FILE == "config" + ['.'] + "json";
    NoDotDotJoined(CONFIG_DIR, CONFIG_FILE);
    assert "." == [] + ['.'] + [];
    NoDotDotJoined(".", CONFIG_DIR + "/" + CONFIG_FILE);
    assert DOT_CONFIG_PATH == "." + "/" + (CONFIG_DIR + "/" + CONFIG_FILE);
    assert DOT_CONFIG_PATH[1] != CONFIG_DIR[1];
  }

  lemma DotConfigPathSegments()
    ensures Desk.Normalize(Split(DOT_CONFIG_PATH, '/')) == [CONFIG_DIR, CONFIG_FILE]
  {
    assert Desk.NormalSegment(CONFIG_DIR) && Desk.NormalSegment(CONFIG_FILE);
    DotPathSegments(CONFIG_DIR, CONFIG_FILE);
  }

  /** "./a/b" splits into ".", a and b, and normalizes to a and b. */
  lemma DotPathSegments(a: string, b: string)
    requires Desk.NormalSegment(a) && Desk.NormalSegment(b)
    ensures Desk.Normalize(Split("." + "/" + a + "/" + b, '/')) == [a, b]
  {
    assert "." + "/" + a + "/" + b == "." + "/" + (a + "/" + b);
    SplitAppend(".", a + "/" + b, '/');
    SplitAppend(a, b, '/');
    SplitNoSep(".", '/');
    SplitNoSep(a, '/');
    SplitNoSep(b, '/');
    assert Split(a + "/" + b, '/') == [a, b];
    assert Split("." + "/" + (a + "/" + b), '/') == ["."] + [a, b];
    assert ["."] + [a, b] == [".", a, b];
    NormalizeDotFirst(a, b);
  }

  lemma NormalizeDotFirst(a: string, b: string)
    requires Desk.NormalSegment(a) && Desk.NormalSegment(b)
    ensures Desk.Normalize([".", a, b]) == [a, b]
  {
    var pieces: seq<string> := [".", a, b];
    assert pieces[..2] == [".", a];
    assert pieces[..2][..1] == ["."];
    assert ["."][..0] == [];
    assert Desk.Normalize(["."]) == [];
    assert Desk.Normalize([".", a]) == [a];
  }

  /** "./.ai-note/config.json" passes the check as written, yet resolves into the config directory. */
  lemma ConfigDirBypass(workspace: string)
    ensures ValidatePathAsWritten(DOT_CONFIG_PATH).Ok?
    ensures Desk.Within(workspace + "/" + CONFIG_DIR, ResolvePath(workspace, DOT_CONFIG_PATH))
    ensures ValidatePath(DOT_CONFIG_PATH) == Err(CONFIG_ERROR)
  {
    DotConfigPathPasses();
    DotConfigPathSegments();
    InConfigDir(workspace, DOT_CONFIG_PATH);
  }

  // ---- createFile and createFolder -------------------------------------------

  /** The note's file name: '.md' appended unless already there. */
  function NoteName(fileName: string): (r: string)
    ensures EndsWith(r, ".md")
    ensures EndsWith(fileName, ".md") ==> r == fileName
    ensures !EndsWith(fileName, ".md") ==> r == fileName + ".md"
  {
    if EndsWith(fileName, ".md") then fileName
    else
      assert (fileName + ".md")[|fileName|..] == ".md";
      fileName + ".md"
  }

  lemma NoteNameIdempotent(fileName: string)
    ensures NoteName(NoteName(fileName)) == NoteName(fileName)
  {
  }

  /** The title as written: the name with its first ".md" removed, wherever that is. */
  function NoteTitleAsWritten(name: string): (r: string)
    ensures !Contains(name, ".md") ==> r == name
    ensures Contains(name, ".md") ==> |r| + 3 == |name|
    ensures Contains(name, ".md") ==>
      IndexOf(name, ".md", 0).Some? &&
      var i := IndexOf(name, ".md", 0).value; r == name[..i] + name[i + 3..]
  {
    ContainsIndexOf(name, ".md");
    ReplaceFirst(name, ".md", "")
  }

  /** The title intended: the name without its final ".md". */
  function NoteTitle(name: string): (r: string)
    requires EndsWith(name, ".md")
    ensures r + ".md" == name
  {
    name[..|name| - 3]
  }

  /** The two titles agree on a stem without a dot. */
  lemma TitleAgreesWithoutDot(stem: string)
    requires '.' !in stem
    ensures NoteTitleAsWritten(stem + ".md") == NoteTitle(stem + ".md") == stem
  {
    IndexOfFirstPlaced(stem, ".md", []);
    assert stem + ".md" + [] == stem + ".md";
  }

  /** "a.md.txt" becomes note "a.md.txt.md", titled "a.txt.md" as written. */
  lemma TitleTakesFirstMd()
    ensures NoteName("a.md.txt") == "a.md.txt.md"
    ensures NoteTitleAsWritten("a.md.txt.md") == "a.txt.md"
    ensures NoteTitle("a.md.txt.md") == "a.md.txt"
  {
    var name := "a.md.txt.md";
    assert !EndsWith("a.md.txt", ".md");
    IndexOfFirstPlaced("a", ".md", ".txt.md");
    assert "a" + ".md" + ".txt.md" == name;
    assert name[..1] + [] + name[4..] == "a.txt.md";
  }

  /** The front matter of a new note: title, creation and update time, no tags. */
  function NoteContent(title: string, now: string): string
  {
    var l1, l2, l3 := "title: " + title, "created: " + now, "updated: " + now;
    "---" + "\n" + l1 + "\n" + l2 + "\n" + l3 + "\n" + "tags: []" + "\n" + "---" + "\n" + "\n"
  }

  /** A new note is, line by line, its front matter block and an empty body. */
  lemma NoteContentLines(title: string, now: string)
    requires '\n' !in title && '\n' !in now
    ensures Split(NoteContent(title, now), '\n') ==
      ["---", "title: " + title, "created: " + now, "updated: " + now, "tags: []", "---", "", ""]
  {
    var l1, l2, l3 := "title: " + title, "created: " + now, "updated: " + now;
    BlockLines("---", l1, l2, l3, "tags: []");
  }

  /** A block of five lines, the first repeated after them, and an empty line, split back into its lines. */
  lemma BlockLines(fence: string, l1: string, l2: string, l3: string, l4: string)
    requires '\n' !in fence && '\n' !in l1 && '\n' !in l2 && '\n' !in l3 && '\n' !in l4
    ensures Split(fence + "\n" + l1 + "\n" + l2 + "\n" + l3 + "\n" + l4 + "\n" + fence + "\n" + "\n", '\n') ==
      [fence, l1, l2, l3, l4, fence, "", ""]
  {
    var nl := '\n';
    var s1 := fence + [nl] + l1;
    var s2 := s1 + [nl] + l2;
    var s3 := s2 + [nl] + l3;
    var s4 := s3 + [nl] + l4;
    var s5 := s4 + [nl] + fence;
    var none: string := [];
    SplitNoSep(fence, nl);
    SplitNoSep(l1, nl);
    SplitNoSep(l2, nl);
    SplitNoSep(l3, nl);
    SplitNoSep(l4, nl);
    SplitAppend(fence, l1, nl);
    assert Split(s1, nl) == [fence, l1];
    SplitAppend(s1, l2, nl);
    assert Split(s2, nl) == [fence, l1, l2];
    SplitAppend(s2, l3, nl);
    assert Split(s3, nl) == [fence, l1, l2, l3];
    SplitAppend(s3, l4, nl);
    assert Split(s4, nl) == [fence, l1, l2, l3, l4];
    SplitAppend(s4, fence, nl);
    assert Split(s5, nl) == [fence, l1, l2, l3, l4, fence];
    AppendEmpty(s5 + [nl]);
    SplitAppend(s5, none, nl);
    assert Split(s5 + [nl], nl) == [fence, l1, l2, l3, l4, fence, none];
    AppendEmpty(s5 + [nl] + [nl]);
    SplitAppend(s5 + [nl], none, nl);
  }

  /** The relative path createFile writes: the note's name inside `dirPath`, validated. */
  function CreateFilePath(dirPath: string, fileName: string): (r: Result<string>)
    ensures r.Ok? ==> r.value == ChildPath(dirPath, NoteName(fileName)) && EndsWith(r.value, ".md")
    ensures r.Ok? <==> ValidatePathAsWritten(ChildPath(dirPath, NoteName(fileName))).Ok?
    ensures r.Err? ==> r.error == ValidatePathAsWritten(ChildPath(dirPath, NoteName(fileName))).error
  {
    var rel := ChildPath(dirPath, NoteName(fileName));
    assert EndsWith(rel, NoteName(fileName));
    EndsWithTrans(rel, NoteName(fileName), ".md");
    match ValidatePathAsWritten(rel)
    case Err(e) => Err(e)
    case Ok(_) => Ok(rel)
  }

  /** The relative path createFolder makes: the folder name inside `parentPath`, validated. */
  function CreateFolderPath(parentPath: string, folderName: string): (r: Result<string>)
    ensures r.Ok? <==> ValidatePathAsWritten(ChildPath(parentPath, folderName)).Ok?
    ensures r.Ok? ==> r.value == ChildPath(parentPath, folderName)
    ensures r.Err? ==> r.error == ValidatePathAsWritten(ChildPath(parentPath, folderName)).error
  {
    var rel := ChildPath(parentPath, folderName);
    match ValidatePathAsWritten(rel)
    case Err(e) => Err(e)
    case Ok(_) => Ok(rel)
  }

  // ---- deleteFile ---------------------------------------------------------------

  /** `<workspace>/.ai-note/trash`. */
  function TrashDir(workspace: string): string
  {
    workspace + "/" + CONFIG_DIR + "/" + TRASH_DIR
  }

  /** The name a deleted file gets in the trash: the time in milliseconds, '_', its last segment. */
  function TrashName(rel: string, now: nat): string
  {
    NatToString(now) + ("_" + EditorDesktop.GetFileName(rel))
  }

  /** The trash path: inside the trash directory, ending in '_' and the file's last segment. */
  function TrashPath(workspace: string, rel: string, now: nat): (r: string)
    ensures StartsWith(r, TrashDir(workspace) + "/")
    ensures EndsWith(r, "_" + EditorDesktop.GetFileName(rel))
  {
    Framed(TrashDir(workspace) + "/", NatToString(now), "_" + EditorDesktop.GetFileName(rel));
    TrashDir(workspace) + "/" + TrashName(rel, now)
  }

  lemma Framed(pre: string, stamp: string, name: string)
    ensures StartsWith(pre + (stamp + name), pre) && EndsWith(pre + (stamp + name), name)
  {
  }

  /**
   * A file whose path does not end in '/' goes straight into the trash
   * directory, which lies in the config directory of the workspace.
   */
  lemma TrashPathInTrash(workspace: string, rel: string, now: nat)
    requires rel == [] || rel[|rel| - 1] != '/'
    ensures Desk.Segments(TrashPath(workspace, rel, now)) ==
            Desk.Segments(workspace) + [CONFIG_DIR, TRASH_DIR, TrashName(rel, now)]
  {
    var name := TrashName(rel, now);
    var config := workspace + "/" + CONFIG_DIR;
    var trash := config + "/" + TRASH_DIR;
    TrashNameNormal(rel, now);
    AppendNormalSegment(workspace, CONFIG_DIR);
    AppendNormalSegment(config, TRASH_DIR);
    AppendNormalSegment(trash, name);
    var w := Desk.Segments(workspace);
    assert w + [CONFIG_DIR] + [TRASH_DIR] + [name] == w + [CONFIG_DIR, TRASH_DIR, name];
  }

  /** A trash name is one plain path segment. */
  lemma TrashNameNormal(rel: string, now: nat)
    requires rel == [] || rel[|rel| - 1] != '/'
    ensures Desk.NormalSegment(TrashName(rel, now))
  {
    var name := TrashName(rel, now);
    var f := EditorDesktop.GetFileName(rel);
    assert '/' !in f by {
      assert f == EditorDesktop.GetFileNameOf(rel);
      assert rel != [] ==> LastPiece(rel, '/') != [];
    }
    assert '/' !in NatToString(now) by { assert AllDigits(NatToString(now)); }
    assert name == NatToString(now) + "_" + f;
    assert name[|NatToString(now)|] == '_';
  }

  /** Appending one plain segment to a path adds exactly that segment. */
  lemma AppendNormalSegment(p: string, a: string)
    requires Desk.NormalSegment(a)
    ensures Desk.Segments(p + "/" + a) == Desk.Segments(p) + [a]
  {
    SplitAppend(p, a, '/');
    SplitNoSep(a, '/');
    NormalizeAppend(Split(p, '/'), [a]);
    assert Desk.Normalize([a]) == Desk.Normalize([a][..0]) + [a];
  }

  /** The same file deleted at two different times gets two different trash paths. */
  lemma TrashPathsDiffer(workspace: string, rel: string, m: nat, n: nat)
    requires m != n
    ensures TrashPath(workspace, rel, m) != TrashPath(workspace, rel, n)
  {
    if TrashPath(workspace, rel, m) == TrashPath(workspace, rel, n) {
      var pre, f := TrashDir(workspace) + "/", "_" + EditorDesktop.GetFileName(rel);
      TrashPathParts(workspace, rel, m);
      TrashPathParts(workspace, rel, n);
      MiddleCancel(pre, NatToString(m), NatToString(n), f);
      NatToStringInjective(m, n);
    }
  }

  /** A trash path is the trash directory, the time stamp and the file name. */
  lemma TrashPathParts(workspace: string, rel: string, now: nat)
    ensures TrashPath(workspace, rel, now)
      == (TrashDir(workspace) + "/") + NatToString(now) + ("_" + EditorDesktop.GetFileName(rel))
  {
    var d, t, g := TrashDir(workspace) + "/", NatToString(now), EditorDesktop.GetFileName(rel);
    assert TrashName(rel, now) == t + "_" + g;
    assert d + (t + "_" + g) == d + t + ("_" + g);
  }

  // ---- getFileTree / buildTree ---------------------------------------------------

  /** A directory entry buildTree lists as a folder. */
  predicate FolderEntry(e: Desk.DirEntry)
  {
    !SyncProtocol.Skipped(e.name) && e.isDirectory
  }

  /** A directory entry buildTree lists as a note. */
  predicate NoteEntry(e: Desk.DirEntry)
  {
    !SyncProtocol.Skipped(e.name) && !e.isDirectory && EndsWith(e.name, ".md")
  }

  /** The folders of a listing, sorted by name. */
  function Folders(entries: seq<Desk.DirEntry>): (r: seq<Desk.DirEntry>)
    ensures multiset(r) <= multiset(entries)
  {
    FilterSubMultiset(entries, FolderEntry);
    SortBy(Filter(entries, FolderEntry), Desk.NameOf)
  }

  /** The notes of a listing, sorted by name. */
  function Notes(entries: seq<Desk.DirEntry>): seq<Desk.DirEntry>
  {
    SortBy(Filter(entries, NoteEntry), Desk.NameOf)
  }

  lemma {:induction false} FilterSubMultiset<T>(s: seq<T>, keep: T -> bool)
    ensures multiset(Filter(s, keep)) <= multiset(s)
  {
    if s != [] {
      var init := s[..|s| - 1];
      FilterSubMultiset(init, keep);
      assert s == init + [s[|s| - 1]];
    }
  }

  /** A sorted selection holds selected elements only. */
  lemma SortedSelection<T>(s: seq<T>, keep: T -> bool, key: T -> string)
    ensures forall i :: 0 <= i < |SortBy(Filter(s, keep), key)| ==> keep(SortBy(Filter(s, keep), key)[i])
  {
    var f := Filter(s, keep);
    var r := SortBy(f, key);
    FilterMembers(s, keep);
    forall i | 0 <= i < |r| ensures keep(r[i]) {
      assert r[i] in multiset(f);
      var k :| 0 <= k < |f| && f[k] == r[i];
    }
  }

  lemma SelectedFolders(entries: seq<Desk.DirEntry>)
    ensures forall i :: 0 <= i < |SortBy(Filter(entries, FolderEntry), Desk.NameOf)| ==>
      FolderEntry(SortBy(Filter(entries, FolderEntry), Desk.NameOf)[i])
  {
    SortedSelection(entries, FolderEntry, Desk.NameOf);
  }

  lemma SelectedNotes(entries: seq<Desk.DirEntry>)
    ensures forall i :: 0 <= i < |SortBy(Filter(entries, NoteEntry), Desk.NameOf)| ==>
      NoteEntry(SortBy(Filter(entries, NoteEntry), Desk.NameOf)[i])
  {
    SortedSelection(entries, NoteEntry, Desk.NameOf);
  }

  /** Each group holds entries of its kind only, by name. */
  lemma GroupKinds(entries: seq<Desk.DirEntry>)
    ensures forall i :: 0 <= i < |Folders(entries)| ==> FolderEntry(Folders(entries)[i])
    ensures forall i :: 0 <= i < |Notes(entries)| ==> NoteEntry(Notes(entries)[i])
    ensures SortedBy(Folders(entries), Desk.NameOf) && SortedBy(Notes(entries), Desk.NameOf)
  {
    FolderKinds(entries);
    NoteKinds(entries);
  }

  lemma FolderKinds(entries: seq<Desk.DirEntry>)
    ensures forall i :: 0 <= i < |Folders(entries)| ==> FolderEntry(Folders(entries)[i])
  {
    SelectedFolders(entries);
  }

  lemma NoteKinds(entries: seq<Desk.DirEntry>)
    ensures forall i :: 0 <= i < |Notes(entries)| ==> NoteEntry(Notes(entries)[i])
  {
    SelectedNotes(entries);
  }

  /** Each group holds every entry of its kind, and entries of the listing only. */
  lemma GroupsCover(entries: seq<Desk.DirEntry>)
    ensures forall i :: 0 <= i < |entries| && FolderEntry(entries[i]) ==> entries[i] in Folders(entries)
    ensures forall i :: 0 <= i < |entries| && NoteEntry(entries[i]) ==> entries[i] in Notes(entries)
    ensures multiset(Folders(entries)) <= multiset(entries) && multiset(Notes(entries)) <= multiset(entries)
  {
    FilterMembers(entries, FolderEntry);
    FilterMembers(entries, NoteEntry);
    SortByElements(Filter(entries, FolderEntry), Desk.NameOf);
    SortByElements(Filter(entries, NoteEntry), Desk.NameOf);
    FilterSubMultiset(entries, NoteEntry);
  }

  /** The node of one kept entry at `rel`; a folder carries its own listing. */
  function NodeFor(rel: string, e: Desk.DirEntry): FileNode
    decreases e.children, 2
  {
    var p := ChildPath(rel, e.name);
    FileNode(p, e.name, e.isDirectory, p, if e.isDirectory then TreeOf(p, e.children) else [])
  }

  /** What buildTree returns for a directory listing `entries` at `rel`: folders, then notes. */
  function TreeOf(rel: string, entries: seq<Desk.DirEntry>): seq<FileNode>
    decreases entries, 1
  {
    FolderNodes(rel, Folders(entries), entries) + NoteNodes(rel, Notes(entries))
  }

  function FolderNodes(rel: string, folders: seq<Desk.DirEntry>, parent: seq<Desk.DirEntry>): seq<FileNode>
    requires multiset(folders) <= multiset(parent)
    decreases parent, 0, |folders|
  {
    if folders == [] then []
    else
      var init, last := folders[..|folders| - 1], folders[|folders| - 1];
      assert folders == init + [last];
      assert last in multiset(parent);
      FolderNodes(rel, init, parent) + [NodeFor(rel, last)]
  }

  function NoteNodes(rel: string, notes: seq<Desk.DirEntry>): seq<FileNode>
  {
    if notes == [] then []
    else
      var e := notes[|notes| - 1];
      var p := ChildPath(rel, e.name);
      NoteNodes(rel, notes[..|notes| - 1]) + [FileNode(p, e.name, false, p, [])]
  }

  lemma {:induction false} FolderNodesAt(rel: string, folders: seq<Desk.DirEntry>, parent: seq<Desk.DirEntry>)
    requires multiset(folders) <= multiset(parent)
    ensures |FolderNodes(rel, folders, parent)| == |folders|
    ensures forall i :: 0 <= i < |folders| ==> FolderNodes(rel, folders, parent)[i] == NodeFor(rel, folders[i])
  {
    if folders != [] {
      var init := folders[..|folders| - 1];
      assert folders == init + [folders[|folders| - 1]];
      FolderNodesAt(rel, init, parent);
      var n0 := FolderNodes(rel, init, parent);
      var last := NodeFor(rel, folders[|folders| - 1]);
      assert FolderNodes(rel, folders, parent) == n0 + [last];
      forall i | 0 <= i < |folders| ensures (n0 + [last])[i] == NodeFor(rel, folders[i]) {
        if i < |init| {
          assert folders[i] == init[i];
        }
      }
    }
  }

  lemma {:induction false} NoteNodesAt(rel: string, notes: seq<Desk.DirEntry>)
    ensures |NoteNodes(rel, notes)| == |notes|
    ensures forall i :: 0 <= i < |notes| ==>
      NoteNodes(rel, notes)[i] == FileNode(ChildPath(rel, notes[i].name), notes[i].name, false, ChildPath(rel, notes[i].name), [])
  {
    if notes != [] {
      NoteNodesAt(rel, notes[..|notes| - 1]);
    }
  }

  /** `t` holds the node of each folder of `fs`, then of each note of `ns`. */
  predicate NodesOfGroups(rel: string, t: seq<FileNode>, fs: seq<Desk.DirEntry>, ns: seq<Desk.DirEntry>)
  {
    && |t| == |fs| + |ns|
    && (forall i :: 0 <= i < |fs| ==> t[i] == NodeFor(rel, fs[i]))
    && (forall i :: 0 <= i < |ns| ==> t[|fs| + i] == NodeFor(rel, ns[i]))
  }

  lemma {:induction false} GroupNodesAt(rel: string, fs: seq<Desk.DirEntry>, ns: seq<Desk.DirEntry>, parent: seq<Desk.DirEntry>)
    requires multiset(fs) <= multiset(parent)
    requires forall i :: 0 <= i < |ns| ==> !ns[i].isDirectory
    ensures NodesOfGroups(rel, FolderNodes(rel, fs, parent) + NoteNodes(rel, ns), fs, ns)
  {
    FolderNodesAt(rel, fs, parent);
    NoteNodesAt(rel, ns);
    var a, b := FolderNodes(rel, fs, parent), NoteNodes(rel, ns);
    forall i | 0 <= i < |fs| ensures (a + b)[i] == NodeFor(rel, fs[i]) {
      assert (a + b)[i] == a[i];
    }
    forall i | 0 <= i < |ns| ensures (a + b)[|fs| + i] == NodeFor(rel, ns[i]) {
      assert (a + b)[|fs| + i] == b[i];
      assert !ns[i].isDirectory;
    }
  }

  /** The nodes of TreeOf, one per folder then one per note. */
  lemma TreeNodesAt(rel: string, entries: seq<Desk.DirEntry>)
    ensures NodesOfGroups(rel, TreeOf(rel, entries), Folders(entries), Notes(entries))
  {
    var fs, ns := Folders(entries), Notes(entries);
    NoteKinds(entries);
    assert forall i :: 0 <= i < |ns| ==> !ns[i].isDirectory;
    GroupNodesAt(rel, fs, ns, entries);
  }

  /** `n` is the node of entry `e` at `rel`, leaving aside a folder's children. */
  predicate Describes(rel: string, n: FileNode, e: Desk.DirEntry)
  {
    n.name == e.name && n.isFolder == e.isDirectory && n.id == n.path && n.path == ChildPath(rel, e.name)
    && (!e.isDirectory ==> n.children == [])
  }

  /** `t` describes the folders of `fs`, then the notes of `ns`, and these are sorted by name. */
  predicate DescribesGroups(rel: string, t: seq<FileNode>, fs: seq<Desk.DirEntry>, ns: seq<Desk.DirEntry>)
  {
    && |t| == |fs| + |ns|
    && (forall i :: 0 <= i < |fs| ==> Describes(rel, t[i], fs[i]) && FolderEntry(fs[i]))
    && (forall i :: 0 <= i < |ns| ==> Describes(rel, t[|fs| + i], ns[i]) && NoteEntry(ns[i]))
    && SortedBy(fs, Desk.NameOf) && SortedBy(ns, Desk.NameOf)
  }

  lemma NodeForDescribes(rel: string, e: Desk.DirEntry)
    ensures Describes(rel, NodeFor(rel, e), e)
  {
  }

  lemma DescribedByNodes(rel: string, t: seq<FileNode>, fs: seq<Desk.DirEntry>, ns: seq<Desk.DirEntry>)
    requires NodesOfGroups(rel, t, fs, ns)
    requires forall i :: 0 <= i < |fs| ==> FolderEntry(fs[i])
    requires forall i :: 0 <= i < |ns| ==> NoteEntry(ns[i])
    requires SortedBy(fs, Desk.NameOf) && SortedBy(ns, Desk.NameOf)
    ensures DescribesGroups(rel, t, fs, ns)
  {
    forall i | 0 <= i < |fs| ensures Describes(rel, t[i], fs[i]) {
      NodeForDescribes(rel, fs[i]);
    }
    forall i | 0 <= i < |ns| ensures Describes(rel, t[|fs| + i], ns[i]) {
      NodeForDescribes(rel, ns[i]);
    }
  }

  /** Nodes describing sorted folders, then sorted notes, make one level of the desktop's shape. */
  lemma GroupsLevel(rel: string, t: seq<FileNode>, fs: seq<Desk.DirEntry>, ns: seq<Desk.DirEntry>)
    requires DescribesGroups(rel, t, fs, ns)
    ensures Desk.LevelShape(rel, t)
  {
    forall i | 0 <= i < |t|
      ensures t[i].id == t[i].path && t[i].path == ChildPath(rel, t[i].name)
      ensures !SyncProtocol.Skipped(t[i].name)
      ensures !t[i].isFolder ==> EndsWith(t[i].name, ".md") && t[i].children == []
    {
      if i >= |fs| {
        assert Describes(rel, t[|fs| + (i - |fs|)], ns[i - |fs|]);
      }
    }
    forall i, j | 0 <= i < j < |t|
      ensures (t[j].isFolder ==> t[i].isFolder)
      ensures (t[i].isFolder == t[j].isFolder ==> Le(t[i].name, t[j].name))
    {
      if j < |fs| {
        assert Le(Desk.NameOf(fs[i]), Desk.NameOf(fs[j]));
      } else if i >= |fs| {
        assert Describes(rel, t[|fs| + (i - |fs|)], ns[i - |fs|]);
        assert Describes(rel, t[|fs| + (j - |fs|)], ns[j - |fs|]);
        assert Le(Desk.NameOf(ns[i - |fs|]), Desk.NameOf(ns[j - |fs|]));
      } else {
        assert Describes(rel, t[|fs| + (j - |fs|)], ns[j - |fs|]);
      }
    }
  }

  /**
   * buildTree lays out every level as the desktop tree does: ids and paths
   * under `rel`, no hidden names or node_modules, folders first, each kind
   * in the default string order, notes only among the files.
   */
  lemma TreeShape(rel: string, entries: seq<Desk.DirEntry>)
    ensures Desk.LevelShape(rel, TreeOf(rel, entries))
  {
    TreeNodesAt(rel, entries);
    GroupKinds(entries);
    DescribedByNodes(rel, TreeOf(rel, entries), Folders(entries), Notes(entries));
    GroupsLevel(rel, TreeOf(rel, entries), Folders(entries), Notes(entries));
  }

  lemma NodeInGroups(rel: string, t: seq<FileNode>, fs: seq<Desk.DirEntry>, ns: seq<Desk.DirEntry>, e: Desk.DirEntry)
    requires NodesOfGroups(rel, t, fs, ns)
    requires e in fs || e in ns
    ensures NodeFor(rel, e) in t
  {
    if e in fs {
      var k :| 0 <= k < |fs| && fs[k] == e;
      assert t[k] == NodeFor(rel, e);
    } else {
      var k :| 0 <= k < |ns| && ns[k] == e;
      assert t[|fs| + k] == NodeFor(rel, e);
    }
  }

  lemma NodeFromGroups(rel: string, t: seq<FileNode>, fs: seq<Desk.DirEntry>, ns: seq<Desk.DirEntry>, i: nat)
    requires NodesOfGroups(rel, t, fs, ns)
    requires i < |t|
    ensures i < |fs| ==> t[i] == NodeFor(rel, fs[i])
    ensures i >= |fs| ==> t[i] == NodeFor(rel, ns[i - |fs|])
  {
    if i >= |fs| {
      assert t[|fs| + (i - |fs|)] == NodeFor(rel, ns[i - |fs|]);
    }
  }

  /** Every visible folder and visible note of the listing has its node in buildTree's result. */
  lemma TreeCovers(rel: string, entries: seq<Desk.DirEntry>, i: nat)
    requires i < |entries| && Desk.Kept(entries[i])
    ensures NodeFor(rel, entries[i]) in TreeOf(rel, entries)
  {
    TreeNodesAt(rel, entries);
    GroupsCover(entries);
    assert FolderEntry(entries[i]) || NoteEntry(entries[i]);
    NodeInGroups(rel, TreeOf(rel, entries), Folders(entries), Notes(entries), entries[i]);
  }

  /** Every node of buildTree's result is the node of a visible folder or visible note of the listing. */
  lemma TreeFromKept(rel: string, entries: seq<Desk.DirEntry>, i: nat)
    requires i < |TreeOf(rel, entries)|
    ensures exists k :: 0 <= k < |entries| && Desk.Kept(entries[k]) && TreeOf(rel, entries)[i] == NodeFor(rel, entries[k])
  {
    var fs, ns := Folders(entries), Notes(entries);
    TreeNodesAt(rel, entries);
    NodeFromGroups(rel, TreeOf(rel, entries), fs, ns, i);
    GroupKinds(entries);
    GroupsCover(entries);
    var e := if i < |fs| then fs[i] else ns[i - |fs|];
    assert FolderEntry(e) || NoteEntry(e);
    assert e in multiset(entries) by {
      if i < |fs| {
        assert e in multiset(fs);
      } else {
        assert e in multiset(ns);
      }
    }
    var k :| 0 <= k < |entries| && entries[k] == e;
    assert Desk.Kept(entries[k]);
  }

  /** buildTree's first loop: the visible folders and the visible notes, in listing order. */
  method Partition(entries: seq<Desk.DirEntry>) returns (folders: seq<Desk.DirEntry>, files: seq<Desk.DirEntry>)
    ensures folders == Filter(entries, FolderEntry)
    ensures files == Filter(entries, NoteEntry)
  {
    folders, files := [], [];
    for i := 0 to |entries|
      invariant folders == Filter(entries[..i], FolderEntry)
      invariant files == Filter(entries[..i], NoteEntry)
    {
      var e := entries[i];
      assert entries[..i + 1][..i] == entries[..i];
      if !SyncProtocol.Skipped(e.name) {
        if e.isDirectory {
          folders := folders + [e];
        } else if EndsWith(e.name, ".md") {
          files := files + [e];
        }
      }
    }
    assert entries[..|entries|] == entries;
  }

  /** buildTree: the folders and notes of the listing sorted by name, then a node per folder, then a node per note. */
  method BuildTree(rel: string, entries: seq<Desk.DirEntry>) returns (nodes: seq<FileNode>)
    ensures nodes == TreeOf(rel, entries)
    decreases entries, 1
  {
    var folders, files := Partition(entries);
    folders := SortBy(folders, Desk.NameOf);
    files := SortBy(files, Desk.NameOf);
    assert folders == Folders(entries);
    GroupsCover(entries);
    FolderKinds(entries);
    var folderNodes := BuildFolderNodes(rel, folders, entries);
    var noteNodes := BuildNoteNodes(rel, files);
    nodes := folderNodes + noteNodes;
  }

  /** buildTree's note loop: a leaf node per note. */
  method BuildNoteNodes(rel: string, files: seq<Desk.DirEntry>) returns (nodes: seq<FileNode>)
    ensures nodes == NoteNodes(rel, files)
  {
    nodes := [];
    for i := 0 to |files|
      invariant nodes == NoteNodes(rel, files[..i])
    {
      var file := files[i];
      var p := ChildPath(rel, file.name);
      assert files[..i + 1][..i] == files[..i];
      nodes := nodes + [FileNode(p, file.name, false, p, [])];
    }
    assert files[..|files|] == files;
  }

  lemma FolderNodesSnoc(rel: string, folders: seq<Desk.DirEntry>, parent: seq<Desk.DirEntry>, i: nat)
    requires i < |folders| && multiset(folders[..i + 1]) <= multiset(parent)
    ensures multiset(folders[..i]) <= multiset(parent)
    ensures FolderNodes(rel, folders[..i + 1], parent) == FolderNodes(rel, folders[..i], parent) + [NodeFor(rel, folders[i])]
  {
    var f := folders[..i + 1];
    assert f[..|f| - 1] == folders[..i];
    assert f == folders[..i] + [folders[i]];
  }

  /** A longer prefix of folders taken from parent is still taken from it, and so is its last folder. */
  lemma PrefixWithin(folders: seq<Desk.DirEntry>, parent: seq<Desk.DirEntry>, i: nat)
    requires i < |folders| && multiset(folders) <= multiset(parent)
    ensures multiset(folders[..i + 1]) <= multiset(parent)
    ensures folders[i] in multiset(parent)
  {
    assert folders == folders[..i + 1] + folders[i + 1..];
    assert folders[..i + 1] == folders[..i] + [folders[i]];
  }

  /** buildTree's folder loop: a node per folder, each with the tree of its own listing. */
  method BuildFolderNodes(rel: string, folders: seq<Desk.DirEntry>, parent: seq<Desk.DirEntry>) returns (nodes: seq<FileNode>)
    requires multiset(folders) <= multiset(parent)
    requires forall i :: 0 <= i < |folders| ==> folders[i].isDirectory
    ensures nodes == FolderNodes(rel, folders, parent)
    decreases parent, 0
  {
    nodes := [];
    for i := 0 to |folders|
      invariant multiset(folders[..i]) <= multiset(parent)
      invariant nodes == FolderNodes(rel, folders[..i], parent)
    {
      var folder := folders[i];
      PrefixWithin(folders, parent, i);
      FolderNodesSnoc(rel, folders, parent, i);
      var p := ChildPath(rel, folder.name);
      var children := BuildTree(p, folder.children);
      nodes := nodes + [FileNode(p, folder.name, true, p, children)];
    }
    assert folders[..|folders|] == folders;
  }

  // ---- the service ------------------------------------------------------------------

  /** A request to the device's file system. */
  datatype FsCall =
    | ReadAsString(path: string)
    | WriteAsString(path: string, content: string)
    | MakeDirectory(path: string)
    | Move(from: string, to: string)

  class FileService {
    var workspacePath: string
    /** The file-system requests made so far, oldest first. */
    var calls: seq<FsCall>

    constructor()
      ensures workspacePath == [] && calls == []
    {
      workspacePath := [];
      calls := [];
    }

    method Initialize(workspacePath: string)
      modifies this
      ensures this.workspacePath == workspacePath && calls == old(calls)
    {
      this.workspacePath := workspacePath;
    }

    /**
     * readFile: `stored` is what the file system's read of the resolved path
     * yields, the text or the error its promise rejects with.
     */
    method ReadFile(rel: string, stored: Result<string>) returns (r: Result<string>)
      modifies this
      ensures workspacePath == old(workspacePath)
      ensures ValidatePathAsWritten(rel).Err? ==> r == Err(ValidatePathAsWritten(rel).error) && calls == old(calls)
      ensures ValidatePathAsWritten(rel).Ok? ==> r == stored && calls == old(calls) + [ReadAsString(ResolvePath(workspacePath, rel))]
    {
      var v := ValidatePathAsWritten(rel);
      if v.Err? {
        return Err(v.error);
      }
      calls := calls + [ReadAsString(ResolvePath(workspacePath, rel))];
      return stored;
    }

    method WriteFile(rel: string, content: string) returns (r: Result<()>)
      modifies this
      ensures workspacePath == old(workspacePath)
      ensures r == ValidatePathAsWritten(rel)
      ensures calls == old(calls) + (if r.Ok? then [WriteAsString(ResolvePath(workspacePath, rel), content)] else [])
    {
      r := ValidatePathAsWritten(rel);
      if r.Ok? {
        calls := calls + [WriteAsString(ResolvePath(workspacePath, rel), content)];
      }
    }

    /** createFile: `now` is the creation time as an ISO 8601 string. */
    method CreateFile(dirPath: string, fileName: string, now: string) returns (r: Result<string>)
      modifies this
      ensures workspacePath == old(workspacePath)
      ensures r == CreateFilePath(dirPath, fileName)
      ensures r.Err? ==> calls == old(calls)
      ensures r.Ok? ==>
        calls == old(calls) + [WriteAsString(ResolvePath(workspacePath, r.value), NoteContent(NoteTitleAsWritten(NoteName(fileName)), now))]
    {
      r := CreateFilePath(dirPath, fileName);
      if r.Ok? {
        var name := NoteName(fileName);
        calls := calls + [WriteAsString(ResolvePath(workspacePath, r.value), NoteContent(NoteTitleAsWritten(name), now))];
      }
    }

    /**
     * deleteFile: the file moves to the trash; the trash directory is made
     * first when `trashExists` (what the file system reports) is false.
     * `now` is the time in milliseconds.
     */
    method DeleteFile(rel: string, now: nat, trashExists: bool) returns (r: Result<()>)
      modifies this
      ensures workspacePath == old(workspacePath)
      ensures r == ValidatePathAsWritten(rel)
      ensures r.Err? ==> calls == old(calls)
      ensures r.Ok? ==> (calls == old(calls) +
        (if trashExists then [] else [MakeDirectory(TrashDir(workspacePath))]) +
        [Move(ResolvePath(workspacePath, rel), TrashPath(workspacePath, rel, now))])
    {
      r := ValidatePathAsWritten(rel);
      if r.Err? {
        return;
      }
      var trashDir := TrashDir(workspacePath);
      if !trashExists {
        calls := calls + [MakeDirectory(trashDir)];
      }
      calls := calls + [Move(ResolvePath(workspacePath, rel), trashDir + "/" + TrashName(rel, now))];
    }

    /** renameFile: both paths are checked, the old one first. */
    method RenameFile(oldPath: string, newPath: string) returns (r: Result<()>)
      modifies this
      ensures workspacePath == old(workspacePath)
      ensures ValidatePathAsWritten(oldPath).Err? ==> r == ValidatePathAsWritten(oldPath)
      ensures ValidatePathAsWritten(oldPath).Ok? ==> r == ValidatePathAsWritten(newPath)
      ensures r.Err? ==> calls == old(calls)
      ensures r.Ok? ==> calls == old(calls) + [Move(ResolvePath(workspacePath, oldPath), ResolvePath(workspacePath, newPath))]
    {
      r := ValidatePathAsWritten(oldPath);
      if r.Err? {
        return;
      }
      r := ValidatePathAsWritten(newPath);
      if r.Err? {
        return;
      }
      calls := calls + [Move(ResolvePath(workspacePath, oldPath), ResolvePath(workspacePath, newPath))];
    }

    method CreateFolder(parentPath: string, folderName: string) returns (r: Result<string>)
      modifies this
      ensures workspacePath == old(workspacePath)
      ensures r == CreateFolderPath(parentPath, folderName)
      ensures r.Err? ==> calls == old(calls)
      ensures r.Ok? ==> calls == old(calls) + [MakeDirectory(ResolvePath(workspacePath, r.value))]
    {
      r := CreateFolderPath(parentPath, folderName);
      if r.Ok? {
        calls := calls + [MakeDirectory(ResolvePath(workspacePath, r.value))];
      }
    }

    /** getFileTree: `entries` is the listing of the workspace directory, nested. */
    method GetFileTree(entries: seq<Desk.DirEntry>) returns (nodes: seq<FileNode>)
      ensures nodes == TreeOf([], entries)
    {
      nodes := BuildTree([], entries);
    }
  }
}
