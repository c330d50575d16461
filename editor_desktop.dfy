// The desktop editor's tab store: the open tabs, the active tab and the
// preview toggle, replaced wholesale by each action. File reads and writes
// arrive as outcomes (None or false for a failed call).
module EditorDesktop {
  import opened Wrappers
  import opened Strings
  import opened Paths

  datatype EditorTab = EditorTab(
    id: string,
    title: string,
    filePath: string,
    content: string,
    savedContent: string)

  /** getFileName: the last '/' segment, or the whole path when that segment is empty. */
  function GetFileName(filePath: string): (r: string)
    ensures r == filePath || (r != [] && '/' !in r && EndsWith(filePath, r) && filePath[|filePath| - |r| - 1] == '/')
    ensures '/' !in filePath ==> r == filePath
    ensures filePath != [] && filePath[|filePath| - 1] == '/' ==> r == filePath
  {
    if '/' !in filePath then LastPieceNoSep(filePath, '/'); GetFileNameOf(filePath)
    else LastPieceAfterSep(filePath, '/'); GetFileNameOf(filePath)
  }

  function GetFileNameOf(filePath: string): string
  {
    var last := LastPiece(filePath, '/');
    if last == [] then filePath else last
  }

  // TEXT_EXTENSIONS, in four groups.
  const MARKUP_EXTENSIONS: set<string> := {
    ".md", ".markdown", ".txt", ".json", ".js", ".ts", ".jsx", ".tsx",
    ".css", ".scss", ".less", ".html", ".htm", ".xml", ".svg"
  }
  const CONFIG_EXTENSIONS: set<string> := {
    ".yaml", ".yml", ".toml", ".ini", ".conf", ".cfg",
    ".csv", ".log", ".sh", ".bash", ".zsh", ".fish"
  }
  const CODE_EXTENSIONS: set<string> := {
    ".py", ".rb", ".go", ".rs", ".java", ".kt", ".c", ".cpp", ".h", ".hpp",
    ".swift", ".m", ".r", ".lua", ".php", ".pl", ".sql"
  }
  const DOTFILE_EXTENSIONS: set<string> := {
    ".env", ".gitignore", ".editorconfig", ".prettierrc", ".eslintrc"
  }
  const TEXT_EXTENSIONS: set<string> :=
    MARKUP_EXTENSIONS + CONFIG_EXTENSIONS + CODE_EXTENSIONS + DOTFILE_EXTENSIONS

  /**
   * isTextFile as written: a path without any '.' is text; otherwise '.'
   * and the lower-cased text after the path's last '.' must be a known
   * extension. The last '.' may sit in a directory name.
   */
  predicate IsTextFileAsWritten(filePath: string)
  {
    '.' !in filePath || "." + Lower(LastPiece(filePath, '.')) in TEXT_EXTENSIONS
  }

  /** isTextFile with the extension taken from the file name. */
  predicate IsTextFile(filePath: string)
  {
    IsTextFileAsWritten(Basename(filePath))
  }

  /**
   * An extensionless file inside a dotted folder ("notes.v2/todo") is sent
   * to the system opener as written, yet its name marks it as text.
   */
  lemma ExtensionlessInDottedFolder(dir: string, name: string)
    requires '.' in dir && '.' !in name && '/' !in name
    ensures !IsTextFileAsWritten(dir + "/" + name)
    ensures IsTextFile(dir + "/" + name)
  {
    var i, j := DottedFolderPositions(dir, name);
    SlashAfterLastDot(dir + "/" + name, i, j);
    DotlessNameIsText(dir + "/" + name, j);
  }

  /** In dir + "/" + name, the last '.' (in dir) and the '/' before the name. */
  lemma DottedFolderPositions(dir: string, name: string) returns (i: nat, j: nat)
    requires '.' in dir && '.' !in name && '/' !in name
    ensures i < j < |dir + "/" + name| && (dir + "/" + name)[i] == '.' && (dir + "/" + name)[j] == '/'
    ensures forall k :: i < k < |dir + "/" + name| ==> (dir + "/" + name)[k] != '.'
    ensures forall k :: j < k < |dir + "/" + name| ==> (dir + "/" + name)[k] != '/'
  {
    var p := dir + "/" + name;
    var r := LastPiece(dir, '.');
    LastPieceAfterSep(dir, '.');
    assert r != dir;
    assert dir[|dir| - |r|..] == r;
    i := |dir| - |r| - 1;
    j := |dir|;
    assert p[j] == '/';
    forall k | i < k < |p| ensures p[k] != '.' {
      if k < j {
        assert p[k] == dir[k] == r[k - i - 1];
      } else if k > j {
        assert p[k] == name[k - j - 1];
      }
    }
    forall k | j < k < |p| ensures p[k] != '/' {
      assert p[k] == name[k - j - 1];
    }
  }

  /**
   * A path whose last '.' comes before its last '/': read as written, the
   * extension holds a '/' and is unknown.
   */
  lemma SlashAfterLastDot(p: string, i: nat, j: nat)
    requires i < j < |p| && p[i] == '.' && p[j] == '/'
    requires forall k :: i < k < |p| ==> p[k] != '.'
    ensures !IsTextFileAsWritten(p)
  {
    var x := p[i + 1..];
    assert x[j - i - 1] == '/';
    LastPieceFromEnd(p, '.', |p| - 1 - i);
    assert LastPiece(p, '.') == x;
    SlashedExtensionNotText(p);
  }

  /** A path whose file name, after its last '/', holds no '.' is text. */
  lemma DotlessNameIsText(p: string, j: nat)
    requires j < |p| && p[j] == '/'
    requires forall k :: j < k < |p| ==> p[k] != '/' && p[k] != '.'
    ensures IsTextFile(p)
  {
    var b := p[j + 1..];
    assert '.' !in b by {
      forall k | 0 <= k < |b| ensures b[k] != '.' {
        assert b[k] == p[j + 1 + k];
      }
    }
    LastPieceFromEnd(p, '/', |p| - 1 - j);
    assert Basename(p) == b;
    DotlessIsText(b);
  }

  /** A path whose text after the last '.' holds a '/' is not text, read as written. */
  lemma SlashedExtensionNotText(p: string)
    requires '.' in p && '/' in LastPiece(p, '.')
    ensures !IsTextFileAsWritten(p)
  {
    var x := LastPiece(p, '.');
    SlashSurvivesLower(x);
    SlashedExtensionUnknown("." + Lower(x));
  }

  /** Lower-casing and a leading '.' keep a '/'. */
  lemma SlashSurvivesLower(x: string)
    requires '/' in x
    ensures '/' in "." + Lower(x)
  {
    var k :| 0 <= k < |x| && x[k] == '/';
    var e := "." + Lower(x);
    assert e[k + 1] == LowerChar(x[k]) == '/';
  }

  lemma DotlessIsText(p: string)
    requires '.' !in p
    ensures IsTextFileAsWritten(p)
  {
  }

  /** No known extension holds a '/'. */
  lemma SlashedExtensionUnknown(e: string)
    requires '/' in e
    ensures e !in TEXT_EXTENSIONS
  {
    NoSlashInMarkup();
    NoSlashInConfig();
    NoSlashInCode();
    NoSlashInDotfiles();
  }

  lemma NoSlashInMarkup()
    ensures forall e :: e in MARKUP_EXTENSIONS ==> '/' !in e
  {
  }

  lemma NoSlashInConfig()
    ensures forall e :: e in CONFIG_EXTENSIONS ==> '/' !in e
  {
  }

  lemma NoSlashInCode()
    ensures forall e :: e in CODE_EXTENSIONS ==> '/' !in e
  {
  }

  lemma NoSlashInDotfiles()
    ensures forall e :: e in DOTFILE_EXTENSIONS ==> '/' !in e
  {
  }

  /** Both readings agree whenever the text after the last '.' holds no '/'. */
  lemma TextFileAgrees(filePath: string)
    requires '/' !in LastPiece(filePath, '.')
    ensures IsTextFile(filePath) == IsTextFileAsWritten(filePath)
  {
    LastPieceWithin(filePath, '.', '/');
  }

  /** Whether a file opens as text depends on its name only, not on the folder holding it. */
  lemma TextFileIgnoresFolder(dir: string, name: string)
    requires '/' !in name
    ensures IsTextFile(dir + "/" + name) == IsTextFile(name)
  {
    var p := dir + "/" + name;
    var b := p[|dir| + 1..];
    assert b == name;
    assert p[|dir|] == '/';
    LastPieceFromEnd(p, '/', |name|);
    assert Basename(p) == name;
    LastPieceNoSep(name, '/');
  }

  /** tabs.find(t => t.filePath === filePath) as an index. */
  function PathIndex(tabs: seq<EditorTab>, filePath: string): Option<nat>
  {
    FindFirst(tabs, (t: EditorTab) => t.filePath == filePath)
  }

  /** tabs.findIndex(t => t.id === tabId), None for -1. */
  function IdIndex(tabs: seq<EditorTab>, tabId: string): Option<nat>
  {
    FindFirst(tabs, (t: EditorTab) => t.id == tabId)
  }

  function NotId(tabId: string): EditorTab -> bool
  {
    (t: EditorTab) => t.id != tabId
  }

  /** Every tab is keyed by its path, and no path is open twice. */
  predicate TabsValid(tabs: seq<EditorTab>)
  {
    && (forall i :: 0 <= i < |tabs| ==> tabs[i].id == tabs[i].filePath)
    && (forall i, j :: 0 <= i < j < |tabs| ==> tabs[i].filePath != tabs[j].filePath)
  }

  lemma IdsUnique(tabs: seq<EditorTab>, k: nat)
    requires TabsValid(tabs) && k < |tabs|
    ensures forall j :: 0 <= j < |tabs| && j != k ==> tabs[j].id != tabs[k].id
  {
    forall j | 0 <= j < |tabs| && j != k
      ensures tabs[j].id != tabs[k].id
    {
      if j < k {
        assert tabs[j].filePath != tabs[k].filePath;
      } else {
        assert tabs[k].filePath != tabs[j].filePath;
      }
    }
  }

  /** The open tab kept after closing another: filtering by id removes just that position. */
  lemma CloseRemovesOne(tabs: seq<EditorTab>, k: nat)
    requires TabsValid(tabs) && k < |tabs|
    ensures Filter(tabs, NotId(tabs[k].id)) == Removed(tabs, k)
    ensures TabsValid(Removed(tabs, k))
  {
    FilterByIdRemoves(tabs, k);
    RemovedValid(tabs, k);
  }

  lemma FilterByIdRemoves(tabs: seq<EditorTab>, k: nat)
    requires TabsValid(tabs) && k < |tabs|
    ensures Filter(tabs, NotId(tabs[k].id)) == Removed(tabs, k)
  {
    IdsUnique(tabs, k);
    FilterRemovesOne(tabs, NotId(tabs[k].id), k);
  }

  lemma RemovedValid(tabs: seq<EditorTab>, k: nat)
    requires TabsValid(tabs) && k < |tabs|
    ensures TabsValid(Removed(tabs, k))
  {
    var r := Removed(tabs, k);
    forall i, j | 0 <= i < j < |r|
      ensures r[i].filePath != r[j].filePath
    {
      var i' := if i < k then i else i + 1;
      var j' := if j < k then j else j + 1;
      assert r[i] == tabs[i'] && r[j] == tabs[j'] && i' < j';
    }
  }

  /** The tabs without position k. */
  function Removed(tabs: seq<EditorTab>, k: nat): (r: seq<EditorTab>)
    requires k < |tabs|
    ensures |r| == |tabs| - 1
    ensures forall i :: 0 <= i < |r| ==> r[i] == if i < k then tabs[i] else tabs[i + 1]
  {
    tabs[..k] + tabs[k + 1..]
  }

  /** The tab that takes over from the closed tab at k: its right neighbour, else its left one. */
  function Neighbour(tabs: seq<EditorTab>, k: nat): Option<string>
    requires k < |tabs|
  {
    if k + 1 < |tabs| then Some(tabs[k + 1].id)
    else if k > 0 then Some(tabs[k - 1].id)
    else None
  }

  /** Closing the active tab throws when the active id names no tab and some tab is open. */
  predicate CloseFails(tabs: seq<EditorTab>, activeTabId: Option<string>, tabId: string)
  {
    activeTabId == Some(tabId) && IdIndex(tabs, tabId).None? && tabs != []
  }

  class EditorStore {
    var tabs: seq<EditorTab>
    var activeTabId: Option<string>
    var showPreview: bool
    /** Paths handed to the system's default application. */
    var externalOpens: seq<string>
    /** Files written by saveFile, with the text written. */
    var writes: seq<(string, string)>

    predicate Valid()
      reads this
    {
      TabsValid(tabs)
    }

    constructor()
      ensures Valid()
      ensures tabs == [] && activeTabId == None && showPreview
      ensures externalOpens == [] && writes == []
    {
      tabs := [];
      activeTabId := None;
      showPreview := true;
      externalOpens := [];
      writes := [];
    }

    /**
     * openFile: a file isTextFile (as written) rejects goes to the system opener; an open path only
     * becomes active; otherwise the text read becomes a new clean tab at the
     * end, keyed by its path, and active. A failed read changes nothing.
     */
    method OpenFile(filePath: string, read: Option<string>)
      requires Valid()
      modifies this
      ensures Valid()
      ensures showPreview == old(showPreview) && writes == old(writes)
      ensures !IsTextFileAsWritten(filePath) ==>
        && externalOpens == old(externalOpens) + [filePath]
        && tabs == old(tabs) && activeTabId == old(activeTabId)
      ensures IsTextFileAsWritten(filePath) ==> externalOpens == old(externalOpens)
      ensures IsTextFileAsWritten(filePath) && PathIndex(old(tabs), filePath).Some? ==>
        && tabs == old(tabs)
        && activeTabId == Some(filePath)
      ensures IsTextFileAsWritten(filePath) && PathIndex(old(tabs), filePath).None? ==>
        if read.None? then tabs == old(tabs) && activeTabId == old(activeTabId)
        else
          && tabs == old(tabs) + [EditorTab(filePath, GetFileName(filePath), filePath, read.value, read.value)]
          && activeTabId == Some(filePath)
    {
      if !IsTextFileAsWritten(filePath) {
        externalOpens := externalOpens + [filePath];
        return;
      }
      var existing := PathIndex(tabs, filePath);
      if existing.Some? {
        activeTabId := Some(tabs[existing.value].id);
        return;
      }
      if read.Some? {
        var newTab := EditorTab(filePath, GetFileName(filePath), filePath, read.value, read.value);
        tabs := tabs + [newTab];
        activeTabId := Some(newTab.id);
      }
    }

    /** reloadFile: every tab on that path takes the text read as both content and saved content. */
    method ReloadFile(filePath: string, read: Option<string>)
      requires Valid()
      modifies this
      ensures Valid()
      ensures activeTabId == old(activeTabId) && showPreview == old(showPreview)
      ensures externalOpens == old(externalOpens) && writes == old(writes)
      ensures read.None? ==> tabs == old(tabs)
      ensures |tabs| == |old(tabs)|
      ensures read.Some? ==> forall i :: 0 <= i < |tabs| ==>
        tabs[i] == if old(tabs)[i].filePath == filePath
          then old(tabs)[i].(content := read.value, savedContent := read.value)
          else old(tabs)[i]
      ensures read.Some? ==> forall i :: 0 <= i < |tabs| && tabs[i].filePath == filePath ==>
        tabs[i].content == tabs[i].savedContent == read.value
    {
      if read.Some? {
        var c := read.value;
        tabs := seq(|tabs|, i requires 0 <= i < |tabs| reads this =>
          if tabs[i].filePath == filePath then tabs[i].(content := c, savedContent := c) else tabs[i]);
      }
    }

    /**
     * closeTab: the tab leaves the list. When it was active, its right
     * neighbour becomes active, else its left neighbour, else none. When the
     * active id names no tab, the lookup of position -1 fails and nothing
     * changes (ok is false).
     */
    method CloseTab(tabId: string) returns (ok: bool)
      requires Valid()
      modifies this
      ensures Valid()
      ensures showPreview == old(showPreview)
      ensures externalOpens == old(externalOpens) && writes == old(writes)
      ensures ok == !CloseFails(old(tabs), old(activeTabId), tabId)
      ensures !ok ==> tabs == old(tabs) && activeTabId == old(activeTabId)
      ensures ok ==> tabs == Filter(old(tabs), NotId(tabId))
      ensures ok && old(activeTabId) != Some(tabId) ==> activeTabId == old(activeTabId)
      ensures IdIndex(old(tabs), tabId).None? ==> tabs == old(tabs)
      ensures IdIndex(old(tabs), tabId).Some? ==>
        tabs == Removed(old(tabs), IdIndex(old(tabs), tabId).value)
      ensures IdIndex(old(tabs), tabId).Some? && old(activeTabId) == Some(tabId) ==>
        activeTabId == Neighbour(old(tabs), IdIndex(old(tabs), tabId).value)
    {
      var idx := IdIndex(tabs, tabId);
      var newTabs := Filter(tabs, NotId(tabId));
      if idx.Some? {
        var k := idx.value;
        CloseRemovesOne(tabs, k);
        assert newTabs == Removed(tabs, k);
        assert k < |newTabs| ==> newTabs[k] == tabs[k + 1];
        assert 0 < k == |newTabs| ==> newTabs[k - 1] == tabs[k - 1];
      } else {
        FilterKeepsAll(tabs, NotId(tabId));
      }
      var newActiveId := activeTabId;
      if activeTabId == Some(tabId) {
        if newTabs == [] {
          newActiveId := None;
        } else if idx.None? {
          // newTabs[-1] is undefined and reading its id throws.
          ok := false;
          return;
        } else if idx.value >= |newTabs| {
          newActiveId := Some(newTabs[|newTabs| - 1].id);
        } else {
          newActiveId := Some(newTabs[idx.value].id);
        }
      }
      tabs := newTabs;
      activeTabId := newActiveId;
      ok := true;
    }

    /** setActiveTab: any id is accepted. */
    method SetActiveTab(tabId: string)
      modifies this
      ensures activeTabId == Some(tabId)
      ensures tabs == old(tabs) && showPreview == old(showPreview)
      ensures externalOpens == old(externalOpens) && writes == old(writes)
    {
      activeTabId := Some(tabId);
    }

    /** updateContent: only the content of the tabs with that id changes. */
    method UpdateContent(tabId: string, content: string)
      requires Valid()
      modifies this
      ensures Valid()
      ensures activeTabId == old(activeTabId) && showPreview == old(showPreview)
      ensures externalOpens == old(externalOpens) && writes == old(writes)
      ensures |tabs| == |old(tabs)|
      ensures forall i :: 0 <= i < |tabs| ==>
        tabs[i] == if old(tabs)[i].id == tabId then old(tabs)[i].(content := content) else old(tabs)[i]
      ensures forall i :: 0 <= i < |tabs| ==>
        tabs[i].savedContent == old(tabs)[i].savedContent && tabs[i].filePath == old(tabs)[i].filePath
    {
      tabs := seq(|tabs|, i requires 0 <= i < |tabs| reads this =>
        if tabs[i].id == tabId then tabs[i].(content := content) else tabs[i]);
    }

    method TogglePreview()
      modifies this
      ensures showPreview == !old(showPreview)
      ensures tabs == old(tabs) && activeTabId == old(activeTabId)
      ensures externalOpens == old(externalOpens) && writes == old(writes)
    {
      showPreview := !showPreview;
    }

    /**
     * saveFile: writes the first tab with that id to its path; on success
     * the saved content of the tabs with that id becomes their content, so
     * the tab is clean. A failed write or an unknown id changes nothing.
     */
    method SaveFile(tabId: string, writeOk: bool)
      requires Valid()
      modifies this
      ensures Valid()
      ensures activeTabId == old(activeTabId) && showPreview == old(showPreview)
      ensures externalOpens == old(externalOpens)
      ensures IdIndex(old(tabs), tabId).None? || !writeOk ==> tabs == old(tabs) && writes == old(writes)
      ensures IdIndex(old(tabs), tabId).Some? && writeOk ==>
        var tab := old(tabs)[IdIndex(old(tabs), tabId).value];
        && writes == old(writes) + [(tab.filePath, tab.content)]
        && |tabs| == |old(tabs)|
        && (forall i :: 0 <= i < |tabs| ==>
              tabs[i] == if old(tabs)[i].id == tabId
                then old(tabs)[i].(savedContent := old(tabs)[i].content)
                else old(tabs)[i])
        && !IsDirty(tabId)
    {
      var idx := IdIndex(tabs, tabId);
      if idx.None? || !writeOk {
        return;
      }
      var tab := tabs[idx.value];
      writes := writes + [(tab.filePath, tab.content)];
      tabs := seq(|tabs|, i requires 0 <= i < |tabs| reads this =>
        if tabs[i].id == tabId then tabs[i].(savedContent := tabs[i].content) else tabs[i]);
      assert tabs[idx.value].content == tabs[idx.value].savedContent;
    }

    /** isDirty: the tab's content differs from what was last read or saved; false for an unknown id. */
    function IsDirty(tabId: string): (r: bool)
      reads this
      ensures IdIndex(tabs, tabId).None? ==> !r
      ensures r ==> exists i :: 0 <= i < |tabs| && tabs[i].id == tabId && tabs[i].content != tabs[i].savedContent
    {
      var idx := IdIndex(tabs, tabId);
      idx.Some? && tabs[idx.value].content != tabs[idx.value].savedContent
    }

    /** getActiveTab: the tab whose id is the active id, if any. */
    function GetActiveTab(): (r: Option<EditorTab>)
      reads this
      ensures r.Some? ==> r.value in tabs && activeTabId == Some(r.value.id)
      ensures r.None? ==> forall i :: 0 <= i < |tabs| ==> activeTabId != Some(tabs[i].id)
    {
      var active := activeTabId;
      match FindFirst(tabs, (t: EditorTab) => Some(t.id) == active)
      case None => None
      case Some(i) => Some(tabs[i])
    }
  }

  /** With paths unique, a store is dirty for an id exactly when some tab with that id is edited. */
  lemma DirtyMeansEdited(s: EditorStore, tabId: string)
    requires s.Valid()
    ensures s.IsDirty(tabId) <==>
      exists i :: 0 <= i < |s.tabs| && s.tabs[i].id == tabId && s.tabs[i].content != s.tabs[i].savedContent
  {
    var idx := IdIndex(s.tabs, tabId);
    if idx.Some? {
      IdsUnique(s.tabs, idx.value);
    }
  }
}
