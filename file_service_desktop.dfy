// The desktop file service: the workspace containment check, the file-tree
// listing, change subscriptions, trash naming and the template of a new note.
module DesktopFileService {
  import opened Wrappers
  import opened Strings
  import opened Paths
  import opened SyncModels
  import opened Ordering
  import opened FileTree
  import SyncProtocol

  // ---- path.resolve on '/'-separated absolute paths ----------------------

  predicate NormalSegment(s: string)
  {
    s != [] && s != "." && s != ".." && '/' !in s
  }

  predicate AllNormal(xs: seq<string>)
  {
    forall k :: 0 <= k < |xs| ==> NormalSegment(xs[k])
  }

  /** Drops empty and "." segments; ".." removes the segment before it and stops at the root. */
  function Normalize(segs: seq<string>): (r: seq<string>)
    requires forall k :: 0 <= k < |segs| ==> '/' !in segs[k]
    ensures AllNormal(r) && |r| <= |segs|
  {
    if segs == [] then []
    else
      var init := Normalize(segs[..|segs| - 1]);
      var s := segs[|segs| - 1];
      if s == [] || s == "." then init
      else if s == ".." then (if init == [] then [] else init[..|init| - 1])
      else init + [s]
  }

  /** The segments of the resolved path. */
  function Segments(p: string): (r: seq<string>)
    ensures AllNormal(r)
  {
    Normalize(Split(p, '/'))
  }

  /** path.resolve of an absolute path. */
  function Resolve(p: string): (r: string)
    ensures StartsWith(r, "/")
  {
    "/" + Join(Segments(p), '/')
  }

  lemma {:induction false} NormalizeAfterRoot(xs: seq<string>)
    requires AllNormal(xs)
    ensures Normalize([[]] + xs) == xs
  {
    if xs != [] {
      var init := xs[..|xs| - 1];
      assert ([[]] + xs)[..|xs|] == [[]] + init;
      NormalizeAfterRoot(init);
    }
  }

  lemma {:induction false} JoinEmpty(xs: seq<string>)
    requires AllNormal(xs)
    ensures Join(xs, '/') == [] <==> xs == []
  {
    if |xs| > 1 {
      assert NormalSegment(xs[0]);
    } else if |xs| == 1 {
      assert NormalSegment(xs[0]);
    }
  }

  /** A resolved path resolves to itself, segment for segment. */
  lemma SegmentsOfResolved(xs: seq<string>)
    requires AllNormal(xs)
    ensures Segments("/" + Join(xs, '/')) == xs
  {
    var j := Join(xs, '/');
    assert "/" + j == [] + ['/'] + j;
    SplitConcat([], j, '/');
    if xs == [] {
      assert Split(j, '/') == [[]];
      var segs: seq<string> := [[], []];
      assert segs[..1] == [[]];
      assert Normalize(segs[..1]) == [];
      assert Normalize(segs) == [];
    } else {
      SplitJoin(xs, '/');
      NormalizeAfterRoot(xs);
    }
  }

  lemma ResolveIdempotent(p: string)
    ensures Resolve(Resolve(p)) == Resolve(p)
  {
    SegmentsOfResolved(Segments(p));
  }

  lemma {:induction false} JoinAppend(xs: seq<string>, zs: seq<string>)
    requires xs != [] && zs != []
    ensures Join(xs + zs, '/') == Join(xs, '/') + "/" + Join(zs, '/')
  {
    if |xs| == 1 {
      assert (xs + zs)[1..] == zs;
    } else {
      JoinAppend(xs[1..], zs);
      assert (xs + zs)[1..] == xs[1..] + zs;
    }
  }

  // ---- validatePath -------------------------------------------------------

  /** The check validatePath makes: the resolved path begins, as a string, with the resolved workspace. */
  predicate WithinAsWritten(workspace: string, full: string)
  {
    StartsWith(Resolve(full), Resolve(workspace))
  }

  /** The intended check: the workspace's segments begin the resolved path's segments. */
  predicate Within(workspace: string, full: string)
  {
    var xs, ys := Segments(workspace), Segments(full);
    |xs| <= |ys| && ys[..|xs|] == xs
  }

  /** The absolute path spelled by normal segments. */
  function Rooted(xs: seq<string>): string
  {
    "/" + Join(xs, '/')
  }

  /** r is w itself or lies below it: it begins with w and a separator (w alone when w is the root). */
  predicate AtOrBelow(r: string, w: string)
  {
    r == w || StartsWith(r, if w == "/" then w else w + "/")
  }

  /**
   * A path whose segments extend the workspace's is, as a string, the workspace itself or
   * begins with the workspace followed by a separator; so the intended check is never
   * looser than the one written.
   */
  lemma SegmentPrefixWithin(xs: seq<string>, ys: seq<string>)
    requires AllNormal(xs) && AllNormal(ys)
    requires |xs| <= |ys| && ys[..|xs|] == xs
    ensures AtOrBelow(Rooted(ys), Rooted(xs))
    ensures StartsWith(Rooted(ys), Rooted(xs))
  {
    if xs == [] {
      JoinEmpty(xs);
      assert Rooted(xs) == "/";
      assert Rooted(ys)[..1] == "/";
    } else if |xs| == |ys| {
      assert ys == xs;
    } else {
      StrictlyBelow(xs, ys);
    }
  }

  lemma StrictlyBelow(xs: seq<string>, ys: seq<string>)
    requires AllNormal(xs) && AllNormal(ys)
    requires xs != [] && |xs| < |ys| && ys[..|xs|] == xs
    ensures StartsWith(Rooted(ys), Rooted(xs) + "/")
  {
    var zs := ys[|xs|..];
    assert ys == xs + zs;
    JoinAppend(xs, zs);
    var w := Rooted(xs);
    assert Rooted(ys) == (w + "/") + Join(zs, '/');
  }

  /** A sibling of the workspace passes the check as written but is not inside the workspace. */
  lemma WithinAsWrittenAdmitsSibling()
    ensures WithinAsWritten("/ws", "/ws2/x.md")
    ensures !Within("/ws", "/ws2/x.md")
  {
    var xs, ys := SiblingSegments();
    SiblingSpelling();
    assert ys[..1] != xs by { assert |ys[0]| != |xs[0]|; }
  }

  lemma SiblingSpelling()
    ensures StartsWith("/ws2/x.md", "/ws")
  {
    var w, rest: string := "/ws", "2/x.md";
    assert w + rest == "/ws2/x.md";
    assert (w + rest)[..|w|] == w;
  }

  /** The segments of the workspace and of its sibling's note. */
  lemma SiblingSegments() returns (xs: seq<string>, ys: seq<string>)
    ensures xs == ["ws"] && ys == ["ws2", "x.md"]
    ensures Segments("/ws") == xs && Resolve("/ws") == "/ws"
    ensures Segments("/ws2/x.md") == ys && Resolve("/ws2/x.md") == "/ws2/x.md"
  {
    xs, ys := ["ws"], ["ws2", "x.md"];
    assert NormalSegment(xs[0]);
    assert NormalSegment(ys[0]) && NormalSegment(ys[1]);
    assert "/" + Join(xs, '/') == "/ws";
    assert "/" + Join(ys, '/') == "/ws2/x.md";
    ResolvedSpelling("/ws", xs);
    ResolvedSpelling("/ws2/x.md", ys);
  }

  /** A path spelled by normal segments has those segments and resolves to itself. */
  lemma ResolvedSpelling(p: string, xs: seq<string>)
    requires AllNormal(xs) && p == "/" + Join(xs, '/')
    ensures Segments(p) == xs && Resolve(p) == p
  {
    SegmentsOfResolved(xs);
  }

  /** The error validatePath throws for a path outside the workspace. */
  function TraversalError(full: string): string
  {
    "Path traversal detected: " + full + " is outside workspace"
  }

  /** validatePath as written: fails unless the resolved path begins with the resolved workspace. */
  function ValidatePathAsWritten(workspace: string, full: string): (r: Result<()>)
    ensures r.Ok? <==> WithinAsWritten(workspace, full)
    ensures r.Err? ==> r.error == TraversalError(full)
  {
    if WithinAsWritten(workspace, full) then Ok(()) else Err(TraversalError(full))
  }

  /** validatePath with the containment check intended: fails unless the path lies in the workspace. */
  function ValidatePath(workspace: string, full: string): (r: Result<()>)
    ensures r.Ok? <==> Within(workspace, full)
    ensures r.Ok? ==> ValidatePathAsWritten(workspace, full).Ok?
    ensures r.Err? ==> r.error == TraversalError(full)
  {
    if Within(workspace, full) then
      SegmentPrefixWithin(Segments(workspace), Segments(full));
      Ok(())
    else Err(TraversalError(full))
  }

  // ---- trash and new notes --------------------------------------------------

  /** Where deleteFile moves a note: `.ai-note/trash/<timestamp>_<basename>`, relative to the workspace. */
  function TrashPath(relativePath: string, now: nat): (r: string)
    ensures StartsWith(r, CONFIG_DIR + "/" + TRASH_DIR + "/" + NatToString(now) + "_")
    ensures EndsWith(r, Basename(relativePath))
  {
    var prefix := CONFIG_DIR + "/" + TRASH_DIR + "/" + NatToString(now) + "_";
    assert (prefix + Basename(relativePath))[..|prefix|] == prefix;
    prefix + Basename(relativePath)
  }

  /**
   * The text createFile writes: front matter whose title is the file name
   * without its extension and whose created and updated stamps are the same
   * `now` (its ISO text is an input).
   */
  function NewNoteContent(fileName: string, now: string): (r: string)
    ensures var head := "---\ntitle: \"" + Stem(fileName) + "\"\n";
      StartsWith(r, head) &&
      r[|head|..] == "created: " + now + "\nupdated: " + now + "\ntags: []\n---\n\n"
  {
    var head := "---\ntitle: \"" + Stem(fileName) + "\"\n";
    var tail := "created: " + now + "\nupdated: " + now + "\ntags: []\n---\n\n";
    assert (head + tail)[..|head|] == head;
    assert (head + tail)[|head|..] == tail;
    head + tail
  }

  // ---- buildFileTree ----------------------------------------------------------

  /** A directory entry as read: its name, whether it is a directory, and (for one) its entries. */
  datatype DirEntry = DirEntry(name: string, isDirectory: bool, children: seq<DirEntry>)

  function NameOf(e: DirEntry): string
  {
    e.name
  }

  predicate Visible(e: DirEntry)
  {
    !SyncProtocol.Skipped(e.name)
  }

  /** An entry that gets a node: a visible directory or a visible '.md' file. */
  predicate Kept(e: DirEntry)
  {
    Visible(e) && (e.isDirectory || EndsWith(e.name, ".md"))
  }

  predicate IsDir(e: DirEntry)
  {
    e.isDirectory
  }

  predicate NotDir(e: DirEntry)
  {
    !e.isDirectory
  }

  /**
   * The entries buildFileTree visits, in its order: visible entries only,
   * directories before the rest, each group by name. Sorting the two groups
   * separately gives what the source's single comparator gives.
   */
  function Arranged(entries: seq<DirEntry>): seq<DirEntry>
  {
    var v := Filter(entries, Visible);
    SortBy(Filter(v, IsDir), NameOf) + SortBy(Filter(v, NotDir), NameOf)
  }

  /** Arranged keeps exactly the visible entries. */
  lemma ArrangedElements(entries: seq<DirEntry>)
    ensures forall i :: 0 <= i < |Arranged(entries)| ==> Arranged(entries)[i] in entries && Visible(Arranged(entries)[i])
    ensures forall i :: 0 <= i < |entries| && Visible(entries[i]) ==> entries[i] in Arranged(entries)
  {
    var v := Filter(entries, Visible);
    FilterMembers(entries, Visible);
    SortedGroup(v, IsDir);
    SortedGroup(v, NotDir);
    GroupsCover(entries, v, SortBy(Filter(v, IsDir), NameOf), SortBy(Filter(v, NotDir), NameOf));
  }

  lemma GroupsCover(entries: seq<DirEntry>, v: seq<DirEntry>, sd: seq<DirEntry>, sf: seq<DirEntry>)
    requires forall i :: 0 <= i < |v| ==> v[i] in entries && Visible(v[i])
    requires forall i :: 0 <= i < |entries| && Visible(entries[i]) ==> entries[i] in v
    requires forall i :: 0 <= i < |sd| ==> sd[i] in v
    requires forall i :: 0 <= i < |sf| ==> sf[i] in v
    requires forall i :: 0 <= i < |v| && IsDir(v[i]) ==> v[i] in sd
    requires forall i :: 0 <= i < |v| && NotDir(v[i]) ==> v[i] in sf
    ensures forall i :: 0 <= i < |sd + sf| ==> (sd + sf)[i] in entries && Visible((sd + sf)[i])
    ensures forall i :: 0 <= i < |entries| && Visible(entries[i]) ==> entries[i] in sd + sf
  {
    var r := sd + sf;
    forall i | 0 <= i < |r| ensures r[i] in entries && Visible(r[i]) {
      var x := if i < |sd| then sd[i] else sf[i - |sd|];
      assert r[i] == x;
      assert x in v;
      var k :| 0 <= k < |v| && v[k] == x;
    }
    forall i | 0 <= i < |entries| && Visible(entries[i]) ensures entries[i] in r {
      var x := entries[i];
      assert x in v;
      var k :| 0 <= k < |v| && v[k] == x;
      if x.isDirectory {
        assert IsDir(v[k]);
        assert x in sd;
      } else {
        assert NotDir(v[k]);
        assert x in sf;
      }
    }
  }

  lemma ArrangedIsOrdered(entries: seq<DirEntry>)
    ensures ArrangedOrder(Arranged(entries))
  {
    var v := Filter(entries, Visible);
    var sd, sf := SortBy(Filter(v, IsDir), NameOf), SortBy(Filter(v, NotDir), NameOf);
    DirGroupOrder(v, sd);
    FileGroupOrder(v, sf);
    ArrangedConcat(sd, sf);
  }

  lemma DirGroupOrder(v: seq<DirEntry>, g: seq<DirEntry>)
    requires g == SortBy(Filter(v, IsDir), NameOf)
    ensures forall i :: 0 <= i < |g| ==> g[i].isDirectory
    ensures forall i, j :: 0 <= i < j < |g| ==> Le(g[i].name, g[j].name)
  {
    SortedGroup(v, IsDir);
  }

  lemma FileGroupOrder(v: seq<DirEntry>, g: seq<DirEntry>)
    requires g == SortBy(Filter(v, NotDir), NameOf)
    ensures forall i :: 0 <= i < |g| ==> !g[i].isDirectory
    ensures forall i, j :: 0 <= i < j < |g| ==> Le(g[i].name, g[j].name)
  {
    SortedGroup(v, NotDir);
  }

  lemma ArrangedConcat(sd: seq<DirEntry>, sf: seq<DirEntry>)
    requires forall i :: 0 <= i < |sd| ==> sd[i].isDirectory
    requires forall i :: 0 <= i < |sf| ==> !sf[i].isDirectory
    requires forall i, j :: 0 <= i < j < |sd| ==> Le(sd[i].name, sd[j].name)
    requires forall i, j :: 0 <= i < j < |sf| ==> Le(sf[i].name, sf[j].name)
    ensures ArrangedOrder(sd + sf)
  {
    var r := sd + sf;
    forall i, j | 0 <= i < j < |r|
      ensures (r[j].isDirectory ==> r[i].isDirectory)
      ensures (r[i].isDirectory == r[j].isDirectory ==> Le(r[i].name, r[j].name))
    {
      if j < |sd| {
        assert r[i] == sd[i] && r[j] == sd[j];
      } else if i >= |sd| {
        assert r[i] == sf[i - |sd|] && r[j] == sf[j - |sd|];
      } else {
        assert r[i] == sd[i] && r[j] == sf[j - |sd|];
      }
    }
  }

  /** One sorted group of Arranged: entries of `v` of one kind, all of them, by name. */
  lemma SortedGroup(v: seq<DirEntry>, kind: DirEntry -> bool)
    ensures var g := SortBy(Filter(v, kind), NameOf);
      && (forall i :: 0 <= i < |g| ==> g[i] in v && kind(g[i]))
      && (forall i :: 0 <= i < |v| && kind(v[i]) ==> v[i] in g)
      && (forall i, j :: 0 <= i < j < |g| ==> Le(g[i].name, g[j].name))
  {
    var f := Filter(v, kind);
    var g := SortBy(f, NameOf);
    FilterMembers(v, kind);
    SortByElements(f, NameOf);
    assert SortedBy(g, NameOf);
  }

  /** Directories first; entries of the same kind ordered by name. */
  predicate ArrangedOrder(s: seq<DirEntry>)
  {
    forall i, j :: 0 <= i < j < |s| ==>
      (s[j].isDirectory ==> s[i].isDirectory) &&
      (s[i].isDirectory == s[j].isDirectory ==> Le(s[i].name, s[j].name))
  }

  /** The nodes buildFileTree returns for a directory whose entries are `entries`, at `rel`. */
  function NodesOf(rel: string, entries: seq<DirEntry>): seq<FileNode>
    decreases entries, 1
  {
    ArrangedElements(entries);
    NodesFrom(rel, Arranged(entries), entries)
  }

  function NodesFrom(rel: string, order: seq<DirEntry>, parent: seq<DirEntry>): seq<FileNode>
    requires forall i :: 0 <= i < |order| ==> order[i] in parent
    decreases parent, 0, |order|
  {
    if order == [] then []
    else NodesFrom(rel, order[..|order| - 1], parent) + EntryNodes(rel, order[|order| - 1])
  }

  /** The node one entry contributes at `rel`, if any; a directory carries its own tree. */
  function EntryNodes(rel: string, e: DirEntry): seq<FileNode>
    decreases e, 2
  {
    var p := ChildPath(rel, e.name);
    if e.isDirectory then [FileNode(p, e.name, true, p, NodesOf(p, e.children))]
    else if EndsWith(e.name, ".md") then [FileNode(p, e.name, false, p, [])]
    else []
  }

  lemma NodesFromSnoc(rel: string, order: seq<DirEntry>, parent: seq<DirEntry>, i: nat)
    requires i < |order|
    requires forall k :: 0 <= k < |order| ==> order[k] in parent
    ensures NodesFrom(rel, order[..i + 1], parent) == NodesFrom(rel, order[..i], parent) + EntryNodes(rel, order[i])
  {
    assert order[..i + 1][..i] == order[..i];
  }

  /** buildFileTree: the entries read, arranged, then one level built from them. */
  method BuildFileTree(rel: string, entries: seq<DirEntry>) returns (nodes: seq<FileNode>)
    ensures nodes == NodesOf(rel, entries)
    decreases entries, 1
  {
    var sorted := Arranged(entries);
    ArrangedElements(entries);
    nodes := BuildLevel(rel, sorted, entries);
  }

  /** buildFileTree's loop: recursion into every directory, one node pushed per kept entry. */
  method BuildLevel(rel: string, sorted: seq<DirEntry>, entries: seq<DirEntry>) returns (nodes: seq<FileNode>)
    requires forall k :: 0 <= k < |sorted| ==> sorted[k] in entries
    ensures nodes == NodesFrom(rel, sorted, entries)
    decreases entries, 0
  {
    nodes := [];
    var i := 0;
    while i < |sorted|
      invariant 0 <= i <= |sorted|
      invariant nodes == NodesFrom(rel, sorted[..i], entries)
    {
      var e := sorted[i];
      var p := ChildPath(rel, e.name);
      NodesFromSnoc(rel, sorted, entries, i);
      if e.isDirectory {
        var children := BuildFileTree(p, e.children);
        nodes := nodes + [FileNode(p, e.name, true, p, children)];
      } else if EndsWith(e.name, ".md") {
        nodes := nodes + [FileNode(p, e.name, false, p, [])];
      }
      i := i + 1;
    }
    assert sorted[..i] == sorted;
  }

  /** One level of the tree as buildFileTree lays it out. */
  predicate LevelShape(rel: string, nodes: seq<FileNode>)
  {
    && (forall i :: 0 <= i < |nodes| ==>
          var n := nodes[i];
          n.id == n.path && n.path == ChildPath(rel, n.name) && !SyncProtocol.Skipped(n.name) &&
          (!n.isFolder ==> EndsWith(n.name, ".md") && n.children == []))
    && (forall i, j :: 0 <= i < j < |nodes| ==>
          (nodes[j].isFolder ==> nodes[i].isFolder) &&
          (nodes[i].isFolder == nodes[j].isFolder ==> Le(nodes[i].name, nodes[j].name)))
  }

  /** Every node of NodesFrom comes from an entry of `order` of the same name and kind. */
  lemma {:induction false} NodesFromOrigin(rel: string, order: seq<DirEntry>, parent: seq<DirEntry>, i: nat)
    requires forall k :: 0 <= k < |order| ==> order[k] in parent
    requires i < |NodesFrom(rel, order, parent)|
    ensures exists k :: 0 <= k < |order| && order[k].name == NodesFrom(rel, order, parent)[i].name
                        && order[k].isDirectory == NodesFrom(rel, order, parent)[i].isFolder
  {
    var init := order[..|order| - 1];
    var n0 := NodesFrom(rel, init, parent);
    if i < |n0| {
      NodesFromOrigin(rel, init, parent, i);
      var k :| 0 <= k < |init| && init[k].name == n0[i].name && init[k].isDirectory == n0[i].isFolder;
      assert order[k] == init[k];
    } else {
      assert order[|order| - 1].name == NodesFrom(rel, order, parent)[i].name;
    }
  }

  lemma {:induction false} NodesFromShape(rel: string, order: seq<DirEntry>, parent: seq<DirEntry>)
    requires forall k :: 0 <= k < |order| ==> order[k] in parent
    requires ArrangedOrder(order)
    requires forall k :: 0 <= k < |order| ==> Visible(order[k])
    ensures LevelShape(rel, NodesFrom(rel, order, parent))
  {
    if order != [] {
      var init, e := order[..|order| - 1], order[|order| - 1];
      NodesFromShape(rel, init, parent);
      var n0 := NodesFrom(rel, init, parent);
      var nodes := NodesFrom(rel, order, parent);
      var last := EntryNodes(rel, e);
      assert nodes == n0 + last;
      EntryNodesShape(rel, e);
      if last != [] {
        forall i | 0 <= i < |n0|
          ensures (nodes[|n0|].isFolder ==> n0[i].isFolder)
          ensures (n0[i].isFolder == nodes[|n0|].isFolder ==> Le(n0[i].name, nodes[|n0|].name))
        {
          NodesFromOrigin(rel, init, parent, i);
          var k :| 0 <= k < |init| && init[k].name == n0[i].name && init[k].isDirectory == n0[i].isFolder;
          assert order[k] == init[k];
        }
      }
    }
  }

  /** An entry gives at most one node, named after it, of its kind, at parent/name. */
  lemma EntryNodesShape(rel: string, e: DirEntry)
    ensures |EntryNodes(rel, e)| <= 1
    ensures EntryNodes(rel, e) != [] <==> e.isDirectory || EndsWith(e.name, ".md")
    ensures EntryNodes(rel, e) != [] ==>
      var n := EntryNodes(rel, e)[0];
      n.name == e.name && n.isFolder == e.isDirectory && n.id == n.path && n.path == ChildPath(rel, e.name) &&
      (!n.isFolder ==> n.children == [])
  {
  }

  /** Each directory entry of `order` has its folder node, and each '.md' file its file node. */
  lemma {:induction false} NodesFromCovers(rel: string, order: seq<DirEntry>, parent: seq<DirEntry>, k: nat)
    requires forall i :: 0 <= i < |order| ==> order[i] in parent
    requires k < |order| && (order[k].isDirectory || EndsWith(order[k].name, ".md"))
    ensures var e, p := order[k], ChildPath(rel, order[k].name);
      FileNode(p, e.name, e.isDirectory, p, if e.isDirectory then NodesOf(p, e.children) else [])
        in NodesFrom(rel, order, parent)
  {
    if k < |order| - 1 {
      var init := order[..|order| - 1];
      assert order[k] == init[k];
      NodesFromCovers(rel, init, parent, k);
    }
  }

  /**
   * buildFileTree's result: every level is laid out as LevelShape says, keeps
   * every visible directory (empty ones too, with their own listing) and
   * every visible '.md' file, and nothing else.
   */
  lemma BuildFileTreeShape(rel: string, entries: seq<DirEntry>)
    ensures LevelShape(rel, NodesOf(rel, entries))
    ensures forall i :: 0 <= i < |entries| && Kept(entries[i]) ==>
              var e, p := entries[i], ChildPath(rel, entries[i].name);
              FileNode(p, e.name, e.isDirectory, p, if e.isDirectory then NodesOf(p, e.children) else [])
                in NodesOf(rel, entries)
  {
    var order := Arranged(entries);
    ArrangedElements(entries);
    ArrangedIsOrdered(entries);
    NodesFromShape(rel, order, entries);
    forall i | 0 <= i < |entries| && Kept(entries[i])
      ensures var e, p := entries[i], ChildPath(rel, entries[i].name);
              FileNode(p, e.name, e.isDirectory, p, if e.isDirectory then NodesOf(p, e.children) else [])
                in NodesOf(rel, entries)
    {
      assert entries[i] in order;
      var k :| 0 <= k < |order| && order[k] == entries[i];
      NodesFromCovers(rel, order, entries, k);
    }
  }

  // ---- change subscriptions -------------------------------------------------------

  datatype ChangeKind = Add | Change | Unlink | AddDir | UnlinkDir

  /** A change the watcher reports, with the path relative to the workspace. */
  datatype FileChangeEvent = FileChangeEvent(kind: ChangeKind, path: string)

  /** One call of a subscribed callback with an event. */
  datatype Delivery = Delivery(callback: nat, event: FileChangeEvent)

  /** The calls one watcher event makes: every subscribed callback, in subscription order. */
  function DeliveriesTo(callbacks: seq<nat>, event: FileChangeEvent): (r: seq<Delivery>)
    ensures |r| == |callbacks|
    ensures forall i :: 0 <= i < |r| ==> r[i] == Delivery(callbacks[i], event)
  {
    if callbacks == [] then []
    else DeliveriesTo(callbacks[..|callbacks| - 1], event) + [Delivery(callbacks[|callbacks| - 1], event)]
  }

  /** Removing a callback that was added to a set not holding it gives back that set. */
  lemma {:induction false} UnsubscribeUndoesSubscribe(callbacks: seq<nat>, cb: nat)
    requires cb !in callbacks
    ensures Without(callbacks + [cb], cb) == callbacks
  {
    if callbacks != [] {
      assert (callbacks + [cb])[1..] == callbacks[1..] + [cb];
      UnsubscribeUndoesSubscribe(callbacks[1..], cb);
      assert callbacks == [callbacks[0]] + callbacks[1..];
    }
  }

  class FileService {
    const workspacePath: string
    /** The callback Set, in insertion order. */
    var callbacks: seq<nat>
    var watching: bool
    /** Every callback call made so far. */
    var delivered: seq<Delivery>

    constructor(workspacePath: string)
      ensures this.workspacePath == workspacePath
      ensures callbacks == [] && !watching && delivered == []
    {
      this.workspacePath := workspacePath;
      callbacks := [];
      watching := false;
      delivered := [];
    }

    /** initialize: the watcher starts; which paths it reports is the watcher's business. */
    method Initialize()
      modifies this
      ensures watching && callbacks == old(callbacks) && delivered == old(delivered)
    {
      watching := true;
    }

    /** onFileChange: adds the callback to the set (no change when it is already there). */
    method OnFileChange(cb: nat)
      modifies this
      ensures callbacks == if cb in old(callbacks) then old(callbacks) else old(callbacks) + [cb]
      ensures watching == old(watching) && delivered == old(delivered)
    {
      if cb !in callbacks {
        callbacks := callbacks + [cb];
      }
    }

    /** The unsubscribe function onFileChange returns: removes that callback only. */
    method Unsubscribe(cb: nat)
      modifies this
      ensures callbacks == Without(old(callbacks), cb)
      ensures watching == old(watching) && delivered == old(delivered)
    {
      callbacks := Without(callbacks, cb);
    }

    /** A watcher event: every callback is called in turn; a failing one does not stop the rest. */
    method Notify(event: FileChangeEvent)
      modifies this
      ensures delivered == old(delivered) + (if watching then DeliveriesTo(callbacks, event) else [])
      ensures callbacks == old(callbacks) && watching == old(watching)
    {
      if !watching {
        return;
      }
      var i := 0;
      while i < |callbacks|
        invariant 0 <= i <= |callbacks|
        invariant callbacks == old(callbacks) && watching == old(watching)
        invariant delivered == old(delivered) + DeliveriesTo(callbacks[..i], event)
      {
        assert callbacks[..i + 1][..i] == callbacks[..i];
        delivered := delivered + [Delivery(callbacks[i], event)];
        i := i + 1;
      }
      assert callbacks[..i] == callbacks;
    }

    /** dispose: the watcher is closed and every subscription dropped. */
    method Dispose()
      modifies this
      ensures !watching && callbacks == [] && delivered == old(delivered)
    {
      watching := false;
      callbacks := [];
    }

    /**
     * validatePath for this workspace, as written: the resolved path must begin
     * with the resolved workspace, so every path inside the workspace passes.
     */
    function CheckPath(full: string): (r: Result<()>)
      reads this
      ensures r.Ok? <==> StartsWith(Resolve(full), Resolve(workspacePath))
      ensures r.Err? ==> r.error == TraversalError(full)
      ensures Within(workspacePath, full) ==> r.Ok?
    {
      if Within(workspacePath, full) then
        SegmentPrefixWithin(Segments(workspacePath), Segments(full));
        ValidatePathAsWritten(workspacePath, full)
      else ValidatePathAsWritten(workspacePath, full)
    }
  }
}
