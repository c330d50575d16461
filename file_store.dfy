// The desktop file-tree store: the tree last loaded, the selection, the
// expanded folders and the internal clipboard. Requests to the main process
// are recorded in order; each request's success and each reload's result
// arrive as outcomes.
module FileStore {
  import opened Wrappers
  import opened Strings
  import opened Paths
  import opened FileTree

  /** A node is found by its id or by its path. */
  predicate Matches(n: FileNode, id: string)
  {
    n.id == id || n.path == id
  }

  /** The nodes of a forest in pre-order: each node, then its subtree, then its later siblings. */
  function Preorder(tree: seq<FileNode>): (r: seq<FileNode>)
    ensures |tree| <= |r|
    decreases tree
  {
    if tree == [] then []
    else [tree[0]] + Preorder(tree[0].children) + Preorder(tree[1..])
  }

  /** The first element of `s` found by `id`. */
  function FirstFound(s: seq<FileNode>, id: string): (r: Option<FileNode>)
    ensures r.Some? ==> r.value in s && Matches(r.value, id)
    ensures r.None? <==> forall i :: 0 <= i < |s| ==> !Matches(s[i], id)
  {
    match FindFirst(s, (n: FileNode) => Matches(n, id))
    case None => None
    case Some(i) => Some(s[i])
  }

  lemma FirstFoundConcat(a: seq<FileNode>, b: seq<FileNode>, id: string)
    ensures FirstFound(a + b, id) == if FirstFound(a, id).Some? then FirstFound(a, id) else FirstFound(b, id)
  {
    var p := (n: FileNode) => Matches(n, id);
    var fa, fb, fab := FindFirst(a, p), FindFirst(b, p), FindFirst(a + b, p);
    if fa.Some? {
      var i := fa.value;
      assert (a + b)[i] == a[i];
      forall k | 0 <= k < i
        ensures !p((a + b)[k])
      {
        assert (a + b)[k] == a[k];
      }
    } else {
      forall k | 0 <= k < |a|
        ensures !p((a + b)[k])
      {
        assert (a + b)[k] == a[k];
      }
      var limit := if fb.Some? then |a| + fb.value else |a + b|;
      forall k | |a| <= k < limit
        ensures !p((a + b)[k])
      {
        assert (a + b)[k] == b[k - |a|];
      }
      if fb.Some? {
        assert (a + b)[|a| + fb.value] == b[fb.value];
      }
    }
  }

  /**
   * findNode: the first node, in depth-first order over the tree, whose id or
   * path is `id`.
   */
  function FindNode(tree: seq<FileNode>, id: string): (r: Option<FileNode>)
    ensures r.Some? ==> Matches(r.value, id)
    decreases tree
  {
    if tree == [] then None
    else if Matches(tree[0], id) then Some(tree[0])
    else match FindNode(tree[0].children, id)
      case Some(found) => Some(found)
      case None => FindNode(tree[1..], id)
  }

  /** findNode's search order is pre-order: it returns the first pre-order node found by `id`. */
  lemma {:induction false} FindNodeIsFirstInPreorder(tree: seq<FileNode>, id: string)
    ensures FindNode(tree, id) == FirstFound(Preorder(tree), id)
    decreases tree
  {
    if tree != [] {
      var head, sub, rest := tree[0], Preorder(tree[0].children), Preorder(tree[1..]);
      FindNodeIsFirstInPreorder(tree[0].children, id);
      FindNodeIsFirstInPreorder(tree[1..], id);
      PreorderCons(tree);
      FirstFoundConcat([head], sub + rest, id);
      FirstFoundConcat(sub, rest, id);
      FirstFoundOne(head, id);
    }
  }

  lemma PreorderCons(tree: seq<FileNode>)
    requires tree != []
    ensures Preorder(tree) == [tree[0]] + (Preorder(tree[0].children) + Preorder(tree[1..]))
  {
  }

  lemma FirstFoundOne(head: FileNode, id: string)
    ensures FirstFound([head], id) == if Matches(head, id) then Some(head) else None
  {
    assert [head][0] == head;
  }

  /** getParentPath: the path without its last '/' segment; empty for a single segment. */
  function GetParentPath(filePath: string): (r: string)
    ensures '/' !in filePath ==> r == []
    ensures '/' in filePath ==> filePath == r + "/" + LastPiece(filePath, '/')
  {
    if '/' in filePath then BeforeLastJoin(filePath, '/'); BeforeLast(filePath, '/')
    else LastPieceNoSep(filePath, '/'); BeforeLast(filePath, '/')
  }

  /** A single segment placed under a parent has that parent and that name. */
  lemma ChildOfParent(parent: string, name: string)
    requires name != [] && '/' !in name
    ensures GetParentPath(ChildPath(parent, name)) == parent
    ensures LastPiece(ChildPath(parent, name), '/') == name
  {
    var p := ChildPath(parent, name);
    if parent == [] {
      LastPieceNoSep(name, '/');
    } else {
      assert p[|p| - 1 - |name|] == '/';
      LastPieceFromEnd(p, '/', |name|);
      assert p[|p| - |name|..] == name;
    }
  }

  /** renameFile's target: the new name beside the old one, or the new name alone at the root. */
  function RenameTarget(path: string, newName: string): (r: string)
    ensures GetParentPath(path) == [] ==> r == newName
    ensures GetParentPath(path) != [] ==> r == GetParentPath(path) + "/" + newName
  {
    ChildPath(GetParentPath(path), newName)
  }

  /** A rename with a plain name stays in the same folder and takes that name. */
  lemma RenameStaysInFolder(path: string, newName: string)
    requires newName != [] && '/' !in newName
    ensures GetParentPath(RenameTarget(path, newName)) == GetParentPath(path)
    ensures LastPiece(RenameTarget(path, newName), '/') == newName
  {
    ChildOfParent(GetParentPath(path), newName);
  }

  /** moveFile and a cut paste: the source's last segment placed in the target folder, or None when that segment is empty. */
  function MoveTarget(sourcePath: string, targetFolderPath: string): Option<string>
  {
    var fileName := LastPiece(sourcePath, '/');
    if fileName == [] then None else Some(ChildPath(targetFolderPath, fileName))
  }

  /** A move has a target exactly when the source has a last segment; the target is in the folder and has that name. */
  lemma MoveTargetPlaced(sourcePath: string, targetFolderPath: string)
    ensures var r := MoveTarget(sourcePath, targetFolderPath);
      && (r.None? <==> LastPiece(sourcePath, '/') == [])
      && (r.Some? ==>
        && GetParentPath(r.value) == targetFolderPath
        && LastPiece(r.value, '/') == LastPiece(sourcePath, '/'))
  {
    var fileName := LastPiece(sourcePath, '/');
    if fileName != [] {
      ChildOfParent(targetFolderPath, fileName);
    }
  }

  datatype ClipboardOp = Copy | Cut
  datatype Clipboard = Clipboard(path: string, op: ClipboardOp)

  /** A request sent to the main process. */
  datatype FileRequest =
    | DeleteRequest(path: string)
    | RenameRequest(from: string, to: string)
    | CopyWithinRequest(source: string, targetDir: string)
    | SystemPasteRequest(targetDir: string)

  /** loadFileTree: a tree fetched replaces the old one; a failed fetch keeps it. */
  function Reloaded(tree: seq<FileNode>, fetched: Option<seq<FileNode>>): seq<FileNode>
  {
    if fetched.Some? then fetched.value else tree
  }

  /** The expanded set with `id` flipped. */
  function Toggled(expanded: set<string>, id: string): (r: set<string>)
    ensures forall x :: x in r <==> (x in expanded) != (x == id)
  {
    if id in expanded then expanded - {id} else expanded + {id}
  }

  lemma ToggledTwice(expanded: set<string>, id: string)
    ensures Toggled(Toggled(expanded, id), id) == expanded
  {
    var once := Toggled(expanded, id);
    assert forall x :: x in Toggled(once, id) <==> x in expanded;
  }

  class FileTreeStore {
    var tree: seq<FileNode>
    var selectedFileId: Option<string>
    var expandedFolders: set<string>
    var clipboard: Option<Clipboard>
    var requests: seq<FileRequest>

    constructor()
      ensures tree == [] && selectedFileId == None && expandedFolders == {}
      ensures clipboard == None && requests == []
    {
      tree := [];
      selectedFileId := None;
      expandedFolders := {};
      clipboard := None;
      requests := [];
    }

    method LoadFileTree(fetched: Option<seq<FileNode>>)
      modifies this
      ensures tree == Reloaded(old(tree), fetched)
      ensures selectedFileId == old(selectedFileId) && expandedFolders == old(expandedFolders)
      ensures clipboard == old(clipboard) && requests == old(requests)
    {
      tree := Reloaded(tree, fetched);
    }

    method SelectFile(id: string)
      modifies this
      ensures selectedFileId == Some(id)
      ensures tree == old(tree) && expandedFolders == old(expandedFolders)
      ensures clipboard == old(clipboard) && requests == old(requests)
    {
      selectedFileId := Some(id);
    }

    /** toggleFolder: flips that id's membership only. */
    method ToggleFolder(id: string)
      modifies this
      ensures expandedFolders == Toggled(old(expandedFolders), id)
      ensures tree == old(tree) && selectedFileId == old(selectedFileId)
      ensures clipboard == old(clipboard) && requests == old(requests)
    {
      var next := expandedFolders;
      if id in next {
        next := next - {id};
      } else {
        next := next + {id};
      }
      expandedFolders := next;
    }

    /**
     * deleteFile: an unknown id does nothing. Otherwise the found node's path
     * is deleted; on success the selection is cleared when it was this id, and
     * the tree is reloaded. A failed delete changes nothing but the request.
     */
    method DeleteFile(id: string, deleteOk: bool, fetched: Option<seq<FileNode>>)
      modifies this
      ensures expandedFolders == old(expandedFolders) && clipboard == old(clipboard)
      ensures FindNode(old(tree), id).None? ==>
        && requests == old(requests) && tree == old(tree)
        && selectedFileId == old(selectedFileId)
      ensures FindNode(old(tree), id).Some? ==>
        requests == old(requests) + [DeleteRequest(FindNode(old(tree), id).value.path)]
      ensures FindNode(old(tree), id).Some? && !deleteOk ==>
        tree == old(tree) && selectedFileId == old(selectedFileId)
      ensures FindNode(old(tree), id).Some? && deleteOk ==>
        && tree == Reloaded(old(tree), fetched)
        && selectedFileId == if old(selectedFileId) == Some(id) then None else old(selectedFileId)
    {
      var node := FindNode(tree, id);
      if node.None? {
        return;
      }
      requests := requests + [DeleteRequest(node.value.path)];
      if !deleteOk {
        return;
      }
      if selectedFileId == Some(id) {
        selectedFileId := None;
      }
      tree := Reloaded(tree, fetched);
    }

    /** renameFile: the found node moves to RenameTarget; an unknown id does nothing. */
    method RenameFile(id: string, newName: string, renameOk: bool, fetched: Option<seq<FileNode>>)
      modifies this
      ensures selectedFileId == old(selectedFileId) && expandedFolders == old(expandedFolders)
      ensures clipboard == old(clipboard)
      ensures FindNode(old(tree), id).None? ==> requests == old(requests) && tree == old(tree)
      ensures FindNode(old(tree), id).Some? ==>
        var path := FindNode(old(tree), id).value.path;
        && requests == old(requests) + [RenameRequest(path, RenameTarget(path, newName))]
        && tree == if renameOk then Reloaded(old(tree), fetched) else old(tree)
    {
      var node := FindNode(tree, id);
      if node.None? {
        return;
      }
      var newPath := RenameTarget(node.value.path, newName);
      requests := requests + [RenameRequest(node.value.path, newPath)];
      if renameOk {
        tree := Reloaded(tree, fetched);
      }
    }

    /**
     * moveFile: nothing happens when the source's last segment is empty or
     * the target is the source itself; otherwise the source is renamed into
     * the target folder.
     */
    method MoveFile(sourcePath: string, targetFolderPath: string, renameOk: bool, fetched: Option<seq<FileNode>>)
      modifies this
      ensures selectedFileId == old(selectedFileId) && expandedFolders == old(expandedFolders)
      ensures clipboard == old(clipboard)
      ensures var target := MoveTarget(sourcePath, targetFolderPath);
        if target.None? || target.value == sourcePath then
          requests == old(requests) && tree == old(tree)
        else
          && requests == old(requests) + [RenameRequest(sourcePath, target.value)]
          && tree == if renameOk then Reloaded(old(tree), fetched) else old(tree)
    {
      var target := MoveTarget(sourcePath, targetFolderPath);
      if target.None? || target.value == sourcePath {
        return;
      }
      requests := requests + [RenameRequest(sourcePath, target.value)];
      if renameOk {
        tree := Reloaded(tree, fetched);
      }
    }

    method CopyToClipboard(filePath: string)
      modifies this
      ensures clipboard == Some(Clipboard(filePath, Copy))
      ensures tree == old(tree) && selectedFileId == old(selectedFileId)
      ensures expandedFolders == old(expandedFolders) && requests == old(requests)
    {
      clipboard := Some(Clipboard(filePath, Copy));
    }

    method CutToClipboard(filePath: string)
      modifies this
      ensures clipboard == Some(Clipboard(filePath, Cut))
      ensures tree == old(tree) && selectedFileId == old(selectedFileId)
      ensures expandedFolders == old(expandedFolders) && requests == old(requests)
    {
      clipboard := Some(Clipboard(filePath, Cut));
    }

    /**
     * pasteFiles: the internal clipboard wins over the system one. A copy
     * keeps the clipboard; a cut renames the entry into `targetDir` unless it
     * is already there, then clears the clipboard. Success returns the
     * clipboard's path (or what the system paste reports) and reloads the
     * tree; a failed request returns nothing and leaves the state as it was.
     */
    method PasteFiles(targetDir: string, requestOk: bool, fetched: Option<seq<FileNode>>, systemPasted: seq<string>)
      returns (pasted: seq<string>)
      modifies this
      ensures selectedFileId == old(selectedFileId) && expandedFolders == old(expandedFolders)
      ensures old(clipboard).None? ==>
        && requests == old(requests) + [SystemPasteRequest(targetDir)]
        && clipboard == None
        && (requestOk ==> pasted == systemPasted && tree == Reloaded(old(tree), fetched))
        && (!requestOk ==> pasted == [] && tree == old(tree))
      ensures old(clipboard).Some? && old(clipboard).value.op == Copy ==>
        var c := old(clipboard).value;
        && requests == old(requests) + [CopyWithinRequest(c.path, targetDir)]
        && clipboard == old(clipboard)
        && (requestOk ==> pasted == [c.path] && tree == Reloaded(old(tree), fetched))
        && (!requestOk ==> pasted == [] && tree == old(tree))
      ensures old(clipboard).Some? && old(clipboard).value.op == Cut ==>
        var c := old(clipboard).value;
        var target := MoveTarget(c.path, targetDir);
        if target.None? || target.value == c.path then
          && requests == old(requests)
          && clipboard == None && pasted == [c.path] && tree == Reloaded(old(tree), fetched)
        else
          && requests == old(requests) + [RenameRequest(c.path, target.value)]
          && (requestOk ==> clipboard == None && pasted == [c.path] && tree == Reloaded(old(tree), fetched))
          && (!requestOk ==> clipboard == old(clipboard) && pasted == [] && tree == old(tree))
    {
      if clipboard.None? {
        requests := requests + [SystemPasteRequest(targetDir)];
        if !requestOk {
          return [];
        }
        tree := Reloaded(tree, fetched);
        return systemPasted;
      }
      var c := clipboard.value;
      if c.op == Copy {
        requests := requests + [CopyWithinRequest(c.path, targetDir)];
        if !requestOk {
          return [];
        }
      } else {
        var target := MoveTarget(c.path, targetDir);
        if target.Some? && target.value != c.path {
          requests := requests + [RenameRequest(c.path, target.value)];
          if !requestOk {
            return [];
          }
        }
        clipboard := None;
      }
      tree := Reloaded(tree, fetched);
      return [c.path];
    }
  }
}
