// The mobile workspace service: the current workspace and the stored
// recent list in AsyncStorage, as a value that may be missing or unreadable.
module MobileWorkspace {
  import opened Wrappers
  import opened Strings
  import opened RecentWorkspaces

  /** What AsyncStorage holds under the recent-workspaces key. */
  datatype StoredRecent = Missing | Unreadable | Stored(entries: seq<WorkspaceInfo>)

  /** The display name: the last '/' segment, or 'workspace' when that is empty. */
  function WorkspaceName(path: string): (name: string)
    ensures name != [] && '/' !in name
    ensures name == "workspace" || EndsWith(path, name)
  {
    var last := LastPiece(path, '/');
    if last == [] then "workspace" else last
  }

  /** The default workspace: 'workspace' inside the app's document directory. */
  function DefaultWorkspace(documentDirectory: string): (p: string)
    ensures EndsWith(p, "workspace") && StartsWith(p, documentDirectory)
  {
    var p := documentDirectory + "workspace";
    assert p[..|documentDirectory|] == documentDirectory;
    assert p[|p| - 9..] == "workspace";
    p
  }

  class WorkspaceService {
    var recent: StoredRecent
    var current: Option<string>

    constructor (recent: StoredRecent, current: Option<string>)
      ensures this.recent == recent && this.current == current
    {
      this.recent := recent;
      this.current := current;
    }

    /** getRecent: the stored list, or [] when nothing readable is stored. */
    function GetRecent(): (r: seq<WorkspaceInfo>)
      reads this
      ensures recent.Stored? ==> r == recent.entries
      ensures !recent.Stored? ==> r == []
    {
      if recent.Stored? then recent.entries else []
    }

    /** addToRecent: the stored list becomes the read list with the workspace pushed to the front. */
    method AddToRecent(path: string, now: int)
      modifies this
      ensures recent == Stored(PushRecent(old(GetRecent()), WorkspaceInfo(path, WorkspaceName(path), now)))
      ensures GetRecent()[0].path == path && |GetRecent()| <= MAX_RECENT
      ensures current == old(current)
    {
      var list := GetRecent();
      var others := Filter(list, (w: WorkspaceInfo) => w.path != path);
      var front := [WorkspaceInfo(path, WorkspaceName(path), now)] + others;
      recent := Stored(Take(front, MAX_RECENT));
    }

    /**
     * open: the given folder, or the default one when none (or an empty
     * path) is given, becomes current and goes to the front of the recent
     * list.
     */
    method Open(folderPath: Option<string>, documentDirectory: string, now: int) returns (workspacePath: string)
      modifies this
      ensures workspacePath ==
        if folderPath.None? || folderPath.value == [] then DefaultWorkspace(documentDirectory) else folderPath.value
      ensures current == Some(workspacePath)
      ensures recent ==
        Stored(PushRecent(old(GetRecent()), WorkspaceInfo(workspacePath, WorkspaceName(workspacePath), now)))
    {
      workspacePath := if folderPath.None? || folderPath.value == [] then DefaultWorkspace(documentDirectory)
                       else folderPath.value;
      current := Some(workspacePath);
      AddToRecent(workspacePath, now);
    }
  }
}
