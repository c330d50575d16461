// The desktop main process's most-recently-used workspace list, and the
// list update the mobile workspace service shares with it.
module RecentWorkspaces {
  import opened Strings
  import opened Paths

  datatype WorkspaceInfo = WorkspaceInfo(path: string, name: string, lastOpened: int)

  const MAX_RECENT: nat := 10

  function Take<T>(s: seq<T>, n: nat): (r: seq<T>)
    ensures |r| <= n && StartsWith(s, r)
    ensures |s| >= n ==> |r| == n
    ensures |s| < n ==> r == s
  {
    if |s| > n then s[..n] else s
  }

  /** The entries for paths other than `path`, in their order. */
  function Others(list: seq<WorkspaceInfo>, path: string): seq<WorkspaceInfo>
  {
    Filter(list, (w: WorkspaceInfo) => w.path != path)
  }

  /**
   * The list with `entry` in front: any earlier entry for the same path is
   * dropped, the others keep their order, and only the first ten are kept.
   */
  function PushRecent(list: seq<WorkspaceInfo>, entry: WorkspaceInfo): (r: seq<WorkspaceInfo>)
    ensures 1 <= |r| <= MAX_RECENT && r[0] == entry
    ensures forall i :: 1 <= i < |r| ==> r[i].path != entry.path && r[i] in list
    ensures Subsequence(r[1..], list)
    ensures |r| == if |Others(list, entry.path)| < MAX_RECENT then 1 + |Others(list, entry.path)| else MAX_RECENT
    ensures r[1..] == Others(list, entry.path)[..|r| - 1]
  {
    var keep := (w: WorkspaceInfo) => w.path != entry.path;
    var others := Others(list, entry.path);
    var r := Take([entry] + others, MAX_RECENT);
    assert r[1..] == others[..|r| - 1];
    FilterMembers(list, keep);
    FilterSubsequence(list, keep);
    SubsequencePrefix(others, list, |r| - 1);
    r
  }

  /** A list of at most nine entries other than the new path is kept whole behind it. */
  lemma PushRecentKeepsShortList(list: seq<WorkspaceInfo>, entry: WorkspaceInfo)
    requires |list| < MAX_RECENT
    requires forall i :: 0 <= i < |list| ==> list[i].path != entry.path
    ensures PushRecent(list, entry) == [entry] + list
  {
    FilterKeepsAll(list, (w: WorkspaceInfo) => w.path != entry.path);
  }

  /** Opening the most recent workspace again only refreshes its time. */
  lemma PushRecentAgain(list: seq<WorkspaceInfo>, entry: WorkspaceInfo, later: int)
    ensures var once := PushRecent(list, entry);
      PushRecent(once, entry.(lastOpened := later)) == [entry.(lastOpened := later)] + once[1..]
  {
    var once := PushRecent(list, entry);
    var e2 := entry.(lastOpened := later);
    var keep := (w: WorkspaceInfo) => w.path != e2.path;
    FilterKeepsAll(once[1..], keep);
    FilterDropsHead(once, keep);
  }

  /** The list recentWorkspaces holds. */
  class RecentWorkspaceList {
    var entries: seq<WorkspaceInfo>

    constructor ()
      ensures entries == []
    {
      entries := [];
    }

    /** updateRecentWorkspaces: the workspace, named by its basename, goes first. */
    method Update(workspacePath: string, now: int)
      modifies this
      ensures entries == PushRecent(old(entries), WorkspaceInfo(workspacePath, Basename(workspacePath), now))
      ensures entries[0].path == workspacePath && entries[0].name == Basename(workspacePath)
      ensures |entries| <= MAX_RECENT
    {
      var others := Filter(entries, (w: WorkspaceInfo) => w.path != workspacePath);
      var front := [WorkspaceInfo(workspacePath, Basename(workspacePath), now)] + others;
      if |front| > MAX_RECENT {
        front := front[..MAX_RECENT];
      }
      entries := front;
    }
  }
}
