// The file-tree node shared by the file services and the file-tree store.
module FileTree {
  /** A tree node: `children` is empty for a file. */
  datatype FileNode = FileNode(id: string, name: string, isFolder: bool, path: string, children: seq<FileNode>)

  /** `${rel}/${name}`, or the name alone at the workspace root. */
  function ChildPath(rel: string, name: string): (r: string)
    ensures rel == [] ==> r == name
    ensures rel != [] ==> r == rel + "/" + name
  {
    if rel == [] then name else rel + "/" + name
  }
}
