// The mobile editor's single-note store: at most one open note, replaced
// wholesale by each action. File reads and writes arrive as outcomes.
module EditorMobile {
  import opened Wrappers
  import opened Strings
  import opened Paths
  import EditorDesktop

  datatype NoteState = NoteState(
    title: string,
    filePath: string,
    content: string,
    savedContent: string)

  /**
   * The note title: the file name with its first ".md" removed, wherever it
   * occurs (String.prototype.replace with a string pattern).
   */
  function NoteTitle(filePath: string): (r: string)
    ensures var name := EditorDesktop.GetFileName(filePath);
      && (!Contains(name, ".md") ==> r == name)
      && (Contains(name, ".md") ==> |r| + 3 == |name|)
      && (Contains(name, ".md") ==>
            IndexOf(name, ".md", 0).Some? &&
            var i := IndexOf(name, ".md", 0).value; r == name[..i] + name[i + 3..])
  {
    var name := EditorDesktop.GetFileName(filePath);
    ContainsIndexOf(name, ".md");
    ReplaceFirst(name, ".md", "")
  }

  /** A markdown note named without dots is titled by its stem. */
  lemma NoteTitleOfMarkdown(dir: string, stem: string)
    requires stem != [] && '/' !in stem && '.' !in stem
    ensures NoteTitle(dir + "/" + stem + ".md") == stem
  {
    var p := dir + "/" + stem + ".md";
    var name := stem + ".md";
    LastPieceFromEnd(p, '/', |name|);
    assert p[|p| - |name|..] == name;
    assert EditorDesktop.GetFileName(p) == name;
    IndexOfFirstPlaced(stem, ".md", []);
    assert stem + ".md" + [] == name;
  }

  class EditorStore {
    var currentNote: Option<NoteState>
    /** Files written by saveFile, with the text written. */
    var writes: seq<(string, string)>

    constructor()
      ensures currentNote == None && writes == []
    {
      currentNote := None;
      writes := [];
    }

    /** isDirty: false with no note, else the content differs from what was last read or saved. */
    predicate IsDirty()
      reads this
    {
      currentNote.Some? && currentNote.value.content != currentNote.value.savedContent
    }

    /** openFile: the text read becomes the clean current note; a failed read throws and changes nothing. */
    method OpenFile(filePath: string, read: Option<string>)
      modifies this
      ensures writes == old(writes)
      ensures read.None? ==> currentNote == old(currentNote)
      ensures read.Some? ==>
        && currentNote == Some(NoteState(NoteTitle(filePath), filePath, read.value, read.value))
        && !IsDirty()
    {
      if read.Some? {
        currentNote := Some(NoteState(NoteTitle(filePath), filePath, read.value, read.value));
      }
    }

    /** updateContent: with a note open, only its content changes; otherwise nothing happens. */
    method UpdateContent(content: string)
      modifies this
      ensures writes == old(writes)
      ensures old(currentNote).None? ==> currentNote == None
      ensures old(currentNote).Some? ==>
        && currentNote == Some(old(currentNote).value.(content := content))
        && (IsDirty() <==> content != old(currentNote).value.savedContent)
    {
      if currentNote.Some? {
        currentNote := Some(currentNote.value.(content := content));
      }
    }

    /**
     * saveFile: only a dirty note is written; after a successful write its
     * saved content is its content. A failed write throws and changes nothing.
     */
    method SaveFile(writeOk: bool)
      modifies this
      ensures !old(IsDirty()) ==> currentNote == old(currentNote) && writes == old(writes)
      ensures old(IsDirty()) && !writeOk ==> currentNote == old(currentNote) && writes == old(writes)
      ensures old(IsDirty()) && writeOk ==>
        var note := old(currentNote).value;
        && writes == old(writes) + [(note.filePath, note.content)]
        && currentNote == Some(note.(savedContent := note.content))
      ensures writeOk ==> !IsDirty()
    {
      if IsDirty() && writeOk {
        var note := currentNote.value;
        writes := writes + [(note.filePath, note.content)];
        currentNote := Some(note.(savedContent := note.content));
      }
    }

    method CloseFile()
      modifies this
      ensures currentNote == None && !IsDirty()
      ensures writes == old(writes)
    {
      currentNote := None;
    }
  }
}
