// The mobile app's search service: its own CJK-aware tokenizer, a matcher
// that keeps the first 20 matches, documents keyed by the 32-bit path hash,
// and the post-processing of the index's answer.
module SearchMobile {
  import opened Wrappers
  import opened Strings
  import Desktop = SearchDesktop
  import EditorDesktop

  // ---- the tokenizer -------------------------------------------------------

  /** CJK Unified Ideographs, Hiragana and Katakana. */
  predicate MobileCjk(c: char)
  {
    ('\U{4E00}' <= c <= '\U{9FFF}') || ('\U{3040}' <= c <= '\U{309F}') || ('\U{30A0}' <= c <= '\U{30FF}')
  }

  function LowerEach(tokens: seq<string>): (r: seq<string>)
    ensures |r| == |tokens| && forall i :: 0 <= i < |r| ==> r[i] == Lower(tokens[i])
  {
    if tokens == [] then [] else LowerEach(tokens[..|tokens| - 1]) + [Lower(tokens[|tokens| - 1])]
  }

  lemma {:induction false} LowerEachAppend(a: seq<string>, b: seq<string>)
    ensures LowerEach(a + b) == LowerEach(a) + LowerEach(b)
  {
    assert |LowerEach(a + b)| == |LowerEach(a) + LowerEach(b)|;
    forall i | 0 <= i < |a + b|
      ensures LowerEach(a + b)[i] == (LowerEach(a) + LowerEach(b))[i]
    {
      if i >= |a| {
        assert (a + b)[i] == b[i - |a|];
      }
    }
  }

  /**
   * cjkTokenizer: a CJK character is pushed as it is, a separator ends the
   * word, any other character extends it; a word is lower-cased when it is
   * pushed. The tokens are those of the shared tokenizer on the original
   * text, each lower-cased.
   */
  method CjkTokenizer(str: string, punct: char -> bool) returns (tokens: seq<string>)
    ensures tokens == LowerEach(Desktop.Tokenize(str, MobileCjk, punct))
  {
    tokens := [];
    var current: string := [];
    ghost var raw: seq<string> := [];
    var i := 0;
    while i < |str|
      invariant 0 <= i <= |str|
      invariant Desktop.Run(Desktop.Scan([], []), str[..i], MobileCjk, punct) == Desktop.Scan(raw, current)
      invariant tokens == LowerEach(raw)
    {
      var c := str[i];
      assert str[..i + 1][..i] == str[..i];
      if MobileCjk(c) {
        if current != [] {
          LowerEachAppend(raw, [current]);
          tokens := tokens + [Lower(current)];
          raw := raw + [current];
          current := [];
        }
        assert Lower([c]) == [c];
        LowerEachAppend(raw, [[c]]);
        tokens := tokens + [[c]];
        raw := raw + [[c]];
      } else if RegexSpace(c) || punct(c) {
        if current != [] {
          LowerEachAppend(raw, [current]);
          tokens := tokens + [Lower(current)];
          raw := raw + [current];
          current := [];
        }
      } else {
        current := current + [c];
      }
      i := i + 1;
    }
    assert str[..i] == str;
    if current != [] {
      LowerEachAppend(raw, [current]);
      tokens := tokens + [Lower(current)];
    }
  }

  /** No ASCII letter is punctuation; Unicode's punctuation category has none. */
  predicate LettersNotPunct(punct: char -> bool)
  {
    forall c: char :: ('A' <= c <= 'Z' || 'a' <= c <= 'z') ==> !punct(c)
  }

  function LowerScan(st: Desktop.Scan): Desktop.Scan
  {
    Desktop.Scan(LowerEach(st.tokens), Lower(st.word))
  }

  lemma LowerSnoc(s: string, c: char)
    ensures Lower(s + [c]) == Lower(s) + [LowerChar(c)]
  {
    assert |Lower(s + [c])| == |Lower(s) + [LowerChar(c)]|;
    forall i | 0 <= i < |s| + 1
      ensures Lower(s + [c])[i] == (Lower(s) + [LowerChar(c)])[i]
    {
      if i < |s| {
        assert (s + [c])[i] == s[i];
      }
    }
  }

  lemma StepLowered(st: Desktop.Scan, c: char, punct: char -> bool)
    requires LettersNotPunct(punct)
    ensures Desktop.Step(LowerScan(st), LowerChar(c), MobileCjk, punct) == LowerScan(Desktop.Step(st, c, MobileCjk, punct))
  {
    var d := LowerChar(c);
    assert MobileCjk(d) == MobileCjk(c);
    assert Desktop.Separator(d, punct) == Desktop.Separator(c, punct);
    var f := Desktop.Flushed(st);
    if st.word != [] {
      LowerEachAppend(st.tokens, [st.word]);
    }
    assert Desktop.Flushed(LowerScan(st)) == LowerEach(f);
    if MobileCjk(c) {
      assert d == c && Lower([c]) == [c];
      LowerEachAppend(f, [[c]]);
    } else if !Desktop.Separator(c, punct) {
      LowerSnoc(st.word, c);
    }
  }

  lemma {:induction false} RunLowered(s: string, punct: char -> bool)
    requires LettersNotPunct(punct)
    ensures Desktop.Run(Desktop.Scan([], []), Lower(s), MobileCjk, punct) == LowerScan(Desktop.Run(Desktop.Scan([], []), s, MobileCjk, punct))
  {
    if s != [] {
      var start := Desktop.Scan([], []);
      var init := s[..|s| - 1];
      var c := s[|s| - 1];
      var l := Lower(s);
      LowerSnoc(init, c);
      assert init + [c] == s;
      assert l[..|l| - 1] == Lower(init) && l[|l| - 1] == LowerChar(c);
      var before := Desktop.Run(start, init, MobileCjk, punct);
      assert Desktop.Run(start, l, MobileCjk, punct)
        == Desktop.Step(Desktop.Run(start, Lower(init), MobileCjk, punct), LowerChar(c), MobileCjk, punct);
      assert Desktop.Run(start, s, MobileCjk, punct) == Desktop.Step(before, c, MobileCjk, punct);
      RunLowered(init, punct);
      StepLowered(before, c, punct);
    }
  }

  /**
   * Lower-casing each word as it is pushed gives the tokens of the
   * lower-cased text, as the desktop tokenizer computes them, since
   * lower-casing changes no character's class.
   */
  lemma TokenizerLowersLikeDesktop(str: string, punct: char -> bool)
    requires LettersNotPunct(punct)
    ensures LowerEach(Desktop.Tokenize(str, MobileCjk, punct)) == Desktop.Tokenize(Lower(str), MobileCjk, punct)
  {
    RunLowered(str, punct);
    var st := Desktop.Run(Desktop.Scan([], []), str, MobileCjk, punct);
    if st.word != [] {
      LowerEachAppend(st.tokens, [st.word]);
    }
  }

  // ---- the matcher -----------------------------------------------------------

  const MAX_MATCHES: nat := 20

  /** matches.slice(0, 20). */
  function Capped(ms: seq<Desktop.SearchMatch>): (r: seq<Desktop.SearchMatch>)
    ensures |r| <= MAX_MATCHES && r <= ms
    ensures |ms| <= MAX_MATCHES ==> r == ms
  {
    if |ms| <= MAX_MATCHES then ms else ms[..MAX_MATCHES]
  }

  /**
   * findMatches: the desktop matcher's loop over the lines, with matchEnd
   * counted in the searched query's code units (as many as the query's),
   * and only the first 20 matches kept. An empty query would never advance.
   */
  method FindMatches(content: string, query: string, options: Desktop.SearchOptions) returns (matches: seq<Desktop.SearchMatch>)
    requires query != []
    ensures matches == Capped(Desktop.Matches(content, query, options))
  {
    var lines := Split(content, '\n');
    var searchQuery := Desktop.CodeUnits(Desktop.SearchText(query, options.caseSensitive));
    var queryLength := |searchQuery|;
    Desktop.SearchTextUnits(query, options.caseSensitive);
    assert queryLength == |Desktop.CodeUnits(query)|;
    var all: seq<Desktop.SearchMatch> := [];
    var i := 0;
    while i < |lines|
      invariant 0 <= i <= |lines|
      invariant all == Desktop.MatchesIn(lines[..i], query, options)
    {
      var line := lines[i];
      var searchLine := Desktop.CodeUnits(Desktop.SearchText(line, options.caseSensitive));
      var here := Desktop.MatchLine(i + 1, line, searchLine, searchQuery, queryLength, options.wholeWord);
      assert all + here == Desktop.MatchesIn(lines[..i + 1], query, options) by {
        Desktop.MatchesInStep(lines, i, query, options, here);
      }
      all := all + here;
      i := i + 1;
    }
    assert lines[..i] == lines;
    matches := if |all| <= MAX_MATCHES then all else all[..MAX_MATCHES];
  }

  /**
   * The kept matches are the first ones in line and position order: each
   * names its 1-based line, starts at an accepted occurrence of the query
   * and ends a query length later, and they are no more than 20.
   */
  lemma CappedMatchesDescribe(content: string, query: string, options: Desktop.SearchOptions)
    requires query != []
    ensures var r := Capped(Desktop.Matches(content, query, options));
      |r| <= MAX_MATCHES && Desktop.InOrder(r) &&
      forall m :: m in r ==> Desktop.MatchOfLine(m, Split(content, '\n'), query, options)
  {
    var lines := Split(content, '\n');
    var all := Desktop.Matches(content, query, options);
    Desktop.MatchesDescribeLines(lines, query, options);
    Desktop.MatchesInOrder(lines, query, options);
    var r := Capped(all);
    forall m | m in r
      ensures m in all
    {
      var i :| 0 <= i < |r| && r[i] == m;
      assert all[i] == m;
    }
    forall i, j | 0 <= i < j < |r|
      ensures Desktop.Before(r[i], r[j])
    {
      assert r[i] == all[i] && r[j] == all[j];
    }
  }

  // ---- the document map and the answer -------------------------------------

  /** The result for one id: the document stored under it, if it passes the filter, with its kept matches. */
  function HitFor(docs: map<nat, Desktop.IndexedDoc>, id: nat, query: string, options: Desktop.SearchOptions): seq<Desktop.SearchResult>
    requires query != []
  {
    if id !in docs || !Desktop.InFolders(docs[id].id, options.folderFilter) then []
    else
      var ms := Capped(Desktop.Matches(docs[id].content, query, options));
      [Desktop.SearchResult(docs[id].id, docs[id].fileName, ms, |ms|)]
  }

  /** The results in the index's order, before sorting. */
  function Hits(docs: map<nat, Desktop.IndexedDoc>, ids: seq<nat>, query: string, options: Desktop.SearchOptions): seq<Desktop.SearchResult>
    requires query != []
  {
    if ids == [] then []
    else Hits(docs, ids[..|ids| - 1], query, options) + HitFor(docs, ids[|ids| - 1], query, options)
  }

  /** search's answer: nothing before the index is built or for a blank query, else the hits sorted by score. */
  function Answer(indexBuilt: bool, docs: map<nat, Desktop.IndexedDoc>, ids: seq<nat>, query: string, options: Desktop.SearchOptions): seq<Desktop.SearchResult>
  {
    if !indexBuilt || Blank(query) then [] else Desktop.SortByScore(Hits(docs, ids, query, options))
  }

  /** A result as search promises it: the document under one of the ids, passing the filter, with its kept matches. */
  predicate ResultOf(r: Desktop.SearchResult, docs: map<nat, Desktop.IndexedDoc>, ids: seq<nat>, query: string, options: Desktop.SearchOptions)
    requires query != []
  {
    exists id :: id in docs && id in ids && ResultMatches(r, docs[id], query, options)
  }

  predicate ResultMatches(r: Desktop.SearchResult, d: Desktop.IndexedDoc, query: string, options: Desktop.SearchOptions)
    requires query != []
  {
    && r.filePath == d.id && r.fileName == d.fileName
    && Desktop.InFolders(d.id, options.folderFilter)
    && r.matches == Capped(Desktop.Matches(d.content, query, options))
    && r.score == |r.matches| <= MAX_MATCHES
  }

  /** Every hit is the document stored under an id of the index's answer and passing the filter, with its kept matches. */
  lemma {:induction false} HitsSound(docs: map<nat, Desktop.IndexedDoc>, ids: seq<nat>, query: string, options: Desktop.SearchOptions)
    requires query != []
    ensures forall r :: r in Hits(docs, ids, query, options) ==> ResultOf(r, docs, ids, query, options)
  {
    if ids != [] {
      var init := ids[..|ids| - 1];
      var last := ids[|ids| - 1];
      HitsSound(docs, init, query, options);
      var earlier := Hits(docs, init, query, options);
      var here := HitFor(docs, last, query, options);
      forall r | r in earlier + here
        ensures ResultOf(r, docs, ids, query, options)
      {
        if r in earlier {
          var id :| id in docs && id in init && ResultMatches(r, docs[id], query, options);
          assert id in ids;
        } else {
          assert r == here[0];
          assert ResultMatches(r, docs[last], query, options);
        }
      }
    }
  }

  /** An id of the index's answer with a stored document passing the filter always gives a hit, even one without matches. */
  lemma {:induction false} HitsComplete(docs: map<nat, Desktop.IndexedDoc>, ids: seq<nat>, query: string, options: Desktop.SearchOptions, k: nat)
    requires query != [] && k < |ids| && ids[k] in docs && Desktop.InFolders(docs[ids[k]].id, options.folderFilter)
    ensures HitFor(docs, ids[k], query, options) != []
    ensures HitFor(docs, ids[k], query, options)[0] in Hits(docs, ids, query, options)
  {
    var init := ids[..|ids| - 1];
    var hits := Hits(docs, ids, query, options);
    assert hits == Hits(docs, init, query, options) + HitFor(docs, ids[|ids| - 1], query, options);
    if k < |ids| - 1 {
      assert init[k] == ids[k];
      HitsComplete(docs, init, query, options, k);
    }
  }

  /**
   * Before the index is built, or for a blank query, search answers
   * nothing; otherwise its answer is sorted by score and holds only
   * results search promises.
   */
  lemma AnswerDescribe(indexBuilt: bool, docs: map<nat, Desktop.IndexedDoc>, ids: seq<nat>, query: string, options: Desktop.SearchOptions)
    ensures !indexBuilt || Blank(query) ==> Answer(indexBuilt, docs, ids, query, options) == []
    ensures indexBuilt && !Blank(query) ==> query != [] && Desktop.ScoreSorted(Answer(indexBuilt, docs, ids, query, options))
    ensures indexBuilt && !Blank(query) ==> query != [] && (forall r :: r in Answer(indexBuilt, docs, ids, query, options) ==> ResultOf(r, docs, ids, query, options))
  {
    if indexBuilt && !Blank(query) {
      var hits := Hits(docs, ids, query, options);
      HitsSound(docs, ids, query, options);
      Desktop.SortByScoreSpec(hits);
      forall r | r in Desktop.SortByScore(hits)
        ensures r in hits
      {
        assert r in multiset(Desktop.SortByScore(hits));
      }
    }
  }

  /** The document map buildIndex fills from the scanned files: (relative path, file name, content or None). */
  function Built(files: seq<(string, string, Option<string>)>): map<nat, Desktop.IndexedDoc>
  {
    if files == [] then map[]
    else
      var (relativePath, fileName, content) := files[|files| - 1];
      var docs := Built(files[..|files| - 1]);
      if content.None? then docs else docs[Desktop.HashValue(relativePath) := Desktop.IndexedDoc(relativePath, content.value, fileName)]
  }

  /** Indexing one more file stores it under its path's hash, over whatever was there. */
  lemma BuiltSnoc(files: seq<(string, string, Option<string>)>, relativePath: string, fileName: string, content: string)
    ensures Built(files + [(relativePath, fileName, Some(content))])
      == Built(files)[Desktop.HashValue(relativePath) := Desktop.IndexedDoc(relativePath, content, fileName)]
  {
    var all := files + [(relativePath, fileName, Some(content))];
    assert all[..|all| - 1] == files;
  }

  /** Paths that hash alike share one entry: the one indexed last. */
  lemma CollisionOverwrites(a: string, b: string, x: string, y: string)
    requires Desktop.HashValue(a) == Desktop.HashValue(b)
    ensures Built([(a, a, Some(x)), (b, b, Some(y))]) == map[Desktop.HashValue(a) := Desktop.IndexedDoc(b, y, b)]
  {
    BuiltSnoc([], a, a, x);
    BuiltSnoc([(a, a, Some(x))], b, b, y);
    assert [] + [(a, a, Some(x))] == [(a, a, Some(x))];
    assert [(a, a, Some(x))] + [(b, b, Some(y))] == [(a, a, Some(x)), (b, b, Some(y))];
  }

  /** "Aa" and "BB" hash alike, so indexing both leaves only "BB": "Aa" can no longer be found. */
  lemma CollidingPathsOverwrite()
    ensures var docs := Built([("Aa", "Aa", Some("x")), ("BB", "BB", Some("y"))]);
      docs.Keys == {2112} && docs[2112] == Desktop.IndexedDoc("BB", "y", "BB")
  {
    Desktop.HashCollision();
    CollisionOverwrites("Aa", "BB", "x", "y");
  }

  /** The mobile search service: whether the index is built, the workspace, and the documents by path hash. */
  class SearchService {
    var indexBuilt: bool
    var docs: map<nat, Desktop.IndexedDoc>
    var workspacePath: string

    constructor()
      ensures !indexBuilt && docs == map[] && workspacePath == []
    {
      indexBuilt := false;
      docs := map[];
      workspacePath := [];
    }

    /** indexFile: the content stored under the path's hash; an unreadable file is skipped. */
    method IndexFile(relativePath: string, fileName: string, content: Option<string>)
      modifies this
      ensures indexBuilt == old(indexBuilt) && workspacePath == old(workspacePath)
      ensures content.None? ==> docs == old(docs)
      ensures content.Some? ==> docs == old(docs)[Desktop.HashValue(relativePath) := Desktop.IndexedDoc(relativePath, content.value, fileName)]
    {
      if content.Some? {
        var id := Desktop.HashPath(relativePath);
        docs := docs[id := Desktop.IndexedDoc(relativePath, content.value, fileName)];
      }
    }

    /** buildIndex: a fresh index and document map, filled from the scanned files in order. */
    method BuildIndex(workspacePath: string, files: seq<(string, string, Option<string>)>)
      modifies this
      ensures indexBuilt && this.workspacePath == workspacePath && docs == Built(files)
    {
      this.workspacePath := workspacePath;
      indexBuilt := true;
      docs := map[];
      for i := 0 to |files|
        invariant indexBuilt && this.workspacePath == workspacePath && docs == Built(files[..i])
      {
        assert files[..i + 1][..i] == files[..i];
        IndexFile(files[i].0, files[i].1, files[i].2);
      }
      assert files[..|files|] == files;
    }

    /** updateFile: the entry under the path's hash removed, then the file read again under its getFileName name. */
    method UpdateFile(relativePath: string, content: Option<string>)
      modifies this
      ensures indexBuilt == old(indexBuilt) && workspacePath == old(workspacePath)
      ensures content.None? ==> docs == old(docs) - {Desktop.HashValue(relativePath)}
      ensures content.Some? ==>
        docs == old(docs)[Desktop.HashValue(relativePath) := Desktop.IndexedDoc(relativePath, content.value, EditorDesktop.GetFileName(relativePath))]
    {
      var id := Desktop.HashPath(relativePath);
      docs := docs - {id};
      var fileName := EditorDesktop.GetFileName(relativePath);
      IndexFile(relativePath, fileName, content);
    }

    /** removeFile: the entry under the path's hash removed, whichever path put it there. */
    method RemoveFile(relativePath: string)
      modifies this
      ensures indexBuilt == old(indexBuilt) && workspacePath == old(workspacePath)
      ensures docs == old(docs) - {Desktop.HashValue(relativePath)}
    {
      var id := Desktop.HashPath(relativePath);
      docs := docs - {id};
    }

    /**
     * search, given the ids the full-text index returns for the query: each
     * id's stored document, if it passes the folder filter, with its kept
     * matches, and the results sorted by score.
     */
    method Search(query: string, options: Desktop.SearchOptions, ids: seq<nat>) returns (results: seq<Desktop.SearchResult>)
      ensures results == Answer(indexBuilt, docs, ids, query, options)
    {
      if !indexBuilt || Blank(query) {
        return [];
      }
      assert query != [];
      var found: seq<Desktop.SearchResult> := [];
      for n := 0 to |ids|
        invariant found == Hits(docs, ids[..n], query, options)
      {
        assert ids[..n + 1][..n] == ids[..n];
        var id := ids[n];
        if id !in docs {
          continue;
        }
        var doc := docs[id];
        if |options.folderFilter| > 0 {
          var inFolder := exists i :: 0 <= i < |options.folderFilter| && options.folderFilter[i] <= doc.id;
          if !inFolder {
            continue;
          }
        }
        var matches := FindMatches(doc.content, query, options);
        found := found + [Desktop.SearchResult(doc.id, doc.fileName, matches, |matches|)];
      }
      assert ids[..|ids|] == ids;
      results := Desktop.SortByScore(found);
    }
  }
}
