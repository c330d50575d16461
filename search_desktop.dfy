// The desktop main process's search service around its full-text index:
// the CJK-aware tokenizer it gives the index, the 32-bit path hash used as
// document id, the line matcher that finds where the query occurs, and the
// post-processing of the index's answer.
module SearchDesktop {
  import opened Wrappers
  import opened Strings
  import opened Paths

  datatype SearchMatch = SearchMatch(lineNumber: nat, lineContent: string, matchStart: nat, matchEnd: nat)
  datatype SearchResult = SearchResult(filePath: string, fileName: string, matches: seq<SearchMatch>, score: nat)
  /** The options the matcher and the folder filter read; an absent option is false or empty. */
  datatype SearchOptions = SearchOptions(caseSensitive: bool, wholeWord: bool, folderFilter: seq<string>)
  datatype IndexedDoc = IndexedDoc(id: string, content: string, fileName: string)

  // ---- the tokenizer -------------------------------------------------------

  /** CJK_REGEX: CJK Unified Ideographs, Extension A, and Compatibility Ideographs. */
  predicate DesktopCjk(c: char)
  {
    ('\U{4E00}' <= c <= '\U{9FFF}') || ('\U{3400}' <= c <= '\U{4DBF}') || ('\U{F900}' <= c <= '\U{FAFF}')
  }

  /** `/[\s\p{P}]/u`, with `punct` the Unicode punctuation category. */
  predicate Separator(c: char, punct: char -> bool)
  {
    RegexSpace(c) || punct(c)
  }

  /** The tokenizer loop's state: the tokens pushed and the word being collected. */
  datatype Scan = Scan(tokens: seq<string>, word: string)

  /** The tokens with a non-empty word pushed. */
  function Flushed(st: Scan): seq<string>
  {
    if st.word != [] then st.tokens + [st.word] else st.tokens
  }

  /** One character: a CJK character is a token of its own, a separator ends the word, any other extends it. */
  function Step(st: Scan, c: char, cjk: char -> bool, punct: char -> bool): Scan
  {
    if cjk(c) then Scan(Flushed(st) + [[c]], [])
    else if Separator(c, punct) then Scan(Flushed(st), [])
    else Scan(st.tokens, st.word + [c])
  }

  predicate WellFormed(st: Scan, cjk: char -> bool, punct: char -> bool)
  {
    && (forall i :: 0 <= i < |st.tokens| ==> GoodToken(st.tokens[i], cjk, punct))
    && (forall k :: 0 <= k < |st.word| ==> !cjk(st.word[k]) && !Separator(st.word[k], punct))
  }

  /** A token is non-empty, holds no separator, and is a lone character when it holds a CJK one. */
  predicate GoodToken(t: string, cjk: char -> bool, punct: char -> bool)
  {
    && t != []
    && (forall k :: 0 <= k < |t| ==> !Separator(t[k], punct) || cjk(t[k]))
    && (forall k :: 0 <= k < |t| ==> cjk(t[k]) ==> t == [t[k]])
  }

  /** The state after the loop has read s. */
  function Run(st: Scan, s: string, cjk: char -> bool, punct: char -> bool): Scan
  {
    if s == [] then st else Step(Run(st, s[..|s| - 1], cjk, punct), s[|s| - 1], cjk, punct)
  }

  lemma {:induction false} RunWellFormed(s: string, cjk: char -> bool, punct: char -> bool)
    ensures WellFormed(Run(Scan([], []), s, cjk, punct), cjk, punct)
  {
    if s != [] {
      RunWellFormed(s[..|s| - 1], cjk, punct);
    }
  }

  /** The tokens of s. */
  function Tokenize(s: string, cjk: char -> bool, punct: char -> bool): (r: seq<string>)
    ensures forall i :: 0 <= i < |r| ==> GoodToken(r[i], cjk, punct)
  {
    RunWellFormed(s, cjk, punct);
    Flushed(Run(Scan([], []), s, cjk, punct))
  }

  lemma {:induction false} RunAppend(st: Scan, a: string, b: string, cjk: char -> bool, punct: char -> bool)
    ensures Run(st, a + b, cjk, punct) == Run(Run(st, a, cjk, punct), b, cjk, punct)
  {
    if b != [] {
      assert (a + b)[..|a + b| - 1] == a + b[..|b| - 1];
      RunAppend(st, a, b[..|b| - 1], cjk, punct);
    } else {
      assert a + b == a;
    }
  }

  /** Starting with tokens already pushed and no word, the loop only appends to them. */
  lemma {:induction false} RunAfter(t: seq<string>, s: string, cjk: char -> bool, punct: char -> bool)
    ensures var alone := Run(Scan([], []), s, cjk, punct);
      Run(Scan(t, []), s, cjk, punct) == Scan(t + alone.tokens, alone.word)
  {
    if s != [] {
      var init := s[..|s| - 1];
      RunAfter(t, init, cjk, punct);
      StepAfter(t, Run(Scan([], []), init, cjk, punct), s[|s| - 1], cjk, punct);
    }
  }

  /** One step over tokens already pushed acts as it does without them. */
  lemma StepAfter(t: seq<string>, a: Scan, c: char, cjk: char -> bool, punct: char -> bool)
    ensures var b := Step(a, c, cjk, punct);
      Step(Scan(t + a.tokens, a.word), c, cjk, punct) == Scan(t + b.tokens, b.word)
  {
    var shifted := Scan(t + a.tokens, a.word);
    assert Flushed(shifted) == t + Flushed(a) by {
      if a.word != [] {
        SeqAssoc(t, a.tokens, [a.word]);
      }
    }
    SeqAssoc(t, Flushed(a), [[c]]);
  }

  /** A run of word characters is one token. */
  lemma {:induction false} TokenizeWord(w: string, cjk: char -> bool, punct: char -> bool)
    requires w != []
    requires forall k :: 0 <= k < |w| ==> !cjk(w[k]) && !Separator(w[k], punct)
    ensures Tokenize(w, cjk, punct) == [w]
  {
    RunWord(w, cjk, punct);
  }

  lemma {:induction false} RunWord(w: string, cjk: char -> bool, punct: char -> bool)
    requires forall k :: 0 <= k < |w| ==> !cjk(w[k]) && !Separator(w[k], punct)
    ensures Run(Scan([], []), w, cjk, punct) == Scan([], w)
  {
    if w != [] {
      RunWord(w[..|w| - 1], cjk, punct);
      assert w[..|w| - 1] + [w[|w| - 1]] == w;
    }
  }

  /** A separator splits the text: the tokens are those of either side. */
  lemma TokenizeAtSeparator(a: string, c: char, b: string, cjk: char -> bool, punct: char -> bool)
    requires Separator(c, punct) && !cjk(c)
    ensures Tokenize(a + [c] + b, cjk, punct) == Tokenize(a, cjk, punct) + Tokenize(b, cjk, punct)
  {
    var init := Scan([], []);
    RunAppend(init, a + [c], b, cjk, punct);
    assert (a + [c])[..|a + [c]| - 1] == a;
    RunAfter(Tokenize(a, cjk, punct), b, cjk, punct);
  }

  /** A CJK character is a token between the tokens of either side. */
  lemma TokenizeAtCjk(a: string, c: char, b: string, cjk: char -> bool, punct: char -> bool)
    requires cjk(c)
    ensures Tokenize(a + [c] + b, cjk, punct) == Tokenize(a, cjk, punct) + [[c]] + Tokenize(b, cjk, punct)
  {
    var init := Scan([], []);
    RunAppend(init, a + [c], b, cjk, punct);
    assert (a + [c])[..|a + [c]| - 1] == a;
    RunAfter(Tokenize(a, cjk, punct) + [[c]], b, cjk, punct);
  }

  /** Reading one more character is one more Step. */
  lemma RunStep(s: string, i: nat, cjk: char -> bool, punct: char -> bool)
    requires i < |s|
    ensures Run(Scan([], []), s[..i + 1], cjk, punct) == Step(Run(Scan([], []), s[..i], cjk, punct), s[i], cjk, punct)
  {
    assert s[..i + 1][..i] == s[..i];
  }

  /** cjkTokenize: the lower-cased text read character by character. */
  method CjkTokenize(text: string, punct: char -> bool) returns (tokens: seq<string>)
    ensures tokens == Tokenize(Lower(text), DesktopCjk, punct)
  {
    var lower := Lower(text);
    tokens := [];
    var wordBuf: string := [];
    var i := 0;
    while i < |lower|
      invariant 0 <= i <= |lower|
      invariant Run(Scan([], []), lower[..i], DesktopCjk, punct) == Scan(tokens, wordBuf)
    {
      var c := lower[i];
      ghost var before := Scan(tokens, wordBuf);
      if DesktopCjk(c) {
        if wordBuf != [] {
          tokens := tokens + [wordBuf];
          wordBuf := [];
        }
        tokens := tokens + [[c]];
      } else if RegexSpace(c) || punct(c) {
        if wordBuf != [] {
          tokens := tokens + [wordBuf];
          wordBuf := [];
        }
      } else {
        wordBuf := wordBuf + [c];
      }
      assert Scan(tokens, wordBuf) == Step(before, c, DesktopCjk, punct);
      RunStep(lower, i, DesktopCjk, punct);
      i := i + 1;
    }
    assert lower[..i] == lower;
    if wordBuf != [] {
      tokens := tokens + [wordBuf];
    }
  }

  // ---- the path hash -------------------------------------------------------

  const TWO_32: int := 0x1_0000_0000
  const TWO_31: int := 0x8000_0000

  /** ToInt32: the signed 32-bit integer congruent to x modulo 2^32, as `x | 0` computes it. */
  function ToInt32(x: int): (r: int)
    ensures -TWO_31 <= r < TWO_31
  {
    (x + TWO_31) % TWO_32 - TWO_31
  }

  lemma ToInt32Shift(x: int, k: int)
    ensures ToInt32(x + k * TWO_32) == ToInt32(x)
  {
    assert (x + TWO_31 + k * TWO_32) % TWO_32 == (x + TWO_31) % TWO_32;
  }

  /** The UTF-16 encoding of one character: itself below U+10000, a surrogate pair above. */
  function Encode(c: char): (r: seq<nat>)
    ensures 1 <= |r| <= 2
  {
    var n := c as int;
    if n < 0x1_0000 then [n] else [0xD800 + (n - 0x1_0000) / 0x400, 0xDC00 + (n - 0x1_0000) % 0x400]
  }

  /**
   * The UTF-16 code units of a string, which is what a JavaScript string
   * is: charCodeAt, indexOf, `s[i]` and `length` all count these.
   */
  function CodeUnits(s: string): (r: seq<nat>)
    ensures |s| <= |r|
  {
    if s == [] then [] else Encode(s[0]) + CodeUnits(s[1..])
  }

  /** The hash before Math.abs: h * 31 + unit for every code unit, kept to signed 32 bits. */
  function Hash32(units: seq<nat>): (h: int)
    ensures -TWO_31 <= h < TWO_31
  {
    if units == [] then 0 else ToInt32(31 * Hash32(units[..|units| - 1]) + units[|units| - 1])
  }

  /** hashPath's value, which lies between 0 and 2^31 (the absolute value of -2^31). */
  function HashValue(path: string): (r: nat)
    ensures r <= TWO_31
  {
    var h := Hash32(CodeUnits(path));
    if h < 0 then -h else h
  }

  /** `(hash << 5) - hash + char`, then `| 0`, is the wrapped h * 31 + char. */
  lemma ShiftStep(h: int, c: int)
    requires -TWO_31 <= h < TWO_31
    ensures ToInt32(ToInt32(h * 32) - h + c) == ToInt32(31 * h + c)
  {
    var k := (h * 32 + TWO_31) / TWO_32;
    assert ToInt32(h * 32) == h * 32 - k * TWO_32;
    ToInt32Shift(31 * h + c, -k);
  }

  /** hashPath: the shift-subtract loop over the path's code units, then the absolute value. */
  method HashPath(path: string) returns (r: nat)
    ensures r == HashValue(path)
  {
    var units := CodeUnits(path);
    var hash := 0;
    var i := 0;
    while i < |units|
      invariant 0 <= i <= |units|
      invariant hash == Hash32(units[..i])
    {
      var unit := units[i];
      assert units[..i + 1][..i] == units[..i];
      ShiftStep(hash, unit);
      hash := ToInt32(ToInt32(hash * 32) - hash + unit);
      i := i + 1;
    }
    assert units[..i] == units;
    r := if hash < 0 then -hash else hash;
  }

  lemma ToInt32InRange(x: int)
    requires -TWO_31 <= x < TWO_31
    ensures ToInt32(x) == x
  {
  }

  lemma HashOfTwo(a: char, b: char)
    requires a as int < 0x1_0000 && b as int < 0x1_0000
    ensures HashValue([a, b]) == 31 * (a as int) + b as int
  {
    CodeUnitsOfTwo(a, b);
    Hash32OfTwo(a as int, b as int);
  }

  lemma CodeUnitsOfTwo(a: char, b: char)
    requires a as int < 0x1_0000 && b as int < 0x1_0000
    ensures CodeUnits([a, b]) == [a as int, b as int]
  {
    assert [a, b][..1] == [a];
    assert [a][..0] == [];
    assert CodeUnits([a]) == [a as int];
  }

  lemma Hash32OfTwo(x: nat, y: nat)
    requires x < 0x1_0000 && y < 0x1_0000
    ensures Hash32([x, y]) == 31 * x + y
  {
    assert [x, y][..1] == [x];
    assert [x][..0] == [];
    ToInt32InRange(x);
    assert Hash32([x]) == x;
    ToInt32InRange(31 * x + y);
  }

  /** Two paths can share a hash: "Aa" and "BB" both hash to 2112. */
  lemma HashCollision()
    ensures HashValue("Aa") == HashValue("BB") == 2112
  {
    HashOfTwo('A', 'a');
    HashOfTwo('B', 'B');
  }

  // ---- the line matcher ----------------------------------------------------

  /** `/\w/` on a one-unit string: ASCII letters, digits and '_'. */
  predicate WordUnit(u: nat)
  {
    (0x61 <= u <= 0x7A) || (0x41 <= u <= 0x5A) || (0x30 <= u <= 0x39) || u == 0x5F
  }

  /** The code unit of ' ', which stands in for the neighbour at a line edge. */
  const SPACE: nat := 0x20

  /** The whole-word test on an occurrence: no word unit on either side, a line edge counting as a space. */
  predicate WholeWordAt(line: seq<nat>, q: seq<nat>, p: nat)
    requires p + |q| <= |line|
  {
    var before := if p > 0 then line[p - 1] else SPACE;
    var after := if p + |q| < |line| then line[p + |q|] else SPACE;
    !WordUnit(before) && !WordUnit(after)
  }

  /** An occurrence the matcher reports: any occurrence, or with wholeWord one that passes the test. */
  predicate Accepted(line: seq<nat>, q: seq<nat>, wholeWord: bool, p: nat)
  {
    OccursAt(line, q, p) && (wholeWord ==> WholeWordAt(line, q, p))
  }

  /**
   * The starts the matcher reports in one line's code units from `from`:
   * an accepted occurrence is reported and the search resumes past it, any
   * other position is passed by one.
   */
  function Starts(line: seq<nat>, q: seq<nat>, wholeWord: bool, from: nat): seq<nat>
    requires q != []
    decreases |line| - from
  {
    if from >= |line| then []
    else if Accepted(line, q, wholeWord, from) then [from] + Starts(line, q, wholeWord, from + |q|)
    else Starts(line, q, wholeWord, from + 1)
  }

  /** Every start in r is an accepted occurrence at or after `from`. */
  predicate AllAccepted(r: seq<nat>, line: seq<nat>, q: seq<nat>, wholeWord: bool, from: nat)
  {
    forall i :: 0 <= i < |r| ==> from <= r[i] && Accepted(line, q, wholeWord, r[i])
  }

  /** Consecutive starts in r lie at least n apart. */
  predicate Spaced(r: seq<nat>, n: nat)
  {
    forall i :: 0 <= i < |r| - 1 ==> r[i] + n <= r[i + 1]
  }

  /** Every reported start is an accepted occurrence at or after `from`, and the matches do not overlap. */
  lemma {:induction false} StartsSound(line: seq<nat>, q: seq<nat>, wholeWord: bool, from: nat)
    requires q != []
    ensures AllAccepted(Starts(line, q, wholeWord, from), line, q, wholeWord, from)
    ensures Spaced(Starts(line, q, wholeWord, from), |q|)
    decreases |line| - from
  {
    var r := Starts(line, q, wholeWord, from);
    if from < |line| {
      if Accepted(line, q, wholeWord, from) {
        StartsSound(line, q, wholeWord, from + |q|);
        var rest := Starts(line, q, wholeWord, from + |q|);
        assert r == [from] + rest;
        forall i | 1 <= i < |r|
          ensures r[i] == rest[i - 1] && from + |q| <= r[i]
        {
        }
        if |rest| > 0 {
          assert r[0] + |q| <= r[1];
        }
      } else {
        StartsSound(line, q, wholeWord, from + 1);
        assert r == Starts(line, q, wholeWord, from + 1);
      }
    }
  }

  /** Position p is reported in r or lies inside a reported match. */
  predicate Covered(r: seq<nat>, n: nat, p: nat)
  {
    p in r || exists j :: 0 <= j < |r| && r[j] < p < r[j] + n
  }

  /**
   * The matcher misses no accepted occurrence except inside an earlier
   * match: every one from `from` on is reported or overlaps a reported one.
   */
  lemma {:induction false} StartsComplete(line: seq<nat>, q: seq<nat>, wholeWord: bool, from: nat, p: nat)
    requires q != [] && from <= p && Accepted(line, q, wholeWord, p)
    ensures Covered(Starts(line, q, wholeWord, from), |q|, p)
    decreases |line| - from
  {
    var r := Starts(line, q, wholeWord, from);
    if Accepted(line, q, wholeWord, from) {
      var rest := Starts(line, q, wholeWord, from + |q|);
      assert r == [from] + rest;
      if p == from {
        assert p in r;
      } else if p < from + |q| {
        assert r[0] < p < r[0] + |q|;
      } else {
        StartsComplete(line, q, wholeWord, from + |q|, p);
        if p in rest {
          assert p in r;
        } else {
          var j :| 0 <= j < |rest| && rest[j] < p < rest[j] + |q|;
          assert r[j + 1] == rest[j];
        }
      }
    } else {
      StartsComplete(line, q, wholeWord, from + 1, p);
    }
  }

  /** Starts passes over positions where the query does not occur. */
  lemma {:induction false} StartsSkip(line: seq<nat>, q: seq<nat>, wholeWord: bool, from: nat, m: nat)
    requires q != [] && from <= m
    requires forall j :: from <= j < m ==> !OccursAt(line, q, j)
    ensures Starts(line, q, wholeWord, from) == Starts(line, q, wholeWord, m)
    decreases m - from
  {
    if from < m {
      StartsSkip(line, q, wholeWord, from + 1, m);
      if from < |line| {
        assert !Accepted(line, q, wholeWord, from);
      } else {
        assert Starts(line, q, wholeWord, m) == [];
      }
    }
  }

  /** The matches reported for the starts found in one line. */
  function LineMatches(lineNumber: nat, line: string, starts: seq<nat>, queryLength: nat): seq<SearchMatch>
  {
    if starts == [] then []
    else [SearchMatch(lineNumber, line, starts[0], starts[0] + queryLength)] + LineMatches(lineNumber, line, starts[1..], queryLength)
  }

  /** One match per start, in the same order, naming the line and ending a query length later. */
  lemma {:induction false} LineMatchesAt(lineNumber: nat, line: string, starts: seq<nat>, queryLength: nat)
    ensures var r := LineMatches(lineNumber, line, starts, queryLength);
      |r| == |starts| && forall i :: 0 <= i < |r| ==> r[i] == SearchMatch(lineNumber, line, starts[i], starts[i] + queryLength)
  {
    if starts != [] {
      LineMatchesAt(lineNumber, line, starts[1..], queryLength);
    }
  }

  /** The text the matcher searches: as it is with caseSensitive, else lower-cased. */
  function SearchText(s: string, caseSensitive: bool): (r: string)
    ensures |r| == |s|
  {
    if caseSensitive then s else Lower(s)
  }

  /** The matches of one line, numbered n, with positions and lengths in code units. */
  function MatchesOfLine(n: nat, line: string, query: string, options: SearchOptions): seq<SearchMatch>
    requires query != []
  {
    var q := CodeUnits(SearchText(query, options.caseSensitive));
    LineMatches(n, line, Starts(CodeUnits(SearchText(line, options.caseSensitive)), q, options.wholeWord, 0), |CodeUnits(query)|)
  }

  /** The matches in the given lines, numbered from 1 in order. */
  function MatchesIn(lines: seq<string>, query: string, options: SearchOptions): seq<SearchMatch>
    requires query != []
  {
    if lines == [] then []
    else MatchesIn(lines[..|lines| - 1], query, options) + MatchesOfLine(|lines|, lines[|lines| - 1], query, options)
  }

  /** findMatches's answer for a document's content. */
  function Matches(content: string, query: string, options: SearchOptions): seq<SearchMatch>
    requires query != []
  {
    MatchesIn(Split(content, '\n'), query, options)
  }

  /** A match as findMatches promises it. */
  predicate MatchOfLine(m: SearchMatch, lines: seq<string>, query: string, options: SearchOptions)
  {
    && 1 <= m.lineNumber <= |lines|
    && m.lineContent == lines[m.lineNumber - 1]
    && m.matchEnd == m.matchStart + |CodeUnits(query)|
    && Accepted(CodeUnits(SearchText(m.lineContent, options.caseSensitive)), CodeUnits(SearchText(query, options.caseSensitive)), options.wholeWord, m.matchStart)
  }

  /** Whether match a comes before match b in line and position order, without overlap. */
  predicate Before(a: SearchMatch, b: SearchMatch)
  {
    a.lineNumber < b.lineNumber || (a.lineNumber == b.lineNumber && a.matchEnd <= b.matchStart)
  }

  predicate InOrder(ms: seq<SearchMatch>)
  {
    forall i, j :: 0 <= i < j < |ms| ==> Before(ms[i], ms[j])
  }

  lemma {:induction false} StartsIncreasing(starts: seq<nat>, n: nat, a: nat, b: nat)
    requires forall i :: 0 <= i < |starts| - 1 ==> starts[i] + n <= starts[i + 1]
    requires a < b < |starts|
    ensures starts[a] + n <= starts[b]
    decreases b - a
  {
    if a + 1 < b {
      StartsIncreasing(starts, n, a + 1, b);
    }
  }

  /** The matches made from accepted, spaced starts carry those starts in order. */
  lemma LineMatchesOfStarts(n: nat, line: string, searchLine: seq<nat>, q: seq<nat>, wholeWord: bool, starts: seq<nat>)
    requires AllAccepted(starts, searchLine, q, wholeWord, 0) && Spaced(starts, |q|)
    ensures forall m :: m in LineMatches(n, line, starts, |q|) ==>
      m.lineNumber == n && m.lineContent == line && m.matchEnd == m.matchStart + |q| && Accepted(searchLine, q, wholeWord, m.matchStart)
    ensures InOrder(LineMatches(n, line, starts, |q|))
  {
    var here := LineMatches(n, line, starts, |q|);
    LineMatchesAt(n, line, starts, |q|);
    forall m | m in here
      ensures m.lineNumber == n && m.lineContent == line && m.matchEnd == m.matchStart + |q| && Accepted(searchLine, q, wholeWord, m.matchStart)
    {
      var i :| 0 <= i < |here| && here[i] == m;
      assert m.matchStart == starts[i];
    }
    forall i, j | 0 <= i < j < |here|
      ensures Before(here[i], here[j])
    {
      StartsIncreasing(starts, |q|, i, j);
    }
  }

  /** Case folding keeps every character's UTF-16 width. */
  lemma {:induction false} SearchTextUnits(s: string, caseSensitive: bool)
    ensures |CodeUnits(SearchText(s, caseSensitive))| == |CodeUnits(s)|
    decreases |s|
  {
    if s != [] && !caseSensitive {
      SearchTextUnits(s[1..], caseSensitive);
      assert Lower(s)[1..] == Lower(s[1..]);
    }
  }

  /** The matches made from the starts found in one line's units carry those starts in order. */
  lemma LineMatchesOfLine(n: nat, line: string, searchLine: seq<nat>, q: seq<nat>, wholeWord: bool)
    requires q != []
    ensures forall m :: m in LineMatches(n, line, Starts(searchLine, q, wholeWord, 0), |q|) ==>
      m.lineNumber == n && m.lineContent == line && m.matchEnd == m.matchStart + |q| && Accepted(searchLine, q, wholeWord, m.matchStart)
    ensures InOrder(LineMatches(n, line, Starts(searchLine, q, wholeWord, 0), |q|))
  {
    StartsSound(searchLine, q, wholeWord, 0);
    LineMatchesOfStarts(n, line, searchLine, q, wholeWord, Starts(searchLine, q, wholeWord, 0));
  }

  /** The matches of one line describe that line and run left to right. */
  lemma LineMatchesDescribe(lines: seq<string>, n: nat, query: string, options: SearchOptions)
    requires query != [] && 1 <= n <= |lines|
    ensures forall m :: m in MatchesOfLine(n, lines[n - 1], query, options) ==> MatchOfLine(m, lines, query, options) && m.lineNumber == n
    ensures InOrder(MatchesOfLine(n, lines[n - 1], query, options))
  {
    var q := CodeUnits(SearchText(query, options.caseSensitive));
    var searchLine := CodeUnits(SearchText(lines[n - 1], options.caseSensitive));
    SearchTextUnits(query, options.caseSensitive);
    LineMatchesOfLine(n, lines[n - 1], searchLine, q, options.wholeWord);
    var here := MatchesOfLine(n, lines[n - 1], query, options);
    assert here == LineMatches(n, lines[n - 1], Starts(searchLine, q, options.wholeWord, 0), |q|);
    forall m | m in here
      ensures MatchOfLine(m, lines, query, options) && m.lineNumber == n
    {
      MatchOfLineAt(m, lines, query, options, n);
    }
  }

  /** A match of line n that names it, ends a query length later and starts at an accepted occurrence is as findMatches promises. */
  lemma MatchOfLineAt(m: SearchMatch, lines: seq<string>, query: string, options: SearchOptions, n: nat)
    requires 1 <= n <= |lines| && m.lineContent == lines[n - 1] && m.lineNumber == n
    requires m.matchEnd == m.matchStart + |CodeUnits(query)|
    requires Accepted(CodeUnits(SearchText(lines[n - 1], options.caseSensitive)), CodeUnits(SearchText(query, options.caseSensitive)), options.wholeWord, m.matchStart)
    ensures MatchOfLine(m, lines, query, options)
  {
  }

  /**
   * Every match names its 1-based line and that line's text, starts at an
   * accepted occurrence of the query and ends a query length later.
   */
  lemma {:induction false} MatchesDescribeLines(lines: seq<string>, query: string, options: SearchOptions)
    requires query != []
    ensures forall m :: m in MatchesIn(lines, query, options) ==> MatchOfLine(m, lines, query, options)
  {
    if lines != [] {
      var init := lines[..|lines| - 1];
      MatchesDescribeLines(init, query, options);
      LineMatchesDescribe(lines, |lines|, query, options);
      forall m | m in MatchesIn(init, query, options)
        ensures MatchOfLine(m, lines, query, options)
      {
        assert MatchOfLine(m, init, query, options);
        assert lines[m.lineNumber - 1] == init[m.lineNumber - 1];
      }
    }
  }

  /** The matches run in line order, and left to right without overlap within a line. */
  lemma {:induction false} MatchesInOrder(lines: seq<string>, query: string, options: SearchOptions)
    requires query != []
    ensures InOrder(MatchesIn(lines, query, options))
  {
    if lines != [] {
      var init := lines[..|lines| - 1];
      var earlier := MatchesIn(init, query, options);
      var here := MatchesOfLine(|lines|, lines[|lines| - 1], query, options);
      assert MatchesIn(lines, query, options) == earlier + here;
      MatchesInOrder(init, query, options);
      MatchesLinesBelow(init, query, options);
      LineMatchesDescribe(lines, |lines|, query, options);
      InOrderConcat(earlier, here);
    }
  }

  /** One more line adds its own matches. */
  lemma MatchesInStep(lines: seq<string>, i: nat, query: string, options: SearchOptions, here: seq<SearchMatch>)
    requires query != [] && i < |lines|
    requires here == LineMatches(i + 1, lines[i], Starts(CodeUnits(SearchText(lines[i], options.caseSensitive)),
      CodeUnits(SearchText(query, options.caseSensitive)), options.wholeWord, 0), |CodeUnits(query)|)
    ensures MatchesIn(lines[..i + 1], query, options) == MatchesIn(lines[..i], query, options) + here
  {
    assert lines[..i + 1][..i] == lines[..i];
  }

  /** Every match of the first lines names one of them. */
  lemma {:induction false} MatchesLinesBelow(lines: seq<string>, query: string, options: SearchOptions)
    requires query != []
    ensures forall m :: m in MatchesIn(lines, query, options) ==> 1 <= m.lineNumber <= |lines|
  {
    if lines != [] {
      MatchesLinesBelow(lines[..|lines| - 1], query, options);
      LineMatchesDescribe(lines, |lines|, query, options);
    }
  }

  /** Two runs in order, the first wholly before the second, are in order together. */
  lemma InOrderConcat(a: seq<SearchMatch>, b: seq<SearchMatch>)
    requires InOrder(a) && InOrder(b)
    requires forall x, y :: x in a && y in b ==> Before(x, y)
    ensures InOrder(a + b)
  {
    var ms := a + b;
    forall i, j | 0 <= i < j < |ms|
      ensures Before(ms[i], ms[j])
    {
      if j < |a| {
        assert ms[i] == a[i] && ms[j] == a[j];
      } else if i < |a| {
        assert ms[i] == a[i] && ms[j] == b[j - |a|];
      } else {
        assert ms[i] == b[i - |a|] && ms[j] == b[j - |a|];
      }
    }
  }

  /** Where the search resumes after an occurrence indexOf found is accepted or rejected. */
  lemma StartsAtFound(line: seq<nat>, q: seq<nat>, wholeWord: bool, from: nat, m: nat)
    requires q != [] && IndexOf(line, q, from) == Some(m)
    ensures Accepted(line, q, wholeWord, m) <==> !Rejected(line, q, wholeWord, m)
    ensures !Rejected(line, q, wholeWord, m) ==> Starts(line, q, wholeWord, from) == [m] + Starts(line, q, wholeWord, m + |q|)
    ensures Rejected(line, q, wholeWord, m) ==> Starts(line, q, wholeWord, from) == Starts(line, q, wholeWord, m + 1)
  {
    IndexOfFinds(line, q, from);
    StartsSkip(line, q, wholeWord, from, m);
  }

  /** With wholeWord, a word unit next to the occurrence at m (a line edge counting as a space). */
  predicate Rejected(line: seq<nat>, q: seq<nat>, wholeWord: bool, m: nat)
  {
    var before := if 0 < m <= |line| then line[m - 1] else SPACE;
    var after := if m + |q| < |line| then line[m + |q|] else SPACE;
    wholeWord && (WordUnit(before) || WordUnit(after))
  }

  /** Nothing is reported once indexOf finds nothing. */
  lemma StartsAtNone(line: seq<nat>, q: seq<nat>, wholeWord: bool, from: nat)
    requires q != [] && (IndexOf(line, q, from).None? || from >= |line|)
    ensures Starts(line, q, wholeWord, from) == []
  {
    if from < |line| {
      IndexOfFinds(line, q, from);
      StartsSkip(line, q, wholeWord, from, |line|);
    }
  }

  /**
   * The inner loop of findMatches over one line: the query searched from
   * the line start, a rejected occurrence skipped by one, an accepted one
   * recorded and skipped whole.
   */
  method MatchLine(lineNumber: nat, line: string, searchLine: seq<nat>, searchQuery: seq<nat>, queryLength: nat, wholeWord: bool)
    returns (matches: seq<SearchMatch>)
    requires searchQuery != []
    ensures matches == LineMatches(lineNumber, line, Starts(searchLine, searchQuery, wholeWord, 0), queryLength)
  {
    matches := [];
    ghost var done: seq<nat> := [];
    var startPos := 0;
    while startPos < |searchLine|
      invariant done + Starts(searchLine, searchQuery, wholeWord, startPos) == Starts(searchLine, searchQuery, wholeWord, 0)
      invariant matches == LineMatches(lineNumber, line, done, queryLength)
      decreases |searchLine| - startPos
    {
      var found := IndexOf(searchLine, searchQuery, startPos);
      if found.None? {
        StartsAtNone(searchLine, searchQuery, wholeWord, startPos);
        break;
      }
      var matchIndex := found.value;
      var rejected := NeighbourRejects(searchLine, searchQuery, wholeWord, matchIndex);
      StartsAtFound(searchLine, searchQuery, wholeWord, startPos, matchIndex);
      if rejected {
        startPos := matchIndex + 1;
      } else {
        SnocAssoc(done, matchIndex, Starts(searchLine, searchQuery, wholeWord, matchIndex + |searchQuery|));
        LineMatchesSnoc(lineNumber, line, done, matchIndex, queryLength);
        matches := matches + [SearchMatch(lineNumber, line, matchIndex, matchIndex + queryLength)];
        done := done + [matchIndex];
        startPos := matchIndex + |searchQuery|;
      }
    }
    StartsAtNone(searchLine, searchQuery, wholeWord, startPos);
    assert done == Starts(searchLine, searchQuery, wholeWord, 0);
  }

  /** The wholeWord test of findMatches on the occurrence at m: the code units either side of it. */
  method NeighbourRejects(searchLine: seq<nat>, searchQuery: seq<nat>, wholeWord: bool, m: nat) returns (rejected: bool)
    requires m + |searchQuery| <= |searchLine|
    ensures rejected == Rejected(searchLine, searchQuery, wholeWord, m)
  {
    rejected := false;
    if wholeWord {
      var before := if m > 0 then searchLine[m - 1] else SPACE;
      var after := if m + |searchQuery| < |searchLine| then searchLine[m + |searchQuery|] else SPACE;
      rejected := WordUnit(before) || WordUnit(after);
    }
  }

  lemma {:induction false} LineMatchesSnoc(lineNumber: nat, line: string, starts: seq<nat>, p: nat, queryLength: nat)
    ensures LineMatches(lineNumber, line, starts + [p], queryLength)
      == LineMatches(lineNumber, line, starts, queryLength) + [SearchMatch(lineNumber, line, p, p + queryLength)]
  {
    if starts != [] {
      assert (starts + [p])[1..] == starts[1..] + [p];
      LineMatchesSnoc(lineNumber, line, starts[1..], p, queryLength);
    }
  }

  /**
   * findMatches: the content split into lines, each searched in turn and
   * numbered from 1. An empty query would never advance.
   */
  method FindMatches(content: string, query: string, options: SearchOptions) returns (matches: seq<SearchMatch>)
    requires query != []
    ensures matches == Matches(content, query, options)
  {
    var lines := Split(content, '\n');
    var searchQuery := CodeUnits(SearchText(query, options.caseSensitive));
    var queryLength := |CodeUnits(query)|;
    matches := [];
    var i := 0;
    while i < |lines|
      invariant 0 <= i <= |lines|
      invariant matches == MatchesIn(lines[..i], query, options)
    {
      var here := MatchLine(i + 1, lines[i], CodeUnits(SearchText(lines[i], options.caseSensitive)), searchQuery, queryLength, options.wholeWord);
      assert matches + here == MatchesIn(lines[..i + 1], query, options) by {
        MatchesInStep(lines, i, query, options, here);
      }
      matches := matches + here;
      i := i + 1;
    }
    assert lines[..i] == lines;
  }

  // ---- code-unit positions and characters ----------------------------------

  predicate HighSurrogate(u: nat)
  {
    0xD800 <= u < 0xDC00
  }

  predicate LowSurrogate(u: nat)
  {
    0xDC00 <= u < 0xE000
  }

  /** `/\w/` on a character: ASCII letters, digits and '_'. */
  predicate WordChar(c: char)
  {
    ('a' <= c <= 'z') || ('A' <= c <= 'Z') || ('0' <= c <= '9') || c == '_'
  }

  /**
   * A character's encoding never starts with a low surrogate, has two
   * units exactly when it starts with a high one (and then ends with a
   * low one), and starts and ends with a word unit exactly when the
   * character is a word character.
   */
  lemma EncodeShape(c: char)
    ensures !LowSurrogate(Encode(c)[0])
    ensures |Encode(c)| == 2 <==> HighSurrogate(Encode(c)[0])
    ensures |Encode(c)| == 2 ==> LowSurrogate(Encode(c)[1])
    ensures WordUnit(Encode(c)[0]) <==> WordChar(c)
    ensures WordUnit(Encode(c)[|Encode(c)| - 1]) <==> WordChar(c)
  {
  }

  /** Two characters with the same encoding are the same character. */
  lemma EncodeInjective(c: char, d: char)
    requires Encode(c) == Encode(d)
    ensures c == d
  {
    if c as int >= 0x1_0000 {
      var x, y := c as int - 0x1_0000, d as int - 0x1_0000;
      assert x == x / 0x400 * 0x400 + x % 0x400;
      assert y == y / 0x400 * 0x400 + y % 0x400;
    }
  }

  lemma {:induction false} CodeUnitsAppend(a: string, b: string)
    ensures CodeUnits(a + b) == CodeUnits(a) + CodeUnits(b)
    decreases |a|
  {
    if a != [] {
      CodeUnitsAppend(a[1..], b);
      assert (a + b)[1..] == a[1..] + b;
    } else {
      assert a + b == b;
    }
  }

  lemma CodeUnitsCons(c: char, t: string)
    ensures CodeUnits([c] + t) == Encode(c) + CodeUnits(t)
  {
    assert ([c] + t)[1..] == t;
  }

  /** The units of a string end with its last character's encoding. */
  lemma CodeUnitsSnoc(s: string, c: char)
    ensures CodeUnits(s + [c]) == CodeUnits(s) + Encode(c)
  {
    CodeUnitsAppend(s, [c]);
    assert [c][1..] == [];
  }

  /** The code-unit offset of character position p: the units of the characters before it. */
  function Offset(s: string, p: nat): (r: nat)
    requires p <= |s|
    ensures p <= r
  {
    |CodeUnits(s[..p])|
  }

  lemma OccursAtJoin<T>(x: seq<T>, y: seq<T>, q: seq<T>)
    ensures OccursAt(x + y, q, |x|) <==> q <= y
  {
    if |q| <= |y| {
      assert (x + y)[|x|..|x| + |q|] == y[..|q|];
    }
  }

  /** Units that begin with one character's encoding and continue into another's begin with that same character. */
  lemma EncodePrefix(c: char, d: char, x: seq<nat>, y: seq<nat>)
    requires Encode(c) + x <= Encode(d) + y
    ensures c == d && x <= y
  {
    var e, f := Encode(c), Encode(d);
    EncodeShape(c);
    EncodeShape(d);
    assert (e + x)[0] == (f + y)[0];
    if |e| == 2 {
      assert (e + x)[1] == (f + y)[1];
    }
    assert e == f;
    EncodeInjective(c, d);
    forall i | 0 <= i < |x|
      ensures x[i] == y[i]
    {
      assert (e + x)[|e| + i] == (f + y)[|e| + i];
    }
    assert x == y[..|x|];
  }

  lemma PrefixAfter<T>(e: seq<T>, x: seq<T>, y: seq<T>)
    requires x <= y
    ensures e + x <= e + y
  {
    assert (e + y)[..|e + x|] == e + y[..|x|];
  }

  /** UTF-16 is a prefix code: one string's units begin another's exactly when its characters do. */
  lemma {:induction false} UnitsPrefix(t: string, q: string)
    ensures CodeUnits(q) <= CodeUnits(t) <==> q <= t
    decreases |q|
  {
    if q != [] && t != [] {
      var c, d, q', t' := q[0], t[0], q[1..], t[1..];
      assert q == [c] + q' && t == [d] + t';
      CodeUnitsCons(c, q');
      CodeUnitsCons(d, t');
      UnitsPrefix(t', q');
      if CodeUnits(q) <= CodeUnits(t) {
        EncodePrefix(c, d, CodeUnits(q'), CodeUnits(t'));
      }
      if q <= t {
        assert c == d && q' <= t';
        PrefixAfter(Encode(c), CodeUnits(q'), CodeUnits(t'));
      }
    }
  }

  /** The query's units occur at the offset of position p exactly when its characters occur at p. */
  lemma UnitsOccurAtOffset(s: string, q: string, p: nat)
    requires p <= |s|
    ensures OccursAt(CodeUnits(s), CodeUnits(q), Offset(s, p)) <==> OccursAt(s, q, p)
  {
    assert s == s[..p] + s[p..];
    CodeUnitsAppend(s[..p], s[p..]);
    UnitsPrefix(s[p..], q);
    OccursAtJoin(CodeUnits(s[..p]), CodeUnits(s[p..]), CodeUnits(q));
    OccursAtJoin(s[..p], s[p..], q);
  }

  /** A code unit that is not a low surrogate begins a character. */
  lemma {:induction false} EncodedAtBoundary(s: string, u: nat) returns (p: nat)
    requires u < |CodeUnits(s)| && !LowSurrogate(CodeUnits(s)[u])
    ensures p < |s| && Offset(s, p) == u
    decreases |s|
  {
    var init, last := s[..|s| - 1], s[|s| - 1];
    assert s == init + [last];
    CodeUnitsSnoc(init, last);
    if u < |CodeUnits(init)| {
      p := EncodedAtBoundary(init, u);
      assert s[..p] == init[..p];
    } else {
      EncodeShape(last);
      assert u == |CodeUnits(init)|;
      p := |s| - 1;
    }
  }

  lemma OccursHead<T>(x: seq<T>, pat: seq<T>, i: nat)
    requires pat != [] && OccursAt(x, pat, i)
    ensures i < |x| && x[i] == pat[0]
  {
    assert x[i..i + |pat|][0] == x[i];
  }

  lemma FirstUnit(q: string)
    requires q != []
    ensures CodeUnits(q)[0] == Encode(q[0])[0]
  {
    var first, rest := q[0], q[1..];
    assert q == [first] + rest;
    CodeUnitsCons(first, rest);
  }

  /** No occurrence of a non-empty query's units starts inside a surrogate pair. */
  lemma OccurrenceAtBoundary(s: string, q: string, u: nat) returns (p: nat)
    requires q != [] && OccursAt(CodeUnits(s), CodeUnits(q), u)
    ensures p < |s| && Offset(s, p) == u
  {
    FirstUnit(q);
    EncodeShape(q[0]);
    OccursHead(CodeUnits(s), CodeUnits(q), u);
    p := EncodedAtBoundary(s, u);
  }

  /** The whole-word test on characters: no word character on either side, a line edge counting as a space. */
  predicate CharWholeWordAt(s: string, q: string, p: nat)
    requires p + |q| <= |s|
  {
    var before := if p > 0 then s[p - 1] else ' ';
    var after := if p + |q| < |s| then s[p + |q|] else ' ';
    !WordChar(before) && !WordChar(after)
  }

  /** The whole-word tests on units and on characters agree on a query standing between two stretches of text. */
  lemma WholeWordJoin(a: string, q: string, b: string)
    ensures |CodeUnits(a)| + |CodeUnits(q)| <= |CodeUnits(a) + CodeUnits(q) + CodeUnits(b)|
    ensures WholeWordAt(CodeUnits(a) + CodeUnits(q) + CodeUnits(b), CodeUnits(q), |CodeUnits(a)|)
      <==> CharWholeWordAt(a + q + b, q, |a|)
  {
    var ua, uq, ub := CodeUnits(a), CodeUnits(q), CodeUnits(b);
    if a != [] {
      LastWordUnit(a);
    }
    if b != [] {
      FirstWordUnit(b);
    }
    WholeWordSides(ua, uq, ub, a, q, b);
  }

  /** The two whole-word tests agree when the units and the characters either side of the query agree. */
  lemma WholeWordSides(ua: seq<nat>, uq: seq<nat>, ub: seq<nat>, a: string, q: string, b: string)
    requires (ua == [] <==> a == []) && (ub == [] <==> b == [])
    requires ua != [] && a != [] ==> (WordUnit(ua[|ua| - 1]) <==> WordChar(a[|a| - 1]))
    requires ub != [] && b != [] ==> (WordUnit(ub[0]) <==> WordChar(b[0]))
    ensures WholeWordAt(ua + uq + ub, uq, |ua|) <==> CharWholeWordAt(a + q + b, q, |a|)
  {
    var units, s := ua + uq + ub, a + q + b;
    if a != [] {
      assert units[|ua| - 1] == ua[|ua| - 1] && s[|a| - 1] == a[|a| - 1];
    }
    if b != [] {
      assert units[|ua| + |uq|] == ub[0] && s[|a| + |q|] == b[0];
    }
  }

  lemma LastWordUnit(a: string)
    requires a != []
    ensures |CodeUnits(a)| > 0 && (WordUnit(CodeUnits(a)[|CodeUnits(a)| - 1]) <==> WordChar(a[|a| - 1]))
  {
    var c := a[|a| - 1];
    assert a == a[..|a| - 1] + [c];
    CodeUnitsSnoc(a[..|a| - 1], c);
    EncodeShape(c);
  }

  lemma FirstWordUnit(b: string)
    requires b != []
    ensures |CodeUnits(b)| > 0 && (WordUnit(CodeUnits(b)[0]) <==> WordChar(b[0]))
  {
    FirstUnit(b);
    EncodeShape(b[0]);
  }

  /**
   * The matcher accepts the offset of p exactly when the query's characters
   * occur at p and, with wholeWord, no word character stands beside them.
   */
  lemma AcceptedAtOffset(s: string, q: string, wholeWord: bool, p: nat)
    requires p <= |s|
    ensures Accepted(CodeUnits(s), CodeUnits(q), wholeWord, Offset(s, p))
      <==> OccursAt(s, q, p) && (wholeWord ==> CharWholeWordAt(s, q, p))
  {
    UnitsOccurAtOffset(s, q, p);
    if OccursAt(s, q, p) {
      var a, b := s[..p], s[p + |q|..];
      assert s == a + q + b;
      CodeUnitsAppend(a + q, b);
      CodeUnitsAppend(a, q);
      WholeWordJoin(a, q, b);
    }
  }

  /**
   * Every start the matcher reports is the code-unit offset of a character
   * position where the query's characters occur and, with wholeWord, no
   * word character stands beside them.
   */
  lemma StartsAtCharacters(s: string, q: string, wholeWord: bool)
    requires q != []
    ensures forall u :: u in Starts(CodeUnits(s), CodeUnits(q), wholeWord, 0) ==>
      exists p :: 0 <= p < |s| && Offset(s, p) == u && OccursAt(s, q, p) && (wholeWord ==> CharWholeWordAt(s, q, p))
  {
    var r := Starts(CodeUnits(s), CodeUnits(q), wholeWord, 0);
    StartsSound(CodeUnits(s), CodeUnits(q), wholeWord, 0);
    forall u | u in r
      ensures exists p :: 0 <= p < |s| && Offset(s, p) == u && OccursAt(s, q, p) && (wholeWord ==> CharWholeWordAt(s, q, p))
    {
      var p := OccurrenceAtBoundary(s, q, u);
      AcceptedAtOffset(s, q, wholeWord, p);
    }
  }

  /**
   * Every such character position is reported at its code-unit offset or
   * lies inside a reported match.
   */
  lemma StartsCoverCharacters(s: string, q: string, wholeWord: bool, p: nat)
    requires q != [] && OccursAt(s, q, p) && (wholeWord ==> CharWholeWordAt(s, q, p))
    ensures Covered(Starts(CodeUnits(s), CodeUnits(q), wholeWord, 0), |CodeUnits(q)|, Offset(s, p))
  {
    AcceptedAtOffset(s, q, wholeWord, p);
    StartsComplete(CodeUnits(s), CodeUnits(q), wholeWord, 0, Offset(s, p));
  }

  // ---- the index's answer --------------------------------------------------

  /** The folder filter: none given, or the path starts with one of the folders. */
  predicate InFolders(path: string, folders: seq<string>)
  {
    folders == [] || exists i :: 0 <= i < |folders| && folders[i] <= path
  }

  /** A document the reverse lookup takes for an id: its path hashes to the id and passes the filter. */
  predicate Wanted(d: IndexedDoc, id: nat, folders: seq<string>)
  {
    HashValue(d.id) == id && InFolders(d.id, folders)
  }

  /** The reverse lookup from `from` on: the position of the first wanted document in insertion order. */
  function DocFor(docs: seq<IndexedDoc>, id: nat, folders: seq<string>, from: nat): (r: Option<nat>)
    ensures r.Some? ==> from <= r.value < |docs| && Wanted(docs[r.value], id, folders)
    ensures r.Some? ==> forall j :: from <= j < r.value ==> !Wanted(docs[j], id, folders)
    ensures r.None? ==> forall j :: from <= j < |docs| ==> !Wanted(docs[j], id, folders)
    decreases |docs| - from
  {
    if from >= |docs| then None
    else if Wanted(docs[from], id, folders) then Some(from)
    else DocFor(docs, id, folders, from + 1)
  }

  /** The result a document gives: its matches, kept only when there is one. */
  function ResultFor(d: IndexedDoc, query: string, options: SearchOptions): seq<SearchResult>
    requires query != []
  {
    var ms := Matches(d.content, query, options);
    if ms == [] then [] else [SearchResult(d.id, d.fileName, ms, |ms|)]
  }

  /** The result for one id of the index's answer. */
  function HitFor(docs: seq<IndexedDoc>, id: nat, query: string, options: SearchOptions): seq<SearchResult>
    requires query != []
  {
    match DocFor(docs, id, options.folderFilter, 0)
    case None => []
    case Some(k) => ResultFor(docs[k], query, options)
  }

  /** The results in the index's order, before sorting. */
  function Hits(docs: seq<IndexedDoc>, ids: seq<nat>, query: string, options: SearchOptions): seq<SearchResult>
    requires query != []
  {
    if ids == [] then []
    else Hits(docs, ids[..|ids| - 1], query, options) + HitFor(docs, ids[|ids| - 1], query, options)
  }

  /** A result as search promises it: a document of the map, passing the filter, with its matches. */
  predicate ResultOf(r: SearchResult, docs: seq<IndexedDoc>, ids: seq<nat>, query: string, options: SearchOptions)
    requires query != []
  {
    exists k :: 0 <= k < |docs| && ResultMatches(r, docs[k], ids, query, options)
  }

  predicate ResultMatches(r: SearchResult, d: IndexedDoc, ids: seq<nat>, query: string, options: SearchOptions)
    requires query != []
  {
    && r.filePath == d.id && r.fileName == d.fileName
    && HashValue(d.id) in ids && InFolders(d.id, options.folderFilter)
    && r.matches == Matches(d.content, query, options) && r.matches != []
    && r.score == |r.matches|
  }

  /**
   * Every result comes from a document whose path hashes to an id of the
   * index's answer and passes the folder filter, carries that document's
   * matches, at least one, and scores their number; there is at most one
   * result per id.
   */
  lemma {:induction false} HitsDescribe(docs: seq<IndexedDoc>, ids: seq<nat>, query: string, options: SearchOptions)
    requires query != []
    ensures |Hits(docs, ids, query, options)| <= |ids|
    ensures forall r :: r in Hits(docs, ids, query, options) ==> ResultOf(r, docs, ids, query, options)
  {
    if ids != [] {
      var init := ids[..|ids| - 1];
      var id := ids[|ids| - 1];
      HitsDescribe(docs, init, query, options);
      forall r | r in Hits(docs, ids, query, options)
        ensures ResultOf(r, docs, ids, query, options)
      {
        if r in Hits(docs, init, query, options) {
          var k :| 0 <= k < |docs| && ResultMatches(r, docs[k], init, query, options);
          assert ResultMatches(r, docs[k], ids, query, options);
        } else {
          var k := DocFor(docs, id, options.folderFilter, 0).value;
          assert ResultMatches(r, docs[k], ids, query, options);
        }
      }
    }
  }

  /**
   * Every document found for an id that has a match gives a result: a
   * document passing the filter is only missed when an earlier one in
   * insertion order has the same hash.
   */
  lemma HitForFound(docs: seq<IndexedDoc>, id: nat, query: string, options: SearchOptions, k: nat)
    requires query != [] && k < |docs| && Wanted(docs[k], id, options.folderFilter)
    requires forall j :: 0 <= j < k ==> !Wanted(docs[j], id, options.folderFilter)
    requires Matches(docs[k].content, query, options) != []
    ensures HitFor(docs, id, query, options) == [SearchResult(docs[k].id, docs[k].fileName, Matches(docs[k].content, query, options), |Matches(docs[k].content, query, options)|)]
  {
    DocForFirst(docs, id, options.folderFilter, 0, k);
  }

  /** The lookup finds the first wanted document from where it starts. */
  lemma {:induction false} DocForFirst(docs: seq<IndexedDoc>, id: nat, folders: seq<string>, from: nat, k: nat)
    requires from <= k < |docs| && Wanted(docs[k], id, folders)
    requires forall j :: from <= j < k ==> !Wanted(docs[j], id, folders)
    ensures DocFor(docs, id, folders, from) == Some(k)
    decreases k - from
  {
    if from < k {
      DocForFirst(docs, id, folders, from + 1, k);
    }
  }

  // ---- sorting ---------------------------------------------------------------

  /** Non-increasing by score. */
  predicate ScoreSorted(s: seq<SearchResult>)
  {
    forall i, j :: 0 <= i < j < |s| ==> s[i].score >= s[j].score
  }

  /** Stable insertion: r goes after every result scoring at least as much. */
  function InsertByScore(r: SearchResult, s: seq<SearchResult>): seq<SearchResult>
  {
    if s == [] then [r]
    else if s[0].score < r.score then [r] + s
    else [s[0]] + InsertByScore(r, s[1..])
  }

  /** `results.sort((a, b) => b.score - a.score)`: a stable sort by descending score. */
  function SortByScore(s: seq<SearchResult>): seq<SearchResult>
  {
    if s == [] then [] else InsertByScore(s[|s| - 1], SortByScore(s[..|s| - 1]))
  }

  function WithScore(k: nat): SearchResult -> bool
  {
    (r: SearchResult) => r.score == k
  }

  lemma {:induction false} InsertByScorePerm(r: SearchResult, s: seq<SearchResult>)
    ensures multiset(InsertByScore(r, s)) == multiset(s) + multiset{r}
    decreases |s|
  {
    if s != [] && s[0].score >= r.score {
      InsertByScorePerm(r, s[1..]);
      assert s == [s[0]] + s[1..];
    }
  }

  lemma {:induction false} InsertByScoreSorted(r: SearchResult, s: seq<SearchResult>)
    requires ScoreSorted(s)
    ensures ScoreSorted(InsertByScore(r, s))
    decreases |s|
  {
    if s != [] && s[0].score >= r.score {
      var t := s[1..];
      InsertByScoreSorted(r, t);
      InsertedBelowHead(r, s);
      ConsSorted(s[0], InsertByScore(r, t));
    }
  }

  /** A head scoring at least r and the rest of a sorted list: it scores at least everything r's insertion leaves. */
  lemma InsertedBelowHead(r: SearchResult, s: seq<SearchResult>)
    requires ScoreSorted(s) && s != [] && s[0].score >= r.score
    ensures forall j :: 0 <= j < |InsertByScore(r, s[1..])| ==> s[0].score >= InsertByScore(r, s[1..])[j].score
  {
    var t := s[1..];
    var u := InsertByScore(r, t);
    InsertByScorePerm(r, t);
    forall j | 0 <= j < |u|
      ensures s[0].score >= u[j].score
    {
      assert u[j] in multiset(t) + multiset{r};
      if u[j] != r {
        assert u[j] in t;
        var m :| 0 <= m < |t| && t[m] == u[j];
        assert s[m + 1] == t[m];
      }
    }
  }

  /** A head scoring at least everything in a sorted list keeps it sorted. */
  lemma ConsSorted(x: SearchResult, u: seq<SearchResult>)
    requires ScoreSorted(u)
    requires forall j :: 0 <= j < |u| ==> x.score >= u[j].score
    ensures ScoreSorted([x] + u)
  {
    var v := [x] + u;
    forall i, j | 0 <= i < j < |v|
      ensures v[i].score >= v[j].score
    {
      assert v[j] == u[j - 1];
      if i > 0 {
        assert v[i] == u[i - 1];
      }
    }
  }

  lemma {:induction false} InsertByScoreStable(r: SearchResult, s: seq<SearchResult>, k: nat)
    requires ScoreSorted(s)
    ensures Filter(InsertByScore(r, s), WithScore(k)) == Filter(s, WithScore(k)) + (if r.score == k then [r] else [])
    decreases |s|
  {
    var keep := WithScore(k);
    if s == [] {
      assert Filter([r], keep) == Filter([], keep) + (if keep(r) then [r] else []);
    } else if s[0].score < r.score {
      InsertAtFrontStable(r, s, k);
    } else {
      var t := s[1..];
      var it := InsertByScore(r, t);
      assert s == [s[0]] + t;
      assert InsertByScore(r, s) == [s[0]] + it;
      InsertByScoreStable(r, t, k);
      var head := if keep(s[0]) then [s[0]] else [];
      var extra := if r.score == k then [r] else [];
      FilterCons(s[0], it, keep);
      FilterCons(s[0], t, keep);
      SeqAssoc(head, Filter(t, keep), extra);
    }
  }

  lemma InsertAtFrontStable(r: SearchResult, s: seq<SearchResult>, k: nat)
    requires ScoreSorted(s) && s != [] && s[0].score < r.score
    ensures Filter([r] + s, WithScore(k)) == Filter(s, WithScore(k)) + (if r.score == k then [r] else [])
  {
    var keep := WithScore(k);
    FilterCons(r, s, keep);
    if r.score == k {
      forall i | 0 <= i < |s|
        ensures !keep(s[i])
      {
        assert s[i].score <= s[0].score;
      }
      FilterDropsAll(s, keep);
    }
  }

  /**
   * The sort orders by non-increasing score, keeps exactly the results it
   * was given, and keeps results of equal score in their original order.
   */
  lemma {:induction false} SortByScoreSpec(s: seq<SearchResult>)
    ensures ScoreSorted(SortByScore(s))
    ensures multiset(SortByScore(s)) == multiset(s)
    ensures forall k: nat :: Filter(SortByScore(s), WithScore(k)) == Filter(s, WithScore(k))
  {
    if s != [] {
      var init := s[..|s| - 1];
      var last := s[|s| - 1];
      SortByScoreSpec(init);
      InsertByScoreSorted(last, SortByScore(init));
      InsertByScorePerm(last, SortByScore(init));
      assert s == init + [last];
      forall k: nat
        ensures Filter(SortByScore(s), WithScore(k)) == Filter(s, WithScore(k))
      {
        InsertByScoreStable(last, SortByScore(init), k);
      }
    }
  }

  /** search's answer for a query, the map's documents and the index's ids. */
  function Answer(docs: seq<IndexedDoc>, ids: seq<nat>, query: string, options: SearchOptions): seq<SearchResult>
  {
    if Blank(query) then [] else SortByScore(Hits(docs, ids, query, options))
  }

  /**
   * A blank query answers nothing; otherwise the answer is sorted by score
   * and every result in it is one search promises.
   */
  lemma AnswerDescribe(docs: seq<IndexedDoc>, ids: seq<nat>, query: string, options: SearchOptions)
    ensures Blank(query) ==> Answer(docs, ids, query, options) == []
    ensures !Blank(query) ==> query != [] && ScoreSorted(Answer(docs, ids, query, options))
    ensures !Blank(query) ==> query != [] && (forall r :: r in Answer(docs, ids, query, options) ==> ResultOf(r, docs, ids, query, options))
  {
    if !Blank(query) {
      var hits := Hits(docs, ids, query, options);
      HitsDescribe(docs, ids, query, options);
      SortByScoreSpec(hits);
      forall r | r in SortByScore(hits)
        ensures r in hits
      {
        assert r in multiset(SortByScore(hits));
      }
    }
  }

  // ---- the document map ------------------------------------------------------

  /** The map's entry for a path. */
  function Get(docs: seq<IndexedDoc>, key: string): (r: Option<IndexedDoc>)
    ensures r.Some? ==> r.value in docs && r.value.id == key
    ensures r.None? ==> forall i :: 0 <= i < |docs| ==> docs[i].id != key
  {
    if docs == [] then None
    else if docs[0].id == key then Some(docs[0])
    else Get(docs[1..], key)
  }

  /** Map keys are distinct: no two entries share a path. */
  predicate DistinctIds(docs: seq<IndexedDoc>)
  {
    forall i, j :: 0 <= i < j < |docs| ==> docs[i].id != docs[j].id
  }

  /** Map.prototype.set: an existing entry replaced where it stands, a new one appended. */
  function Put(docs: seq<IndexedDoc>, d: IndexedDoc): seq<IndexedDoc>
  {
    if docs == [] then [d]
    else if docs[0].id == d.id then [d] + docs[1..]
    else [docs[0]] + Put(docs[1..], d)
  }

  /** Map.prototype.delete. */
  function Delete(docs: seq<IndexedDoc>, key: string): seq<IndexedDoc>
  {
    if docs == [] then []
    else if docs[0].id == key then docs[1..]
    else [docs[0]] + Delete(docs[1..], key)
  }

  /** Put's entries are d and entries already there. */
  lemma {:induction false} PutMembers(docs: seq<IndexedDoc>, d: IndexedDoc)
    ensures forall x :: x in Put(docs, d) ==> x == d || x in docs
    ensures Get(docs, d.id).None? ==> Put(docs, d) == docs + [d]
    ensures Get(docs, d.id).Some? ==> |Put(docs, d)| == |docs|
    decreases |docs|
  {
    if docs != [] && docs[0].id != d.id {
      PutMembers(docs[1..], d);
      assert docs == [docs[0]] + docs[1..];
    }
  }

  /** Put maps d's path to d and leaves every other path as it was. */
  lemma {:induction false} PutGet(docs: seq<IndexedDoc>, d: IndexedDoc, k: string)
    ensures Get(Put(docs, d), k) == if k == d.id then Some(d) else Get(docs, k)
    decreases |docs|
  {
    if docs != [] && docs[0].id != d.id {
      PutGet(docs[1..], d, k);
    }
  }

  /**
   * Put keeps the keys distinct, maps d's path to d and leaves every other
   * path as it was; a new path goes last.
   */
  lemma PutSpec(docs: seq<IndexedDoc>, d: IndexedDoc)
    requires DistinctIds(docs)
    ensures DistinctIds(Put(docs, d))
    ensures forall k :: Get(Put(docs, d), k) == if k == d.id then Some(d) else Get(docs, k)
    ensures Get(docs, d.id).None? ==> Put(docs, d) == docs + [d]
    ensures Get(docs, d.id).Some? ==> |Put(docs, d)| == |docs|
  {
    PutMembers(docs, d);
    forall k
      ensures Get(Put(docs, d), k) == if k == d.id then Some(d) else Get(docs, k)
    {
      PutGet(docs, d, k);
    }
    PutDistinct(docs, d);
  }

  lemma {:induction false} PutDistinct(docs: seq<IndexedDoc>, d: IndexedDoc)
    requires DistinctIds(docs)
    ensures DistinctIds(Put(docs, d))
    decreases |docs|
  {
    if docs != [] {
      var t := docs[1..];
      if docs[0].id != d.id {
        PutDistinct(t, d);
        PutMembers(t, d);
        forall y | y in Put(t, d)
          ensures y.id != docs[0].id
        {
          if y != d {
            var m :| 0 <= m < |t| && t[m] == y;
            assert docs[m + 1] == y;
          }
        }
        ConsDistinct(docs[0], Put(t, d));
      } else {
        forall y | y in t
          ensures y.id != d.id
        {
          var m :| 0 <= m < |t| && t[m] == y;
          assert docs[m + 1] == y;
        }
        ConsDistinct(d, t);
      }
    }
  }

  lemma ConsDistinct(x: IndexedDoc, u: seq<IndexedDoc>)
    requires DistinctIds(u) && forall y :: y in u ==> y.id != x.id
    ensures DistinctIds([x] + u)
  {
    var v := [x] + u;
    forall i, j | 0 <= i < j < |v|
      ensures v[i].id != v[j].id
    {
      assert v[j] == u[j - 1];
      if i > 0 {
        assert v[i] == u[i - 1];
      }
    }
  }

  /** Delete keeps the keys distinct, drops the path and leaves every other path as it was. */
  lemma {:induction false} DeleteSpec(docs: seq<IndexedDoc>, key: string)
    requires DistinctIds(docs)
    ensures DistinctIds(Delete(docs, key))
    ensures forall k :: Get(Delete(docs, key), k) == if k == key then None else Get(docs, k)
    ensures forall x :: x in Delete(docs, key) ==> x in docs
    decreases |docs|
  {
    if docs != [] {
      var t := docs[1..];
      if docs[0].id == key {
        forall i | 0 <= i < |t|
          ensures t[i].id != key
        {
          assert t[i] == docs[i + 1];
        }
        forall k | k != key
          ensures Get(t, k) == Get(docs, k)
        {
        }
      } else {
        DeleteSpec(t, key);
        var u := Delete(t, key);
        var v := [docs[0]] + u;
        forall x | x in u
          ensures x.id != docs[0].id
        {
          var j :| 0 <= j < |t| && t[j] == x;
          assert docs[j + 1] == x;
        }
        forall i, j | 0 <= i < j < |v|
          ensures v[i].id != v[j].id
        {
          if i == 0 {
            assert v[j] in u;
          } else {
            assert v[i] == u[i - 1] && v[j] == u[j - 1];
          }
        }
      }
    }
  }

  /** updateFile's re-index after the removal puts the document last. */
  lemma ReindexGoesLast(docs: seq<IndexedDoc>, d: IndexedDoc)
    requires DistinctIds(docs)
    ensures Put(Delete(docs, d.id), d) == Delete(docs, d.id) + [d]
  {
    DeleteSpec(docs, d.id);
    assert Get(Delete(docs, d.id), d.id) == None;
    PutSpec(Delete(docs, d.id), d);
  }

  /** The map buildIndex fills: one entry per readable file, in scan order. */
  function Built(workspacePath: string, files: seq<(string, Option<string>)>): seq<IndexedDoc>
  {
    if files == [] then []
    else
      var (absolutePath, content) := files[|files| - 1];
      var docs := Built(workspacePath, files[..|files| - 1]);
      if content.None? then docs
      else Put(docs, IndexedDoc(Relative(workspacePath, absolutePath), content.value, Basename(absolutePath)))
  }

  /** After buildIndex a path has an entry exactly when some readable file has that relative path. */
  lemma {:induction false} BuiltKeys(workspacePath: string, files: seq<(string, Option<string>)>, key: string)
    ensures DistinctIds(Built(workspacePath, files))
    ensures Get(Built(workspacePath, files), key).Some? <==>
      exists i :: 0 <= i < |files| && files[i].1.Some? && Relative(workspacePath, files[i].0) == key
  {
    if files != [] {
      var init := files[..|files| - 1];
      var (absolutePath, content) := files[|files| - 1];
      BuiltKeys(workspacePath, init, key);
      var docs := Built(workspacePath, init);
      if content.Some? {
        PutSpec(docs, IndexedDoc(Relative(workspacePath, absolutePath), content.value, Basename(absolutePath)));
      }
      ReadableSnoc(workspacePath, files, key);
    }
  }

  /** Some readable file in `files` has the relative path `key`. */
  predicate HasReadable(workspacePath: string, files: seq<(string, Option<string>)>, key: string)
  {
    exists i :: 0 <= i < |files| && files[i].1.Some? && Relative(workspacePath, files[i].0) == key
  }

  /** A readable file with relative path `key` is among the first files or is the last one. */
  lemma ReadableSnoc(workspacePath: string, files: seq<(string, Option<string>)>, key: string)
    requires files != []
    ensures HasReadable(workspacePath, files, key) <==>
      HasReadable(workspacePath, files[..|files| - 1], key)
      || (files[|files| - 1].1.Some? && Relative(workspacePath, files[|files| - 1].0) == key)
  {
    var init := files[..|files| - 1];
    if HasReadable(workspacePath, files, key) {
      var i :| 0 <= i < |files| && files[i].1.Some? && Relative(workspacePath, files[i].0) == key;
      if i < |init| {
        assert init[i] == files[i];
      }
    }
    if HasReadable(workspacePath, init, key) {
      var i :| 0 <= i < |init| && init[i].1.Some? && Relative(workspacePath, init[i].0) == key;
      assert files[i] == init[i];
    }
  }

  /** The desktop search service: the workspace it indexes and its document map, in insertion order. */
  class SearchService {
    const workspacePath: string
    var docMap: seq<IndexedDoc>

    ghost predicate Valid()
      reads this
    {
      DistinctIds(docMap)
    }

    constructor(workspacePath: string)
      ensures this.workspacePath == workspacePath && docMap == [] && Valid()
    {
      this.workspacePath := workspacePath;
      docMap := [];
    }

    /** indexFile: the content under the workspace-relative path, named by its basename; an unreadable file is skipped. */
    method IndexFile(absolutePath: string, content: Option<string>)
      requires Valid()
      modifies this
      ensures Valid()
      ensures content.None? ==> docMap == old(docMap)
      ensures content.Some? ==>
        docMap == Put(old(docMap), IndexedDoc(Relative(workspacePath, absolutePath), content.value, Basename(absolutePath)))
    {
      if content.Some? {
        var relativePath := Relative(workspacePath, absolutePath);
        var doc := IndexedDoc(relativePath, content.value, Basename(absolutePath));
        PutSpec(docMap, doc);
        docMap := Put(docMap, doc);
      }
    }

    /** buildIndex over the scanned files, each with its content or None when it cannot be read. */
    method BuildIndex(files: seq<(string, Option<string>)>)
      requires Valid()
      modifies this
      ensures Valid() && docMap == Built(workspacePath, files)
    {
      docMap := [];
      for i := 0 to |files|
        invariant Valid() && docMap == Built(workspacePath, files[..i])
      {
        assert files[..i + 1][..i] == files[..i];
        IndexFile(files[i].0, files[i].1);
      }
      assert files[..|files|] == files;
    }

    /** removeFile: the path's entry deleted. */
    method RemoveFile(relativePath: string)
      requires Valid()
      modifies this
      ensures Valid() && docMap == Delete(old(docMap), relativePath)
    {
      DeleteSpec(docMap, relativePath);
      docMap := Delete(docMap, relativePath);
    }

    /** updateFile: the entry removed, then the file indexed again, which puts it last. */
    method UpdateFile(absolutePath: string, content: Option<string>)
      requires Valid()
      modifies this
      ensures Valid()
      ensures content.None? ==> docMap == Delete(old(docMap), Relative(workspacePath, absolutePath))
      ensures content.Some? ==>
        docMap == Delete(old(docMap), Relative(workspacePath, absolutePath)) + [IndexedDoc(Relative(workspacePath, absolutePath), content.value, Basename(absolutePath))]
    {
      var relativePath := Relative(workspacePath, absolutePath);
      RemoveFile(relativePath);
      if content.Some? {
        ReindexGoesLast(old(docMap), IndexedDoc(relativePath, content.value, Basename(absolutePath)));
      }
      IndexFile(absolutePath, content);
    }

    /**
     * The reverse lookup inside search's loop: the map scanned in insertion
     * order for a path hashing to the id, one outside the folder filter
     * passed over.
     */
    method ReverseLookup(numericId: nat, folders: seq<string>) returns (r: Option<nat>)
      ensures r == DocFor(docMap, numericId, folders, 0)
    {
      var k := 0;
      while k < |docMap|
        invariant k <= |docMap|
        invariant DocFor(docMap, numericId, folders, 0) == DocFor(docMap, numericId, folders, k)
      {
        var doc := docMap[k];
        var hash := HashPath(doc.id);
        if hash == numericId {
          if |folders| > 0 {
            var inFolder := exists i :: 0 <= i < |folders| && folders[i] <= doc.id;
            if !inFolder {
              k := k + 1;
              continue;
            }
          }
          return Some(k);
        }
        k := k + 1;
      }
      return None;
    }

    /**
     * search, given the ids the full-text index returns for the query: a
     * blank query answers nothing; otherwise each id is looked up in the
     * map in insertion order, the folder filter applied, and a document
     * with matches kept; the results are sorted by score.
     */
    method Search(query: string, options: SearchOptions, rawIds: seq<nat>) returns (results: seq<SearchResult>)
      ensures results == Answer(docMap, rawIds, query, options)
    {
      if Blank(query) {
        return [];
      }
      assert query != [];
      var found: seq<SearchResult> := [];
      for n := 0 to |rawIds|
        invariant found == Hits(docMap, rawIds[..n], query, options)
      {
        assert rawIds[..n + 1][..n] == rawIds[..n];
        var k := ReverseLookup(rawIds[n], options.folderFilter);
        if k.Some? {
          var doc := docMap[k.value];
          var matches := FindMatches(doc.content, query, options);
          if |matches| > 0 {
            found := found + [SearchResult(doc.id, doc.fileName, matches, |matches|)];
          }
        }
      }
      assert rawIds[..|rawIds|] == rawIds;
      results := SortByScore(found);
    }
  }

  /** A character outside the Basic Multilingual Plane takes two code units, so in a line holding U+1F600, a space and "foo" the match starts at 3. */
  lemma AstralLineMatch()
    ensures MatchesOfLine(1, "\U{1F600} foo", "foo", SearchOptions(false, false, []))
      == [SearchMatch(1, "\U{1F600} foo", 3, 6)]
  {
    AstralUnits();
    AstralStarts();
  }

  lemma AstralUnits()
    ensures CodeUnits("foo") == [0x66, 0x6F, 0x6F] && SearchText("foo", false) == "foo"
    ensures CodeUnits(SearchText("\U{1F600} foo", false)) == [0xD83D, 0xDE00, 0x20, 0x66, 0x6F, 0x6F]
  {
    var line := "\U{1F600} foo";
    LowerUnchanged(line);
    LowerUnchanged("foo");
    assert CodeUnits("foo") == [0x66, 0x6F, 0x6F] by {
      assert "oo"[1..] == "o" && "foo"[1..] == "oo";
      assert CodeUnits("o") == [0x6F];
    }
    assert " foo"[1..] == "foo" && line[1..] == " foo";
    assert Encode('\U{1F600}') == [0xD83D, 0xDE00];
  }

  lemma LowerUnchanged(s: string)
    requires forall i :: 0 <= i < |s| ==> !('A' <= s[i] <= 'Z')
    ensures Lower(s) == s
  {
  }

  lemma AstralStarts()
    ensures Starts([0xD83D, 0xDE00, 0x20, 0x66, 0x6F, 0x6F], [0x66, 0x6F, 0x6F], false, 0) == [3]
  {
    var units: seq<nat>, q: seq<nat> := [0xD83D, 0xDE00, 0x20, 0x66, 0x6F, 0x6F], [0x66, 0x6F, 0x6F];
    assert units[3..6] == q;
    assert Starts(units, q, false, 3) == [3];
    forall k | 0 <= k < 3
      ensures !OccursAt(units, q, k)
    {
      assert units[k..k + 3][0] == units[k];
    }
    assert Starts(units, q, false, 2) == [3];
    assert Starts(units, q, false, 1) == [3];
  }
}
