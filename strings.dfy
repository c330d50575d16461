// String helpers shared by the models: the JavaScript String and Array
// operations the source uses on text and paths, over sequences of
// characters.
module Strings {
  import opened Wrappers

  predicate StartsWith<T(==)>(s: seq<T>, prefix: seq<T>)
  {
    |prefix| <= |s| && s[..|prefix|] == prefix
  }

  predicate EndsWith<T(==)>(s: seq<T>, suffix: seq<T>)
  {
    |suffix| <= |s| && s[|s| - |suffix|..] == suffix
  }

  /** A sequence is what precedes its suffix, then the suffix. */
  lemma EndsWithSplit<T>(s: seq<T>, suffix: seq<T>)
    requires EndsWith(s, suffix)
    ensures s == s[..|s| - |suffix|] + suffix
  {
  }

  lemma EndsWithTrans<T>(a: seq<T>, b: seq<T>, c: seq<T>)
    requires EndsWith(a, b) && EndsWith(b, c)
    ensures EndsWith(a, c)
  {
    assert a[|a| - |c|..] == b[|b| - |c|..];
  }

  /** `pat` occurs in `s` at position `i`. */
  predicate OccursAt<T(==)>(s: seq<T>, pat: seq<T>, i: int)
  {
    0 <= i && i + |pat| <= |s| && s[i..i + |pat|] == pat
  }

  /** String.prototype.indexOf(pat, from): the first occurrence at or after `from`. */
  function IndexOf<T(==)>(s: seq<T>, pat: seq<T>, from: nat): (r: Option<nat>)
    ensures r.Some? ==> from <= r.value && r.value + |pat| <= |s|
    decreases |s| - from
  {
    if from + |pat| > |s| then None
    else if s[from..from + |pat|] == pat then Some(from)
    else IndexOf(s, pat, from + 1)
  }

  /** IndexOf finds an occurrence, none before it, and reports none only when there is none. */
  lemma {:induction false} IndexOfFinds<T>(s: seq<T>, pat: seq<T>, from: nat)
    ensures IndexOf(s, pat, from).Some? ==> OccursAt(s, pat, IndexOf(s, pat, from).value)
    ensures IndexOf(s, pat, from).Some? ==> forall j :: from <= j < IndexOf(s, pat, from).value ==> !OccursAt(s, pat, j)
    ensures IndexOf(s, pat, from).None? ==> forall j :: from <= j ==> !OccursAt(s, pat, j)
    decreases |s| - from
  {
    if from + |pat| <= |s| && s[from..from + |pat|] != pat {
      IndexOfFinds(s, pat, from + 1);
    }
  }

  predicate Contains<T(==)>(s: seq<T>, pat: seq<T>)
  {
    exists i :: 0 <= i <= |s| && OccursAt(s, pat, i)
  }

  lemma ContainsIndexOf<T>(s: seq<T>, pat: seq<T>)
    ensures Contains(s, pat) <==> IndexOf(s, pat, 0).Some?
  {
    IndexOfFinds(s, pat, 0);
    if IndexOf(s, pat, 0).Some? {
      assert OccursAt(s, pat, IndexOf(s, pat, 0).value);
    }
  }

  /** A pattern whose first element does not occur before it is first found where it is placed. */
  lemma IndexOfFirstPlaced<T>(a: seq<T>, pat: seq<T>, b: seq<T>)
    requires pat != [] && pat[0] !in a
    ensures IndexOf(a + pat + b, pat, 0) == Some(|a|)
  {
    var s := a + pat + b;
    assert s[|a|..|a| + |pat|] == pat;
    assert OccursAt(s, pat, |a|);
    forall j | 0 <= j < |a|
      ensures !OccursAt(s, pat, j)
    {
      assert s[j] == a[j];
    }
    IndexOfFinds(s, pat, 0);
  }

  /** Searching from |a|, a pattern whose first element is absent from `b` is found right after `b`. */
  lemma IndexOfPlacedFrom<T>(a: seq<T>, b: seq<T>, pat: seq<T>, c: seq<T>)
    requires pat != [] && pat[0] !in b
    ensures IndexOf(a + b + pat + c, pat, |a|) == Some(|a| + |b|)
  {
    var s := a + b + pat + c;
    assert s[|a| + |b|..|a| + |b| + |pat|] == pat;
    assert OccursAt(s, pat, |a| + |b|);
    forall j | |a| <= j < |a| + |b|
      ensures !OccursAt(s, pat, j)
    {
      assert s[j] == b[j - |a|];
    }
    IndexOfFinds(s, pat, |a|);
  }

  lemma SeqAssoc<T>(a: seq<T>, b: seq<T>, c: seq<T>)
    ensures a + (b + c) == (a + b) + c
  {
  }

  lemma SnocAssoc<T>(a: seq<T>, x: T, b: seq<T>)
    ensures a + ([x] + b) == (a + [x]) + b
  {
  }

  lemma AppendEmpty<T>(s: seq<T>)
    ensures s + [] == s
  {
  }

  /** Moving one element across a concatenation. */
  lemma AppendOne<T>(a: seq<T>, x: T, b: seq<T>, c: seq<T>)
    requires a + ([x] + b) == c
    ensures (a + [x]) + b == c
  {
  }

  /** A piece of the middle of `pre + t + rest` is the same piece of t. */
  lemma SliceOfMiddle<T>(pre: seq<T>, t: seq<T>, rest: seq<T>, i: nat, j: nat)
    requires i <= j <= |t|
    ensures |pre| + j <= |pre + t + rest|
    ensures (pre + t + rest)[|pre| + i..|pre| + j] == t[i..j]
  {
    var s := pre + t + rest;
    assert forall k :: 0 <= k < j - i ==> s[|pre| + i..|pre| + j][k] == t[i..j][k];
  }

  /** Equal strings with the same head and tail have the same middle. */
  lemma MiddleCancel<T>(pre: seq<T>, a: seq<T>, b: seq<T>, rest: seq<T>)
    requires pre + a + rest == pre + b + rest
    ensures a == b
  {
    assert |a| == |b|;
    SliceOfMiddle(pre, a, rest, 0, |a|);
    SliceOfMiddle(pre, b, rest, 0, |b|);
    assert a[0..|a|] == a && b[0..|b|] == b;
  }

  /** Joining one more part appends a separator and that part. */
  lemma {:induction false} JoinAppend<T>(parts: seq<seq<T>>, x: seq<T>, sep: T)
    requires parts != []
    ensures Join(parts + [x], sep) == Join(parts, sep) + [sep] + x
  {
    if |parts| == 1 {
      assert (parts + [x])[1..] == [x];
    } else {
      assert (parts + [x])[1..] == parts[1..] + [x];
      JoinAppend(parts[1..], x, sep);
    }
  }

  /** String.prototype.replace(pat, rep) with a string pattern: only the first occurrence. */
  function ReplaceFirst<T(==)>(s: seq<T>, pat: seq<T>, rep: seq<T>): (r: seq<T>)
    ensures IndexOf(s, pat, 0).None? ==> r == s
    ensures IndexOf(s, pat, 0).Some? ==>
      var i := IndexOf(s, pat, 0).value;
      r == s[..i] + rep + s[i + |pat|..]
  {
    match IndexOf(s, pat, 0)
    case None => s
    case Some(i) => s[..i] + rep + s[i + |pat|..]
  }

  /** String.prototype.split with a one-element separator: always one more piece than separators. */
  function Split<T(==)>(s: seq<T>, sep: T): (r: seq<seq<T>>)
    ensures |r| >= 1
    ensures forall k :: 0 <= k < |r| ==> sep !in r[k]
  {
    if s == [] then [[]]
    else
      var rest := Split(s[1..], sep);
      if s[0] == sep then [[]] + rest else [[s[0]] + rest[0]] + rest[1..]
  }

  /** Array.prototype.join with a one-element separator. */
  function Join<T>(parts: seq<seq<T>>, sep: T): (r: seq<T>)
  {
    if parts == [] then []
    else if |parts| == 1 then parts[0]
    else parts[0] + [sep] + Join(parts[1..], sep)
  }

  lemma {:induction false} JoinSplit<T>(s: seq<T>, sep: T)
    ensures Join(Split(s, sep), sep) == s
  {
    if s != [] {
      var rest := Split(s[1..], sep);
      JoinSplit(s[1..], sep);
      if s[0] == sep {
        assert Split(s, sep) == [[]] + rest;
        assert s == [sep] + s[1..];
      } else {
        var r := [[s[0]] + rest[0]] + rest[1..];
        assert Split(s, sep) == r;
        if |rest| == 1 {
          assert Join(r, sep) == [s[0]] + rest[0];
        } else {
          assert r[1..] == rest[1..];
          assert Join(r, sep) == [s[0]] + rest[0] + [sep] + Join(rest[1..], sep);
          assert Join(rest, sep) == rest[0] + [sep] + Join(rest[1..], sep);
        }
      }
    }
  }

  lemma {:induction false} SplitJoin<T>(parts: seq<seq<T>>, sep: T)
    requires |parts| >= 1
    requires forall k :: 0 <= k < |parts| ==> sep !in parts[k]
    ensures Split(Join(parts, sep), sep) == parts
  {
    if |parts| == 1 {
      SplitNoSep(parts[0], sep);
    } else {
      SplitJoin(parts[1..], sep);
      SplitConcat(parts[0], Join(parts[1..], sep), sep);
      assert [parts[0]] + parts[1..] == parts;
    }
  }

  /** A list joined and closed by two more separators splits into the list and two empty pieces. */
  lemma SplitJoinTerminated<T>(parts: seq<seq<T>>, sep: T)
    requires |parts| >= 1
    requires forall k :: 0 <= k < |parts| ==> sep !in parts[k]
    ensures Split(Join(parts, sep) + [sep, sep], sep) == parts + [[], []]
  {
    var none: seq<T> := [];
    var once := parts + [none];
    var all := once + [none];
    var j := Join(parts, sep);
    JoinAppend(parts, none, sep);
    AppendEmpty(j + [sep]);
    JoinAppend(once, none, sep);
    AppendEmpty(j + [sep] + [sep]);
    assert j + [sep] + [sep] == j + [sep, sep];
    NoSepAfterEmpty(parts, sep);
    NoSepAfterEmpty(once, sep);
    SplitJoin(all, sep);
    assert all == parts + [none, none];
  }

  lemma NoSepAfterEmpty<T>(parts: seq<seq<T>>, sep: T)
    requires forall k :: 0 <= k < |parts| ==> sep !in parts[k]
    ensures forall k :: 0 <= k < |parts| + 1 ==> sep !in (parts + [[]])[k]
  {
    forall k | 0 <= k < |parts| + 1
      ensures sep !in (parts + [[]])[k]
    {
      if k < |parts| {
        assert (parts + [[]])[k] == parts[k];
      } else {
        assert (parts + [[]])[k] == [];
      }
    }
  }

  lemma {:induction false} SplitNoSep<T>(s: seq<T>, sep: T)
    requires sep !in s
    ensures Split(s, sep) == [s]
  {
    if s != [] {
      SplitNoSep(s[1..], sep);
      assert [s[0]] + s[1..] == s;
    }
  }

  lemma {:induction false} SplitConcat<T>(a: seq<T>, b: seq<T>, sep: T)
    requires sep !in a
    ensures Split(a + [sep] + b, sep) == [a] + Split(b, sep)
  {
    if a == [] {
      assert ([] + [sep] + b)[1..] == b;
    } else {
      assert (a + [sep] + b)[1..] == a[1..] + [sep] + b;
      SplitConcat(a[1..], b, sep);
      assert [a[0]] + a[1..] == a;
    }
  }

  /** Splitting two texts joined by a separator splits each of them. */
  lemma {:induction false} SplitAppend<T>(a: seq<T>, b: seq<T>, sep: T)
    ensures Split(a + [sep] + b, sep) == Split(a, sep) + Split(b, sep)
  {
    if a == [] {
      assert ([] + [sep] + b)[1..] == b;
    } else {
      var u, v := Split(a[1..], sep), Split(b, sep);
      assert (a + [sep] + b)[1..] == a[1..] + [sep] + b;
      SplitAppend(a[1..], b, sep);
      if a[0] == sep {
        SeqAssoc([[]], u, v);
      } else {
        HeadJoined([a[0]], u, v);
      }
    }
  }

  /** Joining x onto the first piece commutes with appending more pieces. */
  lemma HeadJoined<T>(x: seq<T>, u: seq<seq<T>>, v: seq<seq<T>>)
    requires |u| >= 1
    ensures [x + (u + v)[0]] + (u + v)[1..] == ([x + u[0]] + u[1..]) + v
  {
    assert (u + v)[0] == u[0];
    assert (u + v)[1..] == u[1..] + v;
  }

  /** The first piece of a split is where the text begins. */
  lemma {:induction false} SplitFirstPrefix<T>(s: seq<T>, sep: T)
    ensures StartsWith(s, Split(s, sep)[0])
  {
    if s != [] && s[0] != sep {
      SplitFirstPrefix(s[1..], sep);
    }
  }

  /** Every piece of a split occurs in the text. */
  lemma {:induction false} SplitPieceOccurs<T>(s: seq<T>, sep: T, k: nat)
    requires k < |Split(s, sep)|
    ensures Contains(s, Split(s, sep)[k])
  {
    if s == [] {
      assert OccursAt(s, Split(s, sep)[k], 0);
    } else {
      var rest := Split(s[1..], sep);
      var piece := Split(s, sep)[k];
      if s[0] == sep && k == 0 {
        assert OccursAt(s, piece, 0);
      } else if s[0] != sep && k == 0 {
        SplitFirstPrefix(s[1..], sep);
        assert s[..1 + |rest[0]|] == [s[0]] + s[1..][..|rest[0]|];
        assert OccursAt(s, piece, 0);
      } else {
        var j := if s[0] == sep then k - 1 else k;
        assert piece == rest[j];
        SplitPieceOccurs(s[1..], sep, j);
        var i :| 0 <= i <= |s[1..]| && OccursAt(s[1..], rest[j], i);
        assert s[i + 1..i + 1 + |piece|] == s[1..][i..i + |piece|];
        assert OccursAt(s, piece, i + 1);
      }
    }
  }

  /** The last piece of `s.split(sep)` (what `split(sep).pop()` returns). */
  function LastPiece<T(==)>(s: seq<T>, sep: T): (r: seq<T>)
    ensures sep !in r && EndsWith(s, r)
  {
    if s == [] then []
    else if s[|s| - 1] == sep then []
    else LastPiece(s[..|s| - 1], sep) + [s[|s| - 1]]
  }

  /** The last piece is the whole sequence or follows a separator. */
  lemma {:induction false} LastPieceAfterSep<T>(s: seq<T>, sep: T)
    ensures var r := LastPiece(s, sep); |r| == |s| || s[|s| - |r| - 1] == sep
  {
    if s != [] && s[|s| - 1] != sep {
      var init := s[..|s| - 1];
      LastPieceAfterSep(init, sep);
      var r := LastPiece(init, sep);
      assert LastPiece(s, sep) == r + [s[|s| - 1]];
      if |r| != |init| {
        assert s[|s| - |r| - 2] == init[|init| - |r| - 1];
      }
    }
  }

  /** Everything before the last separator, or empty when there is none. */
  function BeforeLast<T(==)>(s: seq<T>, sep: T): (r: seq<T>)
    ensures StartsWith(s, r)
  {
    if |LastPiece(s, sep)| == |s| then [] else s[..|s| - |LastPiece(s, sep)| - 1]
  }

  lemma BeforeLastJoin<T>(s: seq<T>, sep: T)
    requires sep in s
    ensures s == BeforeLast(s, sep) + [sep] + LastPiece(s, sep)
  {
    var r := LastPiece(s, sep);
    LastPieceAfterSep(s, sep);
    var j := |s| - |r| - 1;
    assert s == s[..j] + [s[j]] + s[j + 1..];
  }

  /** Array.prototype.filter(x => x !== v) on a sequence. */
  function Without<T(==)>(s: seq<T>, v: T): (r: seq<T>)
    ensures v !in r
    ensures forall i :: 0 <= i < |r| ==> r[i] in s
    ensures forall i :: 0 <= i < |s| && s[i] != v ==> s[i] in r
    ensures |r| <= |s|
  {
    if s == [] then [] else (if s[0] == v then [] else [s[0]]) + Without(s[1..], v)
  }

  /** Array.prototype.filter(keep), preserving order. */
  function Filter<T(==)>(s: seq<T>, keep: T -> bool): (r: seq<T>)
    ensures |r| <= |s|
  {
    if s == [] then []
    else Filter(s[..|s| - 1], keep) + (if keep(s[|s| - 1]) then [s[|s| - 1]] else [])
  }

  /** Filter keeps exactly the elements `keep` accepts. */
  lemma {:induction false} FilterMembers<T>(s: seq<T>, keep: T -> bool)
    ensures forall i :: 0 <= i < |Filter(s, keep)| ==> keep(Filter(s, keep)[i]) && Filter(s, keep)[i] in s
    ensures forall i :: 0 <= i < |s| && keep(s[i]) ==> s[i] in Filter(s, keep)
  {
    if s != [] {
      var init := s[..|s| - 1];
      FilterMembers(init, keep);
      var r := Filter(s, keep);
      assert forall x :: x in init ==> x in s;
      forall i | 0 <= i < |s| && keep(s[i])
        ensures s[i] in r
      {
        if i < |s| - 1 {
          assert s[i] == init[i];
        }
      }
    }
  }

  lemma {:induction false} FilterKeepsAll<T>(s: seq<T>, keep: T -> bool)
    requires forall i :: 0 <= i < |s| ==> keep(s[i])
    ensures Filter(s, keep) == s
  {
    if s != [] {
      FilterKeepsAll(s[..|s| - 1], keep);
    }
  }

  lemma {:induction false} FilterDropsAll<T>(s: seq<T>, keep: T -> bool)
    requires forall i :: 0 <= i < |s| ==> !keep(s[i])
    ensures Filter(s, keep) == []
  {
    if s != [] {
      FilterDropsAll(s[..|s| - 1], keep);
    }
  }

  lemma {:induction false} FilterDropsHead<T>(s: seq<T>, keep: T -> bool)
    requires s != [] && !keep(s[0])
    ensures Filter(s, keep) == Filter(s[1..], keep)
    decreases |s|
  {
    if |s| > 1 {
      FilterDropsHead(s[..|s| - 1], keep);
      assert s[..|s| - 1][1..] == s[1..][..|s[1..]| - 1];
    } else {
      assert s[..|s| - 1] == [];
    }
  }

  /** The first position in [from, end) where f finds something, searching left to right. */
  function FirstFound<X>(f: nat -> Option<X>, from: nat, end: nat): (r: Option<(nat, X)>)
    ensures r.Some? ==> from <= r.value.0 < end && f(r.value.0) == Some(r.value.1)
    decreases end - from
  {
    if from >= end then None
    else match f(from)
      case Some(x) => Some((from, x))
      case None => FirstFound(f, from + 1, end)
  }

  /** FirstFound skips only positions where f finds nothing. */
  lemma {:induction false} FirstFoundIsFirst<X>(f: nat -> Option<X>, from: nat, end: nat)
    ensures FirstFound(f, from, end).Some? ==>
      forall q :: from <= q < FirstFound(f, from, end).value.0 ==> f(q).None?
    ensures FirstFound(f, from, end).None? ==> forall q :: from <= q < end ==> f(q).None?
    decreases end - from
  {
    if from < end && f(from).None? {
      FirstFoundIsFirst(f, from + 1, end);
    }
  }

  /** Searching again from the position found finds the same thing. */
  lemma {:induction false} FirstFoundAgain<X>(f: nat -> Option<X>, from: nat, end: nat)
    requires FirstFound(f, from, end).Some?
    ensures FirstFound(f, FirstFound(f, from, end).value.0, end) == FirstFound(f, from, end)
    decreases end - from
  {
    if f(from).None? {
      FirstFoundAgain(f, from + 1, end);
    }
  }

  /** Starting the search past positions where f finds nothing finds the same. */
  lemma {:induction false} FirstFoundSkip<X>(f: nat -> Option<X>, from: nat, b: nat, end: nat)
    requires from <= b
    requires forall q :: from <= q < b ==> f(q).None?
    ensures FirstFound(f, from, end) == FirstFound(f, b, end)
    decreases b - from
  {
    if from < b {
      FirstFoundSkip(f, from + 1, b, end);
    }
  }

  /** Filter taken from the front. */
  lemma {:induction false} FilterCons<T>(x: T, s: seq<T>, keep: T -> bool)
    ensures Filter([x] + s, keep) == (if keep(x) then [x] else []) + Filter(s, keep)
    decreases |s|
  {
    if s != [] {
      var s' := s[..|s| - 1];
      FilterCons(x, s', keep);
      assert ([x] + s)[..|[x] + s| - 1] == [x] + s';
    } else {
      assert ([x] + s)[..|[x] + s| - 1] == [];
    }
  }

  /** `a` is `b` with some elements left out, the rest in their order. */
  predicate Subsequence<T(==)>(a: seq<T>, b: seq<T>)
    decreases |b|
  {
    if a == [] then true
    else if b == [] then false
    else (a[|a| - 1] == b[|b| - 1] && Subsequence(a[..|a| - 1], b[..|b| - 1])) || Subsequence(a, b[..|b| - 1])
  }

  lemma {:induction false} FilterSubsequence<T>(s: seq<T>, keep: T -> bool)
    ensures Subsequence(Filter(s, keep), s)
  {
    if s != [] {
      var init := s[..|s| - 1];
      FilterSubsequence(init, keep);
      var r := Filter(init, keep);
      assert s[..|s| - 1] == init;
      if keep(s[|s| - 1]) {
        var r' := r + [s[|s| - 1]];
        assert Filter(s, keep) == r';
        assert r'[..|r'| - 1] == r && r'[|r'| - 1] == s[|s| - 1];
      } else {
        assert Filter(s, keep) == r;
      }
    }
  }

  lemma {:induction false} SubsequencePrefix<T>(a: seq<T>, b: seq<T>, k: nat)
    requires Subsequence(a, b) && k <= |a|
    ensures Subsequence(a[..k], b)
    decreases |b|
  {
    if k == |a| {
      assert a[..k] == a;
    } else if k > 0 {
      var init := b[..|b| - 1];
      if a[|a| - 1] == b[|b| - 1] && Subsequence(a[..|a| - 1], init) {
        SubsequencePrefix(a[..|a| - 1], init, k);
        assert a[..|a| - 1][..k] == a[..k];
      } else {
        SubsequencePrefix(a, init, k);
      }
    }
  }

  /** Array.prototype.findIndex(p): the first index whose element satisfies `p`. */
  function FindFirst<T>(s: seq<T>, p: T -> bool): (r: Option<nat>)
    ensures r.Some? ==> r.value < |s| && p(s[r.value])
    ensures r.Some? ==> forall j :: 0 <= j < r.value ==> !p(s[j])
    ensures r.None? ==> forall j :: 0 <= j < |s| ==> !p(s[j])
  {
    if s == [] then None
    else if p(s[0]) then Some(0)
    else match FindFirst(s[1..], p)
      case None => None
      case Some(i) => Some(i + 1)
  }

  /** Filtering out the only rejected element removes exactly that position. */
  lemma {:induction false} FilterRemovesOne<T>(s: seq<T>, keep: T -> bool, k: nat)
    requires k < |s| && !keep(s[k])
    requires forall j :: 0 <= j < |s| && j != k ==> keep(s[j])
    ensures Filter(s, keep) == s[..k] + s[k + 1..]
    decreases |s|
  {
    var init := s[..|s| - 1];
    if k == |s| - 1 {
      FilterKeepsAll(init, keep);
      assert s[..k] == init;
    } else {
      FilterRemovesOne(init, keep, k);
      assert keep(s[|s| - 1]);
      assert Filter(s, keep) == Filter(init, keep) + [s[|s| - 1]];
      assert init[..k] == s[..k];
      assert init[k + 1..] + [s[|s| - 1]] == s[k + 1..];
      SeqAssoc(s[..k], init[k + 1..], [s[|s| - 1]]);
    }
  }

  /** String.prototype.toLowerCase on ASCII letters; other characters are kept. */
  function LowerChar(c: char): (r: char)
    ensures 'A' <= c <= 'Z' ==> 'a' <= r <= 'z' && r as int - c as int == 32
    ensures !('A' <= c <= 'Z') ==> r == c
  {
    if 'A' <= c <= 'Z' then (c as int + 32) as char else c
  }

  function Lower(s: string): (r: string)
    ensures |r| == |s|
    ensures forall i :: 0 <= i < |s| ==> r[i] == LowerChar(s[i])
  {
    if s == [] then [] else [LowerChar(s[0])] + Lower(s[1..])
  }

  // ---- regular-expression character classes ----------------------------

  /** The characters a regular expression's `.` does not match, and after which `^` matches in multiline mode. */
  predicate LineTerminator(c: char)
  {
    c == '\n' || c == '\r' || c == '\U{2028}' || c == '\U{2029}'
  }

  /** The characters a regular expression's `\s` matches. */
  predicate RegexSpace(c: char)
  {
    || c == '\t' || c == '\n' || c == '\U{000B}' || c == '\U{000C}' || c == '\r' || c == ' '
    || c == '\U{00A0}' || c == '\U{1680}' || ('\U{2000}' <= c <= '\U{200A}')
    || c == '\U{2028}' || c == '\U{2029}' || c == '\U{202F}' || c == '\U{205F}'
    || c == '\U{3000}' || c == '\U{FEFF}'
  }

  /** The end of the run of `\s` characters starting at i. */
  function SpaceEnd(s: string, i: nat): (e: nat)
    requires i <= |s|
    ensures i <= e <= |s| && (e < |s| ==> !RegexSpace(s[e]))
    decreases |s| - i
  {
    if i < |s| && RegexSpace(s[i]) then SpaceEnd(s, i + 1) else i
  }

  /** Everything SpaceEnd passes over is `\s`. */
  lemma {:induction false} SpaceEndSpaces(s: string, i: nat)
    requires i <= |s|
    ensures forall k :: i <= k < SpaceEnd(s, i) ==> RegexSpace(s[k])
    decreases |s| - i
  {
    if i < |s| && RegexSpace(s[i]) {
      SpaceEndSpaces(s, i + 1);
    }
  }

  /** SpaceEnd stops at the first character outside `\s`. */
  lemma {:induction false} SpaceEndAt(s: string, i: nat, t: nat)
    requires i <= t <= |s|
    requires forall k :: i <= k < t ==> RegexSpace(s[k])
    requires t == |s| || !RegexSpace(s[t])
    ensures SpaceEnd(s, i) == t
    decreases t - i
  {
    if i < t {
      SpaceEndAt(s, i + 1, t);
    }
  }

  /** One space followed by the character c, which is not `\s`. */
  lemma SpaceEndOne(s: string, i: nat, c: char)
    requires i + 1 < |s| && s[i] == ' ' && s[i + 1] == c && !RegexSpace(c)
    ensures SpaceEnd(s, i) == i + 1
  {
    SpaceEndAt(s, i, i + 1);
  }

  // ---- decimal text --------------------------------------------------

  predicate IsDigit(c: char)
  {
    '0' <= c <= '9'
  }

  /** The end of the run of decimal digits starting at i. */
  function DigitEnd(s: string, i: nat): (e: nat)
    requires i <= |s|
    ensures i <= e <= |s| && (e < |s| ==> !IsDigit(s[e]))
    decreases |s| - i
  {
    if i < |s| && IsDigit(s[i]) then DigitEnd(s, i + 1) else i
  }

  /** Everything DigitEnd passes over is a digit. */
  lemma {:induction false} DigitEndDigits(s: string, i: nat)
    requires i <= |s|
    ensures forall k :: i <= k < DigitEnd(s, i) ==> IsDigit(s[k])
    decreases |s| - i
  {
    if i < |s| && IsDigit(s[i]) {
      DigitEndDigits(s, i + 1);
    }
  }

  /** DigitEnd stops at the first character that is not a digit. */
  lemma {:induction false} DigitEndAt(s: string, i: nat, t: nat)
    requires i <= t <= |s|
    requires forall k :: i <= k < t ==> IsDigit(s[k])
    requires t == |s| || !IsDigit(s[t])
    ensures DigitEnd(s, i) == t
    decreases t - i
  {
    if i < t {
      DigitEndAt(s, i + 1, t);
    }
  }

  predicate AllDigits(s: string)
  {
    forall i :: 0 <= i < |s| ==> IsDigit(s[i])
  }

  /** String(n) for a non-negative integer. */
  function NatToString(n: nat): (r: string)
    ensures |r| >= 1 && AllDigits(r)
    ensures |r| > 1 ==> r[0] != '0'
  {
    if n < 10 then [(48 + n) as char] else NatToString(n / 10) + [(48 + n % 10) as char]
  }

  /** The value of one decimal digit. */
  function DigitValue(c: char): (v: nat)
    ensures v < 10
  {
    if IsDigit(c) then c as int - 48 else 0
  }

  /** The value of a string of decimal digits (parseInt on such a string). */
  function DecimalValue(s: string): nat
  {
    if s == [] then 0 else DecimalValue(s[..|s| - 1]) * 10 + DigitValue(s[|s| - 1])
  }

  lemma {:induction false} DecimalValueNatToString(n: nat)
    ensures DecimalValue(NatToString(n)) == n
  {
    if n >= 10 {
      var s := NatToString(n);
      assert s[..|s| - 1] == NatToString(n / 10);
      DecimalValueNatToString(n / 10);
    }
  }

  /** A run of digits written between other text is where DigitEnd stops. */
  lemma DigitsPlaced(pre: string, digits: string, rest: string)
    requires AllDigits(digits)
    requires rest == [] || !IsDigit(rest[0])
    ensures var s := pre + digits + rest;
      var d := |pre| + |digits|;
      && d <= |s|
      && DigitEnd(s, |pre|) == d
      && s[|pre|..d] == digits
  {
    var s := pre + digits + rest;
    var d := |pre| + |digits|;
    assert s[|pre|..d] == digits;
    forall k | |pre| <= k < d
      ensures IsDigit(s[k])
    {
      assert s[k] == digits[k - |pre|];
    }
    assert d < |s| ==> s[d] == rest[0];
    DigitEndAt(s, |pre|, d);
  }

  lemma NatToStringInjective(m: nat, n: nat)
    requires NatToString(m) == NatToString(n)
    ensures m == n
  {
    DecimalValueNatToString(m);
    DecimalValueNatToString(n);
  }

  /** String.prototype.padStart(width, fill) with a one-character fill. */
  function PadStart(s: string, width: nat, fill: char): (r: string)
    ensures |r| == if |s| >= width then |s| else width
    ensures EndsWith(r, s)
    ensures forall i :: 0 <= i < |r| - |s| ==> r[i] == fill
  {
    if |s| >= width then s else seq(width - |s|, _ => fill) + s
  }

  lemma {:induction false} DecimalValueLeadingZeros(k: nat, s: string)
    requires AllDigits(s)
    ensures AllDigits(seq(k, _ => '0') + s)
    ensures DecimalValue(seq(k, _ => '0') + s) == DecimalValue(s)
  {
    var z := seq(k, _ => '0');
    if s == [] {
      assert forall i :: 0 <= i < k ==> z[i] == '0';
      ZerosValue(k);
      assert z + s == z;
    } else {
      var init := s[..|s| - 1];
      DecimalValueLeadingZeros(k, init);
      assert (z + s)[..|z + s| - 1] == z + init;
    }
  }

  lemma {:induction false} ZerosValue(k: nat)
    ensures AllDigits(seq(k, _ => '0'))
    ensures DecimalValue(seq(k, _ => '0')) == 0
  {
    if k > 0 {
      assert seq(k, _ => '0')[..k - 1] == seq(k - 1, _ => '0');
      ZerosValue(k - 1);
    }
  }

  /** `!s.trim()`: s is empty once its leading and trailing white space is removed. */
  predicate Blank(s: string)
  {
    forall i :: 0 <= i < |s| ==> RegexSpace(s[i])
  }
}
