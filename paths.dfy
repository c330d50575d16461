// The parts of Node's `path` module the core uses, on '/'-separated paths:
// basename, extname and the name without its extension.
module Paths {
  import opened Strings

  /**
   * path.relative(base, p) for a p at or below base: what follows "base/".
   * Any other p is kept as it is.
   */
  function Relative(base: string, p: string): (r: string)
    ensures base + "/" <= p ==> base + "/" + r == p
  {
    if base + "/" <= p then p[|base| + 1..]
    else if p == base then []
    else p
  }

  /** Relative undoes joining a path below the base. */
  lemma RelativeJoin(base: string, r: string)
    ensures Relative(base, base + "/" + r) == r
  {
    var p := base + "/" + r;
    assert base + "/" <= p;
    assert p[|base| + 1..] == r;
  }

  /** path.basename(p): the last '/'-separated segment. */
  function Basename(p: string): (r: string)
    ensures '/' !in r && EndsWith(p, r)
  {
    LastPiece(p, '/')
  }

  /**
   * path.extname(p): from the last '.' of the basename to its end; empty when
   * the basename has no '.', when its only leading run of dots ends there
   * (".bashrc") or when the basename is "..".
   */
  function ExtName(p: string): (r: string)
    ensures EndsWith(Basename(p), r) && EndsWith(p, r)
    ensures r == [] || (r[0] == '.' && '.' !in r[1..] && '/' !in r)
    ensures r != [] ==> |r| < |Basename(p)|
  {
    var b := Basename(p);
    var afterDot := LastPiece(b, '.');
    LastPieceAfterSep(b, '.');
    if |afterDot| == |b| then []
    else
      var k := |b| - |afterDot| - 1;
      if k == 0 || b == ".." then []
      else
        assert b[k..][1..] == afterDot;
        EndsWithTrans(p, b, b[k..]);
        b[k..]
  }

  /** path.basename(p, path.extname(p)): the basename without its extension. */
  function Stem(p: string): (r: string)
    ensures Basename(p) == r + ExtName(p)
  {
    var b, e := Basename(p), ExtName(p);
    EndsWithSplit(b, e);
    b[..|b| - |e|]
  }

  lemma ExtNameMd(name: string)
    requires EndsWith(name, ".md") && '/' !in name && |name| > 3
    ensures ExtName(name) == ".md"
  {
    var b := Basename(name);
    assert b == name by {
      SplitNoSep(name, '/');
      LastPieceNoSep(name, '/');
    }
    var after := LastPiece(b, '.');
    assert b[|b| - 1] != '.';
    assert b[|b| - 3] == '.';
    LastPieceFromEnd(b, '.', 2);
  }

  lemma {:induction false} LastPieceNoSep<T>(s: seq<T>, sep: T)
    requires sep !in s
    ensures LastPiece(s, sep) == s
  {
    if s != [] {
      LastPieceNoSep(s[..|s| - 1], sep);
    }
  }

  /** When the last separator sits `k` places from the end, the last piece has `k` elements. */
  lemma {:induction false} LastPieceFromEnd<T>(s: seq<T>, sep: T, k: nat)
    requires k < |s| && s[|s| - 1 - k] == sep
    requires forall i :: |s| - k <= i < |s| ==> s[i] != sep
    ensures LastPiece(s, sep) == s[|s| - k..]
  {
    if k > 0 {
      var init := s[..|s| - 1];
      assert init[|init| - 1 - (k - 1)] == sep;
      LastPieceFromEnd(init, sep, k - 1);
      assert init[|init| - (k - 1)..] + [s[|s| - 1]] == s[|s| - k..];
    }
  }

  /**
   * When the last `a`-piece holds no `b`, taking the last `b`-piece first
   * changes neither the last `a`-piece nor whether an `a` occurs.
   */
  lemma {:induction false} LastPieceWithin<T>(s: seq<T>, a: T, b: T)
    requires a != b && b !in LastPiece(s, a)
    ensures LastPiece(LastPiece(s, b), a) == LastPiece(s, a)
    ensures (a in s) == (a in LastPiece(s, b))
  {
    if s != [] {
      var init := s[..|s| - 1];
      var x := s[|s| - 1];
      assert s == init + [x];
      var lb := LastPiece(init, b);
      assert (lb + [x])[..|lb|] == lb;
      if x != a && x != b {
        LastPieceWithin(init, a, b);
      }
    }
  }
}
