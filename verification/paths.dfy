/**
 * The parts of Node's `path` module (POSIX flavour) the CLI uses, and the
 * `split("/")[0]` idiom. `path.join` is modelled as plain concatenation with a
 * separator: its collapsing of `..` and of repeated slashes is not modelled.
 */
module Paths {
  import opened Wrappers
  import opened Strings

  /** `path.join(base, rel)` */
  function Join(base: string, rel: string): string {
    base + "/" + rel
  }

  /** `s.split("/")[0]`: everything before the first `/`, or all of `s`. */
  function FirstSegment(s: string): (r: string)
    ensures r <= s
    ensures '/' !in r
    ensures '/' in s ==> |r| < |s| && s[|r|] == '/'
    ensures '/' !in s ==> r == s
  {
    if s == [] || s[0] == '/' then [] else [s[0]] + FirstSegment(s[1..])
  }

  /** The segment before the first separator is exactly the leading separator-free part. */
  lemma {:induction false} FirstSegmentOf(a: string, rest: string)
    requires '/' !in a
    ensures FirstSegment(a + "/" + rest) == a
    decreases |a|
  {
    if a != [] {
      assert (a + "/" + rest)[1..] == a[1..] + "/" + rest;
      FirstSegmentOf(a[1..], rest);
    }
  }

  /** Drops the trailing separators that Node's `extname` and `basename` ignore. */
  function StripTrailingSlashes(s: string): (r: string)
    ensures r <= s
    ensures r == [] || r[|r| - 1] != '/'
  {
    if s != [] && s[|s| - 1] == '/' then StripTrailingSlashes(s[..|s| - 1]) else s
  }

  /** The part of `s` after its last separator. */
  function LastSegment(s: string): (r: string)
    ensures '/' !in r
  {
    if s == [] || s[|s| - 1] == '/' then [] else LastSegment(s[..|s| - 1]) + [s[|s| - 1]]
  }

  /** The position of the last `.` in `s`. */
  function LastDot(s: string): (r: Option<nat>)
    ensures r.Some? ==> r.value < |s| && s[r.value] == '.'
  {
    if s == [] then None
    else if s[|s| - 1] == '.' then Some(|s| - 1)
    else LastDot(s[..|s| - 1])
  }

  /**
   * `path.extname(s)`: from the last `.` of the last segment to its end, or
   * "" when that segment has no dot, starts with its last dot (a dot-file
   * such as `.ts`), or is `..`.
   */
  function ExtName(s: string): (ext: string)
    ensures ext != "" ==> ext[0] == '.' && '/' !in ext
  {
    var stripped := StripTrailingSlashes(s);
    var base := LastSegment(stripped);
    match LastDot(base)
    case None => ""
    case Some(d) =>
      if d == 0 || base == ".." then ""
      else
        assert '/' !in base[d..] by {
          assert forall j :: 0 <= j < |base[d..]| ==> base[d..][j] == base[d + j];
        }
        base[d..]
  }

  /** A separator-free suffix is carried along into the last segment. */
  lemma {:induction false} LastSegmentAppend(x: string, e: string)
    requires '/' !in e
    ensures LastSegment(x + e) == LastSegment(x) + e
    decreases |e|
  {
    if e == [] {
      assert x + e == x;
    } else {
      var s := x + e;
      var c := e[|e| - 1];
      var e' := e[..|e| - 1];
      assert '/' !in e' && c != '/' by {
        assert c in e;
        assert forall i :: 0 <= i < |e'| ==> e'[i] == e[i];
      }
      assert LastSegment(s) == LastSegment(x + e') + [c] by {
        assert s[|s| - 1] == c;
        assert s[..|s| - 1] == x + e';
      }
      LastSegmentAppend(x, e');
      assert LastSegment(x) + e == (LastSegment(x) + e') + [c];
      assert e == e' + [c];
    }
  }

  /** The dot that opens a `.tsx` or `.ts` suffix is the last dot. */
  lemma LastDotOfTypeScript(y: string, e: string)
    requires e == ".tsx" || e == ".ts"
    ensures LastDot(y + e) == Some(|y|)
  {
    var dot := y + ".";
    assert LastDot(dot) == Some(|y|);
    var dotT := y + ".t";
    assert dotT[..|dotT| - 1] == dot;
    assert LastDot(dotT) == Some(|y|);
    var dotTs := y + ".ts";
    assert dotTs[..|dotTs| - 1] == dotT;
    assert LastDot(dotTs) == Some(|y|);
    if e == ".tsx" {
      var dotTsx := y + e;
      assert dotTsx[..|dotTsx| - 1] == dotTs;
    }
  }

  /**
   * For a path that ends in `.tsx` or `.ts`, `extname` is that suffix, except
   * when the suffix makes up the whole last segment (`dir/.ts`), where it is "".
   */
  lemma TypeScriptExtName(x: string, e: string)
    requires e == ".tsx" || e == ".ts"
    ensures ExtName(x + e) == (if x == [] || x[|x| - 1] == '/' then "" else e)
  {
    var s := x + e;
    assert StripTrailingSlashes(s) == s by {
      assert s[|s| - 1] != '/';
    }
    assert '/' !in e;
    LastSegmentAppend(x, e);
    var y := LastSegment(x);
    var base := y + e;
    LastDotOfTypeScript(y, e);
    assert base[|y|..] == e;
    assert base != "..";
    if x != [] && x[|x| - 1] != '/' {
      assert |y| > 0;
    } else {
      assert y == [];
    }
  }
}
