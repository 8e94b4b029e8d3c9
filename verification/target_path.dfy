/**
 * `normalizeTargetPath` of the CLI's utilities: classifies a user-supplied
 * identifier as a component, hook or library file and places it under the
 * matching top-level directory.
 */
module TargetPath {
  import opened Strings
  import opened Paths

  /** The result of normalisation; the source's `type` field is called `kind` here. */
  datatype Target = Target(normalizedPath: string, kind: string)

  /** The prefixes checked first, in the source's order. */
  const KnownPrefixes: seq<string> := ["components/", "hooks/", "lib/"]

  /** The directory names checked on the second path, in the source's order. */
  const KnownDirs: seq<string> := ["hooks", "lib", "components"]

  /** `knownPrefixes.some(prefix => targetPath.startsWith(prefix))` */
  function HasKnownPrefix(t: string): (b: bool)
    ensures b <==> StartsWith(t, "components/") || StartsWith(t, "hooks/") || StartsWith(t, "lib/")
  {
    assert KnownPrefixes[0] == "components/" && KnownPrefixes[1] == "hooks/" && KnownPrefixes[2] == "lib/";
    exists i :: 0 <= i < |KnownPrefixes| && StartsWith(t, KnownPrefixes[i])
  }

  /** The condition under which the source returns `{ targetPath, firstDir }` in its inner branch. */
  predicate TakesInnerKnownBranch(t: string) {
    !HasKnownPrefix(t) && '/' in t && FirstSegment(t) in KnownDirs
  }

  /**
   * `normalizeTargetPath`, branch for branch. Every input is classified as
   * one of the three categories, and the normalised path, which is the input
   * or the input under `components/`, lies under that category's directory.
   */
  function NormalizeTargetPath(t: string): (r: Target)
    ensures r.kind in KnownDirs
    ensures StartsWith(r.normalizedPath, r.kind + "/")
    ensures r.normalizedPath in {t, "components/" + t}
  {
    InnerKnownBranchUnreachable(t);
    if !HasKnownPrefix(t) then
      if '/' !in t then
        Target("components/" + t, "components")
      else
        var firstDir := FirstSegment(t);
        if firstDir in KnownDirs then
          Target(t, firstDir)
        else
          Target("components/" + t, "components")
    else
      KindOfPrefixed(t);
      Target(t, FirstSegment(t))
  }

  /** A known category name followed by `/` is one of the known prefixes. */
  lemma KnownDirIsPrefix(d: string, rest: string)
    requires d in KnownDirs
    ensures HasKnownPrefix(d + "/" + rest)
  {
    var t := d + "/" + rest;
    var i := if d == "components" then 0 else if d == "hooks" then 1 else 2;
    assert KnownPrefixes[i] == d + "/";
    assert t[..|d| + 1] == d + "/";
  }

  /**
   * The branch returning `{ normalizedPath: targetPath, type: firstDir }` is
   * never taken: an input whose first segment is a known directory already
   * starts with that directory's prefix.
   */
  lemma InnerKnownBranchUnreachable(t: string)
    ensures !TakesInnerKnownBranch(t)
  {
    if '/' in t {
      var d := FirstSegment(t);
      if d in KnownDirs {
        assert t == d + "/" + t[|d| + 1..] by {
          assert t[..|d|] == d;
        }
        KnownDirIsPrefix(d, t[|d| + 1..]);
      }
    }
  }

  /** The kind of a path that starts with one of the known prefixes is its category. */
  lemma KindOfPrefixed(t: string)
    requires HasKnownPrefix(t)
    ensures FirstSegment(t) in KnownDirs
    ensures StartsWith(t, FirstSegment(t) + "/")
  {
    var i :| 0 <= i < |KnownPrefixes| && StartsWith(t, KnownPrefixes[i]);
    var d := if i == 0 then "components" else if i == 1 then "hooks" else "lib";
    assert KnownPrefixes[i] == d + "/";
    assert '/' !in d;
    assert t == d + "/" + t[|d| + 1..];
    FirstSegmentOf(d, t[|d| + 1..]);
  }

  /** An input that starts with a known prefix is kept as it is, with its first segment as kind. */
  lemma NormalizeKeepsPrefixed(t: string)
    requires StartsWith(t, "components/") || StartsWith(t, "hooks/") || StartsWith(t, "lib/")
    ensures NormalizeTargetPath(t).normalizedPath == t
    ensures NormalizeTargetPath(t).kind == t[..|FirstSegment(t)|]
    ensures NormalizeTargetPath(t).kind in KnownDirs
  {
    var i := if StartsWith(t, "components/") then 0 else if StartsWith(t, "hooks/") then 1 else 2;
    assert StartsWith(t, KnownPrefixes[i]);
    KindOfPrefixed(t);
  }

  /** An input without any `/` is a component name: `"components"` becomes `"components/components"`. */
  lemma NormalizeBareName(t: string)
    requires '/' !in t
    ensures NormalizeTargetPath(t) == Target("components/" + t, "components")
  {
    forall i | 0 <= i < |KnownPrefixes|
      ensures !StartsWith(t, KnownPrefixes[i])
    {
      var p := KnownPrefixes[i];
      assert p[|p| - 1] == '/';
      if |p| <= |t| {
        assert t[|p| - 1] in t;
      }
    }
  }

  /** An input with a `/` whose first segment is not a category is nested under `components/`. */
  lemma NormalizeUnknownDirectory(t: string)
    requires '/' in t
    requires FirstSegment(t) !in KnownDirs
    ensures NormalizeTargetPath(t) == Target("components/" + t, "components")
  {
    if HasKnownPrefix(t) {
      KindOfPrefixed(t);
    }
  }

  /**
   * The input always survives as the tail of the normalised path, which is
   * either the input itself or the input under `components/`.
   */
  lemma NormalizeKeepsInput(t: string)
    ensures EndsWith(NormalizeTargetPath(t).normalizedPath, t)
    ensures NormalizeTargetPath(t).normalizedPath in {t, "components/" + t}
  {
    var p := NormalizeTargetPath(t).normalizedPath;
    assert p[|p| - |t|..] == t;
  }

  /** Normalising an already-normalised path changes nothing. */
  lemma NormalizeIdempotent(t: string)
    ensures NormalizeTargetPath(NormalizeTargetPath(t).normalizedPath) == NormalizeTargetPath(t)
  {
    var r := NormalizeTargetPath(t);
    var p := r.normalizedPath;
    var d := r.kind;
    var rest := p[|d| + 1..];
    assert p == d + "/" + rest by {
      assert StartsWith(p, d + "/");
    }
    assert HasKnownPrefix(p) by {
      KnownDirIsPrefix(d, rest);
    }
    assert FirstSegment(p) == d by {
      assert '/' !in d;
      FirstSegmentOf(d, rest);
    }
    assert NormalizeTargetPath(p) == Target(p, FirstSegment(p));
    assert r == Target(p, d);
  }
}
