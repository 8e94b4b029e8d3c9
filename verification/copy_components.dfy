/**
 * The `filter` that the publishing script passes to `fs.copy` when it copies
 * the component sources into the CLI package: test files, `__tests__`
 * directories, `node_modules` and Git metadata are left out.
 */
module CopyComponents {
  import opened Strings

  /**
   * The five exclude patterns. Each regular expression is a run of literal
   * characters (escaped dots and slashes), so it matches exactly where its
   * text occurs.
   */
  const ExcludePatterns: seq<string> := [".test.", ".spec.", "/__tests__/", "/node_modules/", ".git/"]

  /** `!excludePatterns.some(pattern => pattern.test(src))`: whether `src` is copied. */
  function Keep(src: string): (keep: bool)
    ensures keep <==> forall k :: 0 <= k < |ExcludePatterns| ==> !Occurs(src, ExcludePatterns[k])
  {
    !AnyPatternMatches(src, ExcludePatterns)
  }

  /** `patterns.some(pattern => pattern.test(src))`, one pattern after another. */
  function AnyPatternMatches(src: string, patterns: seq<string>): (b: bool)
    ensures b <==> exists k :: 0 <= k < |patterns| && Occurs(src, patterns[k])
  {
    if patterns == [] then false
    else Includes(src, patterns[0]) || AnyPatternMatches(src, patterns[1..])
  }

  /** A path is rejected as soon as it contains any one of the patterns. */
  lemma RejectsEachPattern(src: string)
    ensures Occurs(src, ".test.") ==> !Keep(src)
    ensures Occurs(src, ".spec.") ==> !Keep(src)
    ensures Occurs(src, "/__tests__/") ==> !Keep(src)
    ensures Occurs(src, "/node_modules/") ==> !Keep(src)
    ensures Occurs(src, ".git/") ==> !Keep(src)
  {
    assert ExcludePatterns[0] == ".test.";
    assert ExcludePatterns[1] == ".spec.";
    assert ExcludePatterns[2] == "/__tests__/";
    assert ExcludePatterns[3] == "/node_modules/";
    assert ExcludePatterns[4] == ".git/";
  }

  /** No window of `s` agrees with `p` on its first, second and last characters. */
  lemma AbsentByEnds(s: string, p: string)
    requires |p| >= 2
    requires forall i :: 0 <= i && i + |p| <= |s| ==>
      s[i] != p[0] || s[i + 1] != p[1] || s[i + |p| - 1] != p[|p| - 1]
    ensures !Occurs(s, p)
  {
    forall i | 0 <= i
      ensures !OccursAt(s, p, i)
    {
      if i + |p| <= |s| {
        var w := s[i..i + |p|];
        assert w[0] == s[i] && w[1] == s[i + 1] && w[|p| - 1] == s[i + |p| - 1];
      }
    }
  }

  /**
   * The Git pattern has no leading slash, so it also excludes a directory
   * such as `x.git/`; `.github/` does not contain `.git/` and is kept.
   */
  lemma GitPatternScope()
    ensures !Keep("x.git/")
    ensures Keep(".github/")
  {
    var rejected := "x.git/";
    assert OccursAt(rejected, ".git/", 1) by {
      assert rejected[1..6] == ".git/";
    }
    var kept := ".github/";
    AbsentByEnds(kept, ".test.");
    AbsentByEnds(kept, ".spec.");
    AbsentByEnds(kept, "/__tests__/");
    AbsentByEnds(kept, "/node_modules/");
    AbsentByEnds(kept, ".git/");
  }
}
