/**
 * The `add` command: the candidate search of `findComponent`, the
 * destination rule, and the not-found / already-exists decision. The
 * registry (the cloned repository) and the user's project are sets of the
 * full paths that exist in them.
 */
module AddCommand {
  import opened Wrappers
  import opened Strings
  import opened Paths
  import opened TargetPath

  /** The endings tried after a path, in the source's order. */
  const Suffixes: seq<string> := ["", ".tsx", ".ts", "/index.tsx", "/index.ts"]

  const ComponentsPrefix: string := "components/"

  /** The five variations written out for one path. */
  function Variations(p: string): (r: seq<string>)
    ensures |r| == 5 && forall k :: 0 <= k < 5 ==> r[k] == p + Suffixes[k]
  {
    assert p + "" == p;
    [p, p + ".tsx", p + ".ts", p + "/index.tsx", p + "/index.ts"]
  }

  /** `pathVariations` of `findComponent`, with the push for `components/` paths. */
  function PathVariations(p: string): (r: seq<string>)
    ensures |r| == if StartsWith(p, ComponentsPrefix) then 10 else 5
    ensures forall k :: 0 <= k < 5 ==> r[k] == p + Suffixes[k]
    ensures StartsWith(p, ComponentsPrefix) ==>
      forall k :: 0 <= k < 5 ==> r[5 + k] == p[|ComponentsPrefix|..] + Suffixes[k]
  {
    var withoutPrefix := ReplaceFirst(p, ComponentsPrefix, "");
    Variations(p) + if StartsWith(p, ComponentsPrefix) then Variations(withoutPrefix) else []
  }

  /** Candidate `k` is the first of `cs` that exists under `base`. */
  predicate FirstExistingAt(fs: set<string>, base: string, cs: seq<string>, k: int) {
    && 0 <= k < |cs|
    && Join(base, cs[k]) in fs
    && forall j :: 0 <= j < k ==> Join(base, cs[j]) !in fs
  }

  /** The loop of `findComponent`: the index of the first candidate that exists. */
  function FirstExisting(fs: set<string>, base: string, cs: seq<string>): (r: Option<nat>)
    ensures r.Some? ==> FirstExistingAt(fs, base, cs, r.value)
    ensures r.None? <==> forall k :: 0 <= k < |cs| ==> Join(base, cs[k]) !in fs
  {
    if cs == [] then None
    else if Join(base, cs[0]) in fs then Some(0)
    else
      match FirstExisting(fs, base, cs[1..])
      case None => None
      case Some(k) =>
        assert forall j :: 1 <= j <= k ==> cs[j] == cs[1..][j - 1];
        Some(k + 1)
  }

  /**
   * `findComponent(baseDir, normalizedPath)`: the full path of the first
   * variation that exists, and `None` (the source's `null`) when none does.
   */
  function FindComponent(fs: set<string>, baseDir: string, p: string): (r: Option<string>)
    ensures r.None? <==>
      forall k :: 0 <= k < |PathVariations(p)| ==> Join(baseDir, PathVariations(p)[k]) !in fs
    ensures r.Some? ==> exists k :: FirstExistingAt(fs, baseDir, PathVariations(p), k)
                                    && r.value == Join(baseDir, PathVariations(p)[k])
  {
    var cs := PathVariations(p);
    match FirstExisting(fs, baseDir, cs)
    case None => None
    case Some(k) => Some(Join(baseDir, cs[k]))
  }

  /**
   * The destination path in the user's project for a found source: `cwd/p`
   * with at most the source's TypeScript extension added, never doubled, and
   * nothing added for a source without one.
   */
  function Destination(cwd: string, p: string, sourcePath: string): (r: string)
    ensures r in {Join(cwd, p), Join(cwd, p + ".tsx"), Join(cwd, p + ".ts")}
    ensures (EndsWith(p, ".tsx") && EndsWith(sourcePath, ".tsx")) || (EndsWith(p, ".ts") && EndsWith(sourcePath, ".ts"))
            ==> r == Join(cwd, p)
    ensures !EndsWith(sourcePath, ".tsx") && !EndsWith(sourcePath, ".ts") ==> r == Join(cwd, p)
  {
    if EndsWith(sourcePath, ".tsx") || EndsWith(sourcePath, ".ts") then
      var e := if EndsWith(sourcePath, ".tsx") then ".tsx" else ".ts";
      var x := sourcePath[..|sourcePath| - |e|];
      assert sourcePath == x + e;
      TypeScriptExtName(x, e);
      assert EndsWith(p, "") by {
        assert p[|p|..] == "";
      }
      var ext := ExtName(sourcePath);
      if !EndsWith(p, ext) then Join(cwd, p + ext) else Join(cwd, p)
    else
      Join(cwd, p)
  }

  /**
   * A source file `x + e` with a TypeScript extension `e` gives a destination
   * with that extension: appended when `p` lacks it, not doubled when `p`
   * already has it.
   */
  lemma DestinationOfTypeScriptSource(cwd: string, p: string, x: string, e: string)
    requires e == ".tsx" || e == ".ts"
    requires x != [] && x[|x| - 1] != '/'
    ensures !EndsWith(p, e) ==> Destination(cwd, p, x + e) == Join(cwd, p + e)
    ensures EndsWith(p, e) ==> Destination(cwd, p, x + e) == Join(cwd, p)
  {
    TypeScriptExtName(x, e);
    var s := x + e;
    assert s[|s| - |e|..] == e;
  }

  /** A TypeScript file that is a dot-file (`dir/.ts`) has no extension, so nothing is appended. */
  lemma DestinationOfDotFile(cwd: string, p: string, x: string, e: string)
    requires e == ".tsx" || e == ".ts"
    requires x == [] || x[|x| - 1] == '/'
    ensures Destination(cwd, p, x + e) == Join(cwd, p)
  {
    TypeScriptExtName(x, e);
    assert EndsWith(p, "") by {
      assert p[|p|..] == "";
    }
  }

  /** A source without a TypeScript extension (a directory, say) is copied to `cwd/p`. */
  lemma DestinationOfOtherSource(cwd: string, p: string, sourcePath: string)
    requires !EndsWith(sourcePath, ".tsx") && !EndsWith(sourcePath, ".ts")
    ensures Destination(cwd, p, sourcePath) == Join(cwd, p)
  {
  }

  /**
   * The destination does not depend on which `.tsx` variation matched: a
   * match on `p.tsx` and a match on the prefix-stripped `q.tsx` both give
   * `cwd/p.tsx`.
   */
  lemma DestinationIgnoresVariation(cwd: string, baseDir: string, p: string)
    requires StartsWith(p, ComponentsPrefix) && !EndsWith(p, ".tsx")
    requires p[|p| - 1] != '/'
    ensures Destination(cwd, p, Join(baseDir, p + ".tsx")) == Join(cwd, p + ".tsx")
    ensures Destination(cwd, p, Join(baseDir, p[|ComponentsPrefix|..] + ".tsx")) == Join(cwd, p + ".tsx")
  {
    var q := p[|ComponentsPrefix|..];
    var x1 := baseDir + "/" + p;
    assert Join(baseDir, p + ".tsx") == x1 + ".tsx";
    assert x1[|x1| - 1] == p[|p| - 1];
    DestinationOfTypeScriptSource(cwd, p, x1, ".tsx");
    var x2 := baseDir + "/" + q;
    assert Join(baseDir, q + ".tsx") == x2 + ".tsx";
    assert x2[|x2| - 1] != '/' by {
      if q != [] {
        assert x2[|x2| - 1] == q[|q| - 1] == p[|p| - 1];
      }
    }
    DestinationOfTypeScriptSource(cwd, p, x2, ".tsx");
  }

  /**
   * A real filesystem holds the directories above every path it holds: the
   * registry and the project are sets of file and directory paths alike.
   */
  predicate AncestorClosed(fs: set<string>) {
    forall q, i :: q in fs && 0 < i < |q| && q[i] == '/' ==> q[..i] in fs
  }

  /** Under a directory that holds `index.tsx` or `index.ts`, the directory itself exists. */
  lemma IndexFileHasDirectory(fs: set<string>, base: string, c: string, s: string)
    requires AncestorClosed(fs)
    requires s == "/index.tsx" || s == "/index.ts"
    requires Join(base, c + s) in fs
    ensures Join(base, c) in fs
  {
    var x := Join(base, c + s);
    var i := |Join(base, c)|;
    assert x[..i] == Join(base, c) && x[i] == '/';
  }

  /**
   * On a real filesystem the `index` variations are never the first match:
   * the directory variation before them exists whenever they do.
   */
  lemma IndexVariationsNeverFirst(fs: set<string>, base: string, p: string)
    requires AncestorClosed(fs)
    ensures var r := FirstExisting(fs, base, PathVariations(p));
            r.Some? ==> r.value in {0, 1, 2, 5, 6, 7}
  {
    var cs := PathVariations(p);
    var r := FirstExisting(fs, base, cs);
    if r.Some? && r.value !in {0, 1, 2, 5, 6, 7} {
      var k := r.value;
      var j := if k < 5 then 0 else 5;
      var q := if k < 5 then p else p[|ComponentsPrefix|..];
      assert cs[j] == q && cs[k] == q + Suffixes[k - j] by {
        assert q + Suffixes[0] == q;
      }
      IndexFileHasDirectory(fs, base, q, Suffixes[k - j]);
      assert false;
    }
  }

  /**
   * On a real filesystem a directory with an `index` file is found as the
   * directory itself, which is then copied whole.
   */
  lemma DirectoryWins(fs: set<string>, base: string, p: string)
    requires AncestorClosed(fs)
    requires Join(base, p + "/index.tsx") in fs || Join(base, p + "/index.ts") in fs
    ensures FindComponent(fs, base, p) == Some(Join(base, p))
  {
    var cs := PathVariations(p);
    if Join(base, p + "/index.tsx") in fs {
      IndexFileHasDirectory(fs, base, p, "/index.tsx");
    } else {
      IndexFileHasDirectory(fs, base, p, "/index.ts");
    }
    assert cs[0] == p;
    assert FirstExistingAt(fs, base, cs, 0);
    FindComponentReturnsFirst(fs, base, p, 0);
  }

  /** What a run of `add` decides, and the project it leaves behind. */
  datatype AddOutcome =
    | NotFound
    | AlreadyExists(dest: string)
    | Added(dest: string, project: set<string>)

  /**
   * The directories `fs.ensureDir(path.dirname(dest))` makes sure exist:
   * every non-empty proper directory prefix of `p`. Like `path.dirname`, it
   * ignores trailing separators, so `cwd/components/` yields `cwd` and its
   * ancestors but not `cwd/components`.
   */
  function Ancestors(p: string): (r: set<string>)
    ensures p !in r
    ensures forall a :: a in r ==> StartsWith(p, a + "/")
    ensures forall a :: a in r <==> a != [] && StartsWith(StripTrailingSlashes(p), a + "/")
  {
    var q := StripTrailingSlashes(p);
    var r := set i | 0 < i < |q| && q[i] == '/' :: q[..i];
    assert forall a :: a in r <==> a != [] && StartsWith(q, a + "/") by {
      forall a
        ensures a in r <==> a != [] && StartsWith(q, a + "/")
      {
        if a != [] && StartsWith(q, a + "/") {
          assert q[..|a|] == a && q[|a|] == '/';
        }
      }
    }
    r
  }

  /** What `fs.copy(source, dest)` creates: `dest` and, for a directory, its whole subtree. */
  function CopiedTree(registry: set<string>, source: string, dest: string): (r: set<string>)
    ensures dest in r
    ensures forall q :: q in r ==> q == dest || StartsWith(q, dest + "/")
  {
    var tree := set r | r in registry && StartsWith(r, source + "/") :: dest + r[|source|..];
    assert forall q :: q in tree ==> StartsWith(q, dest + "/") by {
      forall q | q in tree
        ensures StartsWith(q, dest + "/")
      {
        var r :| r in registry && StartsWith(r, source + "/") && q == dest + r[|source|..];
        assert r[|source|] == '/';
      }
    }
    {dest} + tree
  }

  /**
   * The paths a run of `add` may create: the destination, the directories
   * above it and the paths below it.
   */
  predicate CreatedByAdd(q: string, dest: string) {
    q == dest || StartsWith(dest, q + "/") || StartsWith(q, dest + "/")
  }

  /**
   * `add(componentPath)` against a registry cloned to `tempDir` and a project
   * rooted at `cwd`.
   */
  function Add(registry: set<string>, tempDir: string, project: set<string>, cwd: string,
               componentPath: string): (r: AddOutcome)
    ensures var p := NormalizeTargetPath(componentPath).normalizedPath;
            r.NotFound? <==>
              forall k :: 0 <= k < |PathVariations(p)| ==> Join(tempDir, PathVariations(p)[k]) !in registry
    ensures r.AlreadyExists? ==> r.dest in project
    ensures r.Added? ==> r.dest !in project && r.dest in r.project && project <= r.project
    ensures r.Added? ==> forall q :: q in r.project && q !in project ==> CreatedByAdd(q, r.dest)
    ensures r.Added? ==> forall a :: a in Ancestors(r.dest) ==> a in r.project
  {
    var p := NormalizeTargetPath(componentPath).normalizedPath;
    match FindComponent(registry, tempDir, p)
    case None => NotFound
    case Some(sourcePath) =>
      var dest := Destination(cwd, p, sourcePath);
      if dest in project then
        AlreadyExists(dest)
      else
        var project' := project + Ancestors(dest) + CopiedTree(registry, sourcePath, dest);
        Added(dest, project')
  }

  /** The project as it is after `add`: only an `Added` outcome changes it. */
  function ProjectAfter(o: AddOutcome, project: set<string>): set<string> {
    if o.Added? then o.project else project
  }

  /** When a source is found, the destination is the one the rule derives from it. */
  lemma AddUsesFoundSource(registry: set<string>, tempDir: string, project: set<string>, cwd: string,
                           componentPath: string)
    ensures var p := NormalizeTargetPath(componentPath).normalizedPath;
            var r := Add(registry, tempDir, project, cwd, componentPath);
            (r.AlreadyExists? || r.Added?) ==>
              exists k :: FirstExistingAt(registry, tempDir, PathVariations(p), k)
                          && r.dest == Destination(cwd, p, Join(tempDir, PathVariations(p)[k]))
  {
  }

  /** A destination that already exists is never overwritten, and a missing source changes nothing. */
  lemma AddNeverOverwrites(registry: set<string>, tempDir: string, project: set<string>, cwd: string,
                           componentPath: string)
    ensures var r := Add(registry, tempDir, project, cwd, componentPath);
            !r.Added? <==> ProjectAfter(r, project) == project
  {
  }

  /** The search returns exactly the first existing variation: it never skips or reorders. */
  lemma FindComponentReturnsFirst(fs: set<string>, baseDir: string, p: string, k: int)
    requires FirstExistingAt(fs, baseDir, PathVariations(p), k)
    ensures FindComponent(fs, baseDir, p) == Some(Join(baseDir, PathVariations(p)[k]))
  {
    var cs := PathVariations(p);
    assert FirstExisting(fs, baseDir, cs).Some?;
  }

  /** Putting a bare name under `components/` does not give it an ending it lacked. */
  lemma BareNameKeepsEnding(name: string, e: string)
    requires '/' !in name && '/' !in e && !EndsWith(name, e)
    ensures !EndsWith("components/" + name, e)
  {
    var p := "components/" + name;
    if |e| <= |name| {
      assert p[|p| - |e|..] == name[|name| - |e|..];
    } else if |e| <= |p| {
      var j := |e| - |name| - 1;
      assert p[|p| - |e|..][j] == '/';
      assert e[j] in e;
    }
  }

  /** Once a source is found, `add` fails on an existing destination and copies to it otherwise. */
  lemma AddOfFoundSource(registry: set<string>, tempDir: string, project: set<string>, cwd: string,
                         componentPath: string, source: string)
    requires FindComponent(registry, tempDir, NormalizeTargetPath(componentPath).normalizedPath) == Some(source)
    ensures var dest := Destination(cwd, NormalizeTargetPath(componentPath).normalizedPath, source);
            var r := Add(registry, tempDir, project, cwd, componentPath);
            if dest in project then r == AlreadyExists(dest) else r.Added? && r.dest == dest
  {
  }

  /**
   * A bare name whose `.tsx` file is the first variation found in the
   * registry is added at `components/<name>.tsx`, unless that file exists.
   */
  lemma AddBareComponentFile(registry: set<string>, tempDir: string, project: set<string>, cwd: string,
                             name: string)
    requires name != [] && '/' !in name && !EndsWith(name, ".tsx")
    requires Join(tempDir, "components/" + name) !in registry
    requires Join(tempDir, "components/" + name + ".tsx") in registry
    ensures var r := Add(registry, tempDir, project, cwd, name);
            var dest := Join(cwd, "components/" + name + ".tsx");
            if dest in project then r == AlreadyExists(dest) else r.Added? && r.dest == dest
  {
    var p := "components/" + name;
    NormalizeBareName(name);
    SecondVariationFound(registry, tempDir, p);
    BareNameDestination(cwd, tempDir, name);
    AddOfFoundSource(registry, tempDir, project, cwd, name, Join(tempDir, p + ".tsx"));
  }

  /** When `p` itself is missing and `p.tsx` exists, the search returns `p.tsx`. */
  lemma SecondVariationFound(fs: set<string>, baseDir: string, p: string)
    requires Join(baseDir, p) !in fs && Join(baseDir, p + ".tsx") in fs
    ensures FindComponent(fs, baseDir, p) == Some(Join(baseDir, p + ".tsx"))
  {
    var cs := PathVariations(p);
    assert cs[0] == p && cs[1] == p + ".tsx";
    assert FirstExistingAt(fs, baseDir, cs, 1);
    FindComponentReturnsFirst(fs, baseDir, p, 1);
  }

  /** A bare name's `.tsx` source is copied to `components/<name>.tsx`. */
  lemma BareNameDestination(cwd: string, tempDir: string, name: string)
    requires name != [] && '/' !in name && !EndsWith(name, ".tsx")
    ensures var p := "components/" + name;
            Destination(cwd, p, Join(tempDir, p + ".tsx")) == Join(cwd, p + ".tsx")
  {
    var p := "components/" + name;
    var x := tempDir + "/" + p;
    assert Join(tempDir, p + ".tsx") == x + ".tsx";
    assert x[|x| - 1] != '/' by {
      assert x[|x| - 1] == p[|p| - 1];
      assert p[|p| - 1] == name[|name| - 1];
      assert name[|name| - 1] in name;
    }
    BareNameKeepsEnding(name, ".tsx");
    DestinationOfTypeScriptSource(cwd, p, x, ".tsx");
  }

  /** `button` with `components/button.tsx` in the registry lands at `components/button.tsx`. */
  lemma AddButtonScenario()
    ensures var r := Add({"/tmp/r/components/button.tsx"}, "/tmp/r", {}, "/app", "button");
            r.Added? && r.dest == "/app/components/button.tsx"
  {
    assert Join("/tmp/r", "components/" + "button") == "/tmp/r/components/button";
    assert Join("/tmp/r", "components/" + "button" + ".tsx") == "/tmp/r/components/button.tsx";
    assert Join("/app", "components/" + "button" + ".tsx") == "/app/components/button.tsx";
    AddBareComponentFile({"/tmp/r/components/button.tsx"}, "/tmp/r", {}, "/app", "button");
  }

  /** `button` when the project already has `components/button.tsx`: the command fails and nothing changes. */
  lemma AddButtonAlreadyThere()
    ensures var project := {"/app/components/button.tsx"};
            var r := Add({"/tmp/r/components/button.tsx"}, "/tmp/r", project, "/app", "button");
            r == AlreadyExists("/app/components/button.tsx") && ProjectAfter(r, project) == project
  {
    var registry := {"/tmp/r/components/button.tsx"};
    var project := {"/app/components/button.tsx"};
    var dest := Join("/app", "components/" + "button" + ".tsx");
    assert dest in project by {
      assert dest == "/app/components/button.tsx";
    }
    assert Add(registry, "/tmp/r", project, "/app", "button") == AlreadyExists(dest) by {
      assert Join("/tmp/r", "components/" + "button") == "/tmp/r/components/button";
      assert Join("/tmp/r", "components/" + "button" + ".tsx") == "/tmp/r/components/button.tsx";
      AddBareComponentFile(registry, "/tmp/r", project, "/app", "button");
    }
    assert dest == "/app/components/button.tsx";
  }
}
