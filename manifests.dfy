/**
  A parsed `pyproject.toml` manifest, reduced to the two places the scripts
  read: `[project].dependencies` and the groups of
  `[project].optional-dependencies` (in file order), and the two per-manifest
  walks over them: `extract_deps` (every declaration, split by `parse_dep`)
  and `get_package_versions` (the version text of the declarations that start
  with a package name). Also the project name the audit derives from a
  manifest's path.
*/
module Manifests {
  import opened Wrappers
  import opened Text
  import opened Declarations

  /** One named optional-dependency group and its declarations. */
  datatype Group = Group(name: string, entries: seq<string>)

  /** The `[project]` table; a missing key is None. */
  datatype ProjectTable = ProjectTable(dependencies: Option<seq<string>>, optionalDependencies: Option<seq<Group>>)

  /** A manifest: its path and its `[project]` table, None when the file has none. */
  datatype Manifest = Manifest(path: string, project: Option<ProjectTable>)

  /** `data.get("project", {}).get("dependencies", [])` */
  function Direct(m: Manifest): seq<string> {
    if m.project.Some? && m.project.value.dependencies.Some? then m.project.value.dependencies.value else []
  }

  /** `data.get("project", {}).get("optional-dependencies", {}).values()` */
  function Groups(m: Manifest): seq<Group> {
    if m.project.Some? && m.project.value.optionalDependencies.Some? then m.project.value.optionalDependencies.value else []
  }

  /** The entries of all groups, group after group. */
  function Flatten(gs: seq<Group>): seq<string> {
    if gs == [] then [] else Flatten(gs[..|gs| - 1]) + gs[|gs| - 1].entries
  }

  function TotalSize(gs: seq<Group>): nat {
    if gs == [] then 0 else |gs[0].entries| + TotalSize(gs[1..])
  }

  /** Every declaration of a manifest in the order both scripts visit them: direct ones, then each group. */
  function AllDeclarations(m: Manifest): seq<string> {
    Direct(m) + Flatten(Groups(m))
  }

  lemma {:induction false} FlattenLength(gs: seq<Group>)
    ensures |Flatten(gs)| == TotalSize(gs)
    decreases |gs|
  {
    if gs != [] {
      FlattenLength(gs[..|gs| - 1]);
      TotalSizeSnoc(gs[..|gs| - 1], gs[|gs| - 1]);
      assert gs[..|gs| - 1] + [gs[|gs| - 1]] == gs;
    }
  }

  lemma {:induction false} TotalSizeSnoc(gs: seq<Group>, g: Group)
    ensures TotalSize(gs + [g]) == TotalSize(gs) + |g.entries|
  {
    if gs != [] {
      assert (gs + [g])[1..] == gs[1..] + [g];
      TotalSizeSnoc(gs[1..], g);
    }
  }

  /**
    How many declarations `extract_deps` yields: the direct ones plus the
    sizes of all groups; a missing section contributes none.
  */
  lemma DeclarationCount(m: Manifest)
    ensures |AllDeclarations(m)| == |Direct(m)| + TotalSize(Groups(m))
    ensures m.project.None? ==> AllDeclarations(m) == []
  {
    FlattenLength(Groups(m));
  }

  /** `f` applied to every element, in order. */
  function MapAll<T>(ds: seq<string>, f: string -> T): (r: seq<T>)
    ensures |r| == |ds|
  {
    if ds == [] then [] else MapAll(ds[..|ds| - 1], f) + [f(ds[|ds| - 1])]
  }

  /** `parse_dep` applied to every declaration. */
  function ParseAll(ds: seq<string>): (r: seq<Declaration>)
    ensures |r| == |ds|
  {
    MapAll(ds, ParseDep)
  }

  lemma {:induction false} MapAllAppend<T>(a: seq<string>, b: seq<string>, f: string -> T)
    ensures MapAll(a + b, f) == MapAll(a, f) + MapAll(b, f)
    decreases |b|
  {
    if b != [] {
      var b' := b[..|b| - 1];
      assert (a + b)[..|a + b| - 1] == a + b';
      MapAllAppend(a, b', f);
    } else {
      assert a + b == a;
    }
  }

  lemma {:induction false} MapAllAt<T>(ds: seq<string>, f: string -> T, i: nat)
    requires i < |ds|
    ensures MapAll(ds, f)[i] == f(ds[i])
    decreases |ds|
  {
    if i < |ds| - 1 {
      MapAllAt(ds[..|ds| - 1], f, i);
    }
  }

  /** The i-th parsed declaration is `parse_dep` of the i-th declaration. */
  lemma ParseAllAt(ds: seq<string>, i: nat)
    requires i < |ds|
    ensures ParseAll(ds)[i] == ParseDep(ds[i])
  {
    MapAllAt(ds, ParseDep, i);
  }

  lemma ParseAllAppend(a: seq<string>, b: seq<string>)
    ensures ParseAll(a + b) == ParseAll(a) + ParseAll(b)
  {
    MapAllAppend(a, b, ParseDep);
  }

  /** `extract_deps`: one parsed declaration per declaration of the manifest, in order. */
  method ExtractDeps(m: Manifest) returns (deps: seq<Declaration>)
    ensures deps == ParseAll(AllDeclarations(m))
  {
    var direct := Direct(m);
    deps := ParseEach([], direct);
    var groups := Groups(m);
    FlattenPrefix(direct, groups, 0);
    for g := 0 to |groups|
      invariant deps == ParseAll(direct + Flatten(groups[..g]))
    {
      ParseAllStep(direct, groups, g);
      deps := ParseEach(deps, groups[g].entries);
    }
    FlattenPrefix(direct, groups, |groups|);
  }

  /** The declarations visited before group g, for g = 0 and g = all groups. */
  lemma FlattenPrefix(direct: seq<string>, groups: seq<Group>, g: nat)
    requires g == 0 || g == |groups|
    ensures g == 0 ==> direct + Flatten(groups[..g]) == direct
    ensures g == |groups| ==> Flatten(groups[..g]) == Flatten(groups)
  {
    assert groups[..|groups|] == groups;
  }

  /** Visiting group g extends the visited declarations by that group's entries. */
  lemma FlattenStep(direct: seq<string>, groups: seq<Group>, g: nat)
    requires g < |groups|
    ensures direct + Flatten(groups[..g + 1]) == direct + Flatten(groups[..g]) + groups[g].entries
  {
    assert groups[..g + 1][..g] == groups[..g];
  }

  lemma ParseAllStep(direct: seq<string>, groups: seq<Group>, g: nat)
    requires g < |groups|
    ensures ParseAll(direct + Flatten(groups[..g + 1])) == ParseAll(direct + Flatten(groups[..g])) + ParseAll(groups[g].entries)
  {
    FlattenStep(direct, groups, g);
    ParseAllAppend(direct + Flatten(groups[..g]), groups[g].entries);
  }

  /** One `for dep in ...` loop of `extract_deps`: appends `parse_dep` of every declaration of `decls`. */
  method ParseEach(deps: seq<Declaration>, decls: seq<string>) returns (result: seq<Declaration>)
    ensures result == deps + ParseAll(decls)
  {
    result := deps;
    for i := 0 to |decls|
      invariant result == deps + ParseAll(decls[..i])
    {
      ParseAllNext(decls, i);
      result := result + [ParseDep(decls[i])];
    }
    assert decls[..|decls|] == decls;
  }

  lemma ParseAllNext(decls: seq<string>, i: nat)
    requires i < |decls|
    ensures ParseAll(decls[..i + 1]) == ParseAll(decls[..i]) + [ParseDep(decls[i])]
  {
    assert decls[..i + 1][..i] == decls[..i];
  }

  /** `dep.lower().startswith(pkg_name.lower())`: a prefix test, so "pandas-stubs" is selected for "pandas". */
  predicate Selects(dep: string, pkgName: string) {
    StartsWith(Lower(dep), Lower(pkgName))
  }

  /**
    The text `get_package_versions` records for one selected declaration: what
    follows the first space, stripped, or "" when there is no space.
  */
  function VersionText(dep: string): string {
    if dep == [] then ""
    else if dep[0] == ' ' then Strip(dep[1..])
    else VersionText(dep[1..])
  }

  /** A declaration without a space, such as "pandas>=1.0.1", yields "". */
  lemma {:induction false} VersionTextWithoutSpace(dep: string)
    requires ' ' !in dep
    ensures VersionText(dep) == ""
  {
    if dep != [] {
      assert dep[0] in dep;
      assert forall c :: c in dep[1..] ==> c in dep;
      VersionTextWithoutSpace(dep[1..]);
    }
  }

  /** A version text never starts or ends with whitespace. */
  lemma {:induction false} VersionTextTrimmed(dep: string)
    ensures VersionText(dep) == [] || (!IsSpace(VersionText(dep)[0]) && !IsSpace(VersionText(dep)[|VersionText(dep)| - 1]))
  {
    if dep != [] && dep[0] != ' ' {
      VersionTextTrimmed(dep[1..]);
    }
  }

  /** When the first space of `dep` is at `i`, its version text is what follows, stripped. */
  lemma {:induction false} VersionTextAfterFirstSpace(dep: string, i: nat)
    requires i < |dep| && dep[i] == ' ' && ' ' !in dep[..i]
    ensures VersionText(dep) == Strip(dep[i + 1..])
  {
    if i > 0 {
      assert dep[0] == dep[..i][0];
      assert dep[1..][..i - 1] == dep[1..i];
      assert forall c :: c in dep[1..i] ==> c in dep[..i];
      VersionTextAfterFirstSpace(dep[1..], i - 1);
      assert dep[1..][i..] == dep[i + 1..];
    }
  }

  /** The version texts of the declarations in `ds` that select `pkgName`, in order. */
  function Selected(ds: seq<string>, pkgName: string): seq<string> {
    SelectedPrefix(ds, |ds|, pkgName)
  }

  /** The entries contributed by the first `n` declarations of `ds`. */
  function SelectedPrefix(ds: seq<string>, n: nat, pkgName: string): seq<string>
    requires n <= |ds|
  {
    if n == 0 then [] else SelectedPrefix(ds, n - 1, pkgName) + Contribution(ds[n - 1], pkgName)
  }

  lemma {:induction false} SelectedPrefixExtend(ds: seq<string>, d: string, n: nat, pkgName: string)
    requires n <= |ds|
    ensures SelectedPrefix(ds + [d], n, pkgName) == SelectedPrefix(ds, n, pkgName)
  {
    if n > 0 {
      SelectedPrefixExtend(ds, d, n - 1, pkgName);
    }
  }

  /** The entries one declaration adds: its version text when it is selected, nothing otherwise. */
  function Contribution(dep: string, pkgName: string): seq<string> {
    if Selects(dep, pkgName) then [VersionText(dep)] else []
  }

  /** What `get_package_versions` returns for one manifest. */
  function PackageVersions(m: Manifest, pkgName: string): seq<string> {
    Selected(AllDeclarations(m), pkgName)
  }

  lemma SelectedSnoc(ds: seq<string>, d: string, pkgName: string)
    ensures Selected(ds + [d], pkgName) == Selected(ds, pkgName) + Contribution(d, pkgName)
  {
    SelectedPrefixExtend(ds, d, |ds|, pkgName);
  }

  /** Selection distributes over concatenation: each part contributes its own entries, in order. */
  lemma {:induction false} SelectedAppend(a: seq<string>, b: seq<string>, pkgName: string)
    ensures Selected(a + b, pkgName) == Selected(a, pkgName) + Selected(b, pkgName)
    decreases |b|
  {
    if b == [] {
      assert a + b == a;
    } else {
      var b', d := b[..|b| - 1], b[|b| - 1];
      assert a + b == (a + b') + [d];
      SelectedSnoc(a + b', d, pkgName);
      SelectedAppend(a, b', pkgName);
      SelectedSnoc(b', d, pkgName);
      assert b' + [d] == b;
    }
  }

  /**
    Each recorded text comes from a selected declaration, and every selected
    declaration contributes exactly one text: the entries are the version
    texts of the selected declarations, in order.
  */
  lemma {:induction false} SelectedMeaning(ds: seq<string>, pkgName: string)
    ensures |Selected(ds, pkgName)| == |Matching(ds, pkgName)|
    ensures forall k :: 0 <= k < |Selected(ds, pkgName)| ==>
      Selected(ds, pkgName)[k] == VersionText(Matching(ds, pkgName)[k])
    ensures forall k :: 0 <= k < |Matching(ds, pkgName)| ==> Selects(Matching(ds, pkgName)[k], pkgName)
    decreases |ds|
  {
    if ds != [] {
      var init := ds[..|ds| - 1];
      SelectedMeaning(init, pkgName);
      SelectedSnoc(init, ds[|ds| - 1], pkgName);
      assert init + [ds[|ds| - 1]] == ds;
    }
  }

  /** The declarations of `ds` that select `pkgName`, in order. */
  function Matching(ds: seq<string>, pkgName: string): (r: seq<string>)
    ensures forall d :: d in r ==> d in ds
  {
    if ds == [] then []
    else
      var last := ds[|ds| - 1];
      Matching(ds[..|ds| - 1], pkgName) + (if Selects(last, pkgName) then [last] else [])
  }

  /** `get_package_versions(pyproject_path, pkg_name)` over a parsed manifest. */
  method GetPackageVersions(m: Manifest, pkgName: string) returns (versions: seq<string>)
    ensures versions == PackageVersions(m, pkgName)
  {
    var deps := Direct(m);
    versions := SelectVersions([], deps, pkgName);
    assert versions == Selected(deps, pkgName);
    var groups := Groups(m);
    assert deps + Flatten(groups[..0]) == deps;
    for g := 0 to |groups|
      invariant versions == Selected(deps + Flatten(groups[..g]), pkgName)
    {
      ghost var before := deps + Flatten(groups[..g]);
      versions := SelectVersions(versions, groups[g].entries, pkgName);
      assert versions == Selected(deps + Flatten(groups[..g + 1]), pkgName) by {
        SelectedAppend(before, groups[g].entries, pkgName);
        assert groups[..g + 1][..g] == groups[..g];
        assert before + groups[g].entries == deps + Flatten(groups[..g + 1]);
      }
    }
    assert groups[..|groups|] == groups;
  }

  /**
    One `for dep in ...` loop of `get_package_versions`: appends the version
    text of every declaration of `decls` that starts with the package name.
  */
  method SelectVersions(versions: seq<string>, decls: seq<string>, pkgName: string) returns (result: seq<string>)
    ensures result == versions + Selected(decls, pkgName)
  {
    result := versions;
    for i := 0 to |decls|
      invariant result == versions + Selected(decls[..i], pkgName)
    {
      var entry := VersionEntry(decls[i], pkgName);
      assert result + entry == versions + Selected(decls[..i + 1], pkgName) by {
        SelectedSnoc(decls[..i], decls[i], pkgName);
        assert decls[..i + 1] == decls[..i] + [decls[i]];
      }
      result := result + entry;
    }
    assert decls[..|decls|] == decls;
  }

  /** The body of both loops of `get_package_versions`: the prefix test, then the split on the first space. */
  method VersionEntry(dep: string, pkgName: string) returns (entry: seq<string>)
    ensures entry == Contribution(dep, pkgName)
  {
    entry := [];
    if StartsWith(Lower(dep), Lower(pkgName)) {
      var space := FirstIndex(dep, ' ');
      if space.Some? {
        VersionTextAfterFirstSpace(dep, space.value);
        entry := [Strip(dep[space.value + 1..])];
      } else {
        VersionTextWithoutSpace(dep);
        entry := [""];
      }
    }
  }

  /**
    The two quirks of the selection: a declaration whose name merely starts
    with the package name is selected, and a declaration without a space
    contributes "" even when it carries a constraint.
  */
  lemma PrefixSelects()
    ensures Selects("pandas-stubs", "pandas")
    ensures Selects("Pandas>=1.0", "pandas")
  {
    assert Lower("pandas-stubs")[..6] == "pandas";
    assert Lower("Pandas>=1.0")[..6] == "pandas";
  }

  lemma NoSpaceNoText()
    ensures VersionText("pandas>=1.0.1") == ""
  {
    VersionTextWithoutSpace("pandas>=1.0.1");
  }

  predicate IsSlash(c: char) { c == '/' }

  /** `os.path.dirname` on a POSIX path. */
  function DirName(p: string): string {
    var i := match LastIndex(p, '/') case None => 0 case Some(j) => j + 1;
    var head := p[..i];
    if head != [] && !AllSlashes(head) then RStrip(head, IsSlash) else head
  }

  /** `s == '/' * len(s)` */
  predicate AllSlashes(s: string) {
    forall k :: 0 <= k < |s| ==> s[k] == '/'
  }

  /** `os.path.basename` on a POSIX path. */
  function BaseName(p: string): (r: string)
    ensures '/' !in r
    ensures |r| <= |p| && r == p[|p| - |r|..]
    ensures |r| == |p| || p[|p| - |r| - 1] == '/'
  {
    match LastIndex(p, '/') case None => p case Some(j) => p[j + 1..]
  }

  /** `os.path.basename(os.path.dirname(pyproject))`: the name the audit reports a manifest under. */
  function ProjectName(path: string): string {
    BaseName(DirName(path))
  }

  /**
    The project name of a manifest at `<prefix><dir>/<file>` is `dir`, the
    last segment of its parent directory.
  */
  lemma ProjectNameIsParentDir(prefix: string, dir: string, file: string)
    requires prefix == [] || prefix[|prefix| - 1] == '/'
    requires dir != [] && '/' !in dir && '/' !in file
    ensures ProjectName(prefix + dir + "/" + file) == dir
  {
    DirNameOfFile(prefix + dir, file);
    BaseNameOfLastSegment(prefix, dir);
  }

  /** The directory of `<d>/<file>` is `d`, when `d` does not end in a slash. */
  lemma DirNameOfFile(d: string, file: string)
    requires d != [] && d[|d| - 1] != '/' && '/' !in file
    ensures DirName(d + "/" + file) == d
  {
    var p := d + "/" + file;
    var n := |d|;
    LastIndexAfter(d + "/", file, '/');
    var head := p[..n + 1];
    assert head == d + "/";
    assert !AllSlashes(head) by { assert head[n - 1] != '/'; }
    assert head[..n] == d;
    RStripOneSlash(d);
  }

  lemma RStripOneSlash(d: string)
    requires d != [] && d[|d| - 1] != '/'
    ensures RStrip(d + "/", IsSlash) == d
  {
    assert (d + "/")[..|d|] == d;
  }

  /** The last segment of `<prefix><dir>` is `dir`, when `prefix` is empty or ends in a slash. */
  lemma BaseNameOfLastSegment(prefix: string, dir: string)
    requires prefix == [] || prefix[|prefix| - 1] == '/'
    requires '/' !in dir
    ensures BaseName(prefix + dir) == dir
  {
    if prefix == [] {
      assert prefix + dir == dir;
    } else {
      LastIndexAfter(prefix, dir, '/');
      assert (prefix + dir)[|prefix|..] == dir;
    }
  }

  lemma LastIndexAfter(s: string, t: string, c: char)
    requires c !in t && s != [] && s[|s| - 1] == c
    ensures LastIndex(s + t, c) == Some(|s| - 1)
  {
    assert (s + t)[|s| - 1] == c;
  }
}
