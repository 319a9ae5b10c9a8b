/**
  The audit of `scan_dependencies_vers.py`: every declaration of every
  manifest is recorded as package -> constraint -> projects (insertion-ordered
  like Python dicts), and a warning is produced for each package declared with
  more than one distinct constraint.
*/
module Conflicts {
  import opened Wrappers
  import opened Text
  import opened Declarations
  import opened Manifests

  /** One `(pkg, ver)` pair of `extract_deps` and the project it was found in. */
  datatype Entry = Entry(pkg: string, constraint: string, project: string)

  /** `pkg_versions[pkg]`: its constraints in first-seen order and the projects under each. */
  datatype Constraints = Constraints(order: seq<string>, projects: map<string, seq<string>>)

  /** `pkg_versions`: the packages in first-seen order and the constraints of each. */
  datatype Audit = Audit(order: seq<string>, packages: map<string, Constraints>)

  const EmptyAudit := Audit([], map[])

  /** The declarations of one manifest, each tagged with the manifest's project name. */
  function Tag(deps: seq<Declaration>, project: string): (r: seq<Entry>)
    ensures |r| == |deps|
    ensures forall i :: 0 <= i < |deps| ==> r[i] == Entry(deps[i].pkg, deps[i].constraint, project)
  {
    if deps == [] then []
    else Tag(deps[..|deps| - 1], project) + [Entry(deps[|deps| - 1].pkg, deps[|deps| - 1].constraint, project)]
  }

  /** The pairs `extract_deps(pyproject)` yields for one manifest, under `basename(dirname(pyproject))`. */
  function EntriesOf(m: Manifest): seq<Entry> {
    Tag(ParseAll(AllDeclarations(m)), ProjectName(m.path))
  }

  /** Every entry the audit records, manifest after manifest. */
  function Entries(ms: seq<Manifest>): seq<Entry> {
    if ms == [] then [] else Entries(ms[..|ms| - 1]) + EntriesOf(ms[|ms| - 1])
  }

  /** `pkg_versions[pkg]`, or the empty dict `pkg_versions[pkg] = {}` creates when the package is new. */
  function ConstraintsFor(a: Audit, pkg: string): Constraints {
    if pkg in a.packages then a.packages[pkg] else Constraints([], map[])
  }

  /** `if ver not in ...: ...[ver] = []` then `.append(project_name)`: create the constraint when missing, then append the project under it. */
  function AddProject(cs: Constraints, ver: string, project: string): Constraints {
    var cs1 := if ver in cs.projects then cs else Constraints(cs.order + [ver], cs.projects[ver := []]);
    Constraints(cs1.order, cs1.projects[ver := cs1.projects[ver] + [project]])
  }

  /** The body of the inner loop of the audit for one entry: a new package goes last, its constraints are updated. */
  function Record(a: Audit, e: Entry): Audit {
    Audit(if e.pkg in a.packages then a.order else a.order + [e.pkg],
          a.packages[e.pkg := AddProject(ConstraintsFor(a, e.pkg), e.constraint, e.project)])
  }

  /** The audit after recording `es` one after the other. */
  function RecordAll(a: Audit, es: seq<Entry>): Audit {
    if es == [] then a else Record(RecordAll(a, es[..|es| - 1]), es[|es| - 1])
  }

  /** `pkg_versions` after the loop over every manifest and each of its declarations. */
  function Tabulate(es: seq<Entry>): Audit {
    RecordAll(EmptyAudit, es)
  }

  lemma {:induction false} RecordAllAppend(a: Audit, xs: seq<Entry>, ys: seq<Entry>)
    ensures RecordAll(a, xs + ys) == RecordAll(RecordAll(a, xs), ys)
    decreases |ys|
  {
    if ys == [] {
      assert xs + ys == xs;
    } else {
      assert (xs + ys)[..|xs + ys| - 1] == xs + ys[..|ys| - 1];
      RecordAllAppend(a, xs, ys[..|ys| - 1]);
    }
  }

  /** `pkg_versions = {}` and the loop over the manifests: build the audit in the order the manifests were found. */
  method Aggregate(ms: seq<Manifest>) returns (audit: Audit)
    ensures audit == Tabulate(Entries(ms))
  {
    audit := EmptyAudit;
    for i := 0 to |ms|
      invariant audit == Tabulate(Entries(ms[..i]))
    {
      var projectName := ProjectName(ms[i].path);
      var deps := ExtractDeps(ms[i]);
      EntriesNext(ms, i);
      RecordAllAppend(EmptyAudit, Entries(ms[..i]), Tag(deps, projectName));
      audit := RecordDeps(audit, deps, projectName);
    }
    assert ms[..|ms|] == ms;
  }

  lemma EntriesNext(ms: seq<Manifest>, i: nat)
    requires i < |ms|
    ensures Entries(ms[..i + 1]) == Entries(ms[..i]) + EntriesOf(ms[i])
  {
    assert ms[..i + 1][..i] == ms[..i];
  }

  /** `for pkg, ver in extract_deps(pyproject): ...` for one manifest. */
  method RecordDeps(audit: Audit, deps: seq<Declaration>, project: string) returns (result: Audit)
    ensures result == RecordAll(audit, Tag(deps, project))
  {
    result := audit;
    for j := 0 to |deps|
      invariant result == RecordAll(audit, Tag(deps[..j], project))
    {
      TagNext(deps, j, project);
      result := RecordOne(result, deps[j].pkg, deps[j].constraint, project);
    }
    assert deps[..|deps|] == deps;
  }

  /** `pkg_versions[pkg][ver].append(project_name)`, creating the missing levels first. */
  method RecordOne(audit: Audit, pkg: string, ver: string, project: string) returns (result: Audit)
    ensures result == Record(audit, Entry(pkg, ver, project))
  {
    result := audit;
    if pkg !in result.packages {
      result := Audit(result.order + [pkg], result.packages[pkg := Constraints([], map[])]);
    }
    if ver !in result.packages[pkg].projects {
      var cs := result.packages[pkg];
      result := result.(packages := result.packages[pkg := Constraints(cs.order + [ver], cs.projects[ver := []])]);
    }
    var cs := result.packages[pkg];
    result := result.(packages := result.packages[pkg := cs.(projects := cs.projects[ver := cs.projects[ver] + [project]])]);
  }

  lemma TagNext(deps: seq<Declaration>, j: nat, project: string)
    requires j < |deps|
    ensures Tag(deps[..j + 1], project) == Tag(deps[..j], project) + [Entry(deps[j].pkg, deps[j].constraint, project)]
  {
    assert deps[..j + 1][..j] == deps[..j];
  }

  // Reference definitions: what the audit should hold, read off the entries directly.

  /** The distinct elements of `xs` in the order they first appear. */
  function Dedup(xs: seq<string>): (r: seq<string>)
    ensures forall x :: x in r <==> x in xs
    ensures forall i, j :: 0 <= i < j < |r| ==> r[i] != r[j]
  {
    if xs == [] then []
    else
      var d := Dedup(xs[..|xs| - 1]);
      assert xs == xs[..|xs| - 1] + [xs[|xs| - 1]];
      if xs[|xs| - 1] in d then d else d + [xs[|xs| - 1]]
  }

  /** The package of every entry. */
  function Pkgs(es: seq<Entry>): (r: seq<string>)
    ensures |r| == |es|
  {
    if es == [] then [] else Pkgs(es[..|es| - 1]) + [es[|es| - 1].pkg]
  }

  /** The constraints `p` is declared with, in order, repeats included. */
  function ConstraintsOf(es: seq<Entry>, p: string): seq<string> {
    if es == [] then []
    else ConstraintsOf(es[..|es| - 1], p) + (if es[|es| - 1].pkg == p then [es[|es| - 1].constraint] else [])
  }

  /** The projects declaring `p` with constraint `c`, in order, repeats included. */
  function ProjectsOf(es: seq<Entry>, p: string, c: string): seq<string> {
    if es == [] then []
    else
      var e := es[|es| - 1];
      ProjectsOf(es[..|es| - 1], p, c) + (if e.pkg == p && e.constraint == c then [e.project] else [])
  }

  /** The constraints of one package as the entries determine them. */
  ghost predicate DescribesPackage(cs: Constraints, es: seq<Entry>, p: string) {
    && cs.order == Dedup(ConstraintsOf(es, p))
    && (forall c :: c in cs.projects <==> c in ConstraintsOf(es, p))
    && (forall c :: c in cs.projects ==> cs.projects[c] == ProjectsOf(es, p, c))
  }

  /** The whole audit as the entries determine it. */
  ghost predicate Describes(a: Audit, es: seq<Entry>) {
    && a.order == Dedup(Pkgs(es))
    && (forall p :: p in a.packages <==> p in Pkgs(es))
    && (forall p :: p in a.packages ==> DescribesPackage(a.packages[p], es, p))
  }

  /** Appending an entry extends the reference lists by at most that entry's fields. */
  lemma Snoc(es: seq<Entry>, e: Entry)
    ensures Pkgs(es + [e]) == Pkgs(es) + [e.pkg]
    ensures forall p :: ConstraintsOf(es + [e], p) == ConstraintsOf(es, p) + (if e.pkg == p then [e.constraint] else [])
    ensures forall p, c :: ProjectsOf(es + [e], p, c) == ProjectsOf(es, p, c) + (if e.pkg == p && e.constraint == c then [e.project] else [])
  {
    assert (es + [e])[..|es|] == es;
  }

  lemma DedupSnoc(xs: seq<string>, x: string)
    ensures Dedup(xs + [x]) == if x in xs then Dedup(xs) else Dedup(xs) + [x]
  {
    assert (xs + [x])[..|xs|] == xs;
  }

  lemma {:induction false} UnlistedHasNone(es: seq<Entry>, p: string, c: string)
    ensures p !in Pkgs(es) ==> ConstraintsOf(es, p) == []
    ensures c !in ConstraintsOf(es, p) ==> ProjectsOf(es, p, c) == []
  {
    if es != [] {
      var init := es[..|es| - 1];
      UnlistedHasNone(init, p, c);
      Snoc(init, es[|es| - 1]);
      assert es == init + [es[|es| - 1]];
    }
  }

  /** Recording an entry keeps the audit in agreement with the entries seen so far. */
  lemma RecordDescribes(a: Audit, es: seq<Entry>, e: Entry)
    requires Describes(a, es)
    ensures Describes(Record(a, e), es + [e])
  {
    RecordKeys(a, es, e);
    RecordPackages(a, es, e);
  }

  /** A new package is appended to the package order and to the map. */
  lemma RecordKeys(a: Audit, es: seq<Entry>, e: Entry)
    requires Describes(a, es)
    ensures Record(a, e).order == Dedup(Pkgs(es + [e]))
    ensures forall p :: p in Record(a, e).packages <==> p in Pkgs(es + [e])
  {
    Snoc(es, e);
    DedupSnoc(Pkgs(es), e.pkg);
  }

  lemma RecordPackages(a: Audit, es: seq<Entry>, e: Entry)
    requires Describes(a, es)
    ensures forall p :: p in Record(a, e).packages ==> DescribesPackage(Record(a, e).packages[p], es + [e], p)
  {
    OtherPackagesKept(a, es, e);
    RecordedPackage(a, es, e);
  }

  lemma RecordedPackage(a: Audit, es: seq<Entry>, e: Entry)
    requires Describes(a, es)
    ensures DescribesPackage(Record(a, e).packages[e.pkg], es + [e], e.pkg)
  {
    UnlistedHasNone(es, e.pkg, e.constraint);
    assert DescribesPackage(ConstraintsFor(a, e.pkg), es, e.pkg);
    AddProjectDescribes(ConstraintsFor(a, e.pkg), es, e);
  }

  /** Packages other than the entry's keep their constraints, and still agree with the entries. */
  lemma OtherPackagesKept(a: Audit, es: seq<Entry>, e: Entry)
    requires Describes(a, es)
    ensures forall p :: p in a.packages && p != e.pkg ==> DescribesPackage(a.packages[p], es + [e], p)
  {
    forall p | p in a.packages && p != e.pkg
      ensures DescribesPackage(a.packages[p], es + [e], p)
    {
      OtherPackageKept(a.packages[p], es, e, p);
    }
  }

  lemma OtherPackageKept(cs: Constraints, es: seq<Entry>, e: Entry, p: string)
    requires p != e.pkg && DescribesPackage(cs, es, p)
    ensures DescribesPackage(cs, es + [e], p)
  {
    assert (es + [e])[..|es|] == es;
    assert ConstraintsOf(es + [e], p) == ConstraintsOf(es, p);
    forall c ensures ProjectsOf(es + [e], p, c) == ProjectsOf(es, p, c) {
    }
  }

  /** Adding the entry's project to its package's constraints matches the extended reference lists. */
  lemma AddProjectDescribes(cs: Constraints, es: seq<Entry>, e: Entry)
    requires DescribesPackage(cs, es, e.pkg)
    ensures DescribesPackage(AddProject(cs, e.constraint, e.project), es + [e], e.pkg)
  {
    AddProjectOrder(cs, es, e);
    AddProjectKeys(cs, es, e);
    forall c | c in AddProject(cs, e.constraint, e.project).projects
      ensures AddProject(cs, e.constraint, e.project).projects[c] == ProjectsOf(es + [e], e.pkg, c)
    {
      AddProjectList(cs, es, e, c);
    }
  }

  lemma AddProjectOrder(cs: Constraints, es: seq<Entry>, e: Entry)
    requires cs.order == Dedup(ConstraintsOf(es, e.pkg))
    requires forall c :: c in cs.projects <==> c in ConstraintsOf(es, e.pkg)
    ensures AddProject(cs, e.constraint, e.project).order == Dedup(ConstraintsOf(es + [e], e.pkg))
  {
    SnocAt(es, e, e.pkg, e.constraint);
    DedupSnoc(ConstraintsOf(es, e.pkg), e.constraint);
  }

  lemma AddProjectKeys(cs: Constraints, es: seq<Entry>, e: Entry)
    requires forall c :: c in cs.projects <==> c in ConstraintsOf(es, e.pkg)
    ensures forall c :: c in AddProject(cs, e.constraint, e.project).projects <==> c in ConstraintsOf(es + [e], e.pkg)
  {
    SnocAt(es, e, e.pkg, e.constraint);
  }

  lemma AddProjectList(cs: Constraints, es: seq<Entry>, e: Entry, c: string)
    requires c in cs.projects <==> c in ConstraintsOf(es, e.pkg)
    requires c in cs.projects ==> cs.projects[c] == ProjectsOf(es, e.pkg, c)
    requires c in AddProject(cs, e.constraint, e.project).projects
    ensures AddProject(cs, e.constraint, e.project).projects[c] == ProjectsOf(es + [e], e.pkg, c)
  {
    SnocAt(es, e, e.pkg, c);
    if c == e.constraint {
      UnlistedHasNone(es, e.pkg, c);
    }
  }

  /** `Snoc` for one package and one constraint. */
  lemma SnocAt(es: seq<Entry>, e: Entry, p: string, c: string)
    ensures ConstraintsOf(es + [e], p) == ConstraintsOf(es, p) + (if e.pkg == p then [e.constraint] else [])
    ensures ProjectsOf(es + [e], p, c) == ProjectsOf(es, p, c) + (if e.pkg == p && e.constraint == c then [e.project] else [])
  {
    assert (es + [e])[..|es|] == es;
  }

  /**
    The audit holds the packages in first-seen order, under each package its
    distinct constraints in first-seen order, and under each constraint every
    project that declared it, in order and with repeats.
  */
  lemma {:induction false} TabulateDescribes(es: seq<Entry>)
    ensures Describes(Tabulate(es), es)
  {
    if es == [] {
      EmptyDescribes();
    } else {
      var init, last := es[..|es| - 1], es[|es| - 1];
      TabulateDescribes(init);
      RecordDescribes(Tabulate(init), init, last);
      TabulateSnoc(init, last);
      SplitLast(es);
    }
  }

  lemma SplitLast<T>(xs: seq<T>)
    requires xs != []
    ensures xs == xs[..|xs| - 1] + [xs[|xs| - 1]]
  {
  }

  lemma EmptyDescribes()
    ensures Describes(EmptyAudit, [])
  {
  }

  lemma TabulateSnoc(es: seq<Entry>, e: Entry)
    ensures Tabulate(es + [e]) == Record(Tabulate(es), e)
  {
    assert (es + [e])[..|es|] == es;
  }

  /** Each key listed once. */
  predicate Distinct(xs: seq<string>) {
    forall i, j :: 0 <= i < j < |xs| ==> xs[i] != xs[j]
  }

  /** An insertion-ordered dict: `order` lists each key of `m` once. */
  ghost predicate KeyedBy<V>(order: seq<string>, m: map<string, V>) {
    Distinct(order) && forall k :: k in order <==> k in m
  }

  /** Both levels of the audit are insertion-ordered dicts. */
  ghost predicate WellFormed(a: Audit) {
    && KeyedBy(a.order, a.packages)
    && forall p :: p in a.packages ==> KeyedBy(a.packages[p].order, a.packages[p].projects)
  }

  /** Both levels of the audit list each key once and list exactly the keys of the map. */
  lemma TabulateWellFormed(es: seq<Entry>)
    ensures WellFormed(Tabulate(es))
  {
    TabulateDescribes(es);
  }

  /**
    Recording an entry only adds: no package, constraint or project already
    recorded is dropped or reordered.
  */
  lemma RecordGrows(a: Audit, e: Entry)
    ensures |a.order| <= |Record(a, e).order| && Record(a, e).order[..|a.order|] == a.order
    ensures forall p :: p in a.packages ==>
      var cs, cs' := a.packages[p], Record(a, e).packages[p];
      && p in Record(a, e).packages
      && |cs.order| <= |cs'.order| && cs'.order[..|cs.order|] == cs.order
      && forall c :: c in cs.projects ==>
           c in cs'.projects && |cs.projects[c]| <= |cs'.projects[c]| && cs'.projects[c][..|cs.projects[c]|] == cs.projects[c]
  {
  }

  /** Every entry is recorded: its project is listed under its package and constraint. */
  lemma EveryEntryRecorded(es: seq<Entry>, k: nat)
    requires k < |es|
    ensures es[k].pkg in Tabulate(es).packages
    ensures es[k].constraint in Tabulate(es).packages[es[k].pkg].projects
    ensures es[k].project in Tabulate(es).packages[es[k].pkg].projects[es[k].constraint]
  {
    TabulateDescribes(es);
    var e := es[k];
    InReference(es, k);
  }

  lemma {:induction false} InReference(es: seq<Entry>, k: nat)
    requires k < |es|
    ensures es[k].pkg in Pkgs(es)
    ensures es[k].constraint in ConstraintsOf(es, es[k].pkg)
    ensures es[k].project in ProjectsOf(es, es[k].pkg, es[k].constraint)
  {
    var init := es[..|es| - 1];
    Snoc(init, es[|es| - 1]);
    assert es == init + [es[|es| - 1]];
    if k < |es| - 1 {
      InReference(init, k);
    }
  }

  // Counting: every declaration processed adds exactly one project entry.

  /** The sum of `size` over the values of `m` at `keys` (0 for a missing key). */
  function SumSizes<V>(keys: seq<string>, m: map<string, V>, size: V -> nat): nat {
    if keys == [] then 0
    else SumSizes(keys[..|keys| - 1], m, size) + (if keys[|keys| - 1] in m then size(m[keys[|keys| - 1]]) else 0)
  }

  function Length(ps: seq<string>): nat { |ps| }

  /** The number of project names listed under one package. */
  function ProjectCount(cs: Constraints): nat {
    SumSizes(cs.order, cs.projects, Length)
  }

  /** The number of project names in the whole audit. */
  function EntryCount(a: Audit): nat {
    SumSizes(a.order, a.packages, ProjectCount)
  }

  lemma SumSizesSnoc<V>(keys: seq<string>, m: map<string, V>, size: V -> nat, k: string)
    ensures SumSizes(keys + [k], m, size) == SumSizes(keys, m, size) + (if k in m then size(m[k]) else 0)
  {
    assert (keys + [k])[..|keys|] == keys;
  }

  /** Changing the value at a key not listed leaves the sum alone. */
  lemma {:induction false} SumSizesOther<V>(keys: seq<string>, m: map<string, V>, size: V -> nat, k: string, v: V)
    requires k !in keys
    ensures SumSizes(keys, m[k := v], size) == SumSizes(keys, m, size)
  {
    if keys != [] {
      SumSizesOther(keys[..|keys| - 1], m, size, k, v);
    }
  }

  /** Changing the value at a key listed once changes the sum by the change in size. */
  lemma {:induction false} SumSizesUpdate<V>(keys: seq<string>, m: map<string, V>, size: V -> nat, k: string, v: V)
    requires Distinct(keys) && k in keys && k in m
    ensures SumSizes(keys, m[k := v], size) + size(m[k]) == SumSizes(keys, m, size) + size(v)
  {
    var init, last := keys[..|keys| - 1], keys[|keys| - 1];
    if last == k {
      SumSizesOther(init, m, size, k, v);
    } else {
      assert k in init by {
        var i :| 0 <= i < |keys| && keys[i] == k;
        assert init[i] == k;
      }
      assert Distinct(init) by {
        forall i, j | 0 <= i < j < |init| ensures init[i] != init[j] {
          assert keys[i] != keys[j];
        }
      }
      SumSizesUpdate(init, m, size, k, v);
    }
  }

  /** Creating the constraint when missing and appending the project add exactly one project name to the package. */
  lemma AddProjectCount(cs: Constraints, ver: string, project: string)
    requires KeyedBy(cs.order, cs.projects)
    ensures ProjectCount(AddProject(cs, ver, project)) == ProjectCount(cs) + 1
  {
    if ver in cs.projects {
      SumSizesUpdate(cs.order, cs.projects, Length, ver, cs.projects[ver] + [project]);
    } else {
      NewConstraintCount(cs, ver, project);
    }
  }

  lemma NewConstraintCount(cs: Constraints, ver: string, project: string)
    requires KeyedBy(cs.order, cs.projects) && ver !in cs.projects
    ensures ProjectCount(AddProject(cs, ver, project)) == ProjectCount(cs) + 1
  {
    var m := cs.projects[ver := [project]];
    assert [] + [project] == [project];
    assert AddProject(cs, ver, project) == Constraints(cs.order + [ver], m);
    SumSizesSnoc(cs.order, m, Length, ver);
    SumSizesOther(cs.order, cs.projects, Length, ver, [project]);
  }

  /** Adding a project keeps the constraints an insertion-ordered dict. */
  lemma AddProjectKeyed(cs: Constraints, ver: string, project: string)
    requires KeyedBy(cs.order, cs.projects)
    ensures KeyedBy(AddProject(cs, ver, project).order, AddProject(cs, ver, project).projects)
  {
    var cs' := AddProject(cs, ver, project);
    if ver !in cs.projects {
      forall i, j | 0 <= i < j < |cs'.order| ensures cs'.order[i] != cs'.order[j] {
        if j == |cs.order| {
          assert cs.order[i] in cs.order;
        }
      }
    }
  }

  /** Recording one `(pkg, ver)` pair adds exactly one project name to the audit. */
  lemma RecordCount(a: Audit, e: Entry)
    requires WellFormed(a)
    ensures EntryCount(Record(a, e)) == EntryCount(a) + 1
  {
    var cs := ConstraintsFor(a, e.pkg);
    var cs' := AddProject(cs, e.constraint, e.project);
    AddProjectCount(cs, e.constraint, e.project);
    if e.pkg in a.packages {
      SumSizesUpdate(a.order, a.packages, ProjectCount, e.pkg, cs');
    } else {
      assert ProjectCount(cs) == 0;
      SumSizesSnoc(a.order, a.packages[e.pkg := cs'], ProjectCount, e.pkg);
      SumSizesOther(a.order, a.packages, ProjectCount, e.pkg, cs');
    }
  }

  /**
    Nothing is lost or counted twice: the audit lists exactly as many project
    names, over all packages and constraints, as declarations were processed.
  */
  lemma {:induction false} TabulateCount(es: seq<Entry>)
    ensures EntryCount(Tabulate(es)) == |es|
  {
    if es != [] {
      var init, last := es[..|es| - 1], es[|es| - 1];
      SplitLast(es);
      TabulateCount(init);
      TabulateWellFormed(init);
      TabulateSnoc(init, last);
      RecordCount(Tabulate(init), last);
    }
  }

  // The report: one warning per package declared with more than one constraint.

  /** `ver or '(no version constraint)'` */
  function Label(ver: string): (r: string)
    ensures r != ""
    ensures ver != "" ==> r == ver
    ensures ver == "" ==> r == "(no version constraint)"
  {
    if ver == "" then "(no version constraint)" else ver
  }

  /** One line of `version_list`: the constraint and the projects that use it. */
  function Line(cs: Constraints, ver: string): string {
    Label(ver) + ": " + Join(if ver in cs.projects then cs.projects[ver] else [], ", ")
  }

  /** `version_list`, one line per constraint in first-seen order. */
  function Lines(cs: Constraints): seq<string> {
    MapAll(cs.order, ver => Line(cs, ver))
  }

  /** The text of the warning logged for `pkg`. */
  function Warning(pkg: string, cs: Constraints): string {
    "Package '" + pkg + "' is installed with multiple versions/constraints:\n" + Join(Lines(cs), "\n")
  }

  /** `len(versions) > 1`: the package has more than one constraint. */
  predicate InConflict(packages: map<string, Constraints>, p: string) {
    p in packages && |packages[p].order| > 1
  }

  /** The packages among `keys` that get a warning, in order. */
  function Flagged(keys: seq<string>, packages: map<string, Constraints>): (r: seq<string>)
    ensures forall p :: p in r <==> p in keys && InConflict(packages, p)
  {
    if keys == [] then []
    else
      var last := keys[|keys| - 1];
      assert keys == keys[..|keys| - 1] + [last];
      Flagged(keys[..|keys| - 1], packages) + (if InConflict(packages, last) then [last] else [])
  }

  /** The warnings for the packages among `keys`, in order. */
  function WarningsOver(keys: seq<string>, packages: map<string, Constraints>): seq<string> {
    if keys == [] then []
    else
      var last := keys[|keys| - 1];
      WarningsOver(keys[..|keys| - 1], packages) + (if InConflict(packages, last) then [Warning(last, packages[last])] else [])
  }

  /** Every warning the audit logs, in the order of `pkg_versions`. */
  function Warnings(a: Audit): seq<string> {
    WarningsOver(a.order, a.packages)
  }

  /** The i-th warning is the one for the i-th flagged package. */
  lemma {:induction false} WarningsFollowFlagged(keys: seq<string>, packages: map<string, Constraints>)
    ensures |WarningsOver(keys, packages)| == |Flagged(keys, packages)|
    ensures forall i :: 0 <= i < |Flagged(keys, packages)| ==>
      Flagged(keys, packages)[i] in packages &&
      WarningsOver(keys, packages)[i] == Warning(Flagged(keys, packages)[i], packages[Flagged(keys, packages)[i]])
  {
    if keys != [] {
      WarningsFollowFlagged(keys[..|keys| - 1], packages);
    }
  }

  /** The loop over `pkg_versions.items()`: one warning per package declared with more than one constraint. */
  method Report(a: Audit) returns (warnings: seq<string>)
    ensures warnings == Warnings(a)
  {
    warnings := [];
    for i := 0 to |a.order|
      invariant warnings == WarningsOver(a.order[..i], a.packages)
    {
      var pkg := a.order[i];
      assert a.order[..i + 1][..i] == a.order[..i];
      if pkg in a.packages && |a.packages[pkg].order| > 1 {
        var versionList := Lines(a.packages[pkg]);
        warnings := warnings + ["Package '" + pkg + "' is installed with multiple versions/constraints:\n" + Join(versionList, "\n")];
      }
    }
    assert a.order[..|a.order|] == a.order;
  }

  /** `xs` has two different elements exactly when it has more than one distinct element. */
  lemma {:induction false} DedupMoreThanOne(xs: seq<string>)
    ensures |Dedup(xs)| > 1 <==> exists i, j :: 0 <= i < |xs| && 0 <= j < |xs| && xs[i] != xs[j]
  {
    var d := Dedup(xs);
    if |d| > 1 {
      assert d[0] in xs && d[1] in xs;
      var i :| 0 <= i < |xs| && xs[i] == d[0];
      var j :| 0 <= j < |xs| && xs[j] == d[1];
      assert xs[i] != xs[j];
    }
    if exists i, j :: 0 <= i < |xs| && 0 <= j < |xs| && xs[i] != xs[j] {
      var i, j :| 0 <= i < |xs| && 0 <= j < |xs| && xs[i] != xs[j];
      assert xs[i] in d && xs[j] in d;
      var a :| 0 <= a < |d| && d[a] == xs[i];
      var b :| 0 <= b < |d| && d[b] == xs[j];
      assert a != b;
    }
  }

  lemma {:induction false} ConstraintsOfMeaning(es: seq<Entry>, p: string, c: string)
    ensures c in ConstraintsOf(es, p) <==> exists k :: 0 <= k < |es| && es[k].pkg == p && es[k].constraint == c
  {
    if es != [] {
      var init := es[..|es| - 1];
      ConstraintsOfMeaning(init, p, c);
      Snoc(init, es[|es| - 1]);
      assert es == init + [es[|es| - 1]];
      if exists k :: 0 <= k < |es| && es[k].pkg == p && es[k].constraint == c {
        var k :| 0 <= k < |es| && es[k].pkg == p && es[k].constraint == c;
        if k < |es| - 1 {
          assert init[k] == es[k];
        }
      }
    }
  }

  /**
    A package is warned about exactly when two of its declarations, anywhere
    in the repository, carry different constraints (compared verbatim).
  */
  lemma ConflictExactly(es: seq<Entry>, p: string)
    ensures p in Flagged(Tabulate(es).order, Tabulate(es).packages) <==>
      exists i, j :: 0 <= i < |es| && 0 <= j < |es| && es[i].pkg == p && es[j].pkg == p && es[i].constraint != es[j].constraint
  {
    TabulateDescribes(es);
    var cs := ConstraintsOf(es, p);
    DedupMoreThanOne(cs);
    if exists i, j :: 0 <= i < |es| && 0 <= j < |es| && es[i].pkg == p && es[j].pkg == p && es[i].constraint != es[j].constraint {
      var i, j :| 0 <= i < |es| && 0 <= j < |es| && es[i].pkg == p && es[j].pkg == p && es[i].constraint != es[j].constraint;
      ConstraintsOfMeaning(es, p, es[i].constraint);
      ConstraintsOfMeaning(es, p, es[j].constraint);
      InReference(es, i);
      var x :| 0 <= x < |cs| && cs[x] == es[i].constraint;
      var y :| 0 <= y < |cs| && cs[y] == es[j].constraint;
    }
    if p in Flagged(Tabulate(es).order, Tabulate(es).packages) {
      var x, y :| 0 <= x < |cs| && 0 <= y < |cs| && cs[x] != cs[y];
      assert cs[x] in cs && cs[y] in cs;
      ConstraintsOfMeaning(es, p, cs[x]);
      ConstraintsOfMeaning(es, p, cs[y]);
    }
  }

  /**
    Each line of a warning names one distinct constraint (or the no-constraint
    label) followed by every project declaring the package with it.
  */
  lemma WarningLines(es: seq<Entry>, p: string)
    requires p in Tabulate(es).packages
    ensures var cs := Tabulate(es).packages[p];
      && |Lines(cs)| == |Dedup(ConstraintsOf(es, p))|
      && forall i :: 0 <= i < |Lines(cs)| ==>
           Lines(cs)[i] == Label(Dedup(ConstraintsOf(es, p))[i]) + ": " + Join(ProjectsOf(es, p, Dedup(ConstraintsOf(es, p))[i]), ", ")
  {
    TabulateDescribes(es);
    var cs := Tabulate(es).packages[p];
    assert DescribesPackage(cs, es, p);
    LinesAt(cs);
  }

  lemma LinesAt(cs: Constraints)
    ensures |Lines(cs)| == |cs.order|
    ensures forall i :: 0 <= i < |cs.order| ==> Lines(cs)[i] == Line(cs, cs.order[i])
  {
    forall i | 0 <= i < |cs.order| ensures Lines(cs)[i] == Line(cs, cs.order[i]) {
      MapAllAt(cs.order, ver => Line(cs, ver), i);
    }
  }
}
