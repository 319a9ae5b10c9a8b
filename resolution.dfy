/**
  The decision `uv_add_sync.py` makes for one `uv add` request: collect the
  version texts other manifests give the package, keep those that parse as a
  version and meet the requested constraint, and pin the greatest of them;
  fail when texts were found but none is kept; otherwise add the request as
  given. Running `uv` and exiting become the values of `Outcome`.
*/
module Resolution {
  import opened Wrappers
  import opened Text
  import opened Declarations
  import opened Versions
  import opened Manifests

  /** What the script ends in. */
  datatype Outcome =
      /** `SpecifierSet(constraint)` raises before anything is decided. */
    | InvalidConstraint
      /** `uv add` pinned to the greatest kept version. */
    | Pin(latest: Version, command: seq<string>)
      /** Versions were found but none is kept: exit status 1, nothing run. */
    | Unsatisfiable
      /** No version text was found anywhere: `uv add` with the request as given. */
    | Fresh(command: seq<string>)

  /** The version texts of every manifest, manifest after manifest (before the emptiness filter). */
  function AllFound(ms: seq<Manifest>, pkg: string): seq<string> {
    if ms == [] then [] else AllFound(ms[..|ms| - 1], pkg) + PackageVersions(ms[|ms| - 1], pkg)
  }

  /** `[v for v in found_versions if v]` */
  function NonEmpty(ts: seq<string>): (r: seq<string>)
    ensures |r| <= |ts|
    ensures forall t :: t in r <==> t in ts && t != ""
  {
    if ts == [] then []
    else NonEmpty(ts[..|ts| - 1]) + (if ts[|ts| - 1] != "" then [ts[|ts| - 1]] else [])
  }

  /** Filtering a concatenation filters each part, keeping order and repeats. */
  lemma {:induction false} NonEmptyAppend(a: seq<string>, b: seq<string>)
    ensures NonEmpty(a + b) == NonEmpty(a) + NonEmpty(b)
    decreases |b|
  {
    if b == [] {
      assert a + b == a;
    } else {
      var init, last := b[..|b| - 1], b[|b| - 1];
      assert (a + b)[..|a + b| - 1] == a + init;
      NonEmptyAppend(a, init);
    }
  }

  /** One text is kept exactly when it is not empty. */
  lemma NonEmptyOne(t: string)
    ensures NonEmpty([t]) == if t != "" then [t] else []
  {
    assert [t][..0] == [];
  }

  /** `found_versions` after the filter. */
  function FoundVersions(ms: seq<Manifest>, pkg: string): seq<string> {
    NonEmpty(AllFound(ms, pkg))
  }

  predicate IsComparatorChar(c: char) { c in ComparatorChars }

  /** `Version(v.lstrip("=<>!~^"))`, None where `InvalidVersion` is raised. */
  function Candidate(text: string): Option<Version> {
    ParseVersion(LStrip(text, IsComparatorChar))
  }

  /** `not spec or version in spec`: no constraint admits every version. */
  predicate Accepts(spec: Option<seq<Comparator>>, v: Version) {
    spec.None? || SatisfiesAll(v, spec.value)
  }

  /** The values `parse` gives the elements of `xs`, where it gives one that `keep` admits, in order. */
  function Select<T>(xs: seq<string>, parse: string -> Option<T>, keep: T -> bool): seq<T> {
    if xs == [] then []
    else
      var last := parse(xs[|xs| - 1]);
      Select(xs[..|xs| - 1], parse, keep) + (if last.Some? && keep(last.value) then [last.value] else [])
  }

  lemma {:induction false} SelectMeaning<T>(xs: seq<string>, parse: string -> Option<T>, keep: T -> bool, v: T)
    ensures v in Select(xs, parse, keep) <==> keep(v) && exists t :: t in xs && parse(t) == Some(v)
    decreases |xs|
  {
    if xs != [] {
      var init := xs[..|xs| - 1];
      var last := xs[|xs| - 1];
      SelectMeaning(init, parse, keep, v);
      assert xs == init + [last];
      if exists t :: t in xs && parse(t) == Some(v) {
        var t :| t in xs && parse(t) == Some(v);
        if t != last {
          assert t in init;
        }
      }
    }
  }

  lemma SelectNext<T>(xs: seq<string>, i: nat, parse: string -> Option<T>, keep: T -> bool)
    requires i < |xs|
    ensures Select(xs[..i + 1], parse, keep) == Select(xs[..i], parse, keep) +
      (if parse(xs[i]).Some? && keep(parse(xs[i]).value) then [parse(xs[i]).value] else [])
  {
    assert xs[..i + 1][..i] == xs[..i];
  }

  /** `parsed_versions`: the candidates that parse and are accepted, in order. */
  function Kept(found: seq<string>, spec: Option<seq<Comparator>>): seq<Version> {
    Select(found, Candidate, (v: Version) => Accepts(spec, v))
  }

  /**
    The position `max` returns: it replaces its running maximum only by a
    strictly greater version, so among equal greatest versions the first wins.
  */
  function MaxIndex(vs: seq<Version>): (j: nat)
    requires vs != []
    ensures j < |vs|
    ensures forall i :: 0 <= i < |vs| ==> Compare(vs[i], vs[j]) <= 0
    ensures forall i :: 0 <= i < j ==> Compare(vs[i], vs[j]) < 0
  {
    if |vs| == 1 then
      CompareAntisymmetric(vs[0], vs[0]);
      0
    else
      var init := vs[..|vs| - 1];
      var m := MaxIndex(init);
      assert forall i :: 0 <= i < |init| ==> vs[i] == init[i];
      if Compare(vs[|vs| - 1], vs[m]) > 0 then
        MaxIsGreater(vs, m);
        CompareAntisymmetric(vs[|vs| - 1], vs[|vs| - 1]);
        |vs| - 1
      else
        CompareAntisymmetric(vs[|vs| - 1], vs[m]);
        m
  }

  /** A version greater than the maximum of the others is greater than each of them. */
  lemma MaxIsGreater(vs: seq<Version>, m: nat)
    requires |vs| >= 2 && m < |vs| - 1
    requires forall i :: 0 <= i < |vs| - 1 ==> Compare(vs[i], vs[m]) <= 0
    requires Compare(vs[|vs| - 1], vs[m]) > 0
    ensures forall i :: 0 <= i < |vs| - 1 ==> Compare(vs[i], vs[|vs| - 1]) < 0
  {
    CompareAntisymmetric(vs[|vs| - 1], vs[m]);
    forall i | 0 <= i < |vs| - 1 ensures Compare(vs[i], vs[|vs| - 1]) < 0 {
      CompareTransitive(vs[i], vs[m], vs[|vs| - 1]);
    }
  }

  /** `max(parsed_versions)` */
  function Latest(vs: seq<Version>): Version
    requires vs != []
  {
    vs[MaxIndex(vs)]
  }

  /** `["uv", "add"]`, then `["--group", group]` when a non-empty group was given, then the requirement. */
  function UvAdd(group: Option<string>, requirement: string): seq<string> {
    ["uv", "add"] + (if group.Some? && group.value != "" then ["--group", group.value] else []) + [requirement]
  }

  /** The specifier set of a non-empty constraint; None for no constraint. */
  function SpecOf(constraint: string): Option<seq<Comparator>>
    requires constraint != [] ==> ParseSpecifierSet(constraint).Some?
  {
    if constraint != "" then ParseSpecifierSet(constraint) else None
  }

  /** The rest of `main` once the package, constraint, group and found texts are known: parse the constraint, keep candidates, branch. */
  function Decide(pkg: string, constraint: string, group: Option<string>, found: seq<string>): Outcome {
    if constraint != "" && ParseSpecifierSet(constraint).None? then InvalidConstraint
    else
      var kept := Kept(found, SpecOf(constraint));
      if kept != [] then Pin(Latest(kept), UvAdd(group, pkg + "==" + Render(Latest(kept))))
      else if found != [] then Unsatisfiable
      else Fresh(UvAdd(group, if constraint != "" then pkg + constraint else pkg))
  }

  /** The whole run for the request `arg`, the `--group` option and the manifests found. */
  function Sync(arg: string, group: Option<string>, ms: seq<Manifest>): Outcome {
    var d := ParsePkgAndConstraint(arg);
    Decide(d.pkg, d.constraint, group, FoundVersions(ms, d.pkg))
  }

  /** `main` from `found_versions = []` on: the three loops of the script and its final branch. */
  method Plan(arg: string, group: Option<string>, ms: seq<Manifest>) returns (outcome: Outcome)
    ensures outcome == Sync(arg, group, ms)
  {
    var d := ParsePkgAndConstraint(arg);
    var pkg, constraint := d.pkg, d.constraint;
    var found := CollectFound(ms, pkg);
    found := NonEmpty(found);
    if constraint != "" && ParseSpecifierSet(constraint).None? {
      return InvalidConstraint;
    }
    var spec := SpecOf(constraint);
    var kept := KeepCandidates(found, spec);
    if kept != [] {
      var latest := Latest(kept);
      outcome := Pin(latest, UvAdd(group, pkg + "==" + Render(latest)));
    } else if found != [] {
      outcome := Unsatisfiable;
    } else if constraint != "" {
      outcome := Fresh(UvAdd(group, pkg + constraint));
    } else {
      outcome := Fresh(UvAdd(group, pkg));
    }
  }

  /** `found_versions.extend(get_package_versions(pyproject, pkg))` for every manifest. */
  method CollectFound(ms: seq<Manifest>, pkg: string) returns (found: seq<string>)
    ensures found == AllFound(ms, pkg)
  {
    found := [];
    for i := 0 to |ms|
      invariant found == AllFound(ms[..i], pkg)
    {
      var specs := GetPackageVersions(ms[i], pkg);
      assert ms[..i + 1][..i] == ms[..i];
      found := found + specs;
    }
    assert ms[..|ms|] == ms;
  }

  /** The `for v in found_versions` loop: the texts that parse as a version accepted by the specifier set, in order. */
  method KeepCandidates(found: seq<string>, spec: Option<seq<Comparator>>) returns (kept: seq<Version>)
    ensures kept == Kept(found, spec)
  {
    kept := [];
    for i := 0 to |found|
      invariant kept == Kept(found[..i], spec)
    {
      SelectNext(found, i, Candidate, (v: Version) => Accepts(spec, v));
      var candidate := Candidate(found[i]);
      match candidate
      case Some(version) =>
        if Accepts(spec, version) {
          kept := kept + [version];
        }
      case None =>
    }
    assert found[..|found|] == found;
  }

  /** Every kept version comes from a found text and meets the constraint, and every such version is kept. */
  lemma KeptMeaning(found: seq<string>, spec: Option<seq<Comparator>>, v: Version)
    ensures v in Kept(found, spec) <==> Accepts(spec, v) && exists t :: t in found && Candidate(t) == Some(v)
  {
    SelectMeaning(found, Candidate, (v: Version) => Accepts(spec, v), v);
  }

  /** Without a constraint the pin is the greatest of all found versions that parse. */
  lemma KeptWithoutConstraint(found: seq<string>, v: Version)
    ensures v in Kept(found, None) <==> exists t :: t in found && Candidate(t) == Some(v)
  {
    KeptMeaning(found, None, v);
  }

  /**
    A pin names a kept version no other kept version exceeds, every earlier
    kept version is strictly smaller, and the command ends in `pkg==<latest>`.
  */
  lemma PinIsGreatestKept(pkg: string, constraint: string, group: Option<string>, found: seq<string>)
    requires Decide(pkg, constraint, group, found).Pin?
    ensures constraint == "" || ParseSpecifierSet(constraint).Some?
    ensures
      var o := Decide(pkg, constraint, group, found);
      var kept := Kept(found, SpecOf(constraint));
      && (exists j :: 0 <= j < |kept| && kept[j] == o.latest && forall i :: 0 <= i < j ==> Compare(kept[i], o.latest) < 0)
      && (forall i :: 0 <= i < |kept| ==> Compare(kept[i], o.latest) <= 0)
      && o.command[|o.command| - 1] == pkg + "==" + Render(o.latest)
  {
    var kept := Kept(found, SpecOf(constraint));
    var j := MaxIndex(kept);
    assert kept[j] == Latest(kept);
  }

  /** The pinned version satisfies the requested constraint and comes from a found text. */
  lemma PinSatisfiesConstraint(pkg: string, constraint: string, group: Option<string>, found: seq<string>)
    requires Decide(pkg, constraint, group, found).Pin?
    ensures constraint != "" ==>
      ParseSpecifierSet(constraint).Some? && SatisfiesAll(Decide(pkg, constraint, group, found).latest, ParseSpecifierSet(constraint).value)
    ensures exists t :: t in found && Candidate(t) == Some(Decide(pkg, constraint, group, found).latest)
  {
    var kept := Kept(found, SpecOf(constraint));
    var latest := Latest(kept);
    assert latest in kept;
    KeptMeaning(found, SpecOf(constraint), latest);
  }

  /**
    The script fails exactly when the constraint is valid, some version text
    was found, and none of them parses to a version meeting the constraint.
  */
  lemma UnsatisfiableExactly(pkg: string, constraint: string, group: Option<string>, found: seq<string>)
    ensures Decide(pkg, constraint, group, found) == Unsatisfiable <==>
      && (constraint == "" || ParseSpecifierSet(constraint).Some?)
      && found != []
      && forall t :: t in found ==> Candidate(t).None? || !Accepts(SpecOf(constraint), Candidate(t).value)
  {
    if constraint == "" || ParseSpecifierSet(constraint).Some? {
      NothingKept(found, SpecOf(constraint));
    }
  }

  /** Nothing is kept exactly when no found text parses to a version the constraint accepts. */
  lemma NothingKept(found: seq<string>, spec: Option<seq<Comparator>>)
    ensures Kept(found, spec) == [] <==> forall t :: t in found ==> Candidate(t).None? || !Accepts(spec, Candidate(t).value)
  {
    if Kept(found, spec) != [] {
      var v := Kept(found, spec)[0];
      KeptMeaning(found, spec, v);
    } else {
      forall t | t in found && Candidate(t).Some?
        ensures !Accepts(spec, Candidate(t).value)
      {
        KeptMeaning(found, spec, Candidate(t).value);
      }
    }
  }

  /** The request is added as given exactly when no manifest has a version text for the package. */
  lemma FreshExactly(pkg: string, constraint: string, group: Option<string>, found: seq<string>)
    ensures Decide(pkg, constraint, group, found).Fresh? <==>
      (constraint == "" || ParseSpecifierSet(constraint).Some?) && found == []
  {
  }

  /** `uv` is given `--group` exactly when a non-empty group was asked for, and the requirement comes last. */
  lemma UvAddShape(group: Option<string>, requirement: string)
    ensures |UvAdd(group, requirement)| == if group.Some? && group.value != "" then 5 else 3
    ensures UvAdd(group, requirement)[..2] == ["uv", "add"]
    ensures UvAdd(group, requirement)[|UvAdd(group, requirement)| - 1] == requirement
    ensures "--group" in UvAdd(group, requirement) <==> (group.Some? && group.value != "") || requirement == "--group"
    ensures group.Some? && group.value != "" ==> UvAdd(group, requirement)[2..4] == ["--group", group.value]
  {
  }

  /**
    With no version text found, `uv add` receives exactly the argument the
    user gave: the package and the constraint put back together.
  */
  lemma FreshAddsRequestAsGiven(arg: string, group: Option<string>, ms: seq<Manifest>)
    requires '\n' !in arg
    requires Sync(arg, group, ms).Fresh?
    ensures Sync(arg, group, ms).command == UvAdd(group, arg)
  {
    var d := ParsePkgAndConstraint(arg);
    if d.constraint == "" {
      assert d.pkg + d.constraint == d.pkg;
    }
  }

  /**
    The requirement a pin passes to `uv` reads back as the same package and
    an `==` constraint whose only specifier is the pinned version.
  */
  lemma PinReadsBack(pkg: string, v: Version)
    requires IsName(pkg)
    ensures ParsePkgAndConstraint(pkg + "==" + Render(v)) == Declaration(pkg, "==" + Render(v))
    ensures ParseSpecifierSet("==" + Render(v)) == Some([Against(Equal, v)])
  {
    PinDeclaration(pkg, v);
    PinSpecifier(v);
  }

  lemma PinDeclaration(pkg: string, v: Version)
    requires IsName(pkg)
    ensures ParsePkgAndConstraint(pkg + "==" + Render(v)) == Declaration(pkg, "==" + Render(v))
  {
    PinTail(v);
    MatchUnique(pkg + "==" + Render(v), pkg, "==" + Render(v));
  }

  lemma PinTail(v: Version)
    ensures IsConstraintTail("==" + Render(v))
    ensures forall i :: 0 <= i < |"==" + Render(v)| ==> !IsSpace(("==" + Render(v))[i]) && ("==" + Render(v))[i] != ','
  {
    var r := Render(v);
    var c := "==" + r;
    forall i | 0 <= i < |c| ensures c[i] != '\n' && !IsSpace(c[i]) && c[i] != ',' {
      if i >= 2 {
        assert c[i] == r[i - 2];
      }
    }
  }

  lemma PinSpecifier(v: Version)
    ensures ParseSpecifierSet("==" + Render(v)) == Some([Against(Equal, v)])
  {
    var c := "==" + Render(v);
    PinTail(v);
    SplitWithoutSeparator(c, ',');
    PinStripped(v);
    PinComparator(v);
    ParseSingleItem(c, ParseComparator, Against(Equal, v));
  }

  lemma PinStripped(v: Version)
    ensures Strip("==" + Render(v)) == "==" + Render(v)
  {
    PinTail(v);
    StripUnchanged("==" + Render(v));
  }

  lemma PinComparator(v: Version)
    ensures ParseComparator("==" + Render(v)) == Some(Against(Equal, v))
  {
    assert Spelling(Equal) == "==";
    ComparatorRoundTrip(Equal, v);
  }

  /** Among equal versions, `max` keeps the one seen first: `1.0` then `1.0.0` pins `1.0`. */
  lemma FirstOfEqualWins()
    ensures Latest([[1, 0], [1, 0, 0]]) == [1, 0]
  {
    var vs: seq<Version> := [[1, 0], [1, 0, 0]];
    assert Compare(vs[1], vs[0]) == 0 by {
      TrailingZeroIrrelevant([1, 0]);
      CompareAntisymmetric([1, 0], [1, 0, 0]);
    }
  }
}
