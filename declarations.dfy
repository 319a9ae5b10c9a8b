/**
  Splitting one dependency declaration such as "pandas>=1.0.1" into a package
  name and a constraint, as both scripts do with the pattern
  `^([a-zA-Z0-9_\-]+)([<>=!~^].*)?$` under `re.match`.

  The grammar the pattern accepts is: a non-empty run of name characters,
  then either nothing or a comparator character followed by any characters
  other than a line break. Python's `$` also matches just before a line break
  that ends the string, and `.` never matches a line break; `Match` models
  both, so no assumption on the input is needed.
*/
module Declarations {
  import opened Wrappers
  import opened Text

  /** `[a-zA-Z0-9_\-]` */
  predicate IsNameChar(c: char) {
    'a' <= c <= 'z' || 'A' <= c <= 'Z' || '0' <= c <= '9' || c == '_' || c == '-'
  }

  /** `[<>=!~^]` */
  const ComparatorChars: set<char> := {'<', '>', '=', '!', '~', '^'}

  predicate IsName(s: string) {
    s != [] && forall i :: 0 <= i < |s| ==> IsNameChar(s[i])
  }

  /** A tail the second group can produce: empty, or a comparator character and no line break. */
  predicate IsConstraintTail(t: string) {
    t == [] || (t[0] in ComparatorChars && '\n' !in t)
  }

  /** The two groups of a successful match; an absent second group is the empty string. */
  datatype Split = Split(name: string, tail: string)

  /** A declaration split into package and constraint, the pair both functions return. */
  datatype Declaration = Declaration(pkg: string, constraint: string)

  /** Length of the longest prefix of `s` made of name characters. */
  function NameRun(s: string): (k: nat)
    ensures k <= |s|
    ensures forall i :: 0 <= i < k ==> IsNameChar(s[i])
    ensures k < |s| ==> !IsNameChar(s[k])
  {
    if s != [] && IsNameChar(s[0]) then 1 + NameRun(s[1..]) else 0
  }

  /** `re.match(pattern, s)`, giving the two groups when the pattern matches. */
  function Match(s: string): (r: Option<Split>)
    ensures r.Some? ==> IsName(r.value.name) && IsConstraintTail(r.value.tail)
    ensures r.Some? ==> s == r.value.name + r.value.tail || s == r.value.name + r.value.tail + "\n"
    ensures r.None? && '\n' !in s ==>
      NameRun(s) == 0 || (NameRun(s) < |s| && s[NameRun(s)] !in ComparatorChars)
  {
    var k := NameRun(s);
    if k == 0 then None
    else if k == |s| then Some(Split(s, ""))
    else if s[k..] == "\n" then Some(Split(s[..k], ""))
    else if s[k] !in ComparatorChars then None
    else if '\n' !in s[k + 1..] then
      assert s[k..] == [s[k]] + s[k + 1..];
      Some(Split(s[..k], s[k..]))
    else if s[|s| - 1] == '\n' && '\n' !in s[k + 1..|s| - 1] then
      assert s[k..|s| - 1] == [s[k]] + s[k + 1..|s| - 1];
      assert s == s[..k] + s[k..|s| - 1] + "\n";
      Some(Split(s[..k], s[k..|s| - 1]))
    else None
  }

  /** The grammar has one parse at most: any split into a name and a tail is the one `Match` finds. */
  lemma {:induction false} MatchUnique(s: string, name: string, tail: string)
    requires IsName(name) && IsConstraintTail(tail) && s == name + tail
    ensures Match(s) == Some(Split(name, tail))
  {
    NameRunOfSplit(name, tail);
    var k := |name|;
    assert s[..k] == name && s[k..] == tail;
    if tail != [] {
      assert s[k + 1..] == tail[1..];
    }
  }

  lemma {:induction false} NameRunOfSplit(name: string, tail: string)
    requires forall i :: 0 <= i < |name| ==> IsNameChar(name[i])
    requires tail == [] || tail[0] in ComparatorChars
    ensures NameRun(name + tail) == |name|
  {
    if name != [] {
      assert (name + tail)[1..] == name[1..] + tail;
      NameRunOfSplit(name[1..], tail);
    }
  }

  /**
    `parse_pkg_and_constraint`: the name and the (possibly empty) tail on a
    match, the unchanged argument and no constraint otherwise.
  */
  function ParsePkgAndConstraint(arg: string): (r: Declaration)
    ensures '\n' !in arg ==> r.pkg + r.constraint == arg
    ensures r.constraint == [] || r.constraint[0] in ComparatorChars
    ensures Match(arg).Some? ==> IsName(r.pkg) && StartsWith(arg, r.pkg)
    ensures Match(arg).None? ==> r == Declaration(arg, "")
  {
    match Match(arg)
    case Some(m) => Declaration(m.name, m.tail)
    case None => Declaration(arg, "")
  }

  /**
    `parse_dep`: the same split with the package name lower-cased; on no
    match, the whole declaration lower-cased and no constraint.
  */
  function ParseDep(dep: string): Declaration {
    match Match(dep)
    case Some(m) => Declaration(Lower(m.name), m.tail)
    case None => Declaration(Lower(dep), "")
  }

  /**
    What `parse_dep` yields: the package of `parse_pkg_and_constraint`
    lower-cased (so no upper-case letter is left in it) and its constraint
    unchanged; on no match, the lower-cased declaration and no constraint.
  */
  lemma ParseDepMeaning(dep: string)
    ensures forall c :: c in ParseDep(dep).pkg ==> !IsUpper(c)
    ensures ParseDep(dep).pkg == Lower(ParsePkgAndConstraint(dep).pkg)
    ensures ParseDep(dep).constraint == ParsePkgAndConstraint(dep).constraint
    ensures Match(dep).None? ==> ParseDep(dep) == Declaration(Lower(dep), "")
  {
    LowerHasNoUpper(ParsePkgAndConstraint(dep).pkg);
  }

  /**
    Lower-casing a declaration first does not change the package `parse_dep`
    finds (the constraint is kept verbatim, so only its letters are lowered).
  */
  lemma {:induction false} ParseDepIgnoresCase(dep: string)
    requires '\n' !in dep
    ensures ParseDep(Lower(dep)).pkg == ParseDep(dep).pkg
    ensures ParseDep(Lower(dep)).constraint == Lower(ParseDep(dep).constraint)
  {
    var low := Lower(dep);
    LowerIdempotent(dep);
    match Match(dep)
    case Some(m) =>
      assert dep == m.name + m.tail;
      LowerConcat(m.name, m.tail);
      LowerKeepsTail(m.tail);
      LowerKeepsName(m.name);
      MatchUnique(low, Lower(m.name), Lower(m.tail));
      LowerIdempotent(m.name);
    case None =>
      if Match(low).Some? {
        MatchFromLower(dep);
      }
  }

  lemma LowerIdempotent(s: string)
    ensures Lower(Lower(s)) == Lower(s)
  {
  }

  lemma LowerConcat(a: string, b: string)
    ensures Lower(a + b) == Lower(a) + Lower(b)
  {
  }

  lemma LowerKeepsTail(t: string)
    requires IsConstraintTail(t)
    ensures IsConstraintTail(Lower(t))
  {
    if t != [] {
      forall i | 0 <= i < |t| ensures Lower(t)[i] != '\n' { assert t[i] in t; }
    }
  }

  lemma LowerKeepsName(n: string)
    requires IsName(n)
    ensures IsName(Lower(n))
  {
  }

  /** A match of the lower-cased text gives a match of the text itself. */
  lemma MatchFromLower(dep: string)
    requires '\n' !in dep
    requires Match(Lower(dep)).Some?
    ensures Match(dep).Some?
  {
    var low := Lower(dep);
    var m := Match(low).value;
    assert '\n' !in low by {
      forall i | 0 <= i < |low| ensures low[i] != '\n' { assert dep[i] in dep; }
    }
    var k := |m.name|;
    assert low == m.name + m.tail;
    assert IsName(dep[..k]) by {
      forall i | 0 <= i < k ensures IsNameChar(dep[i]) { assert IsNameChar(low[i]); }
    }
    assert IsConstraintTail(dep[k..]) by {
      if k < |dep| {
        assert low[k] == m.tail[0];
        forall i | k <= i < |dep| ensures dep[i] != '\n' { assert dep[i] in dep; }
      }
    }
    assert dep == dep[..k] + dep[k..];
    MatchUnique(dep, dep[..k], dep[k..]);
  }
}
