/**
  The version model the resolver relies on: a release made of dotted decimal
  components, ordered component-wise with missing components read as zero
  (so 1.0 and 1.0.0 are equal and 1.9 < 1.10), and the comparator sets
  ("specifier sets") a requested constraint such as ">=1.0,<2" denotes.
*/
module Versions {
  import opened Wrappers
  import opened Text

  /** A release: one or more non-negative components. */
  type Version = v: seq<nat> | |v| > 0 witness [0]

  predicate IsDigit(c: char) { '0' <= c <= '9' }

  predicate AllDigits(s: string) { forall i :: 0 <= i < |s| ==> IsDigit(s[i]) }

  function DigitChar(d: nat): (c: char)
    requires d < 10
    ensures IsDigit(c)
  {
    ('0' as int + d) as char
  }

  /** The value of a run of decimal digits, as `int` reads it (leading zeros allowed). */
  function DecimalValue(s: string): nat
    requires AllDigits(s)
  {
    if s == [] then 0
    else DecimalValue(s[..|s| - 1]) * 10 + (s[|s| - 1] as int - '0' as int)
  }

  /** `str` of a natural number: its decimal digits, with no leading zero. */
  function Decimal(n: nat): (r: string)
    ensures r != [] && AllDigits(r)
    ensures r[0] == '0' ==> r == "0"
  {
    if n < 10 then [DigitChar(n)] else Decimal(n / 10) + [DigitChar(n % 10)]
  }

  lemma {:induction false} DecimalRoundTrip(n: nat)
    ensures DecimalValue(Decimal(n)) == n
  {
    if n >= 10 {
      var d := Decimal(n);
      assert d[..|d| - 1] == Decimal(n / 10);
      DecimalRoundTrip(n / 10);
    }
  }

  /** Length of the longest prefix of `s` made of digits. */
  function DigitRun(s: string): (k: nat)
    ensures k <= |s| && AllDigits(s[..k])
    ensures k < |s| ==> !IsDigit(s[k])
  {
    if s != [] && IsDigit(s[0]) then
      var k := 1 + DigitRun(s[1..]);
      assert forall i :: 1 <= i < k ==> s[..k][i] == s[1..][..k - 1][i - 1];
      k
    else 0
  }

  lemma {:induction false} DigitRunOf(d: string, t: string)
    requires AllDigits(d)
    requires t == [] || !IsDigit(t[0])
    ensures DigitRun(d + t) == |d|
  {
    if d != [] {
      assert (d + t)[1..] == d[1..] + t;
      DigitRunOf(d[1..], t);
    }
  }

  /** Components separated by single dots, each a non-empty run of digits. */
  function ParseRelease(s: string): Option<Version>
    decreases |s|
  {
    var k := DigitRun(s);
    if k == 0 then None
    else if k == |s| then Some([DecimalValue(s)])
    else if s[k] != '.' then None
    else match ParseRelease(s[k + 1..])
      case None => None
      case Some(rest) => Some([DecimalValue(s[..k])] + rest)
  }

  /** `Version(text)` for release-only versions; surrounding whitespace is allowed. */
  function ParseVersion(text: string): Option<Version> {
    ParseRelease(Strip(text))
  }

  /** `str(version)`: the components in decimal, joined by dots. */
  function Render(v: Version): (r: string)
    ensures r != [] && !IsSpace(r[0]) && !IsSpace(r[|r| - 1])
    ensures IsDigit(r[0])
    ensures forall i :: 0 <= i < |r| ==> IsDigit(r[i]) || r[i] == '.'
  {
    if |v| == 1 then Decimal(v[0]) else Decimal(v[0]) + "." + Render(v[1..])
  }

  /** Printing a version and reading it back gives the same version. */
  lemma {:induction false} ParseRender(v: Version)
    ensures ParseVersion(Render(v)) == Some(v)
  {
    var r := Render(v);
    StripUnchanged(r);
    ParseRenderRelease(v);
  }

  lemma {:induction false} ParseRenderRelease(v: Version)
    ensures ParseRelease(Render(v)) == Some(v)
  {
    var d := Decimal(v[0]);
    DecimalRoundTrip(v[0]);
    if |v| == 1 {
      DigitRunOf(d, "");
      assert d + "" == d;
      assert v == [v[0]];
    } else {
      ParseRenderRelease(v[1..]);
      ReleaseStep(d, Render(v[1..]), v[0], v[1..]);
      assert [v[0]] + v[1..] == v;
    }
  }

  /** A run of digits, a dot and a release read as one more leading component. */
  lemma ReleaseStep(d: string, t: string, n: nat, rest: Version)
    requires d != [] && AllDigits(d) && DecimalValue(d) == n
    requires ParseRelease(t) == Some(rest)
    ensures ParseRelease(d + "." + t) == Some([n] + rest)
  {
    var s := d + "." + t;
    DigitRunOf(d, "." + t);
    assert s == d + ("." + t);
    assert s[..|d|] == d;
    assert s[|d| + 1..] == t;
  }

  /** Component `i` of `v`, reading missing trailing components as zero. */
  function At(v: seq<nat>, i: nat): nat {
    if i < |v| then v[i] else 0
  }

  /** Three-way comparison: -1, 0 or 1 as `a` is below, equal to or above `b`. */
  function Compare(a: seq<nat>, b: seq<nat>): (c: int)
    ensures -1 <= c <= 1
    decreases |a| + |b|
  {
    if a == [] && b == [] then 0
    else if At(a, 0) < At(b, 0) then -1
    else if At(a, 0) > At(b, 0) then 1
    else Compare(if a == [] then [] else a[1..], if b == [] then [] else b[1..])
  }

  /** `Compare` with its first components removed (missing ones read as zero). */
  function Rest(a: seq<nat>): seq<nat> {
    if a == [] then [] else a[1..]
  }

  lemma RestAt(a: seq<nat>, i: nat)
    ensures At(a, i + 1) == At(Rest(a), i)
  {
  }

  /**
    An independent account of the order: `a` and `b` are equal when no
    component differs (missing ones read as zero), and `a` is below `b` when
    at the first component where they differ `a` is smaller.
  */
  lemma {:induction false} CompareMeaning(a: seq<nat>, b: seq<nat>)
    ensures Compare(a, b) == 0 <==> forall i: nat :: At(a, i) == At(b, i)
    ensures Compare(a, b) < 0 <==>
      (exists k: nat :: At(a, k) < At(b, k) && forall i: nat :: i < k ==> At(a, i) == At(b, i))
    decreases |a| + |b|
  {
    if a == [] && b == [] {
    } else if At(a, 0) == At(b, 0) {
      var a', b' := Rest(a), Rest(b);
      assert Compare(a, b) == Compare(a', b');
      CompareMeaning(a', b');
      if forall i: nat :: At(a', i) == At(b', i) {
        forall i: nat ensures At(a, i) == At(b, i) {
          if i > 0 { RestAt(a, i - 1); RestAt(b, i - 1); }
        }
      }
      if forall i: nat :: At(a, i) == At(b, i) {
        forall i: nat ensures At(a', i) == At(b', i) {
          RestAt(a, i); RestAt(b, i);
        }
      }
      if Compare(a, b) < 0 {
        var k: nat :| At(a', k) < At(b', k) && forall i: nat :: i < k ==> At(a', i) == At(b', i);
        RestAt(a, k); RestAt(b, k);
        forall i: nat | i < k + 1 ensures At(a, i) == At(b, i) {
          if i > 0 { RestAt(a, i - 1); RestAt(b, i - 1); }
        }
      }
      if exists k: nat :: At(a, k) < At(b, k) && forall i: nat :: i < k ==> At(a, i) == At(b, i) {
        var k: nat :| At(a, k) < At(b, k) && forall i: nat :: i < k ==> At(a, i) == At(b, i);
        assert k > 0;
        RestAt(a, k - 1); RestAt(b, k - 1);
        forall i: nat | i < k - 1 ensures At(a', i) == At(b', i) {
          RestAt(a, i); RestAt(b, i);
          assert At(a, i + 1) == At(b, i + 1);
        }
      }
    } else {
      assert !(forall i: nat :: At(a, i) == At(b, i)) by { assert At(a, 0) != At(b, 0); }
      if At(a, 0) < At(b, 0) {
        assert At(a, 0) < At(b, 0) && forall i: nat :: i < 0 ==> At(a, i) == At(b, i);
      } else {
        forall k: nat | At(a, k) < At(b, k)
          ensures !(forall i: nat :: i < k ==> At(a, i) == At(b, i))
        {
          assert k != 0;
        }
      }
    }
  }

  lemma {:induction false} CompareAntisymmetric(a: seq<nat>, b: seq<nat>)
    ensures Compare(a, b) == -Compare(b, a)
    decreases |a| + |b|
  {
    if !(a == [] && b == []) && At(a, 0) == At(b, 0) {
      CompareAntisymmetric(if a == [] then [] else a[1..], if b == [] then [] else b[1..]);
    }
  }

  lemma {:induction false} CompareTransitive(a: seq<nat>, b: seq<nat>, c: seq<nat>)
    requires Compare(a, b) <= 0 && Compare(b, c) <= 0
    ensures Compare(a, c) <= 0
    ensures Compare(a, b) < 0 || Compare(b, c) < 0 ==> Compare(a, c) < 0
    decreases |a| + |b| + |c|
  {
    if a == [] && b == [] && c == [] {
    } else if At(a, 0) == At(b, 0) == At(c, 0) {
      var a', b', c' := if a == [] then [] else a[1..], if b == [] then [] else b[1..], if c == [] then [] else c[1..];
      if a == [] && c == [] {
        // Compare(b, []) <= 0 and Compare([], b) <= 0 force Compare(b, []) == 0.
        CompareAntisymmetric(b, []);
        assert Compare(a, c) == 0;
        CompareAntisymmetric(a, b);
      } else {
        if a == [] && b == [] {
          assert Compare(a, b) == 0;
        } else if b == [] && c == [] {
          assert Compare(b, c) == 0;
        }
        CompareTransitive(a', b', c');
      }
    }
  }

  /** Appending a zero component does not change a version's place in the order. */
  lemma {:induction false} TrailingZeroIrrelevant(a: seq<nat>)
    ensures Compare(a, a + [0]) == 0
  {
    CompareMeaning(a, a + [0]);
    assert forall i: nat :: At(a, i) == At(a + [0], i);
  }

  /** 1.9.0 comes before 1.10.0: components compare as numbers, not as text. */
  lemma NumericNotTextual()
    ensures ParseVersion("1.9.0") == Some([1, 9, 0])
    ensures ParseVersion("1.10.0") == Some([1, 10, 0])
    ensures Compare([1, 9, 0], [1, 10, 0]) < 0
  {
    RenderExamples();
    ParseRender([1, 9, 0]);
    ParseRender([1, 10, 0]);
    assert Compare([1, 9, 0], [1, 10, 0]) == Compare([9, 0], [10, 0]);
  }

  lemma RenderExamples()
    ensures Render([1, 9, 0]) == "1.9.0"
    ensures Render([1, 10, 0]) == "1.10.0"
  {
    RenderTail(9);
    RenderTail(10);
    assert Decimal(1) == "1";
    assert [1, 9, 0][1..] == [9, 0];
    assert [1, 10, 0][1..] == [10, 0];
  }

  lemma RenderTail(n: nat)
    requires n == 9 || n == 10
    ensures Render([n, 0]) == Decimal(n) + ".0"
    ensures n == 9 ==> Decimal(n) == "9"
    ensures n == 10 ==> Decimal(n) == "10"
  {
    assert Decimal(0) == "0" && Decimal(1) == "1";
    assert [n, 0][1..] == [0];
  }

  /** The comparison operators of a specifier. */
  datatype Op = Equal | NotEqual | LessEq | GreaterEq | Less | Greater | Compatible

  /** One specifier: an operator and a release, or `===` and an arbitrary text. */
  datatype Comparator =
    | Against(op: Op, target: Version)
    | Identical(text: string)

  /** `v` agrees with `p` on the first `|p|` components, padding `v` with zeros. */
  predicate HasPrefix(v: seq<nat>, p: seq<nat>) {
    forall i :: 0 <= i < |p| ==> At(v, i) == p[i]
  }

  predicate Satisfies(v: Version, c: Comparator) {
    match c
    case Identical(text) => Render(v) == Lower(text)
    case Against(op, t) =>
      match op
      case Equal => Compare(v, t) == 0
      case NotEqual => Compare(v, t) != 0
      case LessEq => Compare(v, t) <= 0
      case GreaterEq => Compare(v, t) >= 0
      case Less => Compare(v, t) < 0
      case Greater => Compare(v, t) > 0
      case Compatible => Compare(v, t) >= 0 && HasPrefix(v, t[..|t| - 1])
  }

  /** A specifier set holds when every one of its comparators holds. */
  predicate SatisfiesAll(v: Version, cs: seq<Comparator>) {
    forall i :: 0 <= i < |cs| ==> Satisfies(v, cs[i])
  }

  /** The operator spelled `c=`, for `c` one of `~ = ! < >`. */
  function TwoCharOp(c: char): Op {
    match c
    case '~' => Compatible
    case '=' => Equal
    case '!' => NotEqual
    case '<' => LessEq
    case _ => GreaterEq
  }

  /**
    The operator at the head of a specifier, longest spelling first, and the
    text after it; the operator is None for the identity operator `===`.
  */
  function SplitOperator(item: string): Option<(Option<Op>, string)> {
    if |item| >= 3 && item[0] == '=' && item[1] == '=' && item[2] == '=' then Some((None, item[3..]))
    else if |item| >= 2 && item[1] == '=' && item[0] in "~=!<>" then Some((Some(TwoCharOp(item[0])), item[2..]))
    else if |item| >= 1 && item[0] == '<' then Some((Some(Less), item[1..]))
    else if |item| >= 1 && item[0] == '>' then Some((Some(Greater), item[1..]))
    else None
  }

  /** `Specifier(item)`: None where `packaging` raises `InvalidSpecifier`. */
  function ParseComparator(item: string): Option<Comparator> {
    match SplitOperator(Strip(item))
    case None => None
    case Some((op, rest)) => ComparatorOf(op, rest)
  }

  /**
    The specifier an operator and the text after it form: `===` takes any
    text without blanks, `;` or `)`; the others take a version, which `~=`
    needs with at least two components.
  */
  function ComparatorOf(op: Option<Op>, rest: string): (r: Option<Comparator>)
    ensures r.Some? && r.value.Against? ==> op == Some(r.value.op)
    ensures r.Some? && r.value.Against? && r.value.op == Compatible ==> |r.value.target| >= 2
  {
    match op
    case None =>
      var text := Strip(rest);
      if forall i :: 0 <= i < |text| ==> !IsSpace(text[i]) && text[i] != ';' && text[i] != ')'
      then Some(Identical(text)) else None
    case Some(op) =>
      match ParseVersion(rest)
      case None => None
      case Some(t) => if op == Compatible && |t| < 2 then None else Some(Against(op, t))
  }

  /**
    `SpecifierSet(text)`: the comma-separated specifiers, blank ones skipped;
    None when any of them is invalid.
  */
  function ParseSpecifierSet(text: string): Option<seq<Comparator>> {
    ParseItems(Split(text, ','), ParseComparator)
  }

  /**
    An operator takes the version written after it, and fails exactly when
    that text is no version or `~=` gets a single component; `===` takes the
    stripped text.
  */
  lemma ComparatorOfMeaning(op: Option<Op>, rest: string)
    ensures var r := ComparatorOf(op, rest);
      && (r.Some? && r.value.Against? ==> Some(r.value.target) == ParseVersion(rest))
      && (op.Some? ==> (r.None? <==> ParseVersion(rest).None? || (op.value == Compatible && |ParseVersion(rest).value| < 2)))
      && (op.Some? ==> r.None? || r.value.Against?)
      && (op.None? ==> r.None? || r.value == Identical(Strip(rest)))
  {
  }

  /** `parse` applied to every non-blank item, in order; None as soon as one item fails. */
  function ParseItems<T>(items: seq<string>, parse: string -> Option<T>): (r: Option<seq<T>>)
    ensures r.Some? ==> |r.value| <= |items|
  {
    if items == [] then Some([])
    else if Strip(items[0]) == [] then ParseItems(items[1..], parse)
    else
      var head := parse(items[0]);
      var tail := ParseItems(items[1..], parse);
      if head.Some? && tail.Some? then Some([head.value] + tail.value) else None
  }

  /** A set of one non-blank item is what that item parses to, when it parses. */
  lemma ParseSingleItem<T>(item: string, parse: string -> Option<T>, c: T)
    requires Strip(item) != [] && parse(item) == Some(c)
    ensures ParseItems([item], parse) == Some([c])
  {
    var items := [item];
    assert items[0] == item && items[1..] == [];
    assert ParseItems(items[1..], parse) == Some([]);
    assert [c] + [] == [c];
  }

  /** A set whose one non-blank item does not parse is invalid. */
  lemma ParseSingleFailure<T>(item: string, parse: string -> Option<T>)
    requires Strip(item) != [] && parse(item).None?
    ensures ParseItems([item], parse).None?
  {
    assert [item][0] == item;
  }

  /** A blank item is skipped. */
  lemma ParseBlankItem<T>(item: string, parse: string -> Option<T>)
    requires Strip(item) == []
    ensures ParseItems([item], parse) == Some([])
  {
    assert [item][1..] == [];
  }

  /**
    Parsing a concatenation of items parses each part: it succeeds when both
    parts do, with the comparators of the first part before those of the second.
  */
  lemma {:induction false} ParseItemsAppend<T>(a: seq<string>, b: seq<string>, parse: string -> Option<T>)
    ensures ParseItems(a + b, parse) ==
      if ParseItems(a, parse).Some? && ParseItems(b, parse).Some?
      then Some(ParseItems(a, parse).value + ParseItems(b, parse).value) else None
    decreases |a|
  {
    if a == [] {
      assert a + b == b;
      if ParseItems(b, parse).Some? {
        assert [] + ParseItems(b, parse).value == ParseItems(b, parse).value;
      }
    } else {
      assert (a + b)[0] == a[0];
      assert (a + b)[1..] == a[1..] + b;
      ParseItemsAppend(a[1..], b, parse);
      if Strip(a[0]) != [] && parse(a[0]).Some? && ParseItems(a[1..], parse).Some? && ParseItems(b, parse).Some? {
        var h, x, y := parse(a[0]).value, ParseItems(a[1..], parse).value, ParseItems(b, parse).value;
        assert [h] + (x + y) == ([h] + x) + y;
      }
    }
  }

  /** An item the set accepts: blank, or parsing. */
  predicate Acceptable<T>(item: string, parse: string -> Option<T>) {
    Strip(item) == [] || parse(item).Some?
  }

  /** A set parses exactly when every non-blank item is a valid specifier. */
  lemma {:induction false} ParseItemsMeaning<T>(items: seq<string>, parse: string -> Option<T>)
    ensures ParseItems(items, parse).Some? <==> forall i :: 0 <= i < |items| ==> Acceptable(items[i], parse)
    decreases |items|
  {
    if items != [] {
      ParseItemsMeaning(items[1..], parse);
      ParseItemsStep(items, parse);
      AcceptableStep(items, parse);
    }
  }

  lemma ParseItemsStep<T>(items: seq<string>, parse: string -> Option<T>)
    requires items != []
    ensures ParseItems(items, parse).Some? <==> Acceptable(items[0], parse) && ParseItems(items[1..], parse).Some?
  {
  }

  lemma AcceptableStep<T>(items: seq<string>, parse: string -> Option<T>)
    requires items != []
    ensures (forall i :: 0 <= i < |items| ==> Acceptable(items[i], parse)) <==>
      Acceptable(items[0], parse) && forall i :: 0 <= i < |items[1..]| ==> Acceptable(items[1..][i], parse)
  {
    assert forall i :: 0 <= i < |items[1..]| ==> items[1..][i] == items[i + 1];
  }


  /** How an operator is written in a specifier. */
  function Spelling(op: Op): string {
    match op
    case Equal => "=="
    case NotEqual => "!="
    case LessEq => "<="
    case GreaterEq => ">="
    case Less => "<"
    case Greater => ">"
    case Compatible => "~="
  }

  lemma OperatorSplit(op: Op, r: string)
    requires r != [] && IsDigit(r[0])
    ensures SplitOperator(Spelling(op) + r) == Some((Some(op), r))
  {
    var c := Spelling(op) + r;
    assert c[|Spelling(op)|] == r[0];
    assert c[|Spelling(op)|..] == r;
  }

  /**
    Every operator written before a printed version reads back as that
    comparator (`~=` needs at least two components).
  */
  lemma ComparatorRoundTrip(op: Op, v: Version)
    requires op == Compatible ==> |v| >= 2
    ensures ParseComparator(Spelling(op) + Render(v)) == Some(Against(op, v))
  {
    var r := Render(v);
    var c := Spelling(op) + r;
    SpelledWithoutBlanks(op, r);
    StripUnchanged(c);
    OperatorSplit(op, r);
    assert ParseComparator(c) == ComparatorOf(Some(op), r);
    ParseRender(v);
  }

  lemma SpelledWithoutBlanks(op: Op, r: string)
    requires forall i :: 0 <= i < |r| ==> IsDigit(r[i]) || r[i] == '.'
    ensures forall i :: 0 <= i < |Spelling(op) + r| ==> !IsSpace((Spelling(op) + r)[i])
  {
    var c := Spelling(op) + r;
    forall i | 0 <= i < |c| ensures !IsSpace(c[i]) {
      if i >= |Spelling(op)| {
        assert c[i] == r[i - |Spelling(op)|];
      }
    }
  }

  /** A caret requirement is not a specifier: "^1.0" makes `SpecifierSet` raise. */
  lemma CaretIsInvalid()
    ensures ParseSpecifierSet("^1.0") == None
  {
    var s := "^1.0";
    assert forall i :: 0 <= i < |s| ==> s[i] != ',' && !IsSpace(s[i]);
    SplitWithoutSeparator(s, ',');
    StripUnchanged(s);
    NoOperatorNoComparator(s);
    ParseSingleFailure(s, ParseComparator);
  }

  /** A specifier that does not open with one of `= ~ ! < >` (after blanks) is invalid. */
  lemma NoOperatorNoComparator(item: string)
    requires Strip(item) == [] || Strip(item)[0] !in {'=', '~', '!', '<', '>'}
    ensures ParseComparator(item).None?
  {
    assert SplitOperator(Strip(item)).None?;
  }
}
