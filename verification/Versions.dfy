/**
Release versions: accepting them, ordering them without parsing, and deciding
whether an update goes ahead (numeric precedence, section 11 of Semantic
Versioning 2.0.0).
*/
module Versions {
  import opened Wrappers
  import opened Sorting
  import opened Decimals

  datatype Ordering = Less | Equal | Greater

  /** `split('.')`: the components between dots, always at least one. */
  function Components(s: string): (parts: seq<string>)
    ensures parts != []
  {
    if s == [] then [""]
    else
      var rest := Components(s[1..]);
      if s[0] == '.' then [""] + rest else [[s[0]] + rest[0]] + rest[1..]
  }

  predicate IsNumber(part: string) {
    part != [] && AllDigits(part)
  }

  function NormalizeVersion(s: string): Result<string, string> {
    var version := if s != [] && s[0] == 'v' then s[1..] else s;
    var parts := Components(version);
    if |parts| == 3 && forall part | part in parts :: IsNumber(part) then Ok(version)
    else Err(version)
  }

  function TrimZeros(s: string): string {
    if s != [] && s[0] == '0' then TrimZeros(s[1..]) else s
  }

  function CompareText(a: string, b: string): Ordering {
    if a == b then Equal else if NameLeq(a, b) then Less else Greater
  }

  function CompareComponent(left: string, right: string): Ordering {
    var l, r := TrimZeros(left), TrimZeros(right);
    if |l| < |r| then Less else if |l| > |r| then Greater else CompareText(l, r)
  }

  function CompareZipped(left: seq<string>, right: seq<string>): Ordering {
    if left == [] || right == [] then Equal
    else
      var first := CompareComponent(left[0], right[0]);
      if first != Equal then first else CompareZipped(left[1..], right[1..])
  }

  function CompareVersions(left: string, right: string): Ordering {
    CompareZipped(Components(left), Components(right))
  }

  datatype SkipReason = AlreadyLatest | NewerThanLatest

  function UpdateSkipReason(explicitVersion: bool, target: string, current: string): Option<SkipReason> {
    if explicitVersion then None
    else
      match CompareVersions(current, target)
      case Less => None
      case Equal => Some(AlreadyLatest)
      case Greater => Some(NewerThanLatest)
  }

  // ------------------------------------------------------- what it means

  /** Three numbers: major, minor, patch. */
  datatype Numbers = Numbers(major: nat, minor: nat, patch: nat) {
    predicate Precedes(other: Numbers) {
      major < other.major ||
      (major == other.major && (minor < other.minor || (minor == other.minor && patch < other.patch)))
    }
  }

  predicate IsVersion(s: string) {
    var parts := Components(s);
    |parts| == 3 && IsNumber(parts[0]) && IsNumber(parts[1]) && IsNumber(parts[2])
  }

  function NumbersOf(s: string): Numbers
    requires IsVersion(s)
  {
    var parts := Components(s);
    Numbers(Value(parts[0]), Value(parts[1]), Value(parts[2]))
  }

  lemma {:induction false} NoDotComponents(a: string)
    requires '.' !in a
    ensures Components(a) == [a]
  {
    if a != [] {
      assert a == [a[0]] + a[1..];
      NoDotComponents(a[1..]);
    }
  }

  lemma {:induction false} DottedComponents(a: string, rest: string)
    requires '.' !in a
    ensures Components(a + "." + rest) == [a] + Components(rest)
  {
    var s := a + "." + rest;
    if a == [] {
      assert s[1..] == rest && s[0] == '.';
    } else {
      assert a == [a[0]] + a[1..];
      assert s[1..] == a[1..] + "." + rest && s[0] == a[0];
      DottedComponents(a[1..], rest);
    }
  }

  ghost function Joined(parts: seq<string>): string
    requires parts != []
  {
    if |parts| == 1 then parts[0] else parts[0] + "." + Joined(parts[1..])
  }

  lemma {:induction false} ComponentsJoin(s: string)
    ensures Joined(Components(s)) == s
  {
    if s != [] {
      ComponentsJoin(s[1..]);
      var rest, parts := Components(s[1..]), Components(s);
      assert s == [s[0]] + s[1..];
      if s[0] == '.' {
        assert parts[1..] == rest;
      } else {
        assert parts[1..] == rest[1..];
      }
    }
  }

  ghost predicate Spells(s: string, a: string, b: string, c: string) {
    IsNumber(a) && IsNumber(b) && IsNumber(c) && s == a + "." + (b + "." + c)
  }

  /** Accepted are exactly `N.N.N` and `vN.N.N`, and the `v` is dropped. */
  lemma NormalizeAccepts(s: string, version: string)
    ensures NormalizeVersion(s) == Ok(version) <==>
              (s == version || s == "v" + version) &&
              exists a, b, c :: Spells(version, a, b, c)
    ensures NormalizeVersion(s) == Ok(version) ==> IsVersion(version)
  {
    if NormalizeVersion(s) == Ok(version) {
      ComponentsJoin(version);
      var parts := Components(version);
      JoinThree(parts);
      assert parts[0] in parts && parts[1] in parts && parts[2] in parts;
      assert Spells(version, parts[0], parts[1], parts[2]);
    }
    if (s == version || s == "v" + version) && exists a, b, c :: Spells(version, a, b, c) {
      var a, b, c :| Spells(version, a, b, c);
      SpelledComponents(version, a, b, c);
      assert version[0] == a[0] && IsDigit(a[0]);
      assert s == "v" + version ==> s[0] == 'v' && s[1..] == version;
    }
  }

  lemma JoinThree(parts: seq<string>)
    requires |parts| == 3
    ensures Joined(parts) == parts[0] + "." + (parts[1] + "." + parts[2])
  {
    var rest := parts[1..];
    assert rest[1..] == [parts[2]];
    assert Joined([parts[2]]) == parts[2];
    assert Joined(rest) == parts[1] + "." + parts[2];
  }

  lemma SpelledComponents(s: string, a: string, b: string, c: string)
    requires Spells(s, a, b, c)
    ensures Components(s) == [a, b, c]
  {
    DigitsHaveNoDot(a);
    DigitsHaveNoDot(b);
    DigitsHaveNoDot(c);
    assert s == a + "." + (b + "." + c);
    DottedComponents(a, b + "." + c);
    DottedComponents(b, c);
    NoDotComponents(c);
  }

  lemma DigitsHaveNoDot(a: string)
    requires AllDigits(a)
    ensures '.' !in a
  {
  }

  lemma {:induction false} TrimKeepsValue(s: string)
    requires AllDigits(s)
    ensures AllDigits(TrimZeros(s)) && Value(TrimZeros(s)) == Value(s)
    ensures TrimZeros(s) != [] ==> TrimZeros(s)[0] != '0'
  {
    if s != [] && s[0] == '0' {
      TrimKeepsValue(s[1..]);
      assert s == ['0'] + s[1..];
      LeadingZero(s[1..]);
    }
  }

  /** Without leading zeros the longer numeral is the larger number. */
  lemma LongerIsLarger(a: string, b: string)
    requires AllDigits(a) && AllDigits(b) && |a| < |b| && b[0] != '0'
    ensures Value(a) < Value(b)
  {
  }

  function CompareNumbers(a: nat, b: nat): Ordering {
    if a < b then Less else if a == b then Equal else Greater
  }

  /** Comparing the texts of two components compares the numbers, of any length. */
  lemma ComponentIsNumeric(left: string, right: string)
    requires AllDigits(left) && AllDigits(right)
    ensures CompareComponent(left, right) == CompareNumbers(Value(left), Value(right))
  {
    var l, r := TrimZeros(left), TrimZeros(right);
    TrimKeepsValue(left);
    TrimKeepsValue(right);
    if |l| < |r| {
      LongerIsLarger(l, r);
    } else if |r| < |l| {
      LongerIsLarger(r, l);
    } else {
      SameLengthOrder(l, r);
    }
  }

  /** The order of versions is the lexicographic order of their numbers. */
  lemma CompareIsNumericPrecedence(left: string, right: string)
    requires IsVersion(left) && IsVersion(right)
    ensures CompareVersions(left, right) ==
            if NumbersOf(left).Precedes(NumbersOf(right)) then Less
            else if NumbersOf(left) == NumbersOf(right) then Equal else Greater
    ensures CompareVersions(left, right) == Greater <==> NumbersOf(right).Precedes(NumbersOf(left))
  {
    var l, r := Components(left), Components(right);
    ComponentIsNumeric(l[0], r[0]);
    ComponentIsNumeric(l[1], r[1]);
    ComponentIsNumeric(l[2], r[2]);
    assert l[1..][0] == l[1] && r[1..][0] == r[1];
    assert l[1..][1..][0] == l[2] && r[1..][1..][0] == r[2];
    assert l[1..][1..][1..] == [] && r[1..][1..][1..] == [];
    assert CompareZipped(l[1..][1..], r[1..][1..]) == CompareComponent(l[2], r[2]);
    assert CompareZipped(l[1..], r[1..]) ==
           if CompareComponent(l[1], r[1]) != Equal then CompareComponent(l[1], r[1])
           else CompareComponent(l[2], r[2]);
  }

  /** A total preorder whose ties are versions that differ in leading zeros only. */
  lemma VersionsAreOrdered(a: string, b: string, c: string)
    requires IsVersion(a) && IsVersion(b) && IsVersion(c)
    ensures CompareVersions(a, a) == Equal
    ensures CompareVersions(a, b) == Less <==> CompareVersions(b, a) == Greater
    ensures CompareVersions(a, b) != Greater && CompareVersions(b, c) != Greater ==> CompareVersions(a, c) != Greater
    ensures CompareVersions(a, b) == Equal <==> NumbersOf(a) == NumbersOf(b)
  {
    CompareIsNumericPrecedence(a, a);
    CompareIsNumericPrecedence(a, b);
    CompareIsNumericPrecedence(b, a);
    CompareIsNumericPrecedence(b, c);
    CompareIsNumericPrecedence(a, c);
  }

  /** Without an explicit version the update goes ahead exactly when it is an upgrade. */
  lemma UpdatesOnlyUpwards(explicitVersion: bool, target: string, current: string)
    requires IsVersion(target) && IsVersion(current)
    ensures UpdateSkipReason(explicitVersion, target, current).None? <==>
            explicitVersion || NumbersOf(current).Precedes(NumbersOf(target))
    ensures UpdateSkipReason(explicitVersion, target, current) == Some(AlreadyLatest) <==>
            !explicitVersion && NumbersOf(current) == NumbersOf(target)
  {
    CompareIsNumericPrecedence(current, target);
  }

  /** A leading zero makes another text of the same version. */
  lemma LeadingZerosTie(s: string)
    requires IsVersion(s)
    ensures IsVersion("0" + s) && "0" + s != s
    ensures NumbersOf("0" + s) == NumbersOf(s) && CompareVersions("0" + s, s) == Equal
  {
    var padded, parts := "0" + s, Components(s);
    assert padded[1..] == s;
    assert Components(padded) == [['0'] + parts[0]] + parts[1..];
    LeadingZero(parts[0]);
    VersionsAreOrdered(padded, s, s);
  }
}
