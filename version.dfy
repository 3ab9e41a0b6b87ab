/** API versions: a (major, minor) pair of Go `int`s, with the "all versions"
    pseudo-version (any negative major) that compares equal to every version. */
module Versions {
  import opened Wrappers
  import opened Text

  /** Go's `int` on the 64-bit platforms the generator runs on. */
  type GoInt = x: int | MinInt64 <= x <= MaxInt64

  datatype Version = Version(major: GoInt, minor: GoInt)

  /** The value ParseVersion gives for "all". */
  const AllVersions: Version := Version(-1, -1)

  /** IsAll: the "all versions" pseudo-version is any version with a negative
      major number. */
  predicate IsAll(v: Version): (b: bool)
    ensures v == AllVersions ==> b
    ensures v.major >= 0 ==> !b
  {
    v.major < 0
  }

  /** ParseVersion: "all", or exactly two dot-separated decimal integers. */
  function ParseVersion(version: string): (r: Result<Version>)
    ensures version == "all" ==> r == Ok(AllVersions)
    ensures version != "all" ==>
              var parts := Split(version, '.');
              (r.Ok? <==> |parts| == 2 && Atoi(parts[0]).Some? && Atoi(parts[1]).Some?)
    ensures version != "all" && r.Ok? ==>
              var parts := Split(version, '.');
              |parts| == 2 && Atoi(parts[0]) == Some(r.value.major as int)
              && Atoi(parts[1]) == Some(r.value.minor as int)
    ensures version != "all" && CountChar(version, '.') != 1 ==> r.Err?
  {
    if version == "all" then Ok(AllVersions)
    else
      var split := Split(version, '.');
      SplitCount(version, '.');
      if |split| != 2 then Err("invalid version string: " + version)
      else match Atoi(split[0])
        case None => Err("invalid major version number: " + split[0])
        case Some(majorNumber) =>
          match Atoi(split[1])
          case None => Err("invalid minor version number: " + split[1])
          case Some(minorNumber) => Ok(Version(majorNumber, minorNumber))
  }

  /** Compare: 1, 0 or -1 as `v` is after, equal to or before `v2`, with the
      "all versions" pseudo-version equal to everything. */
  function Compare(v: Version, v2: Version): (c: int)
    ensures c == -1 || c == 0 || c == 1
    ensures IsAll(v) || IsAll(v2) ==> c == 0
    ensures !IsAll(v) && !IsAll(v2) ==>
              (c < 0 <==> v.major < v2.major || (v.major == v2.major && v.minor < v2.minor))
    ensures !IsAll(v) && !IsAll(v2) ==> (c == 0 <==> v == v2)
  {
    if IsAll(v) || IsAll(v2) then 0
    else if v.major < v2.major then -1
    else if v.major > v2.major then 1
    else if v.minor < v2.minor then -1
    else if v.minor > v2.minor then 1
    else 0
  }

  /** String: "all" for the pseudo-version, otherwise "major.minor" in
      decimal. */
  function VersionString(v: Version): (s: string)
    ensures IsAll(v) <==> s == "all"
  {
    if IsAll(v) then "all"
    else
      var s := IntToDecimal(v.major) + "." + IntToDecimal(v.minor);
      assert s[0] != 'a';
      s
  }

  // ---------------------------------------------------------------------
  // Properties

  /** Compare is antisymmetric and every version equals itself. */
  lemma CompareAntisymmetric(a: Version, b: Version)
    ensures Compare(a, b) == -Compare(b, a)
    ensures Compare(a, a) == 0
  {
  }

  /** On concrete versions Compare is a transitive order. */
  lemma CompareTransitive(a: Version, b: Version, c: Version)
    requires !IsAll(a) && !IsAll(b) && !IsAll(c)
    requires Compare(a, b) <= 0 && Compare(b, c) <= 0
    ensures Compare(a, c) <= 0
  {
  }

  /** Printing a version with a non-negative major number and parsing the text
      again gives the same version. */
  lemma ParseOfString(v: Version)
    requires v.major >= 0
    ensures ParseVersion(VersionString(v)) == Ok(v)
  {
    var a := IntToDecimal(v.major);
    var b := IntToDecimal(v.minor);
    assert '.' !in a by {
      assert AllDigits(a);
    }
    assert '.' !in b by {
      if v.minor < 0 {
        assert b == [b[0]] + b[1..];
      }
    }
    SplitAroundOne(a, b, '.');
    AtoiOfDecimal(v.major);
    AtoiOfDecimal(v.minor);
    assert VersionString(v) != "all";
    assert a + "." + b == a + ['.'] + b;
  }

  /** The accepted examples of version_test.go ("0.0", "0.1", "1.0", "5.6"
      and "all"): single digits around one dot. */
  lemma ParseAccepted(major: nat, minor: nat)
    requires major < 10 && minor < 10
    ensures ParseVersion([DigitChar(major), '.', DigitChar(minor)]) == Ok(Version(major, minor))
    ensures ParseVersion("all") == Ok(Version(-1, -1))
  {
    var v := Version(major, minor);
    var s := [DigitChar(major), '.', DigitChar(minor)];
    assert IntToDecimal(major) == [DigitChar(major)];
    assert IntToDecimal(minor) == [DigitChar(minor)];
    assert s == IntToDecimal(major) + "." + IntToDecimal(minor);
    assert VersionString(v) == s;
    ParseOfString(v);
  }

  /** The rejected examples of version_test.go: "0." has an empty minor part,
      "" and "a" have no dot, and "." has two empty parts. */
  lemma ParseRejected()
    ensures ParseVersion("0.").Err?
    ensures ParseVersion("").Err?
    ensures ParseVersion(".").Err?
    ensures ParseVersion("a").Err?
  {
    SplitAroundOne("0", "", '.');
    assert "0." == "0" + ['.'] + "";
    SplitAroundOne("", "", '.');
    assert "." == "" + ['.'] + "";
  }
}
