/** A generated Go package: its identity and the typedefs, enums and
    functions it exports, with the whitelist filter and the queries the
    templates use (package.go). */
module Packages {
  import opened Text
  import opened Versions
  import opened Types
  import opened Enums
  import opened Functions

  /** A function as one package exports it. */
  datatype PackageFunction = PackageFunction(fn: Function, required: bool, doc: string)

  /** The entries a whitelist keeps: everything when the whitelist is empty,
      otherwise the entries whose names it lists. */
  function FilterMap<V>(m: map<string, V>, keep: set<string>): (r: map<string, V>)
    ensures keep == {} ==> r == m
    ensures keep != {} ==> r.Keys == m.Keys * keep
    ensures forall k :: k in r ==> k in m && r[k] == m[k]
  {
    if |keep| == 0 then m else map k | k in m && k in keep :: m[k]
  }

  /** The digits of a version with the dot removed, as UniqueName uses
      them: "32" for 3.2, and "all" for the pseudo-version. */
  function VersionDigits(v: Version): string {
    if IsAll(v) then "all" else IntToDecimal(v.major) + IntToDecimal(v.minor)
  }

  /** Removing the dot from a printed version leaves the two numbers side by
      side. */
  lemma VersionWithoutDot(v: Version)
    ensures ReplaceChar(VersionString(v), '.', "") == VersionDigits(v)
  {
    if !IsAll(v) {
      var a := IntToDecimal(v.major);
      var b := IntToDecimal(v.minor);
      assert VersionString(v) == a + ['.'] + b;
      IntToDecimalChars(v.major, '.');
      IntToDecimalChars(v.minor, '.');
      DropOneChar(a, b, '.');
    } else {
      ReplaceCharAbsent("all", '.', "");
    }
  }

  lemma DropOneChar(a: string, b: string, c: char)
    requires c !in a && c !in b
    ensures ReplaceChar(a + [c] + b, c, "") == a + b
  {
    ReplaceCharAppend(a + [c], b, c, "");
    ReplaceCharAppend(a, [c], c, "");
    ReplaceCharAbsent(a, c, "");
    ReplaceCharAbsent(b, c, "");
    assert ReplaceChar([c], c, "") == ReplaceChar([], c, "") + "" == [];
    assert ReplaceChar(a + [c], c, "") == a;
  }

  /** The map while the filter loop runs: the keys still to visit are all
      there, the visited ones only when the whitelist lists them. */
  ghost function PartlyKept<V>(m: map<string, V>, keep: set<string>, todo: set<string>): map<string, V> {
    map k | k in m && (k in todo || k in keep) :: m[k]
  }

  /** Visiting one key drops it unless the whitelist lists it. */
  lemma PartlyKeptStep<V>(m: map<string, V>, keep: set<string>, todo: set<string>, n: string)
    requires n in todo
    ensures n !in keep ==> PartlyKept(m, keep, todo - {n}) == map k | k in PartlyKept(m, keep, todo) && k != n :: PartlyKept(m, keep, todo)[k]
    ensures n in keep ==> PartlyKept(m, keep, todo - {n}) == PartlyKept(m, keep, todo)
  {
  }

  /** The filter loop of Filter over one map, key by key in no fixed
      order. */
  method KeepListed<V>(m: map<string, V>, keep: set<string>) returns (r: map<string, V>)
    requires |keep| > 0
    ensures r == FilterMap(m, keep)
  {
    r := m;
    var names := m.Keys;
    assert PartlyKept(m, keep, names) == m;
    while names != {}
      invariant names <= m.Keys
      invariant r == PartlyKept(m, keep, names)
      decreases names
    {
      var n :| n in names;
      PartlyKeptStep(m, keep, names, n);
      if n !in keep {
        r := map k | k in r && k != n :: r[k];
      }
      names := names - {n};
    }
    assert r == PartlyKept(m, keep, {});
  }

  class Package {
    var name: string
    var api: string
    var version: Version
    var profile: string
    var tmplDir: string
    var typedefs: seq<Typedef>
    var enums: map<string, Enum>
    var functions: map<string, PackageFunction>

    constructor (name: string, api: string, version: Version, profile: string, tmplDir: string,
                 typedefs: seq<Typedef>, enums: map<string, Enum>, functions: map<string, PackageFunction>)
      ensures this.name == name && this.api == api && this.version == version
      ensures this.profile == profile && this.tmplDir == tmplDir && this.typedefs == typedefs
      ensures this.enums == enums && this.functions == functions
    {
      this.name := name;
      this.api := api;
      this.version := version;
      this.profile := profile;
      this.tmplDir := tmplDir;
      this.typedefs := typedefs;
      this.enums := enums;
      this.functions := functions;
    }

    /** UniqueName: API, profile and the version without its dot, e.g.
        "gl" + "core" + "32". */
    function UniqueName(): (r: string)
      reads this
      ensures r == api + profile + VersionDigits(version)
    {
      VersionWithoutDot(version);
      api + profile + ReplaceChar(VersionString(version), '.', "")
    }

    /** Filter: drops every enum and function not in its whitelist; an empty
        whitelist keeps that kind of entry as it is. */
    method Filter(enumSet: set<string>, functionSet: set<string>)
      modifies this
      ensures enums == FilterMap(old(enums), enumSet)
      ensures functions == FilterMap(old(functions), functionSet)
      ensures name == old(name) && api == old(api) && version == old(version)
      ensures profile == old(profile) && tmplDir == old(tmplDir) && typedefs == old(typedefs)
    {
      if |enumSet| > 0 {
        enums := KeepListed(enums, enumSet);
      }
      if |functionSet| > 0 {
        functions := KeepListed(functions, functionSet);
      }
    }

    /** HasRequiredFunctions: whether some function is required. */
    method HasRequiredFunctions() returns (r: bool)
      ensures r <==> exists n :: n in functions && functions[n].required
    {
      var names := functions.Keys;
      while names != {}
        invariant names <= functions.Keys
        invariant forall n :: n in functions && n !in names ==> !functions[n].required
        decreases names
      {
        var n :| n in names;
        if functions[n].required {
          return true;
        }
        names := names - {n};
      }
      return false;
    }

    /** HasDebugCallbackFeature: whether some parameter of some function has
        a debug callback type. */
    method HasDebugCallbackFeature() returns (r: bool)
      ensures r <==> exists n :: n in functions && HasDebugProcParameter(functions[n].fn)
    {
      var names := functions.Keys;
      while names != {}
        invariant names <= functions.Keys
        invariant forall n :: n in functions && n !in names ==> !HasDebugProcParameter(functions[n].fn)
        decreases names
      {
        var n :| n in names;
        var params := functions[n].fn.parameters;
        var i := 0;
        while i < |params|
          invariant 0 <= i <= |params|
          invariant forall j :: 0 <= j < i ==> !IsDebugProc(params[j].paramType)
        {
          if IsDebugProc(params[i].paramType) {
            return true;
          }
          i := i + 1;
        }
        names := names - {n};
      }
      return false;
    }
  }

  predicate HasDebugProcParameter(f: Function) {
    exists j :: 0 <= j < |f.parameters| && IsDebugProc(f.parameters[j].paramType)
  }

  // ---------------------------------------------------------------------
  // Properties of the filter

  /** Filtering twice with the same whitelist is filtering once. */
  lemma FilterMapIdempotent<V>(m: map<string, V>, keep: set<string>)
    ensures FilterMap(FilterMap(m, keep), keep) == FilterMap(m, keep)
  {
  }

  /** A name survives a non-empty whitelist exactly when it was there and is
      listed. */
  lemma FilterMapKeeps<V>(m: map<string, V>, keep: set<string>, k: string)
    requires keep != {}
    ensures k in FilterMap(m, keep) <==> k in m && k in keep
  {
  }

  /** Two non-empty whitelists applied one after the other keep the names
      listed in both. */
  lemma FilterMapCompose<V>(m: map<string, V>, a: set<string>, b: set<string>)
    requires a != {} && b != {}
    ensures FilterMap(FilterMap(m, a), b) == map k | k in m && k in a && k in b :: m[k]
  {
  }
}
