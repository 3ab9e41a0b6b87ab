/** The parsed registry and the resolution of one package from it: lookups
    with API fallback, the feature replay, the extension overlay and the
    typedef closure (spec.go). */
module Spec {
  import opened Wrappers
  import opened Versions
  import opened Types
  import opened Enums
  import opened Functions
  import opened SpecParse
  import opened Text

  /** A feature: the API and version it belongs to and what it adds and
      removes. */
  datatype Feature = Feature(api: string, version: Version, addRem: AddRemSet)

  /** A parsed registry. Every table is keyed by (name, api), with api ""
      for entries that serve every API. */
  datatype Specification = Specification(
    functions: map<Ref, Function>,
    enums: map<Ref, Enum>,
    typedefs: map<Ref, SpecTypedef>,
    features: seq<Feature>,
    extensions: seq<Extension>)

  /** The part of a package request that resolution reads. */
  datatype PackageSpec = PackageSpec(api: string, version: Version)

  /** A function as a resolved package holds it: whether a feature requires
      it and which extensions contributed it. */
  datatype PackageFunction = PackageFunction(fn: Function, required: bool, extensions: seq<string>)

  // ---------------------------------------------------------------------
  // Lookup with API fallback

  /** The entry stored for `name` under `api`, otherwise the one stored for
      `name` under every API (the `get` of specFunctions and specEnums). */
  function Get<V>(m: map<Ref, V>, name: string, api: string): (r: Option<V>)
    ensures r.Some? <==> Ref(name, api) in m || Ref(name, "") in m
    ensures r.Some? ==> r.value == if Ref(name, api) in m then m[Ref(name, api)] else m[Ref(name, "")]
  {
    if Ref(name, api) in m then Some(m[Ref(name, api)])
    else if Ref(name, "") in m then Some(m[Ref(name, "")])
    else None
  }

  /** An entry specific to the requested API shadows the generic one, and
      the generic one is found for any API that has no entry of its own. */
  lemma GetPrefersApi<V>(m: map<Ref, V>, name: string, api: string, generic: V)
    requires Ref(name, "") in m && m[Ref(name, "")] == generic
    ensures Ref(name, api) !in m ==> Get(m, name, api) == Some(generic)
    ensures Ref(name, api) in m ==> Get(m, name, api) == Some(m[Ref(name, api)])
    ensures Get(m, name, "") == Some(generic)
  {
  }

  // ---------------------------------------------------------------------
  // HasPackage

  /** Some feature of the registry is for `api` at a version comparing
      equal to `version`. */
  predicate Offers(features: seq<Feature>, api: string, version: Version) {
    exists i :: 0 <= i < |features| && features[i].api == api && Compare(version, features[i].version) == 0
  }

  /** HasPackage: whether the registry can generate the package. */
  method HasPackage(spec: Specification, pkgSpec: PackageSpec) returns (b: bool)
    ensures b <==> Offers(spec.features, pkgSpec.api, pkgSpec.version)
  {
    var i := 0;
    while i < |spec.features|
      invariant 0 <= i <= |spec.features|
      invariant forall j :: 0 <= j < i ==> !(spec.features[j].api == pkgSpec.api && Compare(pkgSpec.version, spec.features[j].version) == 0)
    {
      var feature := spec.features[i];
      if pkgSpec.api == feature.api && Compare(pkgSpec.version, feature.version) == 0 {
        return true;
      }
      i := i + 1;
    }
    return false;
  }

  /** The "all" version is offered exactly when the API has any feature. */
  lemma OffersAll(features: seq<Feature>, api: string, version: Version)
    requires IsAll(version)
    ensures Offers(features, api, version) <==> exists i :: 0 <= i < |features| && features[i].api == api
  {
    if i :| 0 <= i < |features| && features[i].api == api {
      assert Compare(version, features[i].version) == 0;
    }
  }

  // ---------------------------------------------------------------------
  // Feature replay

  /** The functions and enums a package holds at some point of resolution,
      by name. */
  datatype Selection = Selection(functions: map<string, PackageFunction>, enums: map<string, Enum>)

  const EmptySelection: Selection := Selection(map[], map[])

  /** A feature takes part in resolution when it is for the package's API
      and its version is not after the package's. */
  predicate Applies(f: Feature, api: string, version: Version) {
    f.api == api && Compare(version, f.version) >= 0
  }

  /** Every name resolves, with fallback, in `m`: the source dereferences
      the lookup without a check. */
  predicate Resolves<V>(m: map<Ref, V>, names: seq<string>, api: string) {
    forall n :: n in names ==> Get(m, n, api).Some?
  }

  /** The names of a list, as the set that deletion removes. */
  function Names(names: seq<string>): set<string> {
    set n | n in names
  }

  /** The entries the names resolve to. */
  function Resolved<V>(m: map<Ref, V>, names: seq<string>, api: string): (r: map<string, V>)
    requires Resolves(m, names, api)
    ensures r.Keys == Names(names)
    ensures forall n :: n in r ==> r[n] == Get(m, n, api).value
  {
    map n | n in names :: Get(m, n, api).value
  }

  /** The functions a feature adds: required and without extensions. */
  function RequiredFunctions(m: map<Ref, Function>, names: seq<string>, api: string): (r: map<string, PackageFunction>)
    requires Resolves(m, names, api)
    ensures r.Keys == Names(names)
    ensures forall n :: n in r ==> r[n] == PackageFunction(Get(m, n, api).value, true, [])
  {
    map n | n in names :: PackageFunction(Get(m, n, api).value, true, [])
  }

  /** Everything a feature adds can be resolved. */
  predicate FeatureResolves(spec: Specification, f: Feature, api: string) {
    Resolves(spec.functions, f.addRem.addedCommands, api) && Resolves(spec.enums, f.addRem.addedEnums, api)
  }

  /** The selection after one feature: its additions are made first and its
      removals afterwards, so a name both added and removed ends up absent. */
  function ApplyFeature(spec: Specification, sel: Selection, f: Feature, api: string): Selection
    requires FeatureResolves(spec, f, api)
  {
    Selection(
      (sel.functions + RequiredFunctions(spec.functions, f.addRem.addedCommands, api)) - Names(f.addRem.removedCommands),
      (sel.enums + Resolved(spec.enums, f.addRem.addedEnums, api)) - Names(f.addRem.removedEnums))
  }

  /** Every feature that takes part in resolving (api, version) resolves. */
  predicate ReplayResolves(spec: Specification, fs: seq<Feature>, api: string, version: Version) {
    forall i :: 0 <= i < |fs| && Applies(fs[i], api, version) ==> FeatureResolves(spec, fs[i], api)
  }

  /** The selection after replaying `fs` in registry order. */
  function Replay(spec: Specification, fs: seq<Feature>, api: string, version: Version): Selection
    requires ReplayResolves(spec, fs, api, version)
  {
    if |fs| == 0 then EmptySelection
    else
      var before := Replay(spec, fs[..|fs| - 1], api, version);
      var f := fs[|fs| - 1];
      if Applies(f, api, version) then ApplyFeature(spec, before, f, api) else before
  }

  /** The features that take part, in registry order. */
  function Applicable(fs: seq<Feature>, api: string, version: Version): (r: seq<Feature>)
    ensures forall f :: f in r <==> f in fs && Applies(f, api, version)
  {
    if |fs| == 0 then []
    else
      var init := Applicable(fs[..|fs| - 1], api, version);
      var f := fs[|fs| - 1];
      assert forall g :: g in fs <==> g in fs[..|fs| - 1] || g == f;
      if Applies(f, api, version) then init + [f] else init
  }

  /** The selection after applying every feature of `fs`. */
  function ReplayEach(spec: Specification, fs: seq<Feature>, api: string): Selection
    requires forall i :: 0 <= i < |fs| ==> FeatureResolves(spec, fs[i], api)
  {
    if |fs| == 0 then EmptySelection
    else ApplyFeature(spec, ReplayEach(spec, fs[..|fs| - 1], api), fs[|fs| - 1], api)
  }

  /** Skipped features have no effect: replaying the registry is applying,
      in order, exactly the features that take part. */
  lemma {:induction false} ReplayIsApplicable(spec: Specification, fs: seq<Feature>, api: string, version: Version)
    requires ReplayResolves(spec, fs, api, version)
    ensures forall i :: 0 <= i < |Applicable(fs, api, version)| ==> FeatureResolves(spec, Applicable(fs, api, version)[i], api)
    ensures Replay(spec, fs, api, version) == ReplayEach(spec, Applicable(fs, api, version), api)
  {
    var ap := Applicable(fs, api, version);
    forall i | 0 <= i < |ap|
      ensures FeatureResolves(spec, ap[i], api)
    {
      assert ap[i] in ap;
      var j :| 0 <= j < |fs| && fs[j] == ap[i];
    }
    if |fs| > 0 {
      var init := fs[..|fs| - 1];
      ReplayResolvesInit(spec, fs, api, version);
      ReplayIsApplicable(spec, init, api, version);
      var f := fs[|fs| - 1];
      if Applies(f, api, version) {
        assert ap[..|ap| - 1] == Applicable(init, api, version);
      }
    }
  }

  /** The features of one API, in registry order. */
  function ForApi(fs: seq<Feature>, api: string): (r: seq<Feature>)
    ensures forall f :: f in r <==> f in fs && f.api == api
  {
    if |fs| == 0 then []
    else
      var init := ForApi(fs[..|fs| - 1], api);
      var f := fs[|fs| - 1];
      assert forall g :: g in fs <==> g in fs[..|fs| - 1] || g == f;
      if f.api == api then init + [f] else init
  }

  /** With the "all" version every feature of the API takes part, the ones
      that remove included. */
  lemma {:induction false} ApplicableAll(fs: seq<Feature>, api: string, version: Version)
    requires IsAll(version)
    ensures Applicable(fs, api, version) == ForApi(fs, api)
    decreases |fs|
  {
    if |fs| > 0 {
      ApplicableAll(fs[..|fs| - 1], api, version);
      assert Compare(version, fs[|fs| - 1].version) == 0;
    }
  }

  /** The names a feature adds and removes, of commands when `commands`
      holds and of enums otherwise. */
  function Added(f: Feature, commands: bool): seq<string> {
    if commands then f.addRem.addedCommands else f.addRem.addedEnums
  }

  function Removed(f: Feature, commands: bool): seq<string> {
    if commands then f.addRem.removedCommands else f.addRem.removedEnums
  }

  /** The names a selection holds, of commands or of enums. */
  function Held(sel: Selection, commands: bool): set<string> {
    if commands then sel.functions.Keys else sel.enums.Keys
  }

  /** Feature `i` takes part, adds `n` without removing it, and no later
      feature that takes part removes `n`. */
  predicate LastAdded(fs: seq<Feature>, api: string, version: Version, n: string, commands: bool, i: int) {
    0 <= i < |fs| && Applies(fs[i], api, version)
    && n in Added(fs[i], commands) && n !in Removed(fs[i], commands)
    && forall j :: i < j < |fs| && Applies(fs[j], api, version) ==> n !in Removed(fs[j], commands)
  }

  /** A name is in the replayed package exactly when some feature that takes
      part adds it and neither that feature nor a later one removes it. */
  lemma {:induction false} ReplayKeys(spec: Specification, fs: seq<Feature>, api: string, version: Version, n: string, commands: bool)
    requires ReplayResolves(spec, fs, api, version)
    ensures n in Held(Replay(spec, fs, api, version), commands) <==> exists i :: LastAdded(fs, api, version, n, commands, i)
    decreases |fs|
  {
    if |fs| > 0 {
      var init := fs[..|fs| - 1];
      var f := fs[|fs| - 1];
      ReplayResolvesInit(spec, fs, api, version);
      ReplayKeys(spec, init, api, version, n, commands);
      var before := Replay(spec, init, api, version);
      if exists i :: LastAdded(fs, api, version, n, commands, i) {
        var i :| LastAdded(fs, api, version, n, commands, i);
        if i < |fs| - 1 {
          assert LastAdded(init, api, version, n, commands, i) by {
            forall j | i < j < |init| && Applies(init[j], api, version)
              ensures n !in Removed(init[j], commands)
            {
              assert init[j] == fs[j];
            }
          }
        }
      }
      if i :| LastAdded(init, api, version, n, commands, i) {
        if !Applies(f, api, version) || n !in Removed(f, commands) {
          assert LastAdded(fs, api, version, n, commands, i);
        }
      }
      if Applies(f, api, version) && n in Added(f, commands) && n !in Removed(f, commands) {
        assert LastAdded(fs, api, version, n, commands, |fs| - 1);
      }
    }
  }

  /** Every replayed function is required, has no extensions and is the
      registry's function for the name; every replayed enum is the
      registry's enum for the name. */
  lemma {:induction false} ReplayValues(spec: Specification, fs: seq<Feature>, api: string, version: Version)
    requires ReplayResolves(spec, fs, api, version)
    ensures var sel := Replay(spec, fs, api, version);
            forall n :: n in sel.functions ==> Get(spec.functions, n, api).Some? && sel.functions[n] == PackageFunction(Get(spec.functions, n, api).value, true, [])
    ensures var sel := Replay(spec, fs, api, version);
            forall n :: n in sel.enums ==> Get(spec.enums, n, api).Some? && sel.enums[n] == Get(spec.enums, n, api).value
    decreases |fs|
  {
    if |fs| > 0 {
      var init := fs[..|fs| - 1];
      ReplayResolvesInit(spec, fs, api, version);
      ReplayValues(spec, init, api, version);
    }
  }

  lemma ReplayResolvesInit(spec: Specification, fs: seq<Feature>, api: string, version: Version)
    requires |fs| > 0 && ReplayResolves(spec, fs, api, version)
    ensures ReplayResolves(spec, fs[..|fs| - 1], api, version)
  {
    var init := fs[..|fs| - 1];
    forall i | 0 <= i < |init| && Applies(init[i], api, version)
      ensures FeatureResolves(spec, init[i], api)
    {
      assert init[i] == fs[i];
    }
  }

  // ---------------------------------------------------------------------
  // Extension overlay

  /** The extensions allowed to contribute, whatever the package. */
  const Whitelist: set<string> := {"GL_ARB_compute_shader", "GL_ARB_vertex_buffer_object"}

  /** An extension contributes when it is whitelisted and its supported-API
      pattern matches the package's API; `matches` stands for the regular
      expression match, with a malformed pattern matching nothing. */
  predicate Contributes(ext: Extension, api: string, matches: (string, string) -> bool) {
    ext.name in Whitelist && matches(ext.apisRegexp, api)
  }

  /** Everything an extension adds can be resolved. */
  predicate ExtensionResolves(spec: Specification, ext: Extension, api: string) {
    Resolves(spec.functions, ext.addRem.addedCommands, api) && Resolves(spec.enums, ext.addRem.addedEnums, api)
  }

  /** The functions an extension offers: optional and marked with the
      extension's name. */
  function OptionalFunctions(m: map<Ref, Function>, names: seq<string>, api: string, ext: string): (r: map<string, PackageFunction>)
    requires Resolves(m, names, api)
    ensures r.Keys == Names(names)
    ensures forall n :: n in r ==> r[n] == PackageFunction(Get(m, n, api).value, false, [ext])
  {
    map n | n in names :: PackageFunction(Get(m, n, api).value, false, [ext])
  }

  /** The names of a list that resolves all resolve without its last one,
      which the loops over a list rely on one name at a time. */
  lemma ResolvesSnoc<V>(m: map<Ref, V>, names: seq<string>, n: string, api: string)
    requires Resolves(m, names + [n], api)
    ensures Resolves(m, names, api) && Get(m, n, api).Some?
  {
    assert n == (names + [n])[|names|];
    forall x | x in names
      ensures Get(m, x, api).Some?
    {
      var j :| 0 <= j < |names| && names[j] == x;
      assert (names + [n])[j] == x;
    }
  }

  lemma ResolvedSnoc<V>(m: map<Ref, V>, names: seq<string>, n: string, api: string)
    requires Resolves(m, names + [n], api)
    ensures Resolves(m, names, api)
    ensures Resolved(m, names + [n], api) == Resolved(m, names, api)[n := Get(m, n, api).value]
  {
    ResolvesSnoc(m, names, n, api);
    assert Names(names + [n]) == Names(names) + {n};
  }

  lemma RequiredFunctionsSnoc(m: map<Ref, Function>, names: seq<string>, n: string, api: string)
    requires Resolves(m, names + [n], api)
    ensures Resolves(m, names, api)
    ensures RequiredFunctions(m, names + [n], api)
            == RequiredFunctions(m, names, api)[n := PackageFunction(Get(m, n, api).value, true, [])]
  {
    ResolvesSnoc(m, names, n, api);
    assert Names(names + [n]) == Names(names) + {n};
  }

  lemma OptionalFunctionsSnoc(m: map<Ref, Function>, names: seq<string>, n: string, api: string, ext: string,
                              held: map<string, PackageFunction>)
    requires Resolves(m, names + [n], api)
    ensures Resolves(m, names, api)
    ensures OptionalFunctions(m, names + [n], api, ext) + held
            == if n in OptionalFunctions(m, names, api, ext) + held then OptionalFunctions(m, names, api, ext) + held
               else (OptionalFunctions(m, names, api, ext) + held)[n := PackageFunction(Get(m, n, api).value, false, [ext])]
  {
    ResolvesSnoc(m, names, n, api);
    assert Names(names + [n]) == Names(names) + {n};
  }

  /** Updating the right operand of a union updates the union. */
  lemma UnionUpdate<K, V>(a: map<K, V>, b: map<K, V>, k: K, v: V)
    ensures a + b[k := v] == (a + b)[k := v]
  {
  }

  /** The selection after one contributing extension: a function the
      package already holds keeps its entry unchanged, a new one is added
      as optional, and the extension's enums overwrite any held ones. */
  function ApplyExtension(spec: Specification, sel: Selection, ext: Extension, api: string): Selection
    requires ExtensionResolves(spec, ext, api)
  {
    Selection(
      OptionalFunctions(spec.functions, ext.addRem.addedCommands, api, ext.name) + sel.functions,
      sel.enums + Resolved(spec.enums, ext.addRem.addedEnums, api))
  }

  /** Every contributing extension resolves. */
  predicate OverlayResolves(spec: Specification, exts: seq<Extension>, api: string, matches: (string, string) -> bool) {
    forall i :: 0 <= i < |exts| && Contributes(exts[i], api, matches) ==> ExtensionResolves(spec, exts[i], api)
  }

  /** The selection after overlaying `exts` in registry order. */
  function Overlay(spec: Specification, sel: Selection, exts: seq<Extension>, api: string, matches: (string, string) -> bool): Selection
    requires OverlayResolves(spec, exts, api, matches)
  {
    if |exts| == 0 then sel
    else
      var before := Overlay(spec, sel, exts[..|exts| - 1], api, matches);
      var ext := exts[|exts| - 1];
      if Contributes(ext, api, matches) then ApplyExtension(spec, before, ext, api) else before
  }

  lemma OverlayResolvesInit(spec: Specification, exts: seq<Extension>, api: string, matches: (string, string) -> bool)
    requires |exts| > 0 && OverlayResolves(spec, exts, api, matches)
    ensures OverlayResolves(spec, exts[..|exts| - 1], api, matches)
  {
    var init := exts[..|exts| - 1];
    forall i | 0 <= i < |init| && Contributes(init[i], api, matches)
      ensures ExtensionResolves(spec, init[i], api)
    {
      assert init[i] == exts[i];
    }
  }

  /** The overlay never drops or changes a function the features selected,
      and never drops an enum. */
  lemma {:induction false} OverlayKeeps(spec: Specification, sel: Selection, exts: seq<Extension>, api: string, matches: (string, string) -> bool)
    requires OverlayResolves(spec, exts, api, matches)
    ensures var r := Overlay(spec, sel, exts, api, matches);
            forall n :: n in sel.functions ==> n in r.functions && r.functions[n] == sel.functions[n]
    ensures sel.enums.Keys <= Overlay(spec, sel, exts, api, matches).enums.Keys
    decreases |exts|
  {
    if |exts| > 0 {
      OverlayResolvesInit(spec, exts, api, matches);
      OverlayKeeps(spec, sel, exts[..|exts| - 1], api, matches);
    }
  }

  /** A function the overlay brings in is optional, carries exactly one
      extension, that extension is whitelisted, contributes and lists the
      function, and the function is the registry's one for the name. */
  lemma {:induction false} OverlayNew(spec: Specification, sel: Selection, exts: seq<Extension>, api: string, matches: (string, string) -> bool, n: string)
    requires OverlayResolves(spec, exts, api, matches)
    requires n in Overlay(spec, sel, exts, api, matches).functions && n !in sel.functions
    ensures var f := Overlay(spec, sel, exts, api, matches).functions[n];
            !f.required && |f.extensions| == 1 && f.extensions[0] in Whitelist
            && Get(spec.functions, n, api).Some? && f.fn == Get(spec.functions, n, api).value
    ensures exists i :: 0 <= i < |exts| && Contributes(exts[i], api, matches)
                        && exts[i].name == Overlay(spec, sel, exts, api, matches).functions[n].extensions[0]
                        && n in exts[i].addRem.addedCommands
    decreases |exts|
  {
    var init := exts[..|exts| - 1];
    var ext := exts[|exts| - 1];
    OverlayResolvesInit(spec, exts, api, matches);
    var before := Overlay(spec, sel, init, api, matches);
    if n in before.functions {
      OverlayNew(spec, sel, init, api, matches, n);
      OverlayKeeps(spec, before, [ext], api, matches);
      var i :| 0 <= i < |init| && Contributes(init[i], api, matches)
               && init[i].name == before.functions[n].extensions[0]
               && n in init[i].addRem.addedCommands;
      assert exts[i] == init[i];
    } else {
      assert |exts| - 1 >= 0 && Contributes(ext, api, matches) && n in ext.addRem.addedCommands;
    }
  }

  // ---------------------------------------------------------------------
  // Typedef closure

  /** The entries selectRequired visits from `name`: the one found with
      fallback, then those its requirement leads to. None when the chain
      is longer than `fuel`. */
  function Chain(tds: map<Ref, SpecTypedef>, name: string, api: string, fuel: nat): Option<seq<SpecTypedef>>
    decreases fuel
  {
    if fuel == 0 then None
    else match Get(tds, name, api)
      case None => Some([])
      case Some(e) =>
        if e.requirement == "" then Some([e])
        else match Chain(tds, e.requirement, api, fuel - 1)
          case None => None
          case Some(rest) => Some([e] + rest)
  }

  /** The requirement chain of every typedef ends within as many steps as
      there are typedefs: the links form no cycle. */
  predicate Acyclic(tds: map<Ref, SpecTypedef>, api: string) {
    forall r :: r in tds ==> Chain(tds, r.name, api, |tds| + 1).Some?
  }

  /** Every ordinal indexes a buffer of length `n`. */
  predicate OrdinalsBelow(tds: map<Ref, SpecTypedef>, n: nat) {
    forall r :: r in tds ==> tds[r].ordinal < n
  }

  /** Distinct keys have distinct ordinals, as parseTypedefs assigns them. */
  predicate UniqueOrdinals(tds: map<Ref, SpecTypedef>) {
    forall r1, r2 :: r1 in tds && r2 in tds && r1 != r2 ==> tds[r1].ordinal != tds[r2].ordinal
  }

  /** The entries reached from `name`. */
  function Reach(tds: map<Ref, SpecTypedef>, name: string, api: string): seq<SpecTypedef> {
    match Chain(tds, name, api, |tds| + 1)
    case Some(c) => c
    case None => []
  }

  function Elements(c: seq<SpecTypedef>): set<SpecTypedef> {
    set e | e in c
  }

  /** The entries reached from any of `names`. */
  function Closure(tds: map<Ref, SpecTypedef>, api: string, names: set<string>): set<SpecTypedef> {
    set n, e | n in names && e in Reach(tds, n, api) :: e
  }

  /** In an acyclic table the chain from any name, listed or not, ends. */
  lemma ChainAnyName(tds: map<Ref, SpecTypedef>, name: string, api: string)
    requires Acyclic(tds, api)
    ensures Chain(tds, name, api, |tds| + 1).Some?
  {
    if Ref(name, api) in tds {
      assert Ref(name, api).name == name;
    } else if Ref(name, "") in tds {
      assert Ref(name, "").name == name;
    }
  }

  /** A chain visits entries of the table only. */
  lemma {:induction false} ChainInTable(tds: map<Ref, SpecTypedef>, name: string, api: string, fuel: nat)
    requires Chain(tds, name, api, fuel).Some?
    ensures Elements(Chain(tds, name, api, fuel).value) <= tds.Values
    decreases fuel
  {
    var g := Get(tds, name, api);
    if g.Some? && g.value.requirement != "" {
      ChainInTable(tds, g.value.requirement, api, fuel - 1);
    }
  }

  lemma ClosureInTable(tds: map<Ref, SpecTypedef>, api: string, names: set<string>)
    ensures Closure(tds, api, names) <= tds.Values
  {
    forall n | n in names && Chain(tds, n, api, |tds| + 1).Some? {
      ChainInTable(tds, n, api, |tds| + 1);
    }
  }

  lemma ClosureAdd(tds: map<Ref, SpecTypedef>, api: string, names: set<string>, n: string)
    ensures Closure(tds, api, names + {n}) == Closure(tds, api, names) + Elements(Reach(tds, n, api))
  {
  }

  /** The buffer `s` holds exactly the typedefs of `entries`, each at its
      ordinal, and nothing else. */
  predicate Marked(s: seq<Option<Typedef>>, entries: set<SpecTypedef>) {
    (forall e :: e in entries ==> e.ordinal < |s| && s[e.ordinal] == Some(e.typedef))
    && (forall o :: 0 <= o < |s| && s[o].Some? ==> exists e :: e in entries && e.ordinal == o)
  }

  /** Writing one more entry of the table keeps the buffer exact. */
  lemma MarkedAdd(tds: map<Ref, SpecTypedef>, s: seq<Option<Typedef>>, entries: set<SpecTypedef>, e: SpecTypedef)
    requires UniqueOrdinals(tds) && entries <= tds.Values && e in tds.Values
    requires Marked(s, entries) && e.ordinal < |s|
    ensures Marked(s[e.ordinal := Some(e.typedef)], entries + {e})
  {
    forall x | x in entries && x.ordinal == e.ordinal
      ensures x == e
    {
      var r1 :| r1 in tds && tds[r1] == x;
      var r2 :| r2 in tds && tds[r2] == e;
    }
  }

  /** selectRequired: writes every entry of the chain from `name` into the
      buffer at its ordinal. */
  method SelectRequired(tds: map<Ref, SpecTypedef>, name: string, api: string, a: array<Option<Typedef>>,
                        ghost fuel: nat, ghost marked: set<SpecTypedef>)
    requires Chain(tds, name, api, fuel).Some?
    requires OrdinalsBelow(tds, a.Length) && UniqueOrdinals(tds)
    requires marked <= tds.Values && Marked(a[..], marked)
    modifies a
    ensures Marked(a[..], marked + Elements(Chain(tds, name, api, fuel).value))
    decreases fuel
  {
    var e: SpecTypedef;
    if Ref(name, api) in tds {
      e := tds[Ref(name, api)];
    } else if Ref(name, "") in tds {
      e := tds[Ref(name, "")];
    } else {
      return;
    }
    MarkedAdd(tds, a[..], marked, e);
    a[e.ordinal] := Some(e.typedef);
    assert a[..] == old(a[..])[e.ordinal := Some(e.typedef)];
    if e.requirement != "" {
      SelectRequired(tds, e.requirement, api, a, fuel - 1, marked + {e});
      assert Elements(Chain(tds, name, api, fuel).value) == {e} + Elements(Chain(tds, e.requirement, api, fuel - 1).value);
    } else {
      assert Elements(Chain(tds, name, api, fuel).value) == {e};
    }
  }

  /** The typedefs present in the buffer, in buffer order. */
  function Compact(s: seq<Option<Typedef>>): seq<Typedef> {
    if |s| == 0 then []
    else Compact(s[..|s| - 1]) + (if s[|s| - 1].Some? then [s[|s| - 1].value] else [])
  }

  /** The positions of the buffer that hold a typedef, ascending. */
  function Present(s: seq<Option<Typedef>>): seq<nat> {
    if |s| == 0 then []
    else Present(s[..|s| - 1]) + (if s[|s| - 1].Some? then [|s| - 1] else [])
  }

  /** The compacted buffer lists the held typedefs in ascending position,
      each once, and every held position is listed. */
  lemma {:induction false} CompactPositions(s: seq<Option<Typedef>>)
    ensures |Present(s)| == |Compact(s)|
    ensures forall k :: 0 <= k < |Present(s)| ==> Present(s)[k] < |s| && s[Present(s)[k]] == Some(Compact(s)[k])
    ensures forall k, l :: 0 <= k < l < |Present(s)| ==> Present(s)[k] < Present(s)[l]
    ensures forall o :: 0 <= o < |s| && s[o].Some? ==> o in Present(s)
    decreases |s|
  {
    if |s| > 0 {
      var init := s[..|s| - 1];
      CompactPositions(init);
      forall o | 0 <= o < |init| && init[o].Some?
        ensures o in Present(s)
      {
        assert o in Present(init);
      }
    }
  }

  /** The in-place compaction of ToPackage: moves the typedefs to the front
      of the buffer, keeping their order, and returns how many there are. */
  method CompactInPlace(a: array<Option<Typedef>>) returns (count: nat)
    modifies a
    ensures count <= a.Length && count == |Compact(old(a[..]))|
    ensures forall j :: 0 <= j < count ==> a[j] == Some(Compact(old(a[..]))[j])
  {
    ghost var s := a[..];
    count := 0;
    var i := 0;
    while i < a.Length
      invariant count <= i <= a.Length
      invariant forall j :: i <= j < a.Length ==> a[j] == s[j]
      invariant count == |Compact(s[..i])|
      invariant forall j :: 0 <= j < count ==> a[j] == Some(Compact(s[..i])[j])
    {
      assert s[..i + 1][..i] == s[..i];
      var typedef := a[i];
      if typedef.Some? {
        a[count] := typedef;
        count := count + 1;
      }
      i := i + 1;
    }
    assert s[..i] == s;
  }

  /** A buffer prefix holding only typedefs compacts to itself. */
  lemma {:induction false} CompactAllPresent(s: seq<Option<Typedef>>, ts: seq<Typedef>)
    requires |s| == |ts| && forall j :: 0 <= j < |s| ==> s[j] == Some(ts[j])
    ensures Compact(s) == ts
    decreases |s|
  {
    if |s| > 0 {
      CompactAllPresent(s[..|s| - 1], ts[..|ts| - 1]);
    }
  }

  /** A buffer holding exactly `entries` compacts to their typedefs in
      ascending ordinal order: each entry appears at the position of its
      ordinal among the held ones ... */
  lemma CompactMarkedEntries(s: seq<Option<Typedef>>, entries: set<SpecTypedef>)
    requires Marked(s, entries)
    ensures |Present(s)| == |Compact(s)|
    ensures forall k, l :: 0 <= k < l < |Present(s)| ==> Present(s)[k] < Present(s)[l]
    ensures forall e :: e in entries ==>
              exists k :: 0 <= k < |Compact(s)| && Present(s)[k] == e.ordinal && Compact(s)[k] == e.typedef
  {
    CompactPositions(s);
    var p := Present(s);
    forall e | e in entries
      ensures exists k :: 0 <= k < |p| && p[k] == e.ordinal && Compact(s)[k] == e.typedef
    {
      assert s[e.ordinal].Some?;
      var k :| 0 <= k < |p| && p[k] == e.ordinal;
    }
  }

  /** ... and nothing else appears. */
  lemma CompactMarkedOnly(s: seq<Option<Typedef>>, entries: set<SpecTypedef>)
    requires Marked(s, entries)
    ensures |Present(s)| == |Compact(s)|
    ensures forall k :: 0 <= k < |Compact(s)| ==>
              exists e :: e in entries && e.ordinal == Present(s)[k] && e.typedef == Compact(s)[k]
  {
    CompactPositions(s);
    var p := Present(s);
    forall k | 0 <= k < |Compact(s)|
      ensures exists e :: e in entries && e.ordinal == p[k] && e.typedef == Compact(s)[k]
    {
      assert p[k] < |s| && s[p[k]].Some?;
      var e :| e in entries && e.ordinal == p[k];
    }
  }

  /** The type names a function's declaration needs: its return type and
      its parameter types. */
  function ParamNames(ps: seq<Parameter>): set<string> {
    set p | p in ps :: p.paramType.name
  }

  function TypeNames(f: Function): set<string> {
    {f.returnType.name} + ParamNames(f.parameters)
  }

  /** The type names the functions of a package need. */
  function Roots(fns: map<string, PackageFunction>): set<string> {
    set k, n | k in fns && n in TypeNames(fns[k].fn) :: n
  }

  lemma RootsAdd(fns: map<string, PackageFunction>, remaining: set<string>, k: string)
    requires k in remaining && remaining <= fns.Keys
    ensures Roots(fns - (remaining - {k})) == Roots(fns - remaining) + TypeNames(fns[k].fn)
  {
    var after := fns - (remaining - {k});
    var before := fns - remaining;
    assert k in after && after[k] == fns[k];
    forall n | n in Roots(after)
      ensures n in Roots(before) + TypeNames(fns[k].fn)
    {
      var k2 :| k2 in after && n in TypeNames(after[k2].fn);
      if k2 != k {
        assert k2 in before && before[k2] == after[k2];
      }
    }
    forall n | n in Roots(before)
      ensures n in Roots(after)
    {
      var k2 :| k2 in before && n in TypeNames(before[k2].fn);
      assert k2 in after && after[k2] == before[k2];
    }
  }

  lemma ParamNamesNext(ps: seq<Parameter>, j: nat)
    requires j < |ps|
    ensures ParamNames(ps[..j + 1]) == ParamNames(ps[..j]) + {ps[j].paramType.name}
  {
    assert ps[..j + 1] == ps[..j] + [ps[j]];
  }

  /** One call of selectRequired from ToPackage, with the whole chain of
      an acyclic table. */
  method SelectName(tds: map<Ref, SpecTypedef>, n: string, api: string, a: array<Option<Typedef>>, ghost names: set<string>)
    requires Acyclic(tds, api) && OrdinalsBelow(tds, a.Length) && UniqueOrdinals(tds)
    requires Marked(a[..], Closure(tds, api, names))
    modifies a
    ensures Marked(a[..], Closure(tds, api, names + {n}))
  {
    ChainAnyName(tds, n, api);
    ClosureInTable(tds, api, names);
    SelectRequired(tds, n, api, a, |tds| + 1, Closure(tds, api, names));
    ClosureAdd(tds, api, names, n);
  }

  /** The typedefs one function's declaration needs. */
  method SelectFunction(tds: map<Ref, SpecTypedef>, fn: Function, api: string, a: array<Option<Typedef>>, ghost names: set<string>)
    requires Acyclic(tds, api) && OrdinalsBelow(tds, a.Length) && UniqueOrdinals(tds)
    requires Marked(a[..], Closure(tds, api, names))
    modifies a
    ensures Marked(a[..], Closure(tds, api, names + TypeNames(fn)))
  {
    SelectName(tds, fn.returnType.name, api, a, names);
    ghost var done := names + {fn.returnType.name};
    var j := 0;
    while j < |fn.parameters|
      invariant 0 <= j <= |fn.parameters|
      invariant done == names + {fn.returnType.name} + ParamNames(fn.parameters[..j])
      invariant Marked(a[..], Closure(tds, api, done))
    {
      SelectName(tds, fn.parameters[j].paramType.name, api, a, done);
      ParamNamesNext(fn.parameters, j);
      done := done + {fn.parameters[j].paramType.name};
      j := j + 1;
    }
    assert fn.parameters[..j] == fn.parameters;
  }

  /** The closure loop of ToPackage: selects, for every function of the
      package, the typedefs its return type and parameter types reach. */
  method SelectAll(tds: map<Ref, SpecTypedef>, fns: map<string, PackageFunction>, api: string, a: array<Option<Typedef>>)
    requires Acyclic(tds, api) && OrdinalsBelow(tds, a.Length) && UniqueOrdinals(tds)
    requires Marked(a[..], {})
    modifies a
    ensures Marked(a[..], Closure(tds, api, Roots(fns)))
  {
    var remaining := fns.Keys;
    assert Closure(tds, api, {}) == {};
    assert fns - remaining == map[];
    while remaining != {}
      invariant remaining <= fns.Keys
      invariant Marked(a[..], Closure(tds, api, Roots(fns - remaining)))
      decreases remaining
    {
      var k :| k in remaining;
      SelectFunction(tds, fns[k].fn, api, a, Roots(fns - remaining));
      RootsAdd(fns, remaining, k);
      remaining := remaining - {k};
    }
    assert fns - remaining == fns;
  }

  // ---------------------------------------------------------------------
  // ToPackage

  /** The functions and enums the package for `pkgSpec` holds: the feature
      replay followed by the extension overlay. */
  function Resolution(spec: Specification, pkgSpec: PackageSpec, matches: (string, string) -> bool): Selection
    requires ReplayResolves(spec, spec.features, pkgSpec.api, pkgSpec.version)
    requires OverlayResolves(spec, spec.extensions, pkgSpec.api, matches)
  {
    Overlay(spec, Replay(spec, spec.features, pkgSpec.api, pkgSpec.version), spec.extensions, pkgSpec.api, matches)
  }

  /** The command loop of an extension's overlay: each command the
      package lacks becomes an optional function of the extension; one it
      already has is kept. */
  method OverlayCommands(fns: map<Ref, Function>, cmds: seq<string>, api: string, ext: string,
                         held: map<string, PackageFunction>)
    returns (m: map<string, PackageFunction>)
    requires Resolves(fns, cmds, api)
    ensures m == OptionalFunctions(fns, cmds, api, ext) + held
  {
    m := held;
    var i := 0;
    while i < |cmds|
      invariant 0 <= i <= |cmds|
      invariant Resolves(fns, cmds[..i], api)
      invariant m == OptionalFunctions(fns, cmds[..i], api, ext) + held
    {
      var cmd := cmds[i];
      TakeSnoc(cmds, i);
      OptionalFunctionsSnoc(fns, cmds[..i], cmd, api, ext, held);
      if cmd !in m {
        m := m[cmd := PackageFunction(Get(fns, cmd, api).value, false, [ext])];
      }
      i := i + 1;
    }
    TakeAll(cmds);
  }

  /** A package as ToPackage builds it, with the API it was requested for. */
  class Package {
    var api: string
    var name: string
    var version: Version
    var typedefs: seq<Typedef>
    var enums: map<string, Enum>
    var functions: map<string, PackageFunction>

    /** An empty package for `api` at `version`, named after its API. */
    constructor (api: string, version: Version)
      ensures this.api == api && name == api && this.version == version
      ensures typedefs == [] && enums == map[] && functions == map[]
    {
      this.api := api;
      name := api;
      this.version := version;
      typedefs := [];
      enums := map[];
      functions := map[];
    }

    /** The functions and enums currently held. */
    function Current(): Selection
      reads this
    {
      Selection(functions, enums)
    }

    /** Adds each command as a required function without extensions. */
    method AddRequired(spec: Specification, cmds: seq<string>)
      requires Resolves(spec.functions, cmds, api)
      modifies this`functions
      ensures functions == old(functions) + RequiredFunctions(spec.functions, cmds, api)
    {
      ghost var m0 := functions;
      var m := functions;
      var i := 0;
      while i < |cmds|
        invariant 0 <= i <= |cmds|
        invariant Resolves(spec.functions, cmds[..i], api)
        invariant m == m0 + RequiredFunctions(spec.functions, cmds[..i], api)
      {
        var cmd := cmds[i];
        TakeSnoc(cmds, i);
        RequiredFunctionsSnoc(spec.functions, cmds[..i], cmd, api);
        UnionUpdate(m0, RequiredFunctions(spec.functions, cmds[..i], api), cmd,
                    PackageFunction(Get(spec.functions, cmd, api).value, true, []));
        m := m[cmd := PackageFunction(Get(spec.functions, cmd, api).value, true, [])];
        i := i + 1;
      }
      TakeAll(cmds);
      functions := m;
    }

    /** Adds (or overwrites) each enum with the registry's one. */
    method AddEnums(spec: Specification, names: seq<string>)
      requires Resolves(spec.enums, names, api)
      modifies this`enums
      ensures enums == old(enums) + Resolved(spec.enums, names, api)
    {
      ghost var m0 := enums;
      var m := enums;
      var i := 0;
      while i < |names|
        invariant 0 <= i <= |names|
        invariant Resolves(spec.enums, names[..i], api)
        invariant m == m0 + Resolved(spec.enums, names[..i], api)
      {
        var name := names[i];
        TakeSnoc(names, i);
        ResolvedSnoc(spec.enums, names[..i], name, api);
        UnionUpdate(m0, Resolved(spec.enums, names[..i], api), name, Get(spec.enums, name, api).value);
        m := m[name := Get(spec.enums, name, api).value];
        i := i + 1;
      }
      TakeAll(names);
      enums := m;
    }

    /** Deletes each command; deleting an absent one does nothing. */
    method RemoveCommands(names: seq<string>)
      modifies this`functions
      ensures functions == old(functions) - Names(names)
    {
      var i := 0;
      while i < |names|
        invariant 0 <= i <= |names|
        invariant functions == old(functions) - Names(names[..i])
      {
        assert names[..i + 1] == names[..i] + [names[i]];
        functions := functions - {names[i]};
        i := i + 1;
      }
      assert names[..i] == names;
    }

    /** Deletes each enum; deleting an absent one does nothing. */
    method RemoveEnums(names: seq<string>)
      modifies this`enums
      ensures enums == old(enums) - Names(names)
    {
      var i := 0;
      while i < |names|
        invariant 0 <= i <= |names|
        invariant enums == old(enums) - Names(names[..i])
      {
        assert names[..i + 1] == names[..i] + [names[i]];
        enums := enums - {names[i]};
        i := i + 1;
      }
      assert names[..i] == names;
    }

    /** One feature of the replay: command adds, enum adds, command
      removals, enum removals, in that order. */
    method ReplayFeature(spec: Specification, f: Feature)
      requires FeatureResolves(spec, f, api)
      modifies this`functions, this`enums
      ensures Current() == ApplyFeature(spec, old(Current()), f, api)
    {
      AddRequired(spec, f.addRem.addedCommands);
      AddEnums(spec, f.addRem.addedEnums);
      RemoveCommands(f.addRem.removedCommands);
      RemoveEnums(f.addRem.removedEnums);
    }

    /** One contributing extension: a command the package lacks is added
      as optional with this extension; a held one is left as stored, since
      the source extends a copy that it never writes back. The enums are
      added or overwritten. */
    method OverlayExtension(spec: Specification, ext: Extension)
      requires ExtensionResolves(spec, ext, api)
      modifies this`functions, this`enums
      ensures Current() == ApplyExtension(spec, old(Current()), ext, api)
    {
      functions := OverlayCommands(spec.functions, ext.addRem.addedCommands, api, ext.name, functions);
      AddEnums(spec, ext.addRem.addedEnums);
    }
  }

  lemma ReplayStep(spec: Specification, fs: seq<Feature>, api: string, version: Version, i: nat)
    requires i < |fs| && ReplayResolves(spec, fs, api, version)
    ensures ReplayResolves(spec, fs[..i], api, version) && ReplayResolves(spec, fs[..i + 1], api, version)
    ensures Replay(spec, fs[..i + 1], api, version)
            == if Applies(fs[i], api, version) then ApplyFeature(spec, Replay(spec, fs[..i], api, version), fs[i], api)
               else Replay(spec, fs[..i], api, version)
  {
    var pre := fs[..i + 1];
    assert pre[..i] == fs[..i];
    forall j | 0 <= j < |pre| && Applies(pre[j], api, version)
      ensures FeatureResolves(spec, pre[j], api)
    {
      assert pre[j] == fs[j];
    }
    ReplayResolvesInit(spec, pre, api, version);
  }

  lemma OverlayStep(spec: Specification, sel: Selection, exts: seq<Extension>, api: string, matches: (string, string) -> bool, i: nat)
    requires i < |exts| && OverlayResolves(spec, exts, api, matches)
    ensures OverlayResolves(spec, exts[..i], api, matches) && OverlayResolves(spec, exts[..i + 1], api, matches)
    ensures Overlay(spec, sel, exts[..i + 1], api, matches)
            == if Contributes(exts[i], api, matches) then ApplyExtension(spec, Overlay(spec, sel, exts[..i], api, matches), exts[i], api)
               else Overlay(spec, sel, exts[..i], api, matches)
  {
    var pre := exts[..i + 1];
    assert pre[..i] == exts[..i];
    forall j | 0 <= j < |pre| && Contributes(pre[j], api, matches)
      ensures ExtensionResolves(spec, pre[j], api)
    {
      assert pre[j] == exts[j];
    }
    OverlayResolvesInit(spec, pre, api, matches);
  }

  /** The feature loop of ToPackage, on a package that holds nothing yet. */
  method ReplayFeatures(spec: Specification, pkg: Package)
    requires ReplayResolves(spec, spec.features, pkg.api, pkg.version)
    requires pkg.Current() == EmptySelection
    modifies pkg`functions, pkg`enums
    ensures pkg.Current() == Replay(spec, spec.features, pkg.api, pkg.version)
  {
    var features := spec.features;
    var i := 0;
    while i < |features|
      invariant 0 <= i <= |features|
      invariant ReplayResolves(spec, features[..i], pkg.api, pkg.version)
      invariant pkg.Current() == Replay(spec, features[..i], pkg.api, pkg.version)
    {
      ReplayStep(spec, features, pkg.api, pkg.version, i);
      var feature := features[i];
      if pkg.api == feature.api && Compare(pkg.version, feature.version) >= 0 {
        pkg.ReplayFeature(spec, feature);
      }
      i := i + 1;
    }
    assert features[..i] == features;
  }

  /** The extension loop of ToPackage. */
  method OverlayExtensions(spec: Specification, pkg: Package, matches: (string, string) -> bool)
    requires OverlayResolves(spec, spec.extensions, pkg.api, matches)
    modifies pkg`functions, pkg`enums
    ensures pkg.Current() == Overlay(spec, old(pkg.Current()), spec.extensions, pkg.api, matches)
  {
    ghost var replayed := pkg.Current();
    var exts := spec.extensions;
    var i := 0;
    while i < |exts|
      invariant 0 <= i <= |exts|
      invariant OverlayResolves(spec, exts[..i], pkg.api, matches)
      invariant pkg.Current() == Overlay(spec, replayed, exts[..i], pkg.api, matches)
    {
      OverlayStep(spec, replayed, exts, pkg.api, matches, i);
      var ext := exts[i];
      if ext.name in Whitelist && matches(ext.apisRegexp, pkg.api) {
        pkg.OverlayExtension(spec, ext);
      }
      i := i + 1;
    }
    assert exts[..i] == exts;
  }

  /** The typedef part of ToPackage: selects into a buffer with one slot per
      typedef, then keeps the filled slots in order. */
  method SelectTypedefs(tds: map<Ref, SpecTypedef>, fns: map<string, PackageFunction>, api: string)
    returns (typedefs: seq<Typedef>, ghost marks: seq<Option<Typedef>>)
    requires Acyclic(tds, api) && OrdinalsBelow(tds, |tds|) && UniqueOrdinals(tds)
    ensures |marks| == |tds| && Marked(marks, Closure(tds, api, Roots(fns)))
    ensures typedefs == Compact(marks)
  {
    var buffer := new Option<Typedef>[|tds|](_ => None);
    SelectAll(tds, fns, api, buffer);
    marks := buffer[..];
    var count := CompactInPlace(buffer);
    CompactAllPresent(buffer[..count], Compact(marks));
    typedefs := Compact(buffer[..count]);
  }

  /** ToPackage: the package for `pkgSpec`. Its functions and enums are the
      resolution's, and its typedefs are exactly those reached from the
      types its functions use, compacted in ordinal order. The lookups
      must resolve, the requirement links must form no cycle and the
      ordinals must index a buffer with one slot per typedef. */
  method ToPackage(spec: Specification, pkgSpec: PackageSpec, matches: (string, string) -> bool)
    returns (pkg: Package, ghost marks: seq<Option<Typedef>>)
    requires ReplayResolves(spec, spec.features, pkgSpec.api, pkgSpec.version)
    requires OverlayResolves(spec, spec.extensions, pkgSpec.api, matches)
    requires Acyclic(spec.typedefs, pkgSpec.api)
    requires OrdinalsBelow(spec.typedefs, |spec.typedefs|) && UniqueOrdinals(spec.typedefs)
    ensures fresh(pkg)
    ensures pkg.api == pkgSpec.api && pkg.name == pkgSpec.api && pkg.version == pkgSpec.version
    ensures pkg.Current() == Resolution(spec, pkgSpec, matches)
    ensures |marks| == |spec.typedefs| && Marked(marks, Closure(spec.typedefs, pkgSpec.api, Roots(pkg.functions)))
    ensures pkg.typedefs == Compact(marks)
  {
    pkg := new Package(pkgSpec.api, pkgSpec.version);
    ReplayFeatures(spec, pkg);
    OverlayExtensions(spec, pkg, matches);
    var typedefs;
    typedefs, marks := SelectTypedefs(spec.typedefs, pkg.functions, pkg.api);
    pkg.typedefs := typedefs;
  }
}
