/** The OpenGL reference pages grouped by major version: URL building, the
    prefix lookup of a command by binary search, annotating packages, and
    the filter over the page index (doc.go). */
module DocIndex {
  import opened Wrappers
  import opened Text
  import opened Versions
  import opened Packages

  // ---------------------------------------------------------------------
  // URLs

  const DocRoot: string := "https://www.opengl.org/sdk/docs/man"

  /** The manual edition for a major version: "2" below 3, otherwise the
      major version in decimal. */
  function ManVersion(majorVersion: GoInt): (v: string)
    ensures majorVersion < 3 ==> v == "2"
    ensures majorVersion >= 3 ==> Atoi(v) == Some(majorVersion as int) && AllDigits(v)
  {
    if majorVersion >= 3 then
      AtoiOfDecimal(majorVersion);
      IntToDecimal(majorVersion)
    else "2"
  }

  /** makeGLDocUrl: the root of the manual edition. */
  function MakeGLDocUrl(majorVersion: GoInt): (r: string)
    ensures HasPrefix(r, DocRoot) && r[|DocRoot|..] == ManVersion(majorVersion)
  {
    DocRoot + ManVersion(majorVersion)
  }

  /** makeCmdDocUrl: the page of one command, below the root of its
      manual edition. */
  function MakeCmdDocUrl(cmdName: string, majorVersion: GoInt): (r: string)
    ensures r == MakeGLDocUrl(majorVersion) + "/xhtml/gl" + cmdName + ".xml"
    ensures HasSuffix(r, cmdName + ".xml")
  {
    var r := DocRoot + ManVersion(majorVersion) + "/xhtml/gl" + cmdName + ".xml";
    assert r[|r| - |cmdName + ".xml"|..] == cmdName + ".xml";
    r
  }

  /** Versions 1 and 2 share the second edition of the manual. */
  lemma EarlyVersionsShareManual(a: GoInt, b: GoInt, cmdName: string)
    requires a < 3 && b < 3
    ensures MakeCmdDocUrl(cmdName, a) == MakeCmdDocUrl(cmdName, b)
    ensures MakeGLDocUrl(a) == DocRoot + "2"
  {
  }

  // ---------------------------------------------------------------------
  // Command pages

  datatype CommandDoc = CommandDoc(baseName: string, purpose: string)

  /** The pages of one major version. As in Go, the value holds a reference
      to the shared backing array of its commands. */
  datatype CommandDocs = CommandDocs(majorVersion: GoInt, commands: array<CommandDoc>)

  /** Less: page `i` sorts before page `j` by base name. */
  predicate Less(cd: CommandDocs, i: int, j: int): (b: bool)
    requires 0 <= i < cd.commands.Length && 0 <= j < cd.commands.Length
    reads cd.commands
    ensures b ==> !LexLess(cd.commands[j].baseName, cd.commands[i].baseName)
    ensures b ==> cd.commands[i].baseName != cd.commands[j].baseName
  {
    var x, y := cd.commands[i].baseName, cd.commands[j].baseName;
    if LexLess(x, y) then LexLessAsymmetric(x, y); true else false
  }

  /** Swap: exchanges pages `i` and `j` and nothing else. */
  method Swap(cd: CommandDocs, i: int, j: int)
    requires 0 <= i < cd.commands.Length && 0 <= j < cd.commands.Length
    modifies cd.commands
    ensures cd.commands[i] == old(cd.commands[j]) && cd.commands[j] == old(cd.commands[i])
    ensures forall k :: 0 <= k < cd.commands.Length && k != i && k != j ==> cd.commands[k] == old(cd.commands[k])
    ensures multiset(cd.commands[..]) == multiset(old(cd.commands[..]))
  {
    cd.commands[i], cd.commands[j] := cd.commands[j], cd.commands[i];
  }

  /** The contents of one edition at a given moment. */
  datatype Edition = Edition(majorVersion: GoInt, commands: seq<CommandDoc>)

  /** The arrays of all editions, for reads clauses. */
  function Arrays(docs: seq<CommandDocs>): set<array<CommandDoc>> {
    set k | 0 <= k < |docs| :: docs[k].commands
  }

  /** The current contents of all editions. */
  function Snapshot(docs: seq<CommandDocs>): (r: seq<Edition>)
    reads Arrays(docs)
    ensures |r| == |docs|
    ensures forall k :: 0 <= k < |docs| ==> r[k] == Edition(docs[k].majorVersion, docs[k].commands[..])
    decreases |docs|
  {
    if |docs| == 0 then []
    else
      assert Arrays(docs[1..]) <= Arrays(docs) by {
        forall x | x in Arrays(docs[1..]) ensures x in Arrays(docs) {
          var k :| 0 <= k < |docs[1..]| && docs[1..][k].commands == x;
          assert docs[k + 1].commands == x;
        }
      }
      [Edition(docs[0].majorVersion, docs[0].commands[..])] + Snapshot(docs[1..])
  }

  /** The pages are in ascending order of base name. */
  predicate Sorted(a: seq<CommandDoc>) {
    forall i, j :: 0 <= i < j < |a| ==> !LexLess(a[j].baseName, a[i].baseName)
  }

  /** The predicate of the search: the base name does not sort before
      `cmdName`. */
  predicate AtOrAfter(a: seq<CommandDoc>, k: int, cmdName: string)
    requires 0 <= k < |a|
  {
    !LexLess(a[k].baseName, cmdName)
  }

  /** sort.Search over [lo, hi): the bisection, as a function. */
  function SearchFrom(a: seq<CommandDoc>, cmdName: string, lo: int, hi: int): (r: int)
    requires 0 <= lo <= hi <= |a|
    ensures lo <= r <= hi
    decreases hi - lo
  {
    if lo < hi then
      var h := (lo + hi) / 2;
      if !AtOrAfter(a, h, cmdName) then SearchFrom(a, cmdName, h + 1, hi) else SearchFrom(a, cmdName, lo, h)
    else lo
  }

  /** sort.Search over all pages. */
  function SearchIndex(a: seq<CommandDoc>, cmdName: string): (r: int)
    ensures 0 <= r <= |a|
  {
    SearchFrom(a, cmdName, 0, |a|)
  }

  /** sort.Search with the predicate of findCmd, as the library runs it. */
  method Search(a: array<CommandDoc>, cmdName: string) returns (index: int)
    ensures index == SearchIndex(a[..], cmdName)
  {
    var i, j := 0, a.Length;
    while i < j
      invariant 0 <= i <= j <= a.Length
      invariant SearchFrom(a[..], cmdName, i, j) == SearchIndex(a[..], cmdName)
      decreases j - i
    {
      var h := (i + j) / 2;
      if LexLess(a[h].baseName, cmdName) {
        i := h + 1;
      } else {
        j := h;
      }
    }
    index := i;
  }

  /** Whatever the order of the pages, the page at the search result (if
      any) satisfies the predicate and the one before it does not. */
  lemma {:induction false} SearchFromBoundary(a: seq<CommandDoc>, cmdName: string, lo: int, hi: int)
    requires 0 <= lo <= hi <= |a|
    requires lo > 0 ==> !AtOrAfter(a, lo - 1, cmdName)
    requires hi < |a| ==> AtOrAfter(a, hi, cmdName)
    ensures var r := SearchFrom(a, cmdName, lo, hi);
            (r > 0 ==> !AtOrAfter(a, r - 1, cmdName)) && (r < |a| ==> AtOrAfter(a, r, cmdName))
    decreases hi - lo
  {
    if lo < hi {
      var h := (lo + hi) / 2;
      if !AtOrAfter(a, h, cmdName) {
        SearchFromBoundary(a, cmdName, h + 1, hi);
      } else {
        SearchFromBoundary(a, cmdName, lo, h);
      }
    }
  }

  /** On sorted pages the search finds the first page that does not sort
      before `cmdName`: all earlier pages sort before it, no later one
      does. */
  lemma SearchIndexSorted(a: seq<CommandDoc>, cmdName: string)
    requires Sorted(a)
    ensures forall k :: 0 <= k < SearchIndex(a, cmdName) ==> LexLess(a[k].baseName, cmdName)
    ensures forall k :: SearchIndex(a, cmdName) <= k < |a| ==> !LexLess(a[k].baseName, cmdName)
  {
    var r := SearchIndex(a, cmdName);
    SearchFromBoundary(a, cmdName, 0, |a|);
    forall k | 0 <= k < r
      ensures LexLess(a[k].baseName, cmdName)
    {
      if k < r - 1 {
        LexLessAfterNotGreater(a[k].baseName, a[r - 1].baseName, cmdName);
      }
    }
    forall k | r <= k < |a|
      ensures !LexLess(a[k].baseName, cmdName)
    {
      if k > r {
        LexNotLessChain(cmdName, a[r].baseName, a[k].baseName);
      }
    }
  }

  /** The manual edition findCmd searches for a major version. */
  function EffectiveMajor(majorVersion: GoInt): GoInt {
    if majorVersion == 1 then 2 else majorVersion
  }

  function NotFound(cmdName: string, majorVersion: GoInt): string {
    "Command doc not found: " + cmdName + ", version " + IntToDecimal(majorVersion)
  }

  /** The lookup in one edition: the page at the search result when its base
      name is a prefix of `cmdName`, else the page before it under the same
      test, else not found. */
  function FindIn(a: seq<CommandDoc>, cmdName: string, majorVersion: GoInt): (r: Result<CommandDoc>)
    ensures r.Ok? ==> HasPrefix(cmdName, r.value.baseName)
    ensures r.Ok? ==> var i := SearchIndex(a, cmdName);
              (i < |a| && r.value == a[i]) || (0 < i && r.value == a[i - 1])
    ensures r.Err? ==> r == Err(NotFound(cmdName, majorVersion))
    ensures SearchIndex(a, cmdName) == |a| ==> r.Err?
  {
    var index := SearchIndex(a, cmdName);
    if index == |a| then Err(NotFound(cmdName, majorVersion))
    else if HasPrefix(cmdName, a[index].baseName) then Ok(a[index])
    else if index == 0 then Err(NotFound(cmdName, majorVersion))
    else if HasPrefix(cmdName, a[index - 1].baseName) then Ok(a[index - 1])
    else Err(NotFound(cmdName, majorVersion))
  }

  /** findCmd: the first edition with the (effective) major version decides
      the lookup; no such edition is an error. */
  function FindCmdSpec(eds: seq<Edition>, majorVersion: GoInt, cmdName: string): (r: Result<CommandDoc>)
    ensures (forall k :: 0 <= k < |eds| ==> eds[k].majorVersion != EffectiveMajor(majorVersion)) ==>
              r == Err("Version not found " + IntToDecimal(EffectiveMajor(majorVersion)))
    ensures r.Ok? ==> HasPrefix(cmdName, r.value.baseName)
    ensures r.Ok? ==> exists k :: 0 <= k < |eds| && eds[k].majorVersion == EffectiveMajor(majorVersion)
                                  && r == FindIn(eds[k].commands, cmdName, EffectiveMajor(majorVersion))
    decreases |eds|
  {
    var m := EffectiveMajor(majorVersion);
    if |eds| == 0 then Err("Version not found " + IntToDecimal(m))
    else if eds[0].majorVersion == m then FindIn(eds[0].commands, cmdName, m)
    else
      var r := FindCmdSpec(eds[1..], majorVersion, cmdName);
      assert r.Ok? ==> exists k :: 1 <= k < |eds| && eds[k].majorVersion == m && r == FindIn(eds[k].commands, cmdName, m) by {
        if r.Ok? {
          var k :| 0 <= k < |eds[1..]| && eds[1..][k].majorVersion == m && r == FindIn(eds[1..][k].commands, cmdName, m);
          assert eds[k + 1] == eds[1..][k];
        }
      }
      r
  }

  /** The first edition with the effective major version decides the
      lookup, whether its page lookup succeeds or fails. */
  lemma {:induction false} FindCmdSpecFirst(eds: seq<Edition>, majorVersion: GoInt, cmdName: string, k: nat)
    requires k < |eds| && eds[k].majorVersion == EffectiveMajor(majorVersion)
    requires forall j :: 0 <= j < k ==> eds[j].majorVersion != EffectiveMajor(majorVersion)
    ensures FindCmdSpec(eds, majorVersion, cmdName) == FindIn(eds[k].commands, cmdName, EffectiveMajor(majorVersion))
    decreases k
  {
    if k > 0 {
      assert eds[0].majorVersion != EffectiveMajor(majorVersion);
      assert eds[1..][k - 1] == eds[k];
      FindCmdSpecFirst(eds[1..], majorVersion, cmdName, k - 1);
    }
  }

  /** The lookup in one edition, as findCmd runs it on the array. */
  method FindInArray(a: array<CommandDoc>, cmdName: string, m: GoInt) returns (r: Result<CommandDoc>)
    ensures r == FindIn(a[..], cmdName, m)
  {
    ghost var s := a[..];
    var index := Search(a, cmdName);
    assert index == SearchIndex(s, cmdName);
    if index == a.Length {
      return Err(NotFound(cmdName, m));
    }
    assert a[index] == s[index];
    if HasPrefix(cmdName, a[index].baseName) {
      return Ok(a[index]);
    }
    if index == 0 {
      return Err(NotFound(cmdName, m));
    }
    assert a[index - 1] == s[index - 1];
    if HasPrefix(cmdName, a[index - 1].baseName) {
      return Ok(a[index - 1]);
    }
    return Err(NotFound(cmdName, m));
  }

  /** findCmd, as the Go code runs it. */
  method FindCmd(docs: seq<CommandDocs>, majorVersion: GoInt, cmdName: string) returns (r: Result<CommandDoc>)
    ensures r == FindCmdSpec(Snapshot(docs), majorVersion, cmdName)
  {
    assert forall o | o in Arrays(docs) :: allocated(o);
    ghost var eds := Snapshot(docs);
    var m := majorVersion;
    if m == 1 {
      m := 2;
    }
    var i := 0;
    while i < |docs|
      invariant 0 <= i <= |docs|
      invariant FindCmdSpec(eds[i..], majorVersion, cmdName) == FindCmdSpec(eds, majorVersion, cmdName)
    {
      var cd := docs[i];
      assert eds[i] == Edition(cd.majorVersion, cd.commands[..]);
      if cd.majorVersion == m {
        r := FindInArray(cd.commands, cmdName, m);
        assert r == FindCmdSpec(eds[i..], majorVersion, cmdName);
        assert Snapshot(docs) == eds;
        return;
      }
      assert eds[i..][1..] == eds[i + 1..];
      i := i + 1;
    }
    assert eds[i..] == [];
    return Err("Version not found " + IntToDecimal(m));
  }

  /** Major version 1 is looked up as version 2. */
  lemma {:induction false} FindCmdVersionOne(eds: seq<Edition>, cmdName: string)
    ensures FindCmdSpec(eds, 1, cmdName) == FindCmdSpec(eds, 2, cmdName)
    decreases |eds|
  {
    if |eds| > 0 && eds[0].majorVersion != 2 {
      FindCmdVersionOne(eds[1..], cmdName);
    }
  }

  /** When every page of the edition sorts before `cmdName` the lookup fails
      without testing the last page, even when its base name is a prefix of
      `cmdName`. */
  lemma FindInAllBefore(a: seq<CommandDoc>, cmdName: string, majorVersion: GoInt)
    requires forall k :: 0 <= k < |a| ==> LexLess(a[k].baseName, cmdName)
    ensures FindIn(a, cmdName, majorVersion) == Err(NotFound(cmdName, majorVersion))
  {
    SearchAllBefore(a, cmdName, 0, |a|);
  }

  lemma {:induction false} SearchAllBefore(a: seq<CommandDoc>, cmdName: string, lo: int, hi: int)
    requires 0 <= lo <= hi <= |a|
    requires forall k :: 0 <= k < |a| ==> LexLess(a[k].baseName, cmdName)
    ensures SearchFrom(a, cmdName, lo, hi) == hi
    decreases hi - lo
  {
    if lo < hi {
      SearchAllBefore(a, cmdName, (lo + hi) / 2 + 1, hi);
    }
  }

  /** On sorted pages a page whose base name is exactly the command's name
      is found. */
  lemma FindInExact(a: seq<CommandDoc>, cmdName: string, majorVersion: GoInt, i: int)
    requires Sorted(a) && 0 <= i < |a| && a[i].baseName == cmdName
    ensures FindIn(a, cmdName, majorVersion).Ok?
    ensures FindIn(a, cmdName, majorVersion).value.baseName == cmdName
  {
    SearchIndexSorted(a, cmdName);
    LexLessIrreflexive(cmdName);
    var r := SearchIndex(a, cmdName);
    assert r <= i;
    assert !LexLess(a[r].baseName, cmdName);
    if r < i {
      LexLessTotal(a[r].baseName, a[i].baseName);
    }
    assert a[r].baseName == cmdName;
    assert cmdName[..|cmdName|] == cmdName;
  }

  // ---------------------------------------------------------------------
  // Annotating packages

  /** The documentation line of a function: its purpose and the URL of its
      page. */
  function DocLine(cd: CommandDoc, majorVersion: GoInt): string {
    cd.purpose + " (" + MakeCmdDocUrl(cd.baseName, majorVersion) + ")"
  }

  /** The functions after annotation: a function whose lookup succeeds gets
      its documentation line; the others are unchanged. */
  function Annotated(eds: seq<Edition>, majorVersion: GoInt, fns: map<string, PackageFunction>): (r: map<string, PackageFunction>)
    ensures r.Keys == fns.Keys
    ensures forall k :: k in r ==> r[k].fn == fns[k].fn && r[k].required == fns[k].required
    ensures forall k :: k in r && FindCmdSpec(eds, majorVersion, fns[k].fn.name).Err? ==> r[k] == fns[k]
  {
    map k | k in fns :: AnnotatedOne(eds, majorVersion, fns[k])
  }

  /** One function after annotation. */
  function AnnotatedOne(eds: seq<Edition>, majorVersion: GoInt, f: PackageFunction): PackageFunction {
    match FindCmdSpec(eds, majorVersion, f.fn.name)
    case Ok(cd) => f.(doc := DocLine(cd, majorVersion))
    case Err(_) => f
  }

  /** Annotating twice is annotating once: the lookup depends only on the
      name, which annotation leaves alone. */
  lemma AnnotatedIdempotent(eds: seq<Edition>, majorVersion: GoInt, fns: map<string, PackageFunction>)
    ensures Annotated(eds, majorVersion, Annotated(eds, majorVersion, fns)) == Annotated(eds, majorVersion, fns)
  {
    var once := Annotated(eds, majorVersion, fns);
    var twice := Annotated(eds, majorVersion, once);
    forall k | k in twice
      ensures k in once && twice[k] == once[k]
    {
      AnnotatedOneIdempotent(eds, majorVersion, fns[k]);
    }
  }

  /** One function annotated twice is annotated once. */
  lemma AnnotatedOneIdempotent(eds: seq<Edition>, majorVersion: GoInt, f: PackageFunction)
    ensures AnnotatedOne(eds, majorVersion, AnnotatedOne(eds, majorVersion, f)) == AnnotatedOne(eds, majorVersion, f)
  {
  }

  /** AnnotatePackages: every function of every package whose page is found
      gets its documentation line. */
  method AnnotatePackages(docs: seq<CommandDocs>, ps: seq<Package>)
    modifies ps`functions
    ensures forall k :: 0 <= k < |ps| ==>
              ps[k].functions == Annotated(old(Snapshot(docs)), ps[k].version.major, old(ps[k].functions))
    ensures forall k :: 0 <= k < |ps| ==> ps[k].version == old(ps[k].version) && ps[k].enums == old(ps[k].enums)
  {
    ghost var eds := Snapshot(docs);
    var i := 0;
    while i < |ps|
      invariant 0 <= i <= |ps|
      invariant forall j :: 0 <= j < |docs| ==> eds[j] == Edition(docs[j].majorVersion, docs[j].commands[..])
      invariant forall k :: 0 <= k < |ps| ==> ps[k].version == old(ps[k].version) && ps[k].enums == old(ps[k].enums)
      invariant forall k :: 0 <= k < |ps| ==>
                  ps[k].functions == if ps[k] in ps[..i] then Annotated(eds, ps[k].version.major, old(ps[k].functions))
                                     else old(ps[k].functions)
    {
      var p := ps[i];
      ghost var original := old(p.functions);
      assert Snapshot(docs) == eds;
      AnnotateOne(docs, p);
      if p in ps[..i] {
        AnnotatedIdempotent(eds, p.version.major, original);
      }
      assert p.functions == Annotated(eds, p.version.major, original);
      assert ps[..i + 1] == ps[..i] + [p];
      forall k | 0 <= k < |ps|
        ensures ps[k].functions == if ps[k] in ps[..i + 1] then Annotated(eds, ps[k].version.major, old(ps[k].functions))
                                   else old(ps[k].functions)
      {
        if ps[k] != p {
          assert ps[k] in ps[..i + 1] <==> ps[k] in ps[..i];
        }
      }
      i := i + 1;
    }
    assert ps[..i] == ps;
  }

  /** The inner loop of AnnotatePackages, over the functions of one
      package. */
  method AnnotateOne(docs: seq<CommandDocs>, p: Package)
    modifies p`functions
    ensures p.functions == Annotated(old(Snapshot(docs)), p.version.major, old(p.functions))
    ensures p.version == old(p.version) && p.enums == old(p.enums)
  {
    ghost var eds := Snapshot(docs);
    ghost var original := p.functions;
    var names := p.functions.Keys;
    while names != {}
      invariant names <= original.Keys
      invariant Snapshot(docs) == eds
      invariant p.version == old(p.version) && p.enums == old(p.enums)
      invariant p.functions == PartlyAnnotated(eds, p.version.major, original, names)
      decreases names
    {
      var k :| k in names;
      PartlyAnnotatedTodo(eds, p.version.major, original, names, k);
      assert forall o | o in Arrays(docs) :: allocated(o);
      var g := AnnotateFunction(docs, p.version.major, p.functions[k]);
      assert g == AnnotatedOne(eds, p.version.major, original[k]);
      p.functions := p.functions[k := g];
      PartlyAnnotatedStep(eds, p.version.major, original, names, k);
      names := names - {k};
    }
    PartlyAnnotatedDone(eds, p.version.major, original);
  }

  /** The functions of `fns` after annotating all but those in `todo`. */
  ghost function PartlyAnnotated(eds: seq<Edition>, majorVersion: GoInt, fns: map<string, PackageFunction>,
                                 todo: set<string>): map<string, PackageFunction> {
    map k | k in fns :: if k in todo then fns[k] else AnnotatedOne(eds, majorVersion, fns[k])
  }

  lemma PartlyAnnotatedTodo(eds: seq<Edition>, majorVersion: GoInt, fns: map<string, PackageFunction>,
                            todo: set<string>, k: string)
    requires k in todo && k in fns
    ensures k in PartlyAnnotated(eds, majorVersion, fns, todo)
    ensures PartlyAnnotated(eds, majorVersion, fns, todo)[k] == fns[k]
  {
  }

  lemma PartlyAnnotatedStep(eds: seq<Edition>, majorVersion: GoInt, fns: map<string, PackageFunction>,
                            todo: set<string>, k: string)
    requires k in todo && todo <= fns.Keys
    ensures PartlyAnnotated(eds, majorVersion, fns, todo - {k}) ==
              PartlyAnnotated(eds, majorVersion, fns, todo)[k := AnnotatedOne(eds, majorVersion, fns[k])]
  {
  }

  lemma PartlyAnnotatedDone(eds: seq<Edition>, majorVersion: GoInt, fns: map<string, PackageFunction>)
    ensures PartlyAnnotated(eds, majorVersion, fns, {}) == Annotated(eds, majorVersion, fns)
    ensures PartlyAnnotated(eds, majorVersion, fns, fns.Keys) == fns
  {
  }

  /** The body of the inner loop: the function `f` with its documentation
      line set when the lookup of its page succeeds. */
  method AnnotateFunction(docs: seq<CommandDocs>, majorVersion: GoInt, f: PackageFunction) returns (g: PackageFunction)
    ensures g == AnnotatedOne(Snapshot(docs), majorVersion, f)
    ensures g.fn == f.fn && g.required == f.required
  {
    var cd := FindCmd(docs, majorVersion, f.fn.name);
    g := f;
    if cd.Ok? {
      g := f.(doc := DocLine(cd.value, majorVersion));
    }
  }

  // ---------------------------------------------------------------------
  // The page index

  /** A page of the index: the command's base name and the file name. */
  datatype DocFile = DocFile(baseName: string, fileName: string)

  /** Whether an index entry is kept: it starts with "gl" but not with "glu"
      (utility library) or "glX" (X11 binding). */
  predicate KeptRef(ref: string) {
    !HasPrefix(ref, "glu") && !HasPrefix(ref, "glX") && HasPrefix(ref, "gl")
  }

  /** The base name of a kept page: the file name without ".xml" and
      without "gl". */
  function RefBaseName(ref: string): string {
    TrimPrefix(TrimSuffix(ref, ".xml"), "gl")
  }

  /** The pages the index loop keeps, in index order. */
  function KeptFiles(refs: seq<string>): (files: seq<DocFile>)
    ensures |files| <= |refs|
  {
    if |refs| == 0 then []
    else
      var last := refs[|refs| - 1];
      KeptFiles(refs[..|refs| - 1]) + (if KeptRef(last) then [DocFile(RefBaseName(last), last)] else [])
  }

  /** The filtering loop of parseDocIndex, over the entries already read. */
  method ParseDocIndex(refs: seq<string>) returns (files: seq<DocFile>)
    ensures files == KeptFiles(refs)
  {
    files := [];
    var i := 0;
    while i < |refs|
      invariant 0 <= i <= |refs|
      invariant files == KeptFiles(refs[..i])
    {
      var ref := refs[i];
      assert refs[..i + 1][..i] == refs[..i];
      if HasPrefix(ref, "glu") {
        i := i + 1;
        continue;
      }
      if HasPrefix(ref, "glX") {
        i := i + 1;
        continue;
      }
      if HasPrefix(ref, "gl") {
        var fn := TrimPrefix(TrimSuffix(ref, ".xml"), "gl");
        files := files + [DocFile(fn, ref)];
      }
      i := i + 1;
    }
    assert refs[..i] == refs;
  }

  /** A page is listed exactly when some kept entry names it, and its base
      name is derived from that entry. */
  lemma {:induction false} KeptFilesMembers(refs: seq<string>, f: DocFile)
    ensures f in KeptFiles(refs) <==> f.fileName in refs && KeptRef(f.fileName) && f.baseName == RefBaseName(f.fileName)
    decreases |refs|
  {
    if |refs| > 0 {
      var init := refs[..|refs| - 1];
      KeptFilesMembers(init, f);
      assert refs == init + [refs[|refs| - 1]];
      if f.fileName in init {
        assert f.fileName in refs;
      }
    }
  }

  /** A kept base name carries neither the "gl" prefix nor the ".xml"
      suffix it came with. */
  lemma RefBaseNameOf(name: string)
    requires |name| > 0 ==> name[0] != 'u' && name[0] != 'X'
    ensures KeptRef("gl" + name + ".xml")
    ensures RefBaseName("gl" + name + ".xml") == name
  {
    var r := "gl" + name + ".xml";
    assert r[..2] == "gl";
    assert r[|r| - 4..] == ".xml";
    assert r[..|r| - 4] == "gl" + name;
    assert ("gl" + name)[..2] == "gl";
    assert r[2] != 'u' && r[2] != 'X';
    assert r[..3][2] == r[2];
  }
}
