/** The older registry reader (parser.go): its own declaration scanners,
    the enum search, the per-package add/remove helpers, the feature replay
    over every generated package, the feature-list option and the command
    table. */
module Parser {
  import opened Wrappers
  import opened Text
  import opened Versions
  import opened XmlTokens
  import Util

  // ---------------------------------------------------------------------
  // SpecSignature.Parse

  /** A C type as this reader records it: base name, pointer depth and
      whether "const" was seen. */
  datatype CType = CType(name: string, pointerLevel: nat, isConst: bool)

  /** A parsed declaration: the command or parameter name and its type. */
  datatype Decl = Decl(name: string, ctype: CType)

  datatype SigState = SigState(name: string, ctype: CType, readName: bool, readType: bool, first: bool)

  const SigStart: SigState := SigState("", CType("", 0, false), false, false, true)

  /** The plain words the scanner recognises outside <name> and <ptype>. */
  predicate Keyword(s: string) {
    s in {"", "void", "void *", "const void *", "*", "**", "*const*", "const"}
  }

  /** One token of SpecSignature.Parse. Text is trimmed of spaces; inside
      <name> it becomes the name without its GL prefix, inside <ptype> the
      type name; outside both it is one of the recognised words, or the
      first unrecognised word, which names the type; a second unrecognised
      word is an error, as is any element other than <ptype> and <name>. */
  function SigStep(st: SigState, t: Token): Result<SigState> {
    match t
    case CharData(text) =>
      var s := TrimSpaces(text);
      if st.readName then Ok(st.(name := Util.TrimGLCmdPrefix(s)))
      else if st.readType then Ok(st.(ctype := st.ctype.(name := s)))
      else if s == "" then Ok(st)
      else if s == "void" then Ok(st.(ctype := st.ctype.(name := "void")))
      else if s == "void *" then Ok(st.(ctype := st.ctype.(name := "void", pointerLevel := 1)))
      else if s == "const void *" then Ok(st.(ctype := CType("void", 1, true)))
      else if s == "*" then Ok(st.(ctype := st.ctype.(pointerLevel := 1)))
      else if s == "**" then Ok(st.(ctype := st.ctype.(pointerLevel := 2)))
      else if s == "*const*" then Ok(st.(ctype := st.ctype.(pointerLevel := 2)))
      else if s == "const" then Ok(st.(ctype := st.ctype.(isConst := true)))
      else if st.first then Ok(st.(ctype := st.ctype.(name := s), first := false))
      else Err("Unknown " + s)
    case StartElement(local) =>
      if local == "ptype" then Ok(st.(readType := true))
      else if local == "name" then Ok(st.(readName := true))
      else Err("Wrong start element: " + local)
    case EndElement(local) =>
      if local == "ptype" then Ok(st.(readType := false))
      else if local == "name" then Ok(st.(readName := false))
      else Err("Wrong end element: " + local)
    case _ => Ok(st)
  }

  function SigRun(st: SigState, ts: seq<Token>): Result<SigState>
    decreases |ts|
  {
    if |ts| == 0 then Ok(st)
    else match SigStep(st, ts[0])
      case Err(e) => Err(e)
      case Ok(st') => SigRun(st', ts[1..])
  }

  function DeclOf(ts: seq<Token>): Result<Decl> {
    match SigRun(SigStart, ts)
    case Err(e) => Err(e)
    case Ok(st) => Ok(Decl(st.name, st.ctype))
  }

  /** SpecSignature.Parse, as the Go loop runs it. */
  method ParseSignature(tokens: seq<Token>) returns (r: Result<Decl>)
    ensures r == DeclOf(tokens)
  {
    var name := "";
    var ctype := CType("", 0, false);
    var readName := false;
    var readType := false;
    var first := true;
    var i := 0;
    while i < |tokens|
      invariant 0 <= i <= |tokens|
      invariant SigRun(SigState(name, ctype, readName, readType, first), tokens[i..]) == SigRun(SigStart, tokens)
    {
      assert tokens[i..][1..] == tokens[i + 1..];
      match tokens[i] {
      case CharData(text) =>
        var s := TrimSpaces(text);
        if readName {
          name := Util.TrimGLCmdPrefix(s);
        } else if readType {
          ctype := ctype.(name := s);
        } else if s == "" {
        } else if s == "void" {
          ctype := ctype.(name := "void");
        } else if s == "void *" {
          ctype := ctype.(name := "void", pointerLevel := 1);
        } else if s == "const void *" {
          ctype := CType("void", 1, true);
        } else if s == "*" {
          ctype := ctype.(pointerLevel := 1);
        } else if s == "**" {
          ctype := ctype.(pointerLevel := 2);
        } else if s == "*const*" {
          ctype := ctype.(pointerLevel := 2);
        } else if s == "const" {
          ctype := ctype.(isConst := true);
        } else if first {
          ctype := ctype.(name := s);
          first := false;
        } else {
          return Err("Unknown " + s);
        }
      case StartElement(local) =>
        if local == "ptype" {
          readType := true;
        } else if local == "name" {
          readName := true;
        } else {
          return Err("Wrong start element: " + local);
        }
      case EndElement(local) =>
        if local == "ptype" {
          readType := false;
        } else if local == "name" {
          readName := false;
        } else {
          return Err("Wrong end element: " + local);
        }
      case _ =>
      }
      i := i + 1;
    }
    return Ok(Decl(name, ctype));
  }

  /** Whether `t` is an element the signature scanner rejects. */
  predicate WrongElement(t: Token) {
    (t.StartElement? || t.EndElement?) && t.local != "ptype" && t.local != "name"
  }

  /** Any element other than <ptype> and <name>, start or end, anywhere in
      the fragment, makes the parse fail. */
  lemma {:induction false} WrongElementFails(st: SigState, ts: seq<Token>, k: nat)
    requires k < |ts| && WrongElement(ts[k])
    ensures SigRun(st, ts).Err?
    decreases |ts|
  {
    match SigStep(st, ts[0])
    case Err(_) =>
    case Ok(st') =>
      if k == 0 {
        assert false;
      }
      assert ts[1..][k - 1] == ts[k];
      WrongElementFails(st', ts[1..], k - 1);
  }

  /** Running a fragment that scans without error and then another is
      running their concatenation. */
  lemma {:induction false} SigRunAppend(st: SigState, a: seq<Token>, b: seq<Token>)
    requires SigRun(st, a).Ok?
    ensures SigRun(st, a + b) == SigRun(SigRun(st, a).value, b)
    decreases |a|
  {
    if |a| > 0 {
      assert (a + b)[0] == a[0] && (a + b)[1..] == a[1..] + b;
      match SigStep(st, a[0])
      case Err(_) =>
      case Ok(st') => SigRunAppend(st', a[1..], b);
    } else {
      assert a + b == b;
    }
  }

  /** The first unrecognised word names the type; a second one is an
      "Unknown" error that quotes it. */
  lemma UnknownWords(a: string, b: string)
    requires !Keyword(TrimSpaces(a)) && !Keyword(TrimSpaces(b))
    ensures DeclOf([CharData(a)]).Ok? && DeclOf([CharData(a)]).value.ctype.name == TrimSpaces(a)
    ensures DeclOf([CharData(a), CharData(b)]) == Err("Unknown " + TrimSpaces(b))
  {
    var st := SigStart.(ctype := SigStart.ctype.(name := TrimSpaces(a)), first := false);
    assert SigStep(SigStart, CharData(a)) == Ok(st);
    assert [CharData(a)][1..] == [];
    assert SigRun(SigStart, [CharData(a)]) == SigRun(st, []);
    assert SigRun(SigStart, [CharData(a), CharData(b)]) == SigRun(st, [CharData(b)]);
    assert SigStep(st, CharData(b)) == Err("Unknown " + TrimSpaces(b));
    assert [CharData(a), CharData(b)][1..] == [CharData(b)] && [CharData(b)][1..] == [];
  }

  /** A <name> element: its trimmed text without the GL prefix becomes the
      name, and the type is untouched. */
  lemma NameElement(st: SigState, text: string)
    requires !st.readName && !st.readType
    ensures SigRun(st, [StartElement("name"), CharData(text), EndElement("name")]).Ok?
    ensures var r := SigRun(st, [StartElement("name"), CharData(text), EndElement("name")]).value;
            r.name == Util.TrimGLCmdPrefix(TrimSpaces(text)) && r.ctype == st.ctype
            && !r.readName && !r.readType && r.first == st.first
  {
    var ts := [StartElement("name"), CharData(text), EndElement("name")];
    var s1 := st.(readName := true);
    var s2 := s1.(name := Util.TrimGLCmdPrefix(TrimSpaces(text)));
    assert SigRun(st, ts) == SigRun(s1, ts[1..]);
    assert ts[1..][0] == CharData(text);
    assert SigRun(s1, ts[1..]) == SigRun(s2, ts[1..][1..]);
    assert ts[1..][1..][0] == EndElement("name") && ts[1..][1..][1..] == [];
    assert SigRun(s2, ts[1..][1..]) == SigRun(s2.(readName := false), []);
  }

  /** A <ptype> element: its trimmed text becomes the type name. */
  lemma PtypeElement(st: SigState, text: string)
    requires !st.readName && !st.readType
    ensures SigRun(st, [StartElement("ptype"), CharData(text), EndElement("ptype")]).Ok?
    ensures var r := SigRun(st, [StartElement("ptype"), CharData(text), EndElement("ptype")]).value;
            r.name == st.name && r.ctype == st.ctype.(name := TrimSpaces(text))
            && !r.readName && !r.readType && r.first == st.first
  {
    var ts := [StartElement("ptype"), CharData(text), EndElement("ptype")];
    var s1 := st.(readType := true);
    var s2 := s1.(ctype := st.ctype.(name := TrimSpaces(text)));
    assert SigRun(st, ts) == SigRun(s1, ts[1..]);
    assert ts[1..][0] == CharData(text);
    assert SigRun(s1, ts[1..]) == SigRun(s2, ts[1..][1..]);
    assert ts[1..][1..][0] == EndElement("ptype");
    assert ts[1..][1..][1..] == [];
    assert SigRun(s2, ts[1..][1..]) == SigRun(s2.(readType := false), []);
  }

  /** The pointer depth the asterisk words set. */
  function Stars(s: string): nat {
    if s == "*" then 1 else 2
  }

  /** An asterisk word outside the elements sets the pointer depth. */
  lemma StarWord(st: SigState, b: string)
    requires !st.readName && !st.readType && TrimSpaces(b) in {"*", "**", "*const*"}
    ensures SigStep(st, CharData(b)) == Ok(st.(ctype := st.ctype.(pointerLevel := Stars(TrimSpaces(b)))))
  {
    var s := TrimSpaces(b);
    if s == "*" {
      assert s != "" && s != "void" && s != "void *" && s != "const void *";
    } else if s == "**" {
      assert s[0] != "void"[0] && s[0] != "void *"[0] && s[0] != "const void *"[0] && |s| != |"*"|;
    } else {
      assert s[0] != "void"[0] && s[0] != "void *"[0] && s[0] != "const void *"[0] && |s| != |"*"| && |s| != |"**"|;
    }
  }

  /** `<ptype>t</ptype> *`: a type name and a pointer depth. */
  lemma PointerType(t: string, b: string)
    requires TrimSpaces(b) in {"*", "**", "*const*"}
    ensures var ts := [StartElement("ptype"), CharData(t), EndElement("ptype")] + [CharData(b)];
            SigRun(SigStart, ts) == Ok(SigStart.(ctype := CType(TrimSpaces(t), Stars(TrimSpaces(b)), false)))
  {
    var p := [StartElement("ptype"), CharData(t), EndElement("ptype")];
    var m := [CharData(b)];
    PtypeElement(SigStart, t);
    var s1 := SigRun(SigStart, p).value;
    StarWord(s1, b);
    assert m[1..] == [];
    SigRunAppend(SigStart, p, m);
  }

  /** `<ptype>t</ptype> * <name>n</name>`, with "*", "**" or "*const*" between
      the elements, declares `n` without its GL prefix as a non-const `t`
      at that pointer depth. */
  lemma PointerDeclaration(t: string, b: string, n: string)
    requires TrimSpaces(b) in {"*", "**", "*const*"}
    ensures var ts := [StartElement("ptype"), CharData(t), EndElement("ptype")] + [CharData(b)]
                      + [StartElement("name"), CharData(n), EndElement("name")];
            DeclOf(ts).Ok? && DeclOf(ts).value.name == Util.TrimGLCmdPrefix(TrimSpaces(n))
            && DeclOf(ts).value.ctype == CType(TrimSpaces(t), Stars(TrimSpaces(b)), false)
  {
    var pm := [StartElement("ptype"), CharData(t), EndElement("ptype")] + [CharData(b)];
    var q := [StartElement("name"), CharData(n), EndElement("name")];
    PointerType(t, b);
    NameElement(SigRun(SigStart, pm).value, n);
    SigRunAppend(SigStart, pm, q);
  }

  /** The word "const void *" outside the elements makes the type a const
      void pointer. */
  lemma ConstVoidWord(st: SigState, a: string)
    requires !st.readName && !st.readType && TrimSpaces(a) == "const void *"
    ensures SigStep(st, CharData(a)) == Ok(st.(ctype := CType("void", 1, true)))
  {
    var w := TrimSpaces(a);
    assert w[0] != "void"[0] && w[0] != "void *"[0] && |w| != 0;
  }

  /** `const void * <name>n</name>` declares `n` as a const void pointer. */
  lemma ConstVoidPointer(a: string, n: string)
    requires TrimSpaces(a) == "const void *"
    ensures var ts := [CharData(a), StartElement("name"), CharData(n), EndElement("name")];
            DeclOf(ts).Ok? && DeclOf(ts).value.name == Util.TrimGLCmdPrefix(TrimSpaces(n))
            && DeclOf(ts).value.ctype == CType("void", 1, true)
  {
    var ts := [CharData(a), StartElement("name"), CharData(n), EndElement("name")];
    var s1 := SigStart.(ctype := CType("void", 1, true));
    ConstVoidWord(SigStart, a);
    NameElement(s1, n);
    assert ts[1..] == [StartElement("name"), CharData(n), EndElement("name")];
    assert SigRun(SigStart, ts) == SigRun(s1, ts[1..]);
  }

  // ---------------------------------------------------------------------
  // SpecType.Parse and ParseTypedefs

  /** A <type> entry of the registry: its attributes and inner tokens. */
  datatype SpecType = SpecType(name: string, comment: string, requirement: string, api: string, inner: seq<Token>)

  /** A typedef as this reader records it. */
  datatype TypeDef = TypeDef(name: string, comment: string, api: string, cDefinition: string)

  datatype TdState = TdState(typed: TypeDef, readName: bool)

  /** One token of SpecType.Parse: all text goes into the C definition and
      the text inside <name> also becomes the name; <apientry> stands for
      the word APIENTRY; any other element fails, end elements with the
      same "start element" message. Other tokens are skipped. */
  function TdStep(st: TdState, t: Token): Result<TdState> {
    match t
    case CharData(text) =>
      var typed := st.typed.(cDefinition := st.typed.cDefinition + text);
      Ok(st.(typed := if st.readName then typed.(name := text) else typed))
    case StartElement(local) =>
      if local == "name" then Ok(st.(readName := true))
      else if local == "apientry" then Ok(st.(typed := st.typed.(cDefinition := st.typed.cDefinition + "APIENTRY")))
      else Err("Wrong start element: " + local)
    case EndElement(local) =>
      if local == "name" then Ok(st.(readName := false))
      else if local == "apientry" then Ok(st)
      else Err("Wrong start element: " + local)
    case _ => Ok(st)
  }

  function TdRun(st: TdState, ts: seq<Token>): Result<TdState>
    decreases |ts|
  {
    if |ts| == 0 then Ok(st)
    else match TdStep(st, ts[0])
      case Err(e) => Err(e)
      case Ok(st') => TdRun(st', ts[1..])
  }

  function TypeDefOf(st: SpecType): Result<TypeDef> {
    match TdRun(TdState(TypeDef(st.name, st.comment, st.api, ""), false), st.inner)
    case Err(e) => Err(e)
    case Ok(s) => Ok(s.typed)
  }

  /** SpecType.Parse, as the Go loop runs it. */
  method ParseType(st: SpecType) returns (r: Result<TypeDef>)
    ensures r == TypeDefOf(st)
  {
    var typed := TypeDef(st.name, st.comment, st.api, "");
    var readName := false;
    var i := 0;
    while i < |st.inner|
      invariant 0 <= i <= |st.inner|
      invariant TdRun(TdState(typed, readName), st.inner[i..]) == TdRun(TdState(TypeDef(st.name, st.comment, st.api, ""), false), st.inner)
    {
      assert st.inner[i..][1..] == st.inner[i + 1..];
      match st.inner[i] {
      case CharData(text) =>
        typed := typed.(cDefinition := typed.cDefinition + text);
        if readName {
          typed := typed.(name := text);
        }
      case StartElement(local) =>
        if local == "name" {
          readName := true;
        } else if local == "apientry" {
          typed := typed.(cDefinition := typed.cDefinition + "APIENTRY");
        } else {
          return Err("Wrong start element: " + local);
        }
      case EndElement(local) =>
        if local == "name" {
          readName := false;
        } else if local == "apientry" {
        } else {
          return Err("Wrong start element: " + local);
        }
      case _ =>
      }
      i := i + 1;
    }
    return Ok(typed);
  }

  /** The elements a typedef may contain. */
  predicate TypedefElement(t: Token) {
    (t.StartElement? || t.EndElement?) ==> t.local == "name" || t.local == "apientry"
  }

  /** The C definition a typedef's tokens spell: all text, with APIENTRY for
      each <apientry>. */
  function Spelled(ts: seq<Token>): string
    decreases |ts|
  {
    if |ts| == 0 then ""
    else
      var piece := match ts[0]
        case CharData(text) => text
        case StartElement(local) => if local == "apientry" then "APIENTRY" else ""
        case _ => "";
      piece + Spelled(ts[1..])
  }

  /** A typedef parses exactly when its only elements are <name> and
      <apientry>. */
  lemma {:induction false} TdRunOk(st: TdState, ts: seq<Token>)
    ensures TdRun(st, ts).Ok? <==> forall k :: 0 <= k < |ts| ==> TypedefElement(ts[k])
    decreases |ts|
  {
    if |ts| > 0 {
      match TdStep(st, ts[0])
      case Err(_) =>
      case Ok(st') =>
        TdRunOk(st', ts[1..]);
        assert forall k :: 1 <= k < |ts| ==> ts[k] == ts[1..][k - 1];
    }
  }

  /** A typedef that parses is spelled by its tokens, and keeps its
      comment and API attributes. */
  lemma {:induction false} TdRunSpelled(st: TdState, ts: seq<Token>)
    requires TdRun(st, ts).Ok?
    ensures TdRun(st, ts).value.typed.cDefinition == st.typed.cDefinition + Spelled(ts)
    ensures TdRun(st, ts).value.typed.comment == st.typed.comment
    ensures TdRun(st, ts).value.typed.api == st.typed.api
    decreases |ts|
  {
    if |ts| > 0 {
      var st' := TdStep(st, ts[0]).value;
      TdRunSpelled(st', ts[1..]);
    }
  }

  /** The typedefs of ParseTypedefs: all of them, in order, or the first
      error. */
  function TypeDefsOf(types: seq<SpecType>): Result<seq<TypeDef>>
  {
    if |types| == 0 then Ok([])
    else match TypeDefsOf(types[..|types| - 1])
      case Err(e) => Err(e)
      case Ok(tds) =>
        match TypeDefOf(types[|types| - 1])
        case Err(e) => Err(e)
        case Ok(td) => Ok(tds + [td])
  }

  /** ParseTypedefs, as the Go loop runs it. */
  method ParseTypedefs(types: seq<SpecType>) returns (r: Result<seq<TypeDef>>)
    ensures r == TypeDefsOf(types)
  {
    var tdefs := [];
    var i := 0;
    while i < |types|
      invariant 0 <= i <= |types|
      invariant TypeDefsOf(types[..i]) == Ok(tdefs)
    {
      assert types[..i + 1][..i] == types[..i];
      var td := ParseType(types[i]);
      if td.Err? {
        TypeDefsOfErr(types, i + 1);
        return Err(td.message);
      }
      tdefs := tdefs + [td.value];
      i := i + 1;
    }
    assert types[..i] == types;
    return Ok(tdefs);
  }

  /** The first entry that fails decides the error. */
  lemma {:induction false} TypeDefsOfErr(types: seq<SpecType>, n: nat)
    requires n <= |types| && TypeDefsOf(types[..n]).Err?
    ensures TypeDefsOf(types) == TypeDefsOf(types[..n])
    decreases |types| - n
  {
    if n < |types| {
      assert types[..n + 1][..n] == types[..n];
      TypeDefsOfErr(types, n + 1);
    } else {
      assert types[..n] == types;
    }
  }

  /** ParseTypedefs succeeds exactly when every entry parses, and then
      gives each entry's typedef at its position. */
  lemma {:induction false} TypeDefsOfOk(types: seq<SpecType>)
    ensures TypeDefsOf(types).Ok? <==> forall k :: 0 <= k < |types| ==> TypeDefOf(types[k]).Ok?
    ensures TypeDefsOf(types).Ok? ==> |TypeDefsOf(types).value| == |types|
    ensures TypeDefsOf(types).Ok? ==>
              forall k :: 0 <= k < |types| ==> TypeDefsOf(types).value[k] == TypeDefOf(types[k]).value
    decreases |types|
  {
    if |types| > 0 {
      var init := types[..|types| - 1];
      TypeDefsOfOk(init);
      assert forall k :: 0 <= k < |init| ==> init[k] == types[k];
    }
  }

  // ---------------------------------------------------------------------
  // commandsToFunctions

  /** A <command> entry: its prototype fragment and one fragment per
      parameter. */
  datatype SpecCommand = SpecCommand(proto: seq<Token>, params: seq<seq<Token>>)

  datatype Parameter = Parameter(name: string, ctype: CType)

  datatype Function = Function(name: string, parameters: seq<Parameter>, returnType: CType)

  /** The parameters that parse, in order; the others are skipped. */
  function ParsedParams(params: seq<seq<Token>>): seq<Parameter> {
    if |params| == 0 then []
    else
      var d := DeclOf(params[|params| - 1]);
      ParsedParams(params[..|params| - 1]) + (if d.Ok? then [Parameter(d.value.name, d.value.ctype)] else [])
  }

  /** The function table after the first `|commands|` commands: a command
      whose prototype parses is stored under its name, replacing any
      earlier one; a command that does not parse is skipped. */
  function FunctionsOf(commands: seq<SpecCommand>): map<string, Function> {
    if |commands| == 0 then map[]
    else
      var c := commands[|commands| - 1];
      var table := FunctionsOf(commands[..|commands| - 1]);
      match DeclOf(c.proto)
      case Err(_) => table
      case Ok(d) => table[d.name := Function(d.name, ParsedParams(c.params), d.ctype)]
  }

  /** commandsToFunctions, as the Go loops run it. */
  method CommandsToFunctions(commands: seq<SpecCommand>) returns (functions: map<string, Function>)
    ensures functions == FunctionsOf(commands)
  {
    functions := map[];
    var i := 0;
    while i < |commands|
      invariant 0 <= i <= |commands|
      invariant functions == FunctionsOf(commands[..i])
    {
      assert commands[..i + 1][..i] == commands[..i];
      var c := commands[i];
      var proto := ParseSignature(c.proto);
      if proto.Ok? {
        var parameters := [];
        var j := 0;
        while j < |c.params|
          invariant 0 <= j <= |c.params|
          invariant parameters == ParsedParams(c.params[..j])
        {
          assert c.params[..j + 1][..j] == c.params[..j];
          var param := ParseSignature(c.params[j]);
          if param.Ok? {
            parameters := parameters + [Parameter(param.value.name, param.value.ctype)];
          }
          j := j + 1;
        }
        assert c.params[..j] == c.params;
        functions := functions[proto.value.name := Function(proto.value.name, parameters, proto.value.ctype)];
      }
      i := i + 1;
    }
    assert commands[..i] == commands;
  }

  /** Every kept parameter is the parse of one of the fragments, and when
      all fragments parse none is lost. */
  lemma {:induction false} ParsedParamsFrom(params: seq<seq<Token>>)
    ensures |ParsedParams(params)| <= |params|
    ensures forall p :: p in ParsedParams(params) ==>
              exists k :: 0 <= k < |params| && DeclOf(params[k]) == Ok(Decl(p.name, p.ctype))
    ensures (forall k :: 0 <= k < |params| ==> DeclOf(params[k]).Ok?) ==>
              |ParsedParams(params)| == |params|
    decreases |params|
  {
    if |params| > 0 {
      var init := params[..|params| - 1];
      ParsedParamsFrom(init);
      forall p | p in ParsedParams(params)
        ensures exists k :: 0 <= k < |params| && DeclOf(params[k]) == Ok(Decl(p.name, p.ctype))
      {
        if p in ParsedParams(init) {
          var k :| 0 <= k < |init| && DeclOf(init[k]) == Ok(Decl(p.name, p.ctype));
          assert params[k] == init[k];
        } else {
          assert DeclOf(params[|params| - 1]) == Ok(Decl(p.name, p.ctype));
        }
      }
      if forall k :: 0 <= k < |params| ==> DeclOf(params[k]).Ok? {
        assert forall k :: 0 <= k < |init| ==> init[k] == params[k];
      }
    }
  }

  /** Command `c`'s prototype parses to a declaration of `name`. */
  predicate Declares(c: SpecCommand, name: string) {
    DeclOf(c.proto).Ok? && DeclOf(c.proto).value.name == name
  }

  /** A name is in the table exactly when some command's prototype parses
      to it, and it holds the last such command's function. */
  lemma FunctionsOfLast(commands: seq<SpecCommand>, name: string)
    ensures name in FunctionsOf(commands) <==> exists k :: 0 <= k < |commands| && Declares(commands[k], name)
    ensures forall k :: 0 <= k < |commands| && Declares(commands[k], name)
              && (forall l :: k < l < |commands| ==> !Declares(commands[l], name))
              ==> FunctionsOf(commands)[name] == Function(name, ParsedParams(commands[k].params), DeclOf(commands[k].proto).value.ctype)
  {
    FunctionsOfHas(commands, name);
    forall k | 0 <= k < |commands| && Declares(commands[k], name)
               && (forall l :: k < l < |commands| ==> !Declares(commands[l], name))
      ensures FunctionsOf(commands)[name] == Function(name, ParsedParams(commands[k].params), DeclOf(commands[k].proto).value.ctype)
    {
      FunctionsOfAt(commands, name, k);
    }
  }

  lemma FunctionsOfHas(commands: seq<SpecCommand>, name: string)
    ensures name in FunctionsOf(commands) <==> exists k :: 0 <= k < |commands| && Declares(commands[k], name)
  {
    if name in FunctionsOf(commands) {
      var k := FunctionsOfWitness(commands, name);
    }
    forall k | 0 <= k < |commands| && Declares(commands[k], name)
      ensures name in FunctionsOf(commands)
    {
      FunctionsOfIn(commands, name, k);
    }
  }

  lemma {:induction false} FunctionsOfWitness(commands: seq<SpecCommand>, name: string) returns (k: nat)
    requires name in FunctionsOf(commands)
    ensures k < |commands| && Declares(commands[k], name)
    decreases |commands|
  {
    var n := |commands| - 1;
    FunctionsOfSnoc(commands, name);
    if Declares(commands[n], name) {
      k := n;
    } else {
      var init := commands[..n];
      k := FunctionsOfWitness(init, name);
      assert init[k] == commands[k];
    }
  }

  lemma {:induction false} FunctionsOfIn(commands: seq<SpecCommand>, name: string, k: nat)
    requires k < |commands| && Declares(commands[k], name)
    ensures name in FunctionsOf(commands)
    decreases |commands|
  {
    var n := |commands| - 1;
    FunctionsOfSnoc(commands, name);
    if k < n && !Declares(commands[n], name) {
      var init := commands[..n];
      assert init[k] == commands[k];
      FunctionsOfIn(init, name, k);
    }
  }

  lemma {:induction false} FunctionsOfAt(commands: seq<SpecCommand>, name: string, k: nat)
    requires k < |commands| && Declares(commands[k], name)
    requires forall l :: k < l < |commands| ==> !Declares(commands[l], name)
    ensures name in FunctionsOf(commands)
    ensures FunctionsOf(commands)[name] == Function(name, ParsedParams(commands[k].params), DeclOf(commands[k].proto).value.ctype)
    decreases |commands|
  {
    var n := |commands| - 1;
    FunctionsOfSnoc(commands, name);
    if k < n {
      var init := commands[..n];
      assert init[k] == commands[k];
      forall l | k < l < |init|
        ensures !Declares(init[l], name)
      {
        assert init[l] == commands[l];
      }
      assert !Declares(commands[n], name);
      FunctionsOfAt(init, name, k);
    }
  }

  /** One more command either declares `name`, and then the table holds its
      function, or leaves the entry for `name` as it was. */
  lemma FunctionsOfSnoc(commands: seq<SpecCommand>, name: string)
    requires |commands| > 0
    ensures var c := commands[|commands| - 1];
            Declares(c, name) ==>
              name in FunctionsOf(commands)
              && FunctionsOf(commands)[name] == Function(name, ParsedParams(c.params), DeclOf(c.proto).value.ctype)
    ensures var c := commands[|commands| - 1];
            var t := FunctionsOf(commands[..|commands| - 1]);
            !Declares(c, name) ==>
              (name in FunctionsOf(commands) <==> name in t)
              && (name in t ==> FunctionsOf(commands)[name] == t[name])
  {
  }

  // ---------------------------------------------------------------------
  // findEnum

  /** An <enum> of an <enums> block, and the block with its group. */
  datatype TEnum = TEnum(value: string, name: string)

  datatype EnumToken = EnumToken(group: string, enums: seq<TEnum>)

  /** The value of the first enum of `es` named `name`. */
  function FirstValue(es: seq<TEnum>, name: string): Option<string> {
    if |es| == 0 then None
    else if es[0].name == name then Some(es[0].value)
    else FirstValue(es[1..], name)
  }

  /** The value and group of the first enum named `name`, blocks in order;
      ("", "") when there is none. */
  function EnumLookup(name: string, est: seq<EnumToken>): (string, string) {
    if |est| == 0 then ("", "")
    else match FirstValue(est[0].enums, name)
      case Some(v) => (v, est[0].group)
      case None => EnumLookup(name, est[1..])
  }

  /** findEnum, as the Go loops run it. */
  method FindEnum(enumName: string, est: seq<EnumToken>) returns (value: string, group: string)
    ensures (value, group) == EnumLookup(enumName, est)
  {
    var i := 0;
    while i < |est|
      invariant 0 <= i <= |est|
      invariant EnumLookup(enumName, est[i..]) == EnumLookup(enumName, est)
    {
      assert est[i..][1..] == est[i + 1..];
      var es := est[i];
      var j := 0;
      while j < |es.enums|
        invariant 0 <= j <= |es.enums|
        invariant FirstValue(es.enums[j..], enumName) == FirstValue(es.enums, enumName)
      {
        assert es.enums[j..][1..] == es.enums[j + 1..];
        if es.enums[j].name == enumName {
          return es.enums[j].value, es.group;
        }
        j := j + 1;
      }
      i := i + 1;
    }
    return "", "";
  }

  /** Enum `j` of block `i` is named `name` and no enum before it, in block
      order and then list order, is. */
  predicate FirstMatch(name: string, est: seq<EnumToken>, i: int, j: int) {
    0 <= i < |est| && 0 <= j < |est[i].enums| && est[i].enums[j].name == name
    && (forall i', j' :: 0 <= i' < i && 0 <= j' < |est[i'].enums| ==> est[i'].enums[j'].name != name)
    && (forall j' :: 0 <= j' < j ==> est[i].enums[j'].name != name)
  }

  lemma {:induction false} FirstValueAt(es: seq<TEnum>, name: string, j: nat)
    requires j < |es| && es[j].name == name && forall j' :: 0 <= j' < j ==> es[j'].name != name
    ensures FirstValue(es, name) == Some(es[j].value)
    decreases j
  {
    if j > 0 {
      FirstValueAt(es[1..], name, j - 1);
    }
  }

  lemma {:induction false} FirstValueNone(es: seq<TEnum>, name: string)
    requires forall j :: 0 <= j < |es| ==> es[j].name != name
    ensures FirstValue(es, name) == None
    decreases |es|
  {
    if |es| > 0 {
      FirstValueNone(es[1..], name);
    }
  }

  /** The first enum with the name decides the value and the group. */
  lemma {:induction false} EnumLookupFirst(name: string, est: seq<EnumToken>, i: nat, j: nat)
    requires FirstMatch(name, est, i, j)
    ensures EnumLookup(name, est) == (est[i].enums[j].value, est[i].group)
    decreases i
  {
    if i == 0 {
      FirstValueAt(est[0].enums, name, j);
    } else {
      FirstValueNone(est[0].enums, name);
      assert FirstMatch(name, est[1..], i - 1, j) by {
        forall i', j' | 0 <= i' < i - 1 && 0 <= j' < |est[1..][i'].enums|
          ensures est[1..][i'].enums[j'].name != name
        {
          assert est[1..][i'] == est[i' + 1];
        }
      }
      EnumLookupFirst(name, est[1..], i - 1, j);
    }
  }

  /** Without an enum of the name the lookup gives two empty strings. */
  lemma {:induction false} EnumLookupMissing(name: string, est: seq<EnumToken>)
    requires forall i, j :: 0 <= i < |est| && 0 <= j < |est[i].enums| ==> est[i].enums[j].name != name
    ensures EnumLookup(name, est) == ("", "")
    decreases |est|
  {
    if |est| > 0 {
      FirstValueNone(est[0].enums, name);
      var rest := est[1..];
      assert forall i :: 0 <= i < |rest| ==> rest[i] == est[i + 1];
      EnumLookupMissing(name, rest);
    }
  }

  // ---------------------------------------------------------------------
  // Packages and the add/remove helpers

  /** An enum as a package stores it: the registry name without its GL
      prefix, and the value and group findEnum gives for the full name. */
  datatype PEnum = PEnum(name: string, value: string, group: string)

  function EnumEntry(n: string, est: seq<EnumToken>): PEnum {
    PEnum(Util.TrimGLEnumPrefix(n), EnumLookup(n, est).0, EnumLookup(n, est).1)
  }

  function NameSet(names: seq<string>): set<string> {
    set n | n in names
  }

  /** Removing one more key, whether or not it is there. */
  lemma RemoveStep<V>(m: map<string, V>, gone: set<string>, key: string)
    ensures (m - gone) - {key} == m - (gone + {key})
    ensures key !in m - gone ==> m - gone == m - (gone + {key})
  {
  }

  lemma NameSetSnoc(names: seq<string>, n: string)
    ensures NameSet(names + [n]) == NameSet(names) + {n}
  {
  }

  /** The enum table after storing each name's entry in turn. */
  function WithEnums(m: map<string, PEnum>, names: seq<string>, est: seq<EnumToken>): map<string, PEnum> {
    if |names| == 0 then m
    else
      var n := names[|names| - 1];
      WithEnums(m, names[..|names| - 1], est)[n := EnumEntry(n, est)]
  }

  /** The function-table keys of command names: each name without its GL
      prefix. */
  function CmdKeys(names: seq<string>): seq<string> {
    seq(|names|, k requires 0 <= k < |names| => Util.TrimGLCmdPrefix(names[k]))
  }

  /** Every key is in the function table. */
  predicate Known(keys: seq<string>, table: map<string, Function>) {
    forall key :: key in keys ==> key in table
  }

  /** The function table after storing each key's table entry in turn. */
  function WithFunctions(m: map<string, Function>, keys: seq<string>, table: map<string, Function>): map<string, Function>
    requires Known(keys, table)
  {
    if |keys| == 0 then m
    else
      var key := keys[|keys| - 1];
      WithFunctions(m, keys[..|keys| - 1], table)[key := table[key]]
  }

  /** Storing one more key of a fully known list extends the table of the
      shorter prefix by that key's entry. */
  lemma WithFunctionsSnoc(m: map<string, Function>, keys: seq<string>, table: map<string, Function>, j: nat)
    requires Known(keys, table) && j < |keys|
    ensures Known(keys[..j], table) && Known(keys[..j + 1], table) && keys[j] in table
    ensures WithFunctions(m, keys[..j + 1], table) == WithFunctions(m, keys[..j], table)[keys[j] := table[keys[j]]]
  {
    assert keys[..j + 1][..j] == keys[..j];
    assert keys[j] in keys;
  }

  /** The stored enums: a listed name holds its entry (the trimmed name,
      and the value and group of its first definition in the registry), any
      other key keeps its old entry, and no other key appears. */
  lemma {:induction false} WithEnumsAt(m: map<string, PEnum>, names: seq<string>, est: seq<EnumToken>, n: string)
    ensures n in WithEnums(m, names, est) <==> n in m || n in names
    ensures n in names ==> WithEnums(m, names, est)[n] == EnumEntry(n, est)
    ensures n !in names && n in m ==> WithEnums(m, names, est)[n] == m[n]
    decreases |names|
  {
    if |names| > 0 {
      var init := names[..|names| - 1];
      WithEnumsAt(m, init, est, n);
      InSplitLast(names, n);
    }
  }

  /** Adding the same enums twice is adding them once. */
  lemma WithEnumsTwice(m: map<string, PEnum>, names: seq<string>, est: seq<EnumToken>)
    ensures WithEnums(WithEnums(m, names, est), names, est) == WithEnums(m, names, est)
  {
    var once := WithEnums(m, names, est);
    var twice := WithEnums(once, names, est);
    forall n | n in twice || n in once
      ensures n in twice && n in once && twice[n] == once[n]
    {
      WithEnumsAt(m, names, est, n);
      WithEnumsAt(once, names, est, n);
    }
    assert twice.Keys == once.Keys;
  }

  /** The stored functions: a listed key holds the table's entry, any
      other key keeps its old entry, and no other key appears. */
  lemma {:induction false} WithFunctionsAt(m: map<string, Function>, keys: seq<string>, table: map<string, Function>, key: string)
    requires Known(keys, table)
    ensures key in WithFunctions(m, keys, table) <==> key in m || key in keys
    ensures key in keys ==> WithFunctions(m, keys, table)[key] == table[key]
    ensures key !in keys && key in m ==> WithFunctions(m, keys, table)[key] == m[key]
    decreases |keys|
  {
    if |keys| > 0 {
      var init := keys[..|keys| - 1];
      assert keys[|keys| - 1] in keys;
      WithFunctionsAt(m, init, table, key);
      InSplitLast(keys, key);
    }
  }

  /** Adding the same functions twice is adding them once. */
  lemma WithFunctionsTwice(m: map<string, Function>, keys: seq<string>, table: map<string, Function>)
    requires Known(keys, table)
    ensures WithFunctions(WithFunctions(m, keys, table), keys, table) == WithFunctions(m, keys, table)
  {
    var once := WithFunctions(m, keys, table);
    var twice := WithFunctions(once, keys, table);
    forall key | key in twice || key in once
      ensures key in twice && key in once && twice[key] == once[key]
    {
      WithFunctionsAt(m, keys, table, key);
      WithFunctionsAt(once, keys, table, key);
    }
    assert twice.Keys == once.Keys;
  }

  /** The helpers change a package only when it has the feature's API and
      its version is not before the feature's. */
  predicate Targeted(pApi: string, pVersion: Version, api: string, ver: Version) {
    pApi == api && Compare(pVersion, ver) >= 0
  }

  /** One generated package: its API and version, the typedefs it shares
      with every package, and the enum and function tables the replay
      fills. */
  class Package {
    var api: string
    var name: string
    var version: Version
    var typeDefs: seq<TypeDef>
    var enums: map<string, PEnum>
    var functions: map<string, Function>

    /** A package as ParseSpecFile creates it: named after its API, with
        empty tables. */
    constructor (api: string, version: Version, typeDefs: seq<TypeDef>)
      ensures this.api == api && name == api && this.version == version && this.typeDefs == typeDefs
      ensures enums == map[] && functions == map[]
    {
      this.api := api;
      name := api;
      this.version := version;
      this.typeDefs := typeDefs;
      enums := map[];
      functions := map[];
    }

    /** The inner loop of addEnums: every listed name is stored under its
        full registry name, replacing any earlier entry. */
    method AddEnumsTo(enumNames: seq<string>, est: seq<EnumToken>)
      modifies this`enums
      ensures enums == WithEnums(old(enums), enumNames, est)
    {
      ghost var m0 := enums;
      var m := enums;
      var j := 0;
      while j < |enumNames|
        invariant 0 <= j <= |enumNames|
        invariant m == WithEnums(m0, enumNames[..j], est)
      {
        assert enumNames[..j + 1][..j] == enumNames[..j];
        var value, group := FindEnum(enumNames[j], est);
        m := m[enumNames[j] := PEnum(Util.TrimGLEnumPrefix(enumNames[j]), value, group)];
        j := j + 1;
      }
      TakeAll(enumNames);
      enums := m;
    }

    /** The inner loop of removeEnums: every listed full name is gone;
        a name that is not there is skipped. */
    method RemoveEnumsFrom(enumNames: seq<string>)
      modifies this`enums
      ensures enums == old(enums) - NameSet(enumNames)
    {
      ghost var m0 := enums;
      var m := enums;
      var j := 0;
      while j < |enumNames|
        invariant 0 <= j <= |enumNames|
        invariant m == m0 - NameSet(enumNames[..j])
      {
        TakeSnoc(enumNames, j);
        NameSetSnoc(enumNames[..j], enumNames[j]);
        RemoveStep(m0, NameSet(enumNames[..j]), enumNames[j]);
        if enumNames[j] in m {
          m := m - {enumNames[j]};
        }
        j := j + 1;
      }
      TakeAll(enumNames);
      enums := m;
    }

    /** The inner loop of addCommands: every listed command is stored under
        its name without the GL prefix. The source stops the program when
        a command is missing from the function table, so the table must
        hold them all. */
    method AddCommandsTo(cmdNames: seq<string>, table: map<string, Function>)
      requires Known(CmdKeys(cmdNames), table)
      modifies this`functions
      ensures functions == WithFunctions(old(functions), CmdKeys(cmdNames), table)
    {
      ghost var keys := CmdKeys(cmdNames);
      ghost var m0 := functions;
      var m := functions;
      var j := 0;
      while j < |cmdNames|
        invariant 0 <= j <= |cmdNames|
        invariant Known(keys[..j], table)
        invariant m == WithFunctions(m0, keys[..j], table)
      {
        WithFunctionsSnoc(m0, keys, table, j);
        var fnName := Util.TrimGLCmdPrefix(cmdNames[j]);
        assert fnName == keys[j];
        m := m[fnName := table[fnName]];
        j := j + 1;
      }
      TakeAll(keys);
      functions := m;
    }

    /** The inner loop of removeCommands: every listed command's key is
        gone; a key that is not there is skipped. */
    method RemoveCommandsFrom(cmdNames: seq<string>)
      modifies this`functions
      ensures functions == old(functions) - NameSet(CmdKeys(cmdNames))
    {
      ghost var keys := CmdKeys(cmdNames);
      ghost var m0 := functions;
      var m := functions;
      var j := 0;
      while j < |cmdNames|
        invariant 0 <= j <= |cmdNames|
        invariant m == m0 - NameSet(keys[..j])
      {
        TakeSnoc(keys, j);
        NameSetSnoc(keys[..j], keys[j]);
        var fname := Util.TrimGLCmdPrefix(cmdNames[j]);
        assert fname == keys[j];
        RemoveStep(m0, NameSet(keys[..j]), fname);
        if fname in m {
          m := m - {fname};
        }
        j := j + 1;
      }
      TakeAll(keys);
      functions := m;
    }
  }

  /** addEnums: the targeted packages gain the entries, the others keep
      their enums. A package listed twice ends the same, since adding the
      same entries again changes nothing. */
  method AddEnums(ps: seq<Package>, api: string, ver: Version, enumNames: seq<string>, est: seq<EnumToken>)
    modifies ps`enums
    ensures forall p :: p in ps ==>
              p.enums == if Targeted(p.api, p.version, api, ver) then WithEnums(old(p.enums), enumNames, est) else old(p.enums)
  {
    var i := 0;
    while i < |ps|
      invariant 0 <= i <= |ps|
      invariant forall p :: p in ps ==>
                  p.enums == if p in ps[..i] && Targeted(p.api, p.version, api, ver)
                             then WithEnums(old(p.enums), enumNames, est) else old(p.enums)
    {
      var pc := ps[i];
      label Before:
      if pc.api == api && Compare(pc.version, ver) >= 0 {
        WithEnumsTwice(old(pc.enums), enumNames, est);
        pc.AddEnumsTo(enumNames, est);
      }
      forall p | p in ps
        ensures p.enums == if p in ps[..i + 1] && Targeted(p.api, p.version, api, ver)
                           then WithEnums(old(p.enums), enumNames, est) else old(p.enums)
      {
        TakeSnocIn(ps, i, p);
        if p != pc {
          assert p.enums == old@Before(p.enums);
        }
      }
      i := i + 1;
    }
    assert ps[..i] == ps;
  }

  /** removeEnums: the targeted packages lose the names, the others keep
      their enums. */
  method RemoveEnums(ps: seq<Package>, api: string, ver: Version, enumNames: seq<string>)
    modifies ps`enums
    ensures forall p :: p in ps ==>
              p.enums == if Targeted(p.api, p.version, api, ver) then old(p.enums) - NameSet(enumNames) else old(p.enums)
  {
    var i := 0;
    while i < |ps|
      invariant 0 <= i <= |ps|
      invariant forall p :: p in ps ==>
                  p.enums == if p in ps[..i] && Targeted(p.api, p.version, api, ver)
                             then old(p.enums) - NameSet(enumNames) else old(p.enums)
    {
      var pc := ps[i];
      label Before:
      if pc.api == api && Compare(pc.version, ver) >= 0 {
        pc.RemoveEnumsFrom(enumNames);
        assert (old(pc.enums) - NameSet(enumNames)) - NameSet(enumNames) == old(pc.enums) - NameSet(enumNames);
      }
      forall p | p in ps
        ensures p.enums == if p in ps[..i + 1] && Targeted(p.api, p.version, api, ver)
                           then old(p.enums) - NameSet(enumNames) else old(p.enums)
      {
        TakeSnocIn(ps, i, p);
        if p != pc {
          assert p.enums == old@Before(p.enums);
        }
      }
      i := i + 1;
    }
    assert ps[..i] == ps;
  }

  /** addCommands: the targeted packages gain the commands, the others keep
      their functions. The program stops when a targeted package needs a
      command the table lacks; that case is the precondition. */
  method AddCommands(ps: seq<Package>, api: string, ver: Version, cmdNames: seq<string>, table: map<string, Function>)
    requires forall p :: p in ps && Targeted(p.api, p.version, api, ver) ==> Known(CmdKeys(cmdNames), table)
    modifies ps`functions
    ensures forall p :: p in ps ==>
              p.functions == if Targeted(p.api, p.version, api, ver)
                             then WithFunctions(old(p.functions), CmdKeys(cmdNames), table) else old(p.functions)
  {
    var i := 0;
    while i < |ps|
      invariant 0 <= i <= |ps|
      invariant forall p :: p in ps ==>
                  p.functions == if p in ps[..i] && Targeted(p.api, p.version, api, ver)
                                 then WithFunctions(old(p.functions), CmdKeys(cmdNames), table) else old(p.functions)
    {
      var pc := ps[i];
      label Before:
      if pc.api == api && Compare(pc.version, ver) >= 0 {
        WithFunctionsTwice(old(pc.functions), CmdKeys(cmdNames), table);
        pc.AddCommandsTo(cmdNames, table);
      }
      forall p | p in ps
        ensures p.functions == if p in ps[..i + 1] && Targeted(p.api, p.version, api, ver)
                               then WithFunctions(old(p.functions), CmdKeys(cmdNames), table) else old(p.functions)
      {
        TakeSnocIn(ps, i, p);
        if p != pc {
          assert p.functions == old@Before(p.functions);
        }
      }
      i := i + 1;
    }
    assert ps[..i] == ps;
  }

  /** removeCommands: the targeted packages lose the commands, the others
      keep their functions. */
  method RemoveCommands(ps: seq<Package>, api: string, ver: Version, cmdNames: seq<string>)
    modifies ps`functions
    ensures forall p :: p in ps ==>
              p.functions == if Targeted(p.api, p.version, api, ver) then old(p.functions) - NameSet(CmdKeys(cmdNames)) else old(p.functions)
  {
    var i := 0;
    while i < |ps|
      invariant 0 <= i <= |ps|
      invariant forall p :: p in ps ==>
                  p.functions == if p in ps[..i] && Targeted(p.api, p.version, api, ver)
                                 then old(p.functions) - NameSet(CmdKeys(cmdNames)) else old(p.functions)
    {
      var pc := ps[i];
      label Before:
      if pc.api == api && Compare(pc.version, ver) >= 0 {
        pc.RemoveCommandsFrom(cmdNames);
        assert (old(pc.functions) - NameSet(CmdKeys(cmdNames))) - NameSet(CmdKeys(cmdNames))
               == old(pc.functions) - NameSet(CmdKeys(cmdNames));
      }
      forall p | p in ps
        ensures p.functions == if p in ps[..i + 1] && Targeted(p.api, p.version, api, ver)
                               then old(p.functions) - NameSet(CmdKeys(cmdNames)) else old(p.functions)
      {
        TakeSnocIn(ps, i, p);
        if p != pc {
          assert p.functions == old@Before(p.functions);
        }
      }
      i := i + 1;
    }
    assert ps[..i] == ps;
  }

  // ---------------------------------------------------------------------
  // ParseFeatureList and HasFeature

  /** One entry of the feature option: an API name and the versions asked
      for. */
  datatype FeatureOpt = FeatureOpt(name: string, versions: seq<Version>)

  /** The values of a list of results, or the first error among them: the
      shape of every Go loop here that returns on its first error. */
  function Collect<T>(rs: seq<Result<T>>): (c: Result<seq<T>>)
    ensures c.Ok? ==> |c.value| == |rs|
  {
    if |rs| == 0 then Ok([])
    else match Collect(rs[..|rs| - 1])
      case Err(e) => Err(e)
      case Ok(done) =>
        match rs[|rs| - 1]
        case Err(e) => Err(e)
        case Ok(v) => Ok(done + [v])
  }

  /** Once a prefix fails, the whole list fails with the same error. */
  lemma {:induction false} CollectErr<T>(rs: seq<Result<T>>, n: nat)
    requires n <= |rs| && Collect(rs[..n]).Err?
    ensures Collect(rs) == Collect(rs[..n])
    decreases |rs| - n
  {
    if n < |rs| {
      assert rs[..n + 1][..n] == rs[..n];
      CollectErr(rs, n + 1);
    } else {
      assert rs[..n] == rs;
    }
  }

  /** One more result: the prefix one longer fails where the shorter one
      or the new result does, and otherwise ends with the new value. */
  lemma CollectSnoc<T>(rs: seq<Result<T>>, i: nat)
    requires i < |rs|
    ensures Collect(rs[..i + 1]) == match Collect(rs[..i])
                                     case Err(e) => Err(e)
                                     case Ok(done) => (match rs[i] case Err(e) => Err(e) case Ok(v) => Ok(done + [v]))
  {
    assert rs[..i + 1][..i] == rs[..i];
  }

  /** The list succeeds exactly when every result does, and then holds
      every value in order. */
  lemma {:induction false} CollectOk<T>(rs: seq<Result<T>>)
    ensures Collect(rs).Ok? <==> forall k :: 0 <= k < |rs| ==> rs[k].Ok?
    ensures Collect(rs).Ok? ==> |Collect(rs).value| == |rs|
    ensures Collect(rs).Ok? ==> forall k :: 0 <= k < |rs| ==> rs[k].Ok? && Collect(rs).value[k] == rs[k].value
    decreases |rs|
  {
    if |rs| > 0 {
      var init := rs[..|rs| - 1];
      CollectOk(init);
      assert forall k :: 0 <= k < |init| ==> init[k] == rs[k];
    }
  }

  /** A failing list reports the error of its first failing result. */
  lemma {:induction false} CollectFirstErr<T>(rs: seq<Result<T>>)
    requires Collect(rs).Err?
    ensures exists k :: 0 <= k < |rs| && rs[k].Err? && Collect(rs).message == rs[k].message
              && forall l :: 0 <= l < k ==> rs[l].Ok?
    decreases |rs|
  {
    var init := rs[..|rs| - 1];
    if Collect(init).Err? {
      CollectFirstErr(init);
      var k :| 0 <= k < |init| && init[k].Err? && Collect(init).message == init[k].message
               && forall l :: 0 <= l < k ==> init[l].Ok?;
      assert rs[k] == init[k];
      assert forall l :: 0 <= l < k ==> rs[l] == init[l];
    } else {
      CollectOk(init);
      assert forall l :: 0 <= l < |init| ==> rs[l] == init[l];
    }
  }

  /** The versions of a list of version strings, stopping at the first that
      does not parse. */
  function VersionListOf(strs: seq<string>): Result<seq<Version>> {
    Collect(VersionResults(strs))
  }

  function VersionResults(strs: seq<string>): (rs: seq<Result<Version>>)
    ensures |rs| == |strs|
  {
    seq(|strs|, k requires 0 <= k < |strs| => ParseVersion(strs[k]))
  }

  /** One `name:versions` segment of the option `featureStr`. */
  function FeatureOf(segment: string, featureStr: string): Result<FeatureOpt> {
    var featver := SplitFirst(segment, ':');
    if |featver| != 2 then Err("wrong format or version needed: '" + featureStr + "'")
    else match VersionListOf(Split(featver[1], ','))
      case Err(e) => Err(e)
      case Ok(versions) => Ok(FeatureOpt(featver[0], versions))
  }

  /** The entries of the segments, stopping at the first that fails. */
  function FeaturesOf(segments: seq<string>, featureStr: string): Result<seq<FeatureOpt>> {
    Collect(FeatureResults(segments, featureStr))
  }

  function FeatureResults(segments: seq<string>, featureStr: string): seq<Result<FeatureOpt>> {
    seq(|segments|, k requires 0 <= k < |segments| => FeatureOf(segments[k], featureStr))
  }

  /** ParseFeatureList's result: the empty option is an error, otherwise
      the `|`-separated segments in order. */
  function FeatureListOf(featureStr: string): Result<seq<FeatureOpt>> {
    if |featureStr| == 0 then Err("feature string is empty")
    else FeaturesOf(Split(featureStr, '|'), featureStr)
  }

  /** The inner loop of ParseFeatureList: the versions of one segment,
      returning the first version string's error. */
  method ParseVersions(versionStrs: seq<string>) returns (r: Result<seq<Version>>)
    ensures r == VersionListOf(versionStrs)
  {
    var versions := [];
    ghost var vers := VersionResults(versionStrs);
    var j := 0;
    while j < |versionStrs|
      invariant 0 <= j <= |versionStrs|
      invariant Collect(vers[..j]) == Ok(versions)
    {
      assert vers[..j + 1][..j] == vers[..j];
      var version := ParseVersion(versionStrs[j]);
      if version.Err? {
        CollectErr(vers, j + 1);
        return Err(version.message);
      }
      versions := versions + [version.value];
      j := j + 1;
    }
    assert vers[..j] == vers;
    return Ok(versions);
  }

  /** ParseFeatureList, as the Go loops run it. */
  method ParseFeatureList(featureStr: string) returns (r: Result<seq<FeatureOpt>>)
    ensures r == FeatureListOf(featureStr)
  {
    if |featureStr| == 0 {
      return Err("feature string is empty");
    }
    var features := [];
    var featureStrs := Split(featureStr, '|');
    ghost var segs := FeatureResults(featureStrs, featureStr);
    var i := 0;
    while i < |featureStrs|
      invariant 0 <= i <= |featureStrs|
      invariant Collect(segs[..i]) == Ok(features)
    {
      assert segs[..i + 1][..i] == segs[..i];
      var featver := SplitFirst(featureStrs[i], ':');
      if |featver| != 2 {
        CollectErr(segs, i + 1);
        return Err("wrong format or version needed: '" + featureStr + "'");
      }
      var versions := ParseVersions(Split(featver[1], ','));
      if versions.Err? {
        CollectErr(segs, i + 1);
        return Err(versions.message);
      }
      features := features + [FeatureOpt(featver[0], versions.value)];
      i := i + 1;
    }
    assert segs[..i] == segs;
    return Ok(features);
  }

  /** A segment without a ':' is rejected with the whole option in the
      message. */
  lemma FeatureOfNoColon(segment: string, featureStr: string)
    requires ':' !in segment
    ensures FeatureOf(segment, featureStr) == Err("wrong format or version needed: '" + featureStr + "'")
  {
  }

  /** A segment with a ':' is accepted exactly when every comma-separated
      version after the first ':' parses; the entry is then the text
      before the ':' with those versions, at least one. */
  lemma FeatureOfOk(segment: string, featureStr: string)
    requires ':' in segment
    ensures var strs := Split(SplitFirst(segment, ':')[1], ',');
            FeatureOf(segment, featureStr).Ok? <==> forall k :: 0 <= k < |strs| ==> ParseVersion(strs[k]).Ok?
    ensures FeatureOf(segment, featureStr).Ok? ==>
              var parts := SplitFirst(segment, ':');
              var strs := Split(parts[1], ',');
              var f := FeatureOf(segment, featureStr).value;
              parts[0] + [':'] + parts[1] == segment && ':' !in f.name && f.name == parts[0]
              && |f.versions| == |strs| >= 1
              && forall k :: 0 <= k < |strs| ==> f.versions[k] == ParseVersion(strs[k]).value
  {
    var parts := SplitFirst(segment, ':');
    var strs := Split(parts[1], ',');
    var rs := VersionResults(strs);
    CollectOk(rs);
    assert FeatureOf(segment, featureStr).Ok? <==> Collect(rs).Ok?;
    assert forall k :: 0 <= k < |rs| ==> rs[k] == ParseVersion(strs[k]);
    if forall k :: 0 <= k < |strs| ==> ParseVersion(strs[k]).Ok? {
      assert forall k :: 0 <= k < |rs| ==> rs[k].Ok?;
    } else {
      var k :| 0 <= k < |strs| && ParseVersion(strs[k]).Err?;
      assert |rs| == |strs| && rs[k].Err?;
      assert !FeatureOf(segment, featureStr).Ok?;
      assert strs == Split(SplitFirst(segment, ':')[1], ',');
    }
  }

  /** The option parses exactly when it is not empty and every segment is
      accepted; it then holds one entry per segment, in order. */
  lemma FeatureListOk(featureStr: string)
    ensures var segments := Split(featureStr, '|');
            FeatureListOf(featureStr).Ok? <==>
              featureStr != "" && forall k :: 0 <= k < |segments| ==> FeatureOf(segments[k], featureStr).Ok?
    ensures FeatureListOf(featureStr).Ok? ==>
              var segments := Split(featureStr, '|');
              |FeatureListOf(featureStr).value| == |segments|
              && forall k :: 0 <= k < |segments| ==> FeatureListOf(featureStr).value[k] == FeatureOf(segments[k], featureStr).value
  {
    if featureStr != "" {
      var segments := Split(featureStr, '|');
      var rs := FeatureResults(segments, featureStr);
      CollectOk(rs);
      assert FeatureListOf(featureStr) == Collect(rs);
      assert forall k :: 0 <= k < |rs| ==> rs[k] == FeatureOf(segments[k], featureStr);
      if forall k :: 0 <= k < |segments| ==> FeatureOf(segments[k], featureStr).Ok? {
        assert forall k :: 0 <= k < |rs| ==> rs[k].Ok?;
      } else {
        var k :| 0 <= k < |segments| && FeatureOf(segments[k], featureStr).Err?;
        assert |rs| == |segments| && rs[k].Err?;
        assert !FeatureListOf(featureStr).Ok?;
        assert segments == Split(featureStr, '|');
      }
    }
  }

  /** Some entry with the name lists a version equal to `ver`. */
  predicate Offers(fs: seq<FeatureOpt>, name: string, ver: Version) {
    exists i, j :: 0 <= i < |fs| && 0 <= j < |fs[i].versions| && fs[i].name == name && Compare(fs[i].versions[j], ver) == 0
  }

  /** HasFeature, as the Go loops run it. */
  method HasFeature(fs: seq<FeatureOpt>, name: string, ver: Version) returns (b: bool)
    ensures b <==> Offers(fs, name, ver)
  {
    var i := 0;
    while i < |fs|
      invariant 0 <= i <= |fs|
      invariant forall i', j :: 0 <= i' < i && 0 <= j < |fs[i'].versions| && fs[i'].name == name ==> Compare(fs[i'].versions[j], ver) != 0
    {
      if fs[i].name == name {
        var j := 0;
        while j < |fs[i].versions|
          invariant 0 <= j <= |fs[i].versions|
          invariant forall j' :: 0 <= j' < j ==> Compare(fs[i].versions[j'], ver) != 0
        {
          if Compare(fs[i].versions[j], ver) == 0 {
            return true;
          }
          j := j + 1;
        }
      }
      i := i + 1;
    }
    return false;
  }

  /** Asked about the "all versions" pseudo-version, an option parsed by
      ParseFeatureList offers exactly the names it lists. */
  lemma OffersAll(featureStr: string, name: string, ver: Version)
    requires FeatureListOf(featureStr).Ok? && IsAll(ver)
    ensures var fs := FeatureListOf(featureStr).value;
            Offers(fs, name, ver) <==> exists i :: 0 <= i < |fs| && fs[i].name == name
  {
    var fs := FeatureListOf(featureStr).value;
    var segments := Split(featureStr, '|');
    FeatureListOk(featureStr);
    if i :| 0 <= i < |fs| && fs[i].name == name {
      FeatureOfOk(segments[i], featureStr);
      assert Compare(fs[i].versions[0], ver) == 0;
    }
  }

  // ---------------------------------------------------------------------
  // ParseSpecFile

  /** A <require> or <remove> block of a feature: the enum and command
      names it lists. */
  datatype Block = Block(enums: seq<string>, commands: seq<string>)

  /** A <feature>: its API, name, version number text and blocks. */
  datatype SpecFeature = SpecFeature(api: string, name: string, number: string, required: seq<Block>, removed: seq<Block>)

  /** A package's two tables, as values. */
  datatype Tables = Tables(enums: map<string, PEnum>, functions: map<string, Function>)

  /** The enum table after adding each block's enums in turn. */
  function EnumsAdded(m: map<string, PEnum>, bs: seq<Block>, est: seq<EnumToken>): map<string, PEnum> {
    if |bs| == 0 then m
    else WithEnums(EnumsAdded(m, bs[..|bs| - 1], est), bs[|bs| - 1].enums, est)
  }

  /** Every enum name the blocks list. */
  function EnumsListed(bs: seq<Block>): set<string> {
    if |bs| == 0 then {}
    else EnumsListed(bs[..|bs| - 1]) + NameSet(bs[|bs| - 1].enums)
  }

  /** Every function-table key of the commands the blocks list. */
  function CommandsListed(bs: seq<Block>): set<string> {
    if |bs| == 0 then {}
    else CommandsListed(bs[..|bs| - 1]) + NameSet(CmdKeys(bs[|bs| - 1].commands))
  }

  /** Every command the blocks list is in the function table. */
  predicate BlocksKnown(bs: seq<Block>, table: map<string, Function>) {
    forall k :: 0 <= k < |bs| ==> Known(CmdKeys(bs[k].commands), table)
  }

  /** The function table after adding each block's commands in turn. */
  function FunctionsAdded(m: map<string, Function>, bs: seq<Block>, table: map<string, Function>): map<string, Function>
    requires BlocksKnown(bs, table)
  {
    if |bs| == 0 then m
    else WithFunctions(FunctionsAdded(m, bs[..|bs| - 1], table), CmdKeys(bs[|bs| - 1].commands), table)
  }

  /** One feature's effect on a package with API `pApi` and version
      `pVersion`: when targeted, the required enums are added, then the
      removed enums dropped, then the required commands added, then the
      removed commands dropped; otherwise nothing changes. */
  function FeatureOn(t: Tables, pApi: string, pVersion: Version, f: SpecFeature, v: Version,
                     est: seq<EnumToken>, table: map<string, Function>): Tables
    requires Targeted(pApi, pVersion, f.api, v) ==> BlocksKnown(f.required, table)
  {
    if Targeted(pApi, pVersion, f.api, v) then
      Tables(EnumsAdded(t.enums, f.required, est) - EnumsListed(f.removed),
             FunctionsAdded(t.functions, f.required, table) - CommandsListed(f.removed))
    else t
  }

  /** A name is listed by the blocks exactly when some block lists it. */
  lemma {:induction false} EnumsListedAt(bs: seq<Block>, n: string)
    ensures n in EnumsListed(bs) <==> exists k :: 0 <= k < |bs| && n in bs[k].enums
    decreases |bs|
  {
    if |bs| > 0 {
      var init := bs[..|bs| - 1];
      EnumsListedAt(init, n);
      if n in EnumsListed(init) {
        var k :| 0 <= k < |init| && n in init[k].enums;
        assert bs[k] == init[k];
      }
      if exists k :: 0 <= k < |bs| && n in bs[k].enums {
        var k :| 0 <= k < |bs| && n in bs[k].enums;
        if k < |init| {
          assert init[k] == bs[k];
        }
      }
    }
  }

  /** The enums after the required blocks: a listed name holds its entry,
      any other name keeps its old entry, and no other name appears. */
  lemma {:induction false} EnumsAddedAt(m: map<string, PEnum>, bs: seq<Block>, est: seq<EnumToken>, n: string)
    ensures n in EnumsAdded(m, bs, est) <==> n in m || n in EnumsListed(bs)
    ensures n in EnumsListed(bs) ==> EnumsAdded(m, bs, est)[n] == EnumEntry(n, est)
    ensures n !in EnumsListed(bs) && n in m ==> EnumsAdded(m, bs, est)[n] == m[n]
    decreases |bs|
  {
    if |bs| > 0 {
      var init := bs[..|bs| - 1];
      EnumsAddedAt(m, init, est, n);
      WithEnumsAt(EnumsAdded(m, init, est), bs[|bs| - 1].enums, est, n);
    }
  }

  /** The functions after the required blocks: a listed key holds the
      table's entry, any other key keeps its old entry, and no other key
      appears. */
  lemma {:induction false} FunctionsAddedAt(m: map<string, Function>, bs: seq<Block>, table: map<string, Function>, key: string)
    requires BlocksKnown(bs, table)
    ensures key in FunctionsAdded(m, bs, table) <==> key in m || key in CommandsListed(bs)
    ensures key in CommandsListed(bs) ==> key in table
    ensures key in CommandsListed(bs) ==> FunctionsAdded(m, bs, table)[key] == table[key]
    ensures key !in CommandsListed(bs) && key in m ==> FunctionsAdded(m, bs, table)[key] == m[key]
    decreases |bs|
  {
    if |bs| > 0 {
      var init := bs[..|bs| - 1];
      assert BlocksKnown(init, table) by {
        forall k | 0 <= k < |init|
          ensures Known(CmdKeys(init[k].commands), table)
        {
          assert init[k] == bs[k];
        }
      }
      FunctionsAddedAt(m, init, table, key);
      WithFunctionsAt(FunctionsAdded(m, init, table), CmdKeys(bs[|bs| - 1].commands), table, key);
    }
  }

  /** A feature that targets the package: an enum is there afterwards
      exactly when it was there before or is required, and is not removed;
      a required enum holds its entry. Removal wins over a requirement of
      the same feature. The same holds of the commands. */
  lemma FeatureOnAt(t: Tables, pApi: string, pVersion: Version, f: SpecFeature, v: Version,
                    est: seq<EnumToken>, table: map<string, Function>, n: string)
    requires Targeted(pApi, pVersion, f.api, v) && BlocksKnown(f.required, table)
    ensures var u := FeatureOn(t, pApi, pVersion, f, v, est, table);
            (n in u.enums <==> (n in t.enums || n in EnumsListed(f.required)) && n !in EnumsListed(f.removed))
            && (n in u.enums && n in EnumsListed(f.required) ==> u.enums[n] == EnumEntry(n, est))
            && (n in u.functions <==> (n in t.functions || n in CommandsListed(f.required)) && n !in CommandsListed(f.removed))
            && (n in CommandsListed(f.required) ==> n in table && n in u.functions ==> u.functions[n] == table[n])
  {
    EnumsAddedAt(t.enums, f.required, est, n);
    FunctionsAddedAt(t.functions, f.required, table, n);
  }

  /** Removing two sets in turn is removing their union. */
  lemma RemoveBoth<V>(m: map<string, V>, a: set<string>, b: set<string>)
    ensures (m - a) - b == m - (a + b)
  {
  }

  /** The first two loops of one replay iteration: the enums of every
      <require> block are added, then those of every <remove> block
      dropped. */
  method ReplayEnums(ps: seq<Package>, f: SpecFeature, v: Version, est: seq<EnumToken>)
    modifies ps`enums
    ensures forall p :: p in ps ==>
              p.enums == if Targeted(p.api, p.version, f.api, v)
                         then EnumsAdded(old(p.enums), f.required, est) - EnumsListed(f.removed) else old(p.enums)
  {
    var j := 0;
    while j < |f.required|
      invariant 0 <= j <= |f.required|
      invariant forall p :: p in ps ==>
                  p.enums == if Targeted(p.api, p.version, f.api, v) then EnumsAdded(old(p.enums), f.required[..j], est) else old(p.enums)
    {
      assert f.required[..j + 1][..j] == f.required[..j];
      AddEnums(ps, f.api, v, f.required[j].enums, est);
      j := j + 1;
    }
    assert f.required[..j] == f.required;
    j := 0;
    while j < |f.removed|
      invariant 0 <= j <= |f.removed|
      invariant forall p :: p in ps ==>
                  p.enums == if Targeted(p.api, p.version, f.api, v)
                             then EnumsAdded(old(p.enums), f.required, est) - EnumsListed(f.removed[..j]) else old(p.enums)
    {
      assert f.removed[..j + 1][..j] == f.removed[..j];
      forall p | p in ps && Targeted(p.api, p.version, f.api, v)
        ensures (EnumsAdded(old(p.enums), f.required, est) - EnumsListed(f.removed[..j])) - NameSet(f.removed[j].enums)
                == EnumsAdded(old(p.enums), f.required, est) - EnumsListed(f.removed[..j + 1])
      {
        RemoveBoth(EnumsAdded(old(p.enums), f.required, est), EnumsListed(f.removed[..j]), NameSet(f.removed[j].enums));
      }
      RemoveEnums(ps, f.api, v, f.removed[j].enums);
      j := j + 1;
    }
    assert f.removed[..j] == f.removed;
  }

  /** The last two loops of one replay iteration: the commands of every
      <require> block are added, then those of every <remove> block
      dropped. */
  method ReplayCommands(ps: seq<Package>, f: SpecFeature, v: Version, table: map<string, Function>)
    requires forall p :: p in ps && Targeted(p.api, p.version, f.api, v) ==> BlocksKnown(f.required, table)
    modifies ps`functions
    ensures forall p :: p in ps ==>
              p.functions == if Targeted(p.api, p.version, f.api, v)
                             then FunctionsAdded(old(p.functions), f.required, table) - CommandsListed(f.removed) else old(p.functions)
  {
    var j := 0;
    while j < |f.required|
      invariant 0 <= j <= |f.required|
      invariant forall p :: p in ps ==>
                  p.functions == if Targeted(p.api, p.version, f.api, v)
                                 then FunctionsAdded(old(p.functions), f.required[..j], table) else old(p.functions)
    {
      assert f.required[..j + 1][..j] == f.required[..j];
      AddCommands(ps, f.api, v, f.required[j].commands, table);
      j := j + 1;
    }
    assert f.required[..j] == f.required;
    j := 0;
    while j < |f.removed|
      invariant 0 <= j <= |f.removed|
      invariant forall p :: p in ps ==>
                  p.functions == if Targeted(p.api, p.version, f.api, v)
                                 then FunctionsAdded(old(p.functions), f.required, table) - CommandsListed(f.removed[..j])
                                 else old(p.functions)
    {
      assert f.removed[..j + 1][..j] == f.removed[..j];
      forall p | p in ps && Targeted(p.api, p.version, f.api, v)
        ensures (FunctionsAdded(old(p.functions), f.required, table) - CommandsListed(f.removed[..j])) - NameSet(CmdKeys(f.removed[j].commands))
                == FunctionsAdded(old(p.functions), f.required, table) - CommandsListed(f.removed[..j + 1])
      {
        RemoveBoth(FunctionsAdded(old(p.functions), f.required, table), CommandsListed(f.removed[..j]), NameSet(CmdKeys(f.removed[j].commands)));
      }
      RemoveCommands(ps, f.api, v, f.removed[j].commands);
      j := j + 1;
    }
    assert f.removed[..j] == f.removed;
  }

  /** One iteration of the replay loop: enums first, then commands. */
  method ReplayFeature(ps: seq<Package>, f: SpecFeature, v: Version, est: seq<EnumToken>, table: map<string, Function>)
    requires forall p :: p in ps && Targeted(p.api, p.version, f.api, v) ==> BlocksKnown(f.required, table)
    modifies ps`enums, ps`functions
    ensures forall p :: p in ps ==>
              Tables(p.enums, p.functions)
              == FeatureOn(Tables(old(p.enums), old(p.functions)), p.api, p.version, f, v, est, table)
  {
    ReplayEnums(ps, f, v, est);
    ReplayCommands(ps, f, v, table);
  }

  /** The version numbers of the features, in registry order. */
  function Numbers(features: seq<SpecFeature>): (ns: seq<string>)
    ensures |ns| == |features|
  {
    seq(|features|, k requires 0 <= k < |features| => features[k].number)
  }

  /** The features' versions, or the first number that does not parse. */
  function VersionsOf(features: seq<SpecFeature>): Result<seq<Version>> {
    VersionListOf(Numbers(features))
  }

  /** What the creation loop gives a package: its API and version. */
  datatype Header = Header(api: string, version: Version)

  /** The packages the creation loop makes, in registry order: one for each
      feature whose API the option offers at the feature's version. */
  function Created(features: seq<SpecFeature>, vs: seq<Version>, fs: seq<FeatureOpt>): seq<Header>
    requires |vs| == |features|
  {
    if |features| == 0 then []
    else
      var n := |features| - 1;
      Created(features[..n], vs[..n], fs) + (if Offers(fs, features[n].api, vs[n]) then [Header(features[n].api, vs[n])] else [])
  }

  /** Every feature that targets the package needs only commands the
      table has. */
  predicate ReplayKnown(pApi: string, pVersion: Version, features: seq<SpecFeature>, vs: seq<Version>, table: map<string, Function>)
    requires |vs| == |features|
  {
    forall k :: 0 <= k < |features| && Targeted(pApi, pVersion, features[k].api, vs[k]) ==> BlocksKnown(features[k].required, table)
  }

  /** What holds for every feature holds for the first ones. */
  lemma ReplayKnownPrefix(pApi: string, pVersion: Version, features: seq<SpecFeature>, vs: seq<Version>,
                          table: map<string, Function>, i: nat)
    requires |vs| == |features| && i <= |features| && ReplayKnown(pApi, pVersion, features, vs, table)
    ensures ReplayKnown(pApi, pVersion, features[..i], vs[..i], table)
  {
    forall k | 0 <= k < i && Targeted(pApi, pVersion, features[..i][k].api, vs[..i][k])
      ensures BlocksKnown(features[..i][k].required, table)
    {
      assert features[..i][k] == features[k] && vs[..i][k] == vs[k];
    }
  }

  /** A package's tables after the replay of the features in registry
      order. */
  function Replayed(t: Tables, pApi: string, pVersion: Version, features: seq<SpecFeature>, vs: seq<Version>,
                    est: seq<EnumToken>, table: map<string, Function>): Tables
    requires |vs| == |features| && ReplayKnown(pApi, pVersion, features, vs, table)
  {
    if |features| == 0 then t
    else
      var n := |features| - 1;
      FeatureOn(Replayed(t, pApi, pVersion, features[..n], vs[..n], est, table), pApi, pVersion, features[n], vs[n], est, table)
  }

  /** One more feature: a package for it exactly when the option offers
      its API at its version. */
  lemma CreatedNext(features: seq<SpecFeature>, vs: seq<Version>, fs: seq<FeatureOpt>, i: nat, v: Version)
    requires i < |features| && |vs| == i
    ensures Created(features[..i + 1], vs + [v], fs)
            == Created(features[..i], vs, fs) + (if Offers(fs, features[i].api, v) then [Header(features[i].api, v)] else [])
  {
    assert features[..i + 1][..i] == features[..i];
    assert (vs + [v])[..i] == vs;
  }

  /** A header is created exactly when some feature has its API and
      version and the option offers that API at that version. */
  lemma {:induction false} CreatedAt(features: seq<SpecFeature>, vs: seq<Version>, fs: seq<FeatureOpt>, h: Header)
    requires |vs| == |features|
    ensures h in Created(features, vs, fs)
            <==> exists k :: 0 <= k < |features| && h == Header(features[k].api, vs[k]) && Offers(fs, h.api, h.version)
    decreases |features|
  {
    if |features| > 0 {
      var n := |features| - 1;
      CreatedAt(features[..n], vs[..n], fs, h);
      if h in Created(features[..n], vs[..n], fs) {
        var k :| 0 <= k < n && h == Header(features[..n][k].api, vs[..n][k]) && Offers(fs, h.api, h.version);
        assert h == Header(features[k].api, vs[k]);
      }
      if exists k :: 0 <= k < |features| && h == Header(features[k].api, vs[k]) && Offers(fs, h.api, h.version) {
        var k :| 0 <= k < |features| && h == Header(features[k].api, vs[k]) && Offers(fs, h.api, h.version);
        if k < n {
          assert h == Header(features[..n][k].api, vs[..n][k]);
        }
      }
    }
  }

  /** A package as the creation loop leaves it for header `h`: named after
      its API, sharing the typedefs, with empty tables. */
  predicate IsNew(p: Package, h: Header, tds: seq<TypeDef>)
    reads p
  {
    p.api == h.api && p.name == h.api && p.version == h.version && p.typeDefs == tds
    && p.enums == map[] && p.functions == map[]
  }

  /** The body of the creation loop once the version has parsed: a new
      package goes at the end exactly when the option offers the
      feature's API at that version. */
  method CreateFor(f: SpecFeature, v: Version, fs: seq<FeatureOpt>, tds: seq<TypeDef>, pacs: seq<Package>)
    returns (next: seq<Package>)
    ensures Offers(fs, f.api, v) ==> |next| == |pacs| + 1 && fresh(next[|pacs|]) && IsNew(next[|pacs|], Header(f.api, v), tds)
    ensures !Offers(fs, f.api, v) ==> |next| == |pacs|
    ensures next[..|pacs|] == pacs
    ensures forall p :: p in next && p !in pacs ==> fresh(p)
  {
    var has := HasFeature(fs, f.api, v);
    next := pacs;
    if has {
      var p := new Package(f.api, v, tds);
      next := pacs + [p];
    }
  }

  /** The creation loop of ParseSpecFile: a fresh, empty package for every
      feature the option offers, sharing the typedefs; the first version
      number that does not parse is the error. */
  method CreatePackages(features: seq<SpecFeature>, fs: seq<FeatureOpt>, tds: seq<TypeDef>) returns (r: Result<seq<Package>>)
    ensures VersionsOf(features).Err? ==> r == Err(VersionsOf(features).message)
    ensures VersionsOf(features).Ok? ==>
              var hs := Created(features, VersionsOf(features).value, fs);
              r.Ok? && |r.value| == |hs|
              && (forall p :: p in r.value ==> fresh(p))
              && forall k :: 0 <= k < |hs| ==> IsNew(r.value[k], hs[k], tds)
  {
    ghost var vers := VersionResults(Numbers(features));
    ghost var vs: seq<Version> := [];
    var pacs: seq<Package> := [];
    var i := 0;
    while i < |features|
      invariant 0 <= i <= |features|
      invariant Collect(vers[..i]) == Ok(vs) && |vs| == i
      invariant |pacs| == |Created(features[..i], vs, fs)|
      invariant forall p :: p in pacs ==> fresh(p)
      invariant forall k :: 0 <= k < |pacs| ==> IsNew(pacs[k], Created(features[..i], vs, fs)[k], tds)
    {
      CollectSnoc(vers, i);
      var version := ParseVersion(features[i].number);
      assert vers[i] == version;
      if version.Err? {
        CollectErr(vers, i + 1);
        return Err(version.message);
      }
      CreatedNext(features, vs, fs, i, version.value);
      ghost var hs := Created(features[..i], vs, fs);
      var next := CreateFor(features[i], version.value, fs, tds, pacs);
      forall k | 0 <= k < |pacs|
        ensures next[k] == pacs[k] && IsNew(next[k], hs[k], tds)
      {
        assert next[..|pacs|][k] == next[k];
      }
      pacs := next;
      vs := vs + [version.value];
      i := i + 1;
    }
    TakeAll(vers);
    TakeAll(features);
    return Ok(pacs);
  }

  /** One more feature of the replay. */
  lemma ReplayedNext(t: Tables, pApi: string, pVersion: Version, features: seq<SpecFeature>, vs: seq<Version>,
                     est: seq<EnumToken>, table: map<string, Function>, i: nat)
    requires i < |features| == |vs| && ReplayKnown(pApi, pVersion, features, vs, table)
    ensures Replayed(t, pApi, pVersion, features[..i + 1], vs[..i + 1], est, table)
            == FeatureOn(Replayed(t, pApi, pVersion, features[..i], vs[..i], est, table), pApi, pVersion, features[i], vs[i], est, table)
  {
    assert features[..i + 1][..i] == features[..i];
    assert vs[..i + 1][..i] == vs[..i];
  }

  /** The replay loop of ParseSpecFile: every feature, in registry order,
      updates every package it targets. The creation loop has already
      parsed every version number, so the replay's own parse succeeds. */
  method ReplayFeatures(pacs: seq<Package>, features: seq<SpecFeature>, ghost vs: seq<Version>,
                        est: seq<EnumToken>, table: map<string, Function>)
    requires VersionsOf(features) == Ok(vs)
    requires forall p :: p in pacs ==> ReplayKnown(p.api, p.version, features, vs, table)
    modifies pacs`enums, pacs`functions
    ensures forall p :: p in pacs ==> Header(p.api, p.version) == old(Header(p.api, p.version))
    ensures forall p :: p in pacs ==> p.name == old(p.name) && p.typeDefs == old(p.typeDefs)
    ensures forall p :: p in pacs ==>
              Tables(p.enums, p.functions)
              == Replayed(Tables(old(p.enums), old(p.functions)), p.api, p.version, features, vs, est, table)
  {
    ghost var vers := VersionResults(Numbers(features));
    CollectOk(vers);
    ghost var t0 := map p | p in pacs :: Tables(p.enums, p.functions);
    var i := 0;
    while i < |features|
      invariant 0 <= i <= |features|
      invariant forall p :: p in pacs ==> p in t0 && ReplayedTo(p, t0[p], features, vs, est, table, i)
    {
      var version := ParseVersion(features[i].number);
      assert vers[i] == version;
      ReplayAt(pacs, features, vs, est, table, i, version.value, t0);
      i := i + 1;
    }
    forall p | p in pacs
      ensures Tables(p.enums, p.functions) == Replayed(t0[p], p.api, p.version, features, vs, est, table)
    {
      assert ReplayedTo(p, t0[p], features, vs, est, table, i);
      TakeAll(features);
      TakeAll(vs);
    }
  }

  /** Package `p` holds the tables the replay of the first `i` features
      makes of `t`. */
  ghost predicate ReplayedTo(p: Package, t: Tables, features: seq<SpecFeature>, vs: seq<Version>,
                             est: seq<EnumToken>, table: map<string, Function>, i: nat)
    reads p
  {
    i <= |features| == |vs| && ReplayKnown(p.api, p.version, features[..i], vs[..i], table)
    && Tables(p.enums, p.functions) == Replayed(t, p.api, p.version, features[..i], vs[..i], est, table)
  }

  /** One pass of the replay loop: feature `i` updates every package it
      targets, extending each package's replay by one feature. */
  method ReplayAt(pacs: seq<Package>, features: seq<SpecFeature>, ghost vs: seq<Version>,
                  est: seq<EnumToken>, table: map<string, Function>, i: nat, v: Version, ghost t0: map<Package, Tables>)
    requires i < |features| == |vs| && v == vs[i]
    requires forall p :: p in pacs ==> p in t0 && ReplayKnown(p.api, p.version, features, vs, table)
    requires forall p :: p in pacs ==> p in t0 && ReplayedTo(p, t0[p], features, vs, est, table, i)
    modifies pacs`enums, pacs`functions
    ensures forall p :: p in pacs ==> p in t0 && ReplayedTo(p, t0[p], features, vs, est, table, i + 1)
  {
    forall p | p in pacs && Targeted(p.api, p.version, features[i].api, v)
      ensures BlocksKnown(features[i].required, table)
    {
      assert ReplayKnown(p.api, p.version, features, vs, table);
    }
    forall p | p in pacs
      ensures ReplayKnown(p.api, p.version, features[..i + 1], vs[..i + 1], table)
      ensures Replayed(t0[p], p.api, p.version, features[..i + 1], vs[..i + 1], est, table)
              == FeatureOn(Replayed(t0[p], p.api, p.version, features[..i], vs[..i], est, table),
                           p.api, p.version, features[i], vs[i], est, table)
    {
      ReplayKnownPrefix(p.api, p.version, features, vs, table, i + 1);
      ReplayedNext(t0[p], p.api, p.version, features, vs, est, table, i);
    }
    ReplayFeature(pacs, features[i], v, est, table);
  }

  /** Package `p` is the one built for header `h`: named after its API,
      sharing the typedefs, with the tables the replay of every feature
      gives an empty package. */
  predicate Built(p: Package, h: Header, tds: seq<TypeDef>, features: seq<SpecFeature>, vs: seq<Version>,
                  est: seq<EnumToken>, table: map<string, Function>)
    requires |vs| == |features| && ReplayKnown(h.api, h.version, features, vs, table)
    reads p
  {
    p.api == h.api && p.name == h.api && p.version == h.version && p.typeDefs == tds
    && Tables(p.enums, p.functions) == Replayed(Tables(map[], map[]), h.api, h.version, features, vs, est, table)
  }

  /** Every package the option asks for needs only commands the table
      has. */
  predicate CreatedKnown(features: seq<SpecFeature>, fs: seq<FeatureOpt>, table: map<string, Function>) {
    VersionsOf(features).Ok? ==>
      forall h :: h in Created(features, VersionsOf(features).value, fs) ==>
        ReplayKnown(h.api, h.version, features, VersionsOf(features).value, table)
  }

  /** The two feature loops of ParseSpecFile: create the packages, then
      replay every feature over them. */
  method BuildPackages(features: seq<SpecFeature>, fs: seq<FeatureOpt>, tds: seq<TypeDef>,
                       est: seq<EnumToken>, table: map<string, Function>) returns (r: Result<seq<Package>>)
    requires CreatedKnown(features, fs, table)
    ensures VersionsOf(features).Err? ==> r == Err(VersionsOf(features).message)
    ensures VersionsOf(features).Ok? ==>
              var vs := VersionsOf(features).value;
              var hs := Created(features, vs, fs);
              r.Ok? && |r.value| == |hs| && (forall p :: p in r.value ==> fresh(p))
              && forall k :: 0 <= k < |hs| ==> Built(r.value[k], hs[k], tds, features, vs, est, table)
  {
    var created := CreatePackages(features, fs, tds);
    if created.Err? {
      return Err(created.message);
    }
    assert VersionsOf(features).Ok?;
    var pacs := created.value;
    ghost var vs := VersionsOf(features).value;
    ghost var hs := Created(features, vs, fs);
    assert forall p :: p in pacs ==> fresh(p);
    forall k | 0 <= k < |pacs|
      ensures fresh(pacs[k])
    {
      assert pacs[k] in pacs;
    }
    forall p | p in pacs
      ensures ReplayKnown(p.api, p.version, features, vs, table)
    {
      var k :| 0 <= k < |pacs| && pacs[k] == p;
      assert hs[k] in hs;
    }
    ReplayFeatures(pacs, features, vs, est, table);
    return Ok(pacs);
  }

  /** ParseSpecFile, after the registry has been read: the command table,
      the typedefs, one package per offered feature, then the replay of
      every feature over those packages. The source stops the program when
      a replayed feature needs a command the table lacks; the precondition
      excludes that case. */
  method ParseSpecFile(types: seq<SpecType>, commands: seq<SpecCommand>, est: seq<EnumToken>,
                       features: seq<SpecFeature>, fs: seq<FeatureOpt>) returns (r: Result<seq<Package>>)
    requires TypeDefsOf(types).Ok? ==> CreatedKnown(features, fs, FunctionsOf(commands))
    ensures TypeDefsOf(types).Err? ==> r == Err(TypeDefsOf(types).message)
    ensures TypeDefsOf(types).Ok? && VersionsOf(features).Err? ==> r == Err(VersionsOf(features).message)
    ensures TypeDefsOf(types).Ok? && VersionsOf(features).Ok? ==>
              var vs := VersionsOf(features).value;
              var hs := Created(features, vs, fs);
              r.Ok? && |r.value| == |hs| && (forall p :: p in r.value ==> fresh(p))
              && forall k :: 0 <= k < |hs| ==>
                   Built(r.value[k], hs[k], TypeDefsOf(types).value, features, vs, est, FunctionsOf(commands))
  {
    var functions := CommandsToFunctions(commands);
    var tds := ParseTypedefs(types);
    if tds.Err? {
      return Err(tds.message);
    }
    r := BuildPackages(features, fs, tds.value, est, functions);
  }
}
