/** The C type of a parameter or return value and its mapping to Go source
    text (type.go). */
module Types {
  import opened Wrappers
  import opened Text

  /** A declared C type: its name without modifiers, its level of pointer
      indirection and its raw C text. Go's PointerLevel is an `int`, but
      strings.Repeat panics on a negative count and the parsers only ever add
      to it, so it is a `nat` here. */
  datatype Type = Type(name: string, pointerLevel: nat, cDefinition: string)

  /** A C typedef statement. */
  datatype Typedef = Typedef(name: string, cDefinition: string)

  predicate IsVoidName(name: string) {
    name == "void" || name == "GLvoid"
  }

  predicate IsDebugProcName(name: string) {
    name == "GLDEBUGPROC" || name == "GLDEBUGPROCARB" || name == "GLDEBUGPROCKHR"
  }

  /** IsVoid: the void pseudo-type, without indirection. */
  predicate IsVoid(t: Type): (b: bool)
    ensures b ==> Pointers(t) == [] && !IsDebugProc(t)
    ensures b ==> GoType(t) == "C." + t.name
  {
    IsVoidName(t.name) && t.pointerLevel == 0
  }

  /** IsDebugProc: one of the three debug callback function pointer types. */
  predicate IsDebugProc(t: Type): (b: bool)
    ensures b ==> ScalarGoName(t.name).None? && !IsVoidName(t.name)
    ensures b ==> GoType(t) == "DebugProc"
  {
    IsDebugProcName(t.name)
  }

  /** pointers(): one asterisk per level of indirection. */
  function Pointers(t: Type): (r: string)
    ensures |r| == t.pointerLevel
    ensures forall i :: 0 <= i < |r| ==> r[i] == '*'
  {
    Repeat('*', t.pointerLevel)
  }

  /** String: name, asterisks, then the raw C text in brackets. */
  function TypeString(t: Type): (r: string)
    ensures |r| == |t.name| + t.pointerLevel + |t.cDefinition| + 3
    ensures HasPrefix(r, t.name)
    ensures forall i :: |t.name| <= i < |t.name| + t.pointerLevel ==> r[i] == '*'
    ensures HasSuffix(r, " [" + t.cDefinition + "]")
  {
    t.name + Pointers(t) + " [" + t.cDefinition + "]"
  }

  /** CType: the raw C definition. */
  function CType(t: Type): (r: string)
    ensures HasSuffix(TypeString(t), " [" + r + "]")
  {
    t.cDefinition
  }

  /** GoCType: the cgo spelling of the C type, `C.struct_X` for `struct X`. */
  function GoCType(t: Type): (r: string)
    ensures HasPrefix(r, Pointers(t))
    ensures HasPrefix(r[t.pointerLevel..], "C.")
    ensures HasPrefix(t.name, "struct ") ==> HasPrefix(r[t.pointerLevel..], "C.struct_")
  {
    if HasPrefix(t.name, "struct ") then Pointers(t) + "C.struct_" + TrimPrefix(t.name, "struct ")
    else Pointers(t) + "C." + t.name
  }

  /** The Go name of a GL scalar type that GoType maps directly, if any. */
  function ScalarGoName(name: string): Option<string> {
    match name
    case "GLbyte" => Some("int8")
    case "GLubyte" => Some("uint8")
    case "GLshort" => Some("int16")
    case "GLushort" => Some("uint16")
    case "GLint" => Some("int32")
    case "GLuint" => Some("uint32")
    case "GLint64" => Some("int64")
    case "GLint64EXT" => Some("int64")
    case "GLuint64" => Some("uint64")
    case "GLuint64EXT" => Some("uint64")
    case "GLfloat" => Some("float32")
    case "GLclampf" => Some("float32")
    case "GLdouble" => Some("float64")
    case "GLclampd" => Some("float64")
    case "GLclampx" => Some("int32")
    case "GLsizei" => Some("int32")
    case "GLfixed" => Some("int32")
    case "GLchar" => Some("uint8")
    case "GLcharARB" => Some("uint8")
    case "GLboolean" => Some("bool")
    case "GLenum" => Some("uint32")
    case "GLbitfield" => Some("uint32")
    case "GLhalf" => Some("uint16")
    case "GLhalfNV" => Some("uint16")
    case "GLintptr" => Some("int")
    case "GLintptrARB" => Some("int")
    case "GLsizeiptr" => Some("int")
    case "GLsizeiptrARB" => Some("int")
    case "GLhandleARB" => Some("uintptr")
    case "GLeglImagesOES" => Some("uintptr")
    case "GLvdpauSurfaceNV" => Some("uintptr")
    case "GLsync" => Some("unsafe.Pointer")
    case _ => None
  }

  /** GoType: the Go spelling of the type. A void pointer at level 1 or 2 is
      unsafe.Pointer; any other void falls out of the switch to GoCType. */
  function GoType(t: Type): (r: string)
    ensures |r| > 0
    ensures !IsDebugProcName(t.name) && !(IsVoidName(t.name) && 1 <= t.pointerLevel <= 2) ==>
              HasPrefix(r, Pointers(t))
  {
    if ScalarGoName(t.name).Some? then Pointers(t) + ScalarGoName(t.name).value
    else if IsVoidName(t.name) && t.pointerLevel == 1 then "unsafe.Pointer"
    else if IsVoidName(t.name) && t.pointerLevel == 2 then "*unsafe.Pointer"
    else if IsDebugProcName(t.name) then "DebugProc"
    else GoCType(t)
  }

  /** ConvertGoToC: the Go expression that turns the Go variable `name` into
      the C type. */
  function ConvertGoToC(t: Type, name: string): (r: string)
    ensures HasSuffix(r, name) || HasSuffix(r, name + ")") || HasSuffix(r, name + "))")
    ensures !IsVoidName(t.name) ==> HasPrefix(r, "(")
  {
    if t.name == "GLboolean" && t.pointerLevel == 0 then "(C.GLboolean)(boolToInt(" + name + "))"
    else if IsVoidName(t.name) then name
    else if IsDebugProcName(t.name) then
      EndsWith("(C." + t.name + ")(unsafe.Pointer(&", name, "))");
      "(C." + t.name + ")(unsafe.Pointer(&" + name + "))"
    else if t.pointerLevel >= 1 then
      EndsWith("(" + GoCType(t) + ")(unsafe.Pointer(", name, "))");
      "(" + GoCType(t) + ")(unsafe.Pointer(" + name + "))"
    else
      EndsWith("(" + GoCType(t) + ")(", name, ")");
      "(" + GoCType(t) + ")(" + name + ")"
  }

  /** ConvertCToGo: the Go expression that turns the C value `name` into the
      Go type. */
  function ConvertCToGo(t: Type, name: string): (r: string)
    ensures t.name == "GLboolean" ==> HasPrefix(r, name) && HasSuffix(r, " == TRUE")
    ensures t.name != "GLboolean" ==> HasPrefix(r, "(" + GoType(t) + ")(") && HasSuffix(r, name + ")")
  {
    if t.name == "GLboolean" then name + " == TRUE"
    else "(" + GoType(t) + ")(" + name + ")"
  }

  // ---------------------------------------------------------------------
  // Properties

  /** IsVoid holds exactly for void and GLvoid without indirection, and no
      debug callback type is void. */
  lemma IsVoidExactly(t: Type)
    ensures IsVoid(t) <==> (t.name == "void" || t.name == "GLvoid") && t.pointerLevel == 0
    ensures IsDebugProc(t) ==> !IsVoid(t)
  {
  }

  /** The level-0 Go or cgo spelling of a type, before the asterisks that
      GoType and GoCType put in front. */
  function BaseGoType(name: string): string {
    if ScalarGoName(name).Some? then ScalarGoName(name).value
    else if HasPrefix(name, "struct ") then "C.struct_" + TrimPrefix(name, "struct ")
    else "C." + name
  }

  /** Apart from void pointers and debug callbacks, GoType is the level-0
      spelling behind one asterisk per level of indirection: a mapped scalar
      gets its fixed Go name (GLuint to uint32), a struct its cgo struct_
      name, and anything else its cgo name. */
  lemma GoTypeIsPointersThenBase(t: Type)
    requires !IsVoidName(t.name) && !IsDebugProcName(t.name)
    ensures GoType(t) == Repeat('*', t.pointerLevel) + BaseGoType(t.name)
    ensures GoType(t) == Repeat('*', t.pointerLevel) + GoType(Type(t.name, 0, t.cDefinition))
  {
    var stars := Repeat('*', t.pointerLevel);
    if ScalarGoName(t.name).None? {
      if HasPrefix(t.name, "struct ") {
        AppendAssoc(stars, "C.struct_", TrimPrefix(t.name, "struct "));
      } else {
        AppendAssoc(stars, "C.", t.name);
      }
    }
    GoTypeLevelZero(Type(t.name, 0, t.cDefinition));
  }

  /** Without indirection, a type that is neither void nor a debug callback
      is spelled by its base name. */
  lemma GoTypeLevelZero(t: Type)
    requires t.pointerLevel == 0 && !IsVoidName(t.name) && !IsDebugProcName(t.name)
    ensures GoType(t) == BaseGoType(t.name)
  {
    assert Pointers(t) == [];
    if ScalarGoName(t.name).None? {
      if HasPrefix(t.name, "struct ") {
        assert [] + "C.struct_" + TrimPrefix(t.name, "struct ") == "C.struct_" + TrimPrefix(t.name, "struct ");
      } else {
        assert [] + "C." + t.name == "C." + t.name;
      }
    }
  }

  /** Void and GLvoid: unsafe.Pointer at one level, *unsafe.Pointer at two,
      and the cgo name otherwise ("C.void" at level 0). */
  lemma GoTypeOfVoid(t: Type)
    requires IsVoidName(t.name)
    ensures t.pointerLevel == 1 ==> GoType(t) == "unsafe.Pointer"
    ensures t.pointerLevel == 2 ==> GoType(t) == "*unsafe.Pointer"
    ensures t.pointerLevel == 0 ==> GoType(t) == "C." + t.name
    ensures t.pointerLevel > 2 ==> GoType(t) == Repeat('*', t.pointerLevel) + "C." + t.name
  {
    assert ScalarGoName(t.name).None?;
    assert !HasPrefix(t.name, "struct ");
  }

  /** Debug callback types map to DebugProc whatever their indirection. */
  lemma GoTypeOfDebugProc(t: Type)
    requires IsDebugProc(t)
    ensures GoType(t) == "DebugProc"
  {
    assert ScalarGoName(t.name).None?;
  }

  /** The spelling of a struct type is its tag behind "C.struct_". */
  lemma GoCTypeOfStruct(tag: string, level: nat, c: string)
    ensures GoCType(Type("struct " + tag, level, c)) == Repeat('*', level) + "C.struct_" + tag
  {
    var name := "struct " + tag;
    assert name[..|"struct "|] == "struct ";
  }

  /** ConvertGoToC hands void values through unchanged, wraps a plain
      GLboolean in boolToInt, and casts every other pointer through
      unsafe.Pointer to the cgo type. */
  lemma ConvertGoToCCases(t: Type, name: string)
    ensures IsVoidName(t.name) ==> ConvertGoToC(t, name) == name
    ensures t.name == "GLboolean" && t.pointerLevel == 0 ==>
              ConvertGoToC(t, name) == "(C.GLboolean)(boolToInt(" + name + "))"
    ensures !IsVoidName(t.name) && !IsDebugProcName(t.name) && t.pointerLevel >= 1 ==>
              ConvertGoToC(t, name) == "(" + Repeat('*', t.pointerLevel) + BaseCgo(t.name) + ")(unsafe.Pointer(" + name + "))"
  {
    if !IsVoidName(t.name) && !IsDebugProcName(t.name) && t.pointerLevel >= 1 {
      GoCTypeIsPointersThenBase(t);
    }
  }

  /** The cgo spelling of a type is its asterisks then its base cgo name. */
  lemma GoCTypeIsPointersThenBase(t: Type)
    ensures GoCType(t) == Repeat('*', t.pointerLevel) + BaseCgo(t.name)
  {
    var stars := Repeat('*', t.pointerLevel);
    if HasPrefix(t.name, "struct ") {
      AppendAssoc(stars, "C.struct_", TrimPrefix(t.name, "struct "));
    } else {
      AppendAssoc(stars, "C.", t.name);
    }
  }

  /** The level-0 cgo spelling used by GoCType. */
  function BaseCgo(name: string): string {
    if HasPrefix(name, "struct ") then "C.struct_" + TrimPrefix(name, "struct ") else "C." + name
  }

  /** ConvertCToGo compares a GLboolean with TRUE and converts anything else
      to its Go type. */
  lemma ConvertCToGoCases(t: Type, name: string)
    ensures t.name == "GLboolean" ==> ConvertCToGo(t, name) == name + " == TRUE"
    ensures t.name != "GLboolean" ==> ConvertCToGo(t, name) == "(" + GoType(t) + ")(" + name + ")"
  {
  }
}
