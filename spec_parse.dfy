/** Reading the registry's declarations (spec.go): command and parameter
    signatures, typedefs, and the add/remove lists of features and
    extensions. */
module SpecParse {
  import opened Wrappers
  import opened Text
  import opened Types
  import opened XmlTokens

  /** A registry key: a name and the API it is specific to ("" for every
      API). */
  datatype Ref = Ref(name: string, api: string)

  // ---------------------------------------------------------------------
  // parseSignature

  /** A parsed signature: the declared name and its type. */
  datatype Signature = Signature(name: string, ctype: Type)

  /** The scanner state of parseSignature: what has been read so far and
      whether the scanner is inside a <name> or <ptype> element. */
  datatype SigState = SigState(name: string, ctype: Type, readingName: bool, readingType: bool)

  const SigStart: SigState := SigState("", Type("", 0, ""), false, false)

  const UnexpectedSignature: string := "Unexpected signature XML"

  /** The only elements a signature may contain. */
  predicate SignatureElement(local: string) {
    local == "ptype" || local == "name"
  }

  /** The type name after reading plain text: text that mentions void makes
      the type void. */
  function VoidName(raw: string, name: string): string {
    if Contains(raw, "void") then "void" else name
  }

  /** One token of parseSignature. Character data is trimmed of blanks
      before it is read as a name or type; outside both elements it can only
      turn the type into void and add asterisks. Only the text inside <name>
      stays out of the C definition, and it goes in untrimmed. */
  function SigStep(s: SigState, t: Token): Result<SigState> {
    match t
    case CharData(text) =>
      var raw := TrimSpaces(text);
      if s.readingName then Ok(s.(name := raw))
      else if s.readingType then Ok(s.(ctype := Type(raw, s.ctype.pointerLevel, s.ctype.cDefinition + text)))
      else
        Ok(s.(ctype := Type(VoidName(raw, s.ctype.name), s.ctype.pointerLevel + CountChar(raw, '*'), s.ctype.cDefinition + text)))
    case StartElement(local) =>
      if local == "ptype" then Ok(s.(readingType := true))
      else if local == "name" then Ok(s.(readingName := true))
      else Err(UnexpectedSignature)
    case EndElement(local) =>
      if local == "ptype" then Ok(s.(readingType := false))
      else if local == "name" then Ok(s.(readingName := false))
      else Ok(s)
    case _ => Ok(s)
  }

  /** The scanner run over a token sequence; the first error stops it. */
  function SigRun(s: SigState, ts: seq<Token>): Result<SigState>
    decreases |ts|
  {
    if |ts| == 0 then Ok(s)
    else match SigStep(s, ts[0])
      case Err(e) => Err(e)
      case Ok(s') => SigRun(s', ts[1..])
  }

  function SignatureOf(ts: seq<Token>): Result<Signature> {
    match SigRun(SigStart, ts)
    case Err(e) => Err(e)
    case Ok(s) => Ok(Signature(s.name, s.ctype))
  }

  /** parseSignature, as the Go loop runs it. */
  method ParseSignature(tokens: seq<Token>) returns (r: Result<Signature>)
    ensures r == SignatureOf(tokens)
  {
    var st := SigStart;
    var i := 0;
    while i < |tokens|
      invariant 0 <= i <= |tokens|
      invariant SigRun(st, tokens[i..]) == SigRun(SigStart, tokens)
    {
      ConsParts(tokens[i], tokens[i + 1..]);
      assert tokens[i..] == [tokens[i]] + tokens[i + 1..];
      var next := SigToken(st, tokens[i]);
      if next.Err? {
        return Err(next.message);
      }
      st := next.value;
      i := i + 1;
    }
    return Ok(Signature(st.name, st.ctype));
  }

  /** The body of parseSignature's loop for one token. */
  method SigToken(st: SigState, t: Token) returns (r: Result<SigState>)
    ensures r == SigStep(st, t)
  {
    match t {
    case CharData(text) =>
      var next := SigText(st, text);
      r := Ok(next);
    case StartElement(local) =>
      if local == "ptype" {
        r := Ok(st.(readingType := true));
      } else if local == "name" {
        r := Ok(st.(readingName := true));
      } else {
        r := Err(UnexpectedSignature);
      }
    case EndElement(local) =>
      if local == "ptype" {
        r := Ok(st.(readingType := false));
      } else if local == "name" {
        r := Ok(st.(readingName := false));
      } else {
        r := Ok(st);
      }
    case _ =>
      r := Ok(st);
    }
  }

  /** The character-data case of parseSignature's loop. */
  method SigText(st: SigState, text: string) returns (next: SigState)
    ensures SigStep(st, CharData(text)) == Ok(next)
  {
    var name := st.name;
    var ctype := st.ctype;
    var raw := TrimSpaces(text);
    var isVoid := Contains(raw, "void");
    var stars := CountChar(raw, '*');
    if st.readingName {
      name := raw;
    } else if st.readingType {
      ctype := ctype.(name := raw);
    } else {
      if isVoid {
        ctype := ctype.(name := "void");
      }
      ctype := ctype.(pointerLevel := ctype.pointerLevel + stars);
    }
    if !st.readingName {
      ctype := ctype.(cDefinition := ctype.cDefinition + text);
    }
    next := st.(name := name, ctype := ctype);
  }

  /** A signature parses exactly when every start element in it is <ptype>
      or <name>. */
  lemma {:induction false} SigRunOk(s: SigState, ts: seq<Token>)
    ensures SigRun(s, ts).Ok? <==>
              forall k :: 0 <= k < |ts| && ts[k].StartElement? ==> SignatureElement(ts[k].local)
    decreases |ts|
  {
    if |ts| > 0 {
      match SigStep(s, ts[0])
      case Err(_) =>
      case Ok(s') =>
        SigRunOk(s', ts[1..]);
        assert forall k :: 1 <= k < |ts| ==> ts[k] == ts[1..][k - 1];
    }
  }

  /** Running a fragment that scans without error and then another is
      running their concatenation. */
  lemma {:induction false} SigRunAppend(s: SigState, a: seq<Token>, b: seq<Token>)
    requires SigRun(s, a).Ok?
    ensures SigRun(s, a + b) == SigRun(SigRun(s, a).value, b)
    decreases |a|
  {
    if |a| > 0 {
      assert (a + b)[0] == a[0] && (a + b)[1..] == a[1..] + b;
      match SigStep(s, a[0])
      case Err(_) =>
      case Ok(s') => SigRunAppend(s', a[1..], b);
    } else {
      assert a + b == b;
    }
  }

  /** Whether the scanner is inside <name> and inside <ptype>. */
  datatype Mode = Mode(inName: bool, inType: bool)

  function ModeOf(s: SigState): Mode {
    Mode(s.readingName, s.readingType)
  }

  /** How one token moves the scanner in and out of the two elements. */
  function ModeAfter(m: Mode, t: Token): Mode {
    match t
    case StartElement(local) =>
      if local == "ptype" then m.(inType := true)
      else if local == "name" then m.(inName := true)
      else m
    case EndElement(local) =>
      if local == "ptype" then m.(inType := false)
      else if local == "name" then m.(inName := false)
      else m
    case _ => m
  }

  /** The character data one token adds outside <name>. */
  function TextOutsideName(m: Mode, t: Token): string {
    if t.CharData? && !m.inName then t.text else ""
  }

  /** The asterisks one token adds outside both elements. */
  function StarsOutside(m: Mode, t: Token): nat {
    if t.CharData? && !m.inName && !m.inType then CountChar(t.text, '*') else 0
  }

  /** All character data outside <name>, in order. */
  function OutsideNameText(m: Mode, ts: seq<Token>): string
    decreases |ts|
  {
    if |ts| == 0 then "" else TextOutsideName(m, ts[0]) + OutsideNameText(ModeAfter(m, ts[0]), ts[1..])
  }

  /** The asterisks in the character data outside both elements. */
  function PlainStars(m: Mode, ts: seq<Token>): nat
    decreases |ts|
  {
    if |ts| == 0 then 0 else StarsOutside(m, ts[0]) + PlainStars(ModeAfter(m, ts[0]), ts[1..])
  }

  /** One token that scans: the C definition and the pointer level grow by
      that token's share, and the mode follows the element boundaries. */
  lemma SigStepDefinition(s: SigState, t: Token)
    requires SigStep(s, t).Ok?
    ensures var r := SigStep(s, t).value;
            ModeOf(r) == ModeAfter(ModeOf(s), t)
            && r.ctype.cDefinition == s.ctype.cDefinition + TextOutsideName(ModeOf(s), t)
            && r.ctype.pointerLevel == s.ctype.pointerLevel + StarsOutside(ModeOf(s), t)
  {
    if t.CharData? {
      TrimSpacesKeepsCount(t.text, '*');
      if s.readingName {
        assert s.ctype.cDefinition + "" == s.ctype.cDefinition;
      }
    } else {
      assert s.ctype.cDefinition + "" == s.ctype.cDefinition;
    }
  }

  /** Over any fragment that scans without error, the C definition grows by
      exactly the character data outside <name> and the pointer level by the
      asterisks outside both elements. */
  lemma {:induction false} SigRunDefinition(s: SigState, ts: seq<Token>)
    requires SigRun(s, ts).Ok?
    ensures var r := SigRun(s, ts).value;
            r.ctype.cDefinition == s.ctype.cDefinition + OutsideNameText(ModeOf(s), ts)
            && r.ctype.pointerLevel == s.ctype.pointerLevel + PlainStars(ModeOf(s), ts)
    decreases |ts|
  {
    if |ts| == 0 {
      assert s.ctype.cDefinition + "" == s.ctype.cDefinition;
    } else {
      var s' := SigStep(s, ts[0]).value;
      SigStepDefinition(s, ts[0]);
      SigRunDefinition(s', ts[1..]);
      AppendAssoc(s.ctype.cDefinition, TextOutsideName(ModeOf(s), ts[0]), OutsideNameText(ModeOf(s'), ts[1..]));
    }
  }

  /** A whole signature: its C definition is all its character data outside
      <name>, and its pointer level counts the asterisks outside both
      elements, whatever the shape of the declaration. */
  lemma SignatureDefinition(ts: seq<Token>)
    requires SignatureOf(ts).Ok?
    ensures SignatureOf(ts).value.ctype.cDefinition == OutsideNameText(Mode(false, false), ts)
    ensures SignatureOf(ts).value.ctype.pointerLevel == PlainStars(Mode(false, false), ts)
  {
    SigRunDefinition(SigStart, ts);
    assert "" + OutsideNameText(Mode(false, false), ts) == OutsideNameText(Mode(false, false), ts);
  }

  /** Plain text outside both elements: it goes into the C definition
      verbatim, adds one pointer level per asterisk, and makes the type void
      when it mentions void. */
  lemma PlainText(s: SigState, text: string)
    requires !s.readingName && !s.readingType
    ensures SigRun(s, [CharData(text)]).Ok?
    ensures var r := SigRun(s, [CharData(text)]).value;
            r.name == s.name && !r.readingName && !r.readingType
            && r.ctype.name == VoidName(TrimSpaces(text), s.ctype.name)
            && r.ctype.pointerLevel == s.ctype.pointerLevel + CountChar(text, '*')
            && r.ctype.cDefinition == s.ctype.cDefinition + text
  {
    var ts := [CharData(text)];
    assert ts[0] == CharData(text) && ts[1..] == [];
    assert SigRun(s, ts) == SigStep(s, CharData(text));
    TrimSpacesKeepsCount(text, '*');
  }

  /** A <name> element: its trimmed text becomes the name and the type does
      not see it. */
  lemma NameElement(s: SigState, text: string)
    requires !s.readingName && !s.readingType
    ensures SigRun(s, [StartElement("name"), CharData(text), EndElement("name")]).Ok?
    ensures var r := SigRun(s, [StartElement("name"), CharData(text), EndElement("name")]).value;
            r.name == TrimSpaces(text) && r.ctype == s.ctype && !r.readingName && !r.readingType
  {
    var ts := [StartElement("name"), CharData(text), EndElement("name")];
    var s1 := s.(readingName := true);
    var s2 := s1.(name := TrimSpaces(text));
    assert SigRun(s, ts) == SigRun(s1, ts[1..]);
    assert ts[1..][0] == CharData(text);
    assert SigRun(s1, ts[1..]) == SigRun(s2, ts[1..][1..]);
    assert ts[1..][1..][0] == EndElement("name") && ts[1..][1..][1..] == [];
    assert SigRun(s2, ts[1..][1..]) == SigRun(s2.(readingName := false), []);
  }

  /** A <ptype> element: its trimmed text becomes the type name and its raw
      text joins the C definition. */
  lemma PtypeElement(s: SigState, text: string)
    requires !s.readingName && !s.readingType
    ensures SigRun(s, [StartElement("ptype"), CharData(text), EndElement("ptype")]).Ok?
    ensures var r := SigRun(s, [StartElement("ptype"), CharData(text), EndElement("ptype")]).value;
            r.name == s.name && !r.readingName && !r.readingType
            && r.ctype.name == TrimSpaces(text) && r.ctype.pointerLevel == s.ctype.pointerLevel
            && r.ctype.cDefinition == s.ctype.cDefinition + text
  {
    var ts := [StartElement("ptype"), CharData(text), EndElement("ptype")];
    var s1 := s.(readingType := true);
    var s2 := s1.(ctype := Type(TrimSpaces(text), s.ctype.pointerLevel, s.ctype.cDefinition + text));
    assert SigRun(s, ts) == SigRun(s1, ts[1..]);
    assert ts[1..][0] == CharData(text);
    assert SigRun(s1, ts[1..]) == SigRun(s2, ts[1..][1..]);
    assert ts[1..][1..][0] == EndElement("ptype") && ts[1..][1..][1..] == [];
    assert SigRun(s2, ts[1..][1..]) == SigRun(s2.(readingType := false), []);
  }

  /** Plain text followed by a <name> element, from a state outside both
      elements. */
  lemma TextThenName(s: SigState, a: string, n: string)
    requires !s.readingName && !s.readingType
    ensures var r := SigRun(s, [CharData(a), StartElement("name"), CharData(n), EndElement("name")]);
            r.Ok? && r.value.name == TrimSpaces(n)
            && r.value.ctype.name == VoidName(TrimSpaces(a), s.ctype.name)
            && r.value.ctype.pointerLevel == s.ctype.pointerLevel + CountChar(a, '*')
            && r.value.ctype.cDefinition == s.ctype.cDefinition + a
  {
    var p1 := [CharData(a)];
    var p4 := [StartElement("name"), CharData(n), EndElement("name")];
    assert [CharData(a), StartElement("name"), CharData(n), EndElement("name")] == p1 + p4;
    PlainText(s, a);
    var s1 := SigRun(s, p1).value;
    SigRunAppend(s, p1, p4);
    NameElement(s1, n);
  }

  /** A <ptype> element, plain text, then a <name> element, from a state
      outside both elements. */
  lemma PtypeThenName(s: SigState, t: string, b: string, n: string)
    requires !s.readingName && !s.readingType
    ensures var r := SigRun(s, [StartElement("ptype"), CharData(t), EndElement("ptype"),
                                CharData(b), StartElement("name"), CharData(n), EndElement("name")]);
            r.Ok? && r.value.name == TrimSpaces(n)
            && r.value.ctype.name == VoidName(TrimSpaces(b), TrimSpaces(t))
            && r.value.ctype.pointerLevel == s.ctype.pointerLevel + CountChar(b, '*')
            && r.value.ctype.cDefinition == s.ctype.cDefinition + t + b
  {
    var p2 := [StartElement("ptype"), CharData(t), EndElement("ptype")];
    var p3 := [CharData(b), StartElement("name"), CharData(n), EndElement("name")];
    assert [StartElement("ptype"), CharData(t), EndElement("ptype"),
            CharData(b), StartElement("name"), CharData(n), EndElement("name")] == p2 + p3;
    PtypeElement(s, t);
    var s2 := SigRun(s, p2).value;
    SigRunAppend(s, p2, p3);
    TextThenName(s2, b, n);
  }

  /** The registry's usual parameter shape `a<ptype>t</ptype>b<name>n</name>`:
      the name is the trimmed text of <name>, the type name that of <ptype>
      unless the text after it mentions void, the pointer level counts the
      asterisks outside both elements, and the C definition is all the text
      except the name. */
  lemma TypedDeclaration(a: string, t: string, b: string, n: string)
    ensures var r := SignatureOf([CharData(a), StartElement("ptype"), CharData(t), EndElement("ptype"),
                                  CharData(b), StartElement("name"), CharData(n), EndElement("name")]);
            r.Ok? && r.value.name == TrimSpaces(n)
            && r.value.ctype.name == VoidName(TrimSpaces(b), TrimSpaces(t))
            && r.value.ctype.pointerLevel == CountChar(a, '*') + CountChar(b, '*')
            && r.value.ctype.cDefinition == a + t + b
  {
    var ts := [CharData(a), StartElement("ptype"), CharData(t), EndElement("ptype"),
               CharData(b), StartElement("name"), CharData(n), EndElement("name")];
    var p2 := [StartElement("ptype"), CharData(t), EndElement("ptype"),
               CharData(b), StartElement("name"), CharData(n), EndElement("name")];
    assert ts[0] == CharData(a) && ts[1..] == p2;
    var s1 := SigStep(SigStart, CharData(a)).value;
    assert SigRun(SigStart, ts) == SigRun(s1, p2);
    TrimSpacesKeepsCount(a, '*');
    assert !s1.readingName && !s1.readingType && s1.ctype.cDefinition == a;
    PtypeThenName(s1, t, b, n);
  }

  /** The shape `a<name>n</name>` without a <ptype>: the type comes from the
      plain text alone (only void is recognised). */
  lemma UntypedDeclaration(a: string, n: string)
    ensures var r := SignatureOf([CharData(a), StartElement("name"), CharData(n), EndElement("name")]);
            r.Ok? && r.value.name == TrimSpaces(n)
            && r.value.ctype.name == VoidName(TrimSpaces(a), "")
            && r.value.ctype.pointerLevel == CountChar(a, '*')
            && r.value.ctype.cDefinition == a
  {
    TextThenName(SigStart, a, n);
    assert "" + a == a;
  }

  // ---------------------------------------------------------------------
  // parseTypedef

  /** A <type> entry of the registry: its attributes and its inner XML. */
  datatype SpecType = SpecType(name: string, api: string, requirement: string, raw: seq<Token>)

  datatype TdState = TdState(typedef: Typedef, readingName: bool)

  const UnexpectedTypedef: string := "Unexpected typedef XML"

  /** The tokens a typedef may contain: text, <name> and <apientry> start
      elements, and any end element. */
  predicate TypedefToken(t: Token) {
    t.CharData? || t.EndElement? || (t.StartElement? && (t.local == "name" || t.local == "apientry"))
  }

  /** One token of parseTypedef: all text goes into the C definition, the
      text inside <name> also becomes the name, and <apientry/> stands for
      the word APIENTRY. */
  function TdStep(s: TdState, t: Token): Result<TdState> {
    match t
    case CharData(raw) =>
      Ok(TdState(Typedef(if s.readingName then raw else s.typedef.name, s.typedef.cDefinition + raw), s.readingName))
    case StartElement(local) =>
      if local == "name" then Ok(s.(readingName := true))
      else if local == "apientry" then Ok(s.(typedef := s.typedef.(cDefinition := s.typedef.cDefinition + "APIENTRY")))
      else Err(UnexpectedTypedef)
    case EndElement(local) =>
      if local == "name" then Ok(s.(readingName := false)) else Ok(s)
    case _ => Err(UnexpectedTypedef)
  }

  function TdRun(s: TdState, ts: seq<Token>): Result<TdState>
    decreases |ts|
  {
    if |ts| == 0 then Ok(s)
    else match TdStep(s, ts[0])
      case Err(e) => Err(e)
      case Ok(s') => TdRun(s', ts[1..])
  }

  /** The typedef of an entry: the name attribute unless a <name> element
      overrides it. */
  function TypedefOf(st: SpecType): Result<Typedef> {
    match TdRun(TdState(Typedef(st.name, ""), false), st.raw)
    case Err(e) => Err(e)
    case Ok(s) => Ok(s.typedef)
  }

  /** parseTypedef, as the Go loop runs it. */
  method ParseTypedef(st: SpecType) returns (r: Result<Typedef>)
    ensures r == TypedefOf(st)
  {
    var typedef := Typedef(st.name, "");
    var readingName := false;
    var i := 0;
    while i < |st.raw|
      invariant 0 <= i <= |st.raw|
      invariant TdRun(TdState(typedef, readingName), st.raw[i..]) == TdRun(TdState(Typedef(st.name, ""), false), st.raw)
    {
      assert st.raw[i..][1..] == st.raw[i + 1..];
      match st.raw[i] {
      case CharData(raw) =>
        typedef := typedef.(cDefinition := typedef.cDefinition + raw);
        if readingName {
          typedef := typedef.(name := raw);
        }
      case StartElement(local) =>
        if local == "name" {
          readingName := true;
        } else if local == "apientry" {
          typedef := typedef.(cDefinition := typedef.cDefinition + "APIENTRY");
        } else {
          return Err(UnexpectedTypedef);
        }
      case EndElement(local) =>
        if local == "name" {
          readingName := false;
        }
      case _ =>
        return Err(UnexpectedTypedef);
      }
      i := i + 1;
    }
    return Ok(typedef);
  }

  /** The C definition a typedef's tokens spell: all text, with APIENTRY for
      each <apientry>. */
  function TypedefText(ts: seq<Token>): string
    decreases |ts|
  {
    if |ts| == 0 then "" else TokenText(ts[0]) + TypedefText(ts[1..])
  }

  /** The C text one typedef token contributes. */
  function TokenText(t: Token): string {
    match t
    case CharData(raw) => raw
    case StartElement(local) => if local == "apientry" then "APIENTRY" else ""
    case _ => ""
  }

  /** One token parses exactly when it is allowed, and then adds its text
      to the C definition. */
  lemma TdStepText(s: TdState, t: Token)
    ensures TdStep(s, t).Ok? <==> TypedefToken(t)
    ensures TdStep(s, t).Ok? ==> TdStep(s, t).value.typedef.cDefinition == s.typedef.cDefinition + TokenText(t)
  {
  }

  /** A typedef parses exactly when all its tokens are allowed, and then its
      C definition is the spelled text, whatever the <name> elements do. */
  lemma {:induction false} TdRunText(s: TdState, ts: seq<Token>)
    ensures TdRun(s, ts).Ok? <==> forall k :: 0 <= k < |ts| ==> TypedefToken(ts[k])
    ensures TdRun(s, ts).Ok? ==> TdRun(s, ts).value.typedef.cDefinition == s.typedef.cDefinition + TypedefText(ts)
    decreases |ts|
  {
    if |ts| > 0 {
      TdStepText(s, ts[0]);
      if TdStep(s, ts[0]).Ok? {
        var s' := TdStep(s, ts[0]).value;
        TdRunText(s', ts[1..]);
        AppendAssoc(s.typedef.cDefinition, TokenText(ts[0]), TypedefText(ts[1..]));
        assert (forall k :: 0 <= k < |ts| ==> TypedefToken(ts[k]))
               <==> (forall k :: 0 <= k < |ts[1..]| ==> TypedefToken(ts[1..][k])) by {
          assert forall k :: 1 <= k < |ts| ==> ts[k] == ts[1..][k - 1];
        }
      }
    }
  }

  /** Without a <name> element the typedef keeps the name attribute. */
  lemma {:induction false} TdRunKeepsName(s: TdState, ts: seq<Token>)
    requires !s.readingName
    requires forall k :: 0 <= k < |ts| ==> ts[k] != StartElement("name")
    ensures TdRun(s, ts).Ok? ==> TdRun(s, ts).value.typedef.name == s.typedef.name
    decreases |ts|
  {
    if |ts| > 0 {
      match TdStep(s, ts[0])
      case Err(_) =>
      case Ok(s') =>
        TdRunKeepsName(s', ts[1..]);
    }
  }

  /** The shape `a<name>n</name>b` names the typedef `n` and spells it
      `a + n + b`. */
  lemma TypedefNamed(st: SpecType, a: string, n: string, b: string)
    requires st.raw == [CharData(a), StartElement("name"), CharData(n), EndElement("name"), CharData(b)]
    ensures TypedefOf(st).Ok?
    ensures TypedefOf(st).value.name == n && TypedefOf(st).value.cDefinition == a + n + b
  {
    var ts := st.raw;
    var s1 := TdState(Typedef(st.name, "" + a), false);
    var s2 := s1.(readingName := true);
    var s3 := TdState(Typedef(n, "" + a + n), true);
    var s4 := s3.(readingName := false);
    var s5 := TdState(Typedef(n, "" + a + n + b), false);
    assert TdRun(TdState(Typedef(st.name, ""), false), ts) == TdRun(s1, ts[1..]);
    assert ts[1..][0] == StartElement("name");
    assert TdRun(s1, ts[1..]) == TdRun(s2, ts[2..]);
    assert ts[2..][0] == CharData(n) && ts[2..][1..] == ts[3..];
    assert TdRun(s2, ts[2..]) == TdRun(s3, ts[3..]);
    assert ts[3..][0] == EndElement("name") && ts[3..][1..] == ts[4..];
    assert TdRun(s3, ts[3..]) == TdRun(s4, ts[4..]);
    assert ts[4..][0] == CharData(b) && ts[4..][1..] == [];
    assert TdRun(s4, ts[4..]) == Ok(s5);
    assert "" + a + n + b == a + n + b;
  }

  // ---------------------------------------------------------------------
  // parseTypedefs

  /** A typedef with its position in the registry and the name of the
      typedef it requires ("" for none). */
  datatype SpecTypedef = SpecTypedef(typedef: Typedef, ordinal: nat, requirement: string)

  /** The typedef table after the first `|types|` entries: each parsed entry
      is stored under its (name, api) key with its position as ordinal; a
      later entry with the same key replaces an earlier one; the first entry
      that does not parse makes the whole table an error. */
  function TypedefTable(types: seq<SpecType>): Result<map<Ref, SpecTypedef>>
    decreases |types|
  {
    if |types| == 0 then Ok(map[])
    else
      var last := types[|types| - 1];
      match TypedefTable(types[..|types| - 1])
      case Err(e) => Err(e)
      case Ok(m) =>
        match TypedefOf(last)
        case Err(e) => Err(e)
        case Ok(td) => Ok(m[Ref(td.name, last.api) := SpecTypedef(td, |types| - 1, last.requirement)])
  }

  /** parseTypedefs, as the Go loop runs it. */
  method ParseTypedefs(types: seq<SpecType>) returns (r: Result<map<Ref, SpecTypedef>>)
    ensures r == TypedefTable(types)
  {
    var typedefs: map<Ref, SpecTypedef> := map[];
    var i := 0;
    while i < |types|
      invariant 0 <= i <= |types|
      invariant TypedefTable(types[..i]) == Ok(typedefs)
    {
      assert types[..i + 1][..i] == types[..i];
      var typedef := ParseTypedef(types[i]);
      if typedef.Err? {
        TypedefTableErr(types, i + 1);
        return Err(typedef.message);
      }
      typedefs := typedefs[Ref(typedef.value.name, types[i].api) := SpecTypedef(typedef.value, i, types[i].requirement)];
      i := i + 1;
    }
    assert types[..i] == types;
    return Ok(typedefs);
  }

  /** An error in the first `n` entries is the error of the whole table. */
  lemma {:induction false} TypedefTableErr(types: seq<SpecType>, n: nat)
    requires n <= |types| && TypedefTable(types[..n]).Err?
    ensures TypedefTable(types) == TypedefTable(types[..n])
    decreases |types| - n
  {
    if n < |types| {
      assert types[..n + 1][..n] == types[..n];
      TypedefTableErr(types, n + 1);
    } else {
      assert types[..n] == types;
    }
  }

  /** The key an entry that parses is stored under. */
  function KeyOf(st: SpecType): Ref
    requires TypedefOf(st).Ok?
  {
    Ref(TypedefOf(st).value.name, st.api)
  }

  /** The table exists exactly when every entry parses. */
  lemma {:induction false} TypedefTableOk(types: seq<SpecType>)
    ensures TypedefTable(types).Ok? <==> forall k :: 0 <= k < |types| ==> TypedefOf(types[k]).Ok?
    decreases |types|
  {
    if |types| > 0 {
      var init := types[..|types| - 1];
      TypedefTableOk(init);
      assert forall k :: 0 <= k < |init| ==> init[k] == types[k];
    }
  }

  /** Every entry's key is in the table. */
  lemma {:induction false} TypedefTableKeys(types: seq<SpecType>)
    requires TypedefTable(types).Ok?
    ensures forall k :: 0 <= k < |types| ==> TypedefOf(types[k]).Ok? && KeyOf(types[k]) in TypedefTable(types).value
    decreases |types|
  {
    if |types| > 0 {
      var init := types[..|types| - 1];
      TypedefTableKeys(init);
      assert forall k :: 0 <= k < |init| ==> init[k] == types[k];
    }
  }

  /** The entry under a key comes from the last position of the registry
      list whose entry has that key: its ordinal is that position, its
      typedef and requirement are that entry's. */
  lemma {:induction false} TypedefTableEntries(types: seq<SpecType>, r: Ref)
    requires TypedefTable(types).Ok? && r in TypedefTable(types).value
    ensures var e := TypedefTable(types).value[r];
            e.ordinal < |types| && TypedefOf(types[e.ordinal]) == Ok(e.typedef)
            && KeyOf(types[e.ordinal]) == r && e.requirement == types[e.ordinal].requirement
    ensures var e := TypedefTable(types).value[r];
            forall j :: e.ordinal < j < |types| ==> TypedefOf(types[j]).Ok? && KeyOf(types[j]) != r
    decreases |types|
  {
    var n := |types|;
    var init := types[..n - 1];
    var m := TypedefTable(init).value;
    var td := TypedefOf(types[n - 1]).value;
    if Ref(td.name, types[n - 1].api) != r {
      TypedefTableEntries(init, r);
      assert forall k :: 0 <= k < |init| ==> init[k] == types[k];
    }
  }

  /** Different keys of the table never share an ordinal. */
  lemma TypedefTableUniqueOrdinals(types: seq<SpecType>)
    requires TypedefTable(types).Ok?
    ensures var m := TypedefTable(types).value;
            forall r1, r2 :: r1 in m && r2 in m && r1 != r2 ==> m[r1].ordinal != m[r2].ordinal
  {
    var m := TypedefTable(types).value;
    forall r1, r2 | r1 in m && r2 in m && r1 != r2
      ensures m[r1].ordinal != m[r2].ordinal
    {
      TypedefTableEntries(types, r1);
      TypedefTableEntries(types, r2);
    }
  }

  // ---------------------------------------------------------------------
  // parseAddRem and parseExtensions

  /** A <require> or <remove> block: the names of its enums and commands. */
  datatype Block = Block(enums: seq<string>, commands: seq<string>)

  /** What a feature or extension adds and removes. */
  datatype AddRemSet = AddRemSet(addedCommands: seq<string>, addedEnums: seq<string>,
                                 removedCommands: seq<string>, removedEnums: seq<string>)

  /** The command names of all blocks, in order. */
  function CommandsOf(bs: seq<Block>): seq<string>
    decreases |bs|
  {
    if |bs| == 0 then [] else CommandsOf(bs[..|bs| - 1]) + bs[|bs| - 1].commands
  }

  /** The enum names of all blocks, in order. */
  function EnumsOf(bs: seq<Block>): seq<string>
    decreases |bs|
  {
    if |bs| == 0 then [] else EnumsOf(bs[..|bs| - 1]) + bs[|bs| - 1].enums
  }

  /** A name is listed exactly when some block lists it. */
  lemma {:induction false} BlockNames(bs: seq<Block>, n: string)
    ensures n in CommandsOf(bs) <==> exists k :: 0 <= k < |bs| && n in bs[k].commands
    ensures n in EnumsOf(bs) <==> exists k :: 0 <= k < |bs| && n in bs[k].enums
    decreases |bs|
  {
    if |bs| > 0 {
      var init := bs[..|bs| - 1];
      BlockNames(init, n);
      assert forall k :: 0 <= k < |init| ==> init[k] == bs[k];
    }
  }

  /** Appends `names` to `acc` one at a time. */
  method AppendAll(acc: seq<string>, names: seq<string>) returns (r: seq<string>)
    ensures r == acc + names
  {
    r := acc;
    var j := 0;
    while j < |names|
      invariant 0 <= j <= |names|
      invariant r == acc + names[..j]
    {
      assert names[..j + 1] == names[..j] + [names[j]];
      r := r + [names[j]];
      j := j + 1;
    }
    assert names[..j] == names;
  }

  /** parseAddRem: the commands and enums of the <require> blocks, then
      those of the <remove> blocks, each in document order. */
  method ParseAddRem(requireBlocks: seq<Block>, removeBlocks: seq<Block>) returns (addRem: AddRemSet)
    ensures addRem == AddRemSet(CommandsOf(requireBlocks), EnumsOf(requireBlocks), CommandsOf(removeBlocks), EnumsOf(removeBlocks))
  {
    addRem := AddRemSet([], [], [], []);
    var i := 0;
    while i < |requireBlocks|
      invariant 0 <= i <= |requireBlocks|
      invariant addRem == AddRemSet(CommandsOf(requireBlocks[..i]), EnumsOf(requireBlocks[..i]), [], [])
    {
      assert requireBlocks[..i + 1][..i] == requireBlocks[..i];
      var commands := AppendAll(addRem.addedCommands, requireBlocks[i].commands);
      var enums := AppendAll(addRem.addedEnums, requireBlocks[i].enums);
      addRem := addRem.(addedCommands := commands, addedEnums := enums);
      i := i + 1;
    }
    assert requireBlocks[..i] == requireBlocks;
    i := 0;
    while i < |removeBlocks|
      invariant 0 <= i <= |removeBlocks|
      invariant addRem == AddRemSet(CommandsOf(requireBlocks), EnumsOf(requireBlocks), CommandsOf(removeBlocks[..i]), EnumsOf(removeBlocks[..i]))
    {
      assert removeBlocks[..i + 1][..i] == removeBlocks[..i];
      var commands := AppendAll(addRem.removedCommands, removeBlocks[i].commands);
      var enums := AppendAll(addRem.removedEnums, removeBlocks[i].enums);
      addRem := addRem.(removedCommands := commands, removedEnums := enums);
      i := i + 1;
    }
    assert removeBlocks[..i] == removeBlocks;
  }

  /** An <extension> entry of the registry. */
  datatype SpecExtension = SpecExtension(name: string, supported: string, requireBlocks: seq<Block>, removeBlocks: seq<Block>)

  /** An extension as the resolver uses it: its name, the pattern of the
      APIs it supports, and what it adds. */
  datatype Extension = Extension(name: string, apisRegexp: string, addRem: AddRemSet)

  const UnexpectedRemoval: string := "Unexpected extension with removal requirement"

  /** The extension list: an error when any extension removes something,
      otherwise each extension with what its <require> blocks add. */
  function ExtensionsOf(exts: seq<SpecExtension>): (r: Result<seq<Extension>>)
    ensures r.Ok? <==> forall k :: 0 <= k < |exts| ==> |exts[k].removeBlocks| == 0
    ensures r.Err? ==> r == Err(UnexpectedRemoval)
    ensures r.Ok? ==> |r.value| == |exts|
    ensures r.Ok? ==>
              forall k :: 0 <= k < |exts| ==>
                r.value[k] == Extension(exts[k].name, exts[k].supported,
                                        AddRemSet(CommandsOf(exts[k].requireBlocks), EnumsOf(exts[k].requireBlocks), [], []))
    decreases |exts|
  {
    if |exts| == 0 then Ok([])
    else if |exts[0].removeBlocks| > 0 then Err(UnexpectedRemoval)
    else
      var e := Extension(exts[0].name, exts[0].supported,
                         AddRemSet(CommandsOf(exts[0].requireBlocks), EnumsOf(exts[0].requireBlocks), [], []));
      match ExtensionsOf(exts[1..])
      case Err(m) =>
        assert exists k :: 1 <= k < |exts| && |exts[k].removeBlocks| > 0 by {
          var k :| 0 <= k < |exts[1..]| && |exts[1..][k].removeBlocks| > 0;
          assert exts[k + 1] == exts[1..][k];
        }
        Err(m)
      case Ok(rest) =>
        assert forall k :: 1 <= k < |exts| ==> exts[k] == exts[1..][k - 1];
        Ok([e] + rest)
  }

  /** parseExtensions, as the Go loop runs it. */
  method ParseExtensions(exts: seq<SpecExtension>) returns (r: Result<seq<Extension>>)
    ensures r == ExtensionsOf(exts)
  {
    var extensions: seq<Extension> := [];
    var i := 0;
    while i < |exts|
      invariant 0 <= i <= |exts|
      invariant forall k :: 0 <= k < i ==> |exts[k].removeBlocks| == 0
      invariant |extensions| == i
      invariant forall k :: 0 <= k < i ==>
                  extensions[k] == Extension(exts[k].name, exts[k].supported,
                                             AddRemSet(CommandsOf(exts[k].requireBlocks), EnumsOf(exts[k].requireBlocks), [], []))
    {
      if |exts[i].removeBlocks| > 0 {
        return Err(UnexpectedRemoval);
      }
      var addRem := ParseAddRem(exts[i].requireBlocks, exts[i].removeBlocks);
      assert CommandsOf(exts[i].removeBlocks) == [] && EnumsOf(exts[i].removeBlocks) == [];
      extensions := extensions + [Extension(exts[i].name, exts[i].supported, addRem)];
      i := i + 1;
    }
    var spec := ExtensionsOf(exts);
    assert spec.Ok? && |spec.value| == |extensions|;
    assert forall k :: 0 <= k < |exts| ==> spec.value[k] == extensions[k];
    assert spec.value == extensions;
    return Ok(extensions);
  }
}
