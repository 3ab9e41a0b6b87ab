/** Name trimming, renaming, camel-casing, length-string classification and
    the writer that drops blank lines from generated code (util.go). */
module Util {
  import opened Wrappers
  import opened Text

  // ---------------------------------------------------------------------
  // API prefixes

  /** TrimGLCmdPrefix: drops a leading "gl" or "wgl" from a command name.
      The "glx" test comes after the "gl" test, so it never fires. */
  function TrimGLCmdPrefix(str: string): (r: string)
    ensures |r| <= |str| && r == str[|str| - |r|..]
    ensures HasPrefix(str, "gl") ==> "gl" + r == str
    ensures !HasPrefix(str, "gl") && HasPrefix(str, "wgl") ==> "wgl" + r == str
    ensures !HasPrefix(str, "gl") && !HasPrefix(str, "wgl") ==> r == str
  {
    if HasPrefix(str, "gl") then TrimPrefix(str, "gl")
    else if HasPrefix(str, "glx") then TrimPrefix(str, "glx")
    else if HasPrefix(str, "wgl") then TrimPrefix(str, "wgl")
    else str
  }

  /** A "glX" name loses only its "gl": "glxFoo" becomes "xFoo". */
  lemma TrimGLCmdPrefixOfGlx(rest: string)
    ensures TrimGLCmdPrefix("glx" + rest) == "x" + rest
  {
    assert ("glx" + rest)[..2] == "gl";
    assert ("glx" + rest)[2..] == "x" + rest;
  }

  /** The command-name cases of util_test.go that the code meets. */
  lemma TrimGLCmdPrefixExamples()
    ensures TrimGLCmdPrefix("glTest") == "Test"
    ensures TrimGLCmdPrefix("wglTest") == "Test"
    ensures TrimGLCmdPrefix("eglTest") == "eglTest"
  {
    assert "glTest"[..2] == "gl";
    assert "wglTest"[..3] == "wgl";
    assert !HasPrefix("wglTest", "gl") by { assert "wglTest"[..2][0] != "gl"[0]; }
    assert !HasPrefix("eglTest", "gl") by { assert "eglTest"[..2][0] != "gl"[0]; }
    assert !HasPrefix("eglTest", "wgl") by { assert "eglTest"[..3][0] != "wgl"[0]; }
  }

  /** The API prefix TrimGLEnumPrefix recognises at the front of `str`, or "". */
  function EnumPrefix(str: string): (p: string)
    ensures HasPrefix(str, p)
  {
    if HasPrefix(str, "GL_") then "GL_"
    else if HasPrefix(str, "GLX_") then "GLX_"
    else if HasPrefix(str, "WGL_") then "WGL_"
    else ""
  }

  predicate StartsWithDigit(s: string) {
    |s| > 0 && IsDigit(s[0])
  }

  /** TrimGLEnumPrefix: drops a "GL_", "GLX_" or "WGL_" prefix, unless what
      remains would start with a digit and so not be a valid Go name. */
  function TrimGLEnumPrefix(str: string): (r: string)
    ensures r == str || EnumPrefix(str) + r == str
    ensures EnumPrefix(str) == "" ==> r == str
    ensures r != str ==> !StartsWithDigit(r)
    ensures StartsWithDigit(r) ==> r == str
  {
    var p := EnumPrefix(str);
    var t := str[|p|..];
    if StartsWithDigit(t) then p + t else t
  }

  /** The enum-name cases of util_test.go that the code meets. */
  lemma TrimGLEnumPrefixExamples()
    ensures TrimGLEnumPrefix("GL_TEST") == "TEST"
    ensures TrimGLEnumPrefix("WGL_TEST") == "TEST"
    ensures TrimGLEnumPrefix("GLX_TEST") == "TEST"
    ensures TrimGLEnumPrefix("GL_0TEST") == "GL_0TEST"
    ensures TrimGLEnumPrefix("EGL_TEST") == "EGL_TEST"
  {
    assert "GL_TEST"[..3] == "GL_";
    assert !HasPrefix("WGL_TEST", "GL_") by { assert "WGL_TEST"[..3][0] != "GL_"[0]; }
    assert !HasPrefix("WGL_TEST", "GLX_") by { assert "WGL_TEST"[..4][0] != "GLX_"[0]; }
    assert "WGL_TEST"[..4] == "WGL_";
    assert !HasPrefix("GLX_TEST", "GL_") by { assert "GLX_TEST"[..3][2] != "GL_"[2]; }
    assert "GLX_TEST"[..4] == "GLX_";
    assert "GL_0TEST"[..3] == "GL_";
    assert !HasPrefix("EGL_TEST", "GL_") by { assert "EGL_TEST"[..3][0] != "GL_"[0]; }
    assert !HasPrefix("EGL_TEST", "GLX_") by { assert "EGL_TEST"[..4][0] != "GLX_"[0]; }
    assert !HasPrefix("EGL_TEST", "WGL_") by { assert "EGL_TEST"[..4][0] != "WGL_"[0]; }
  }

  // ---------------------------------------------------------------------
  // Length strings

  datatype ParamLenType = UnknownLen | ParamRefLen | ValueLen | CompSizeLen

  /** How the length of an array parameter is given: a reference to another
      parameter, a constant, or a COMPSIZE(...) computation. Fields that a
      kind does not use keep Go's zero values. */
  datatype ParamLen = ParamLen(kind: ParamLenType, paramRef: string, value: int, params: string)

  /** ParseLenString: COMPSIZE(...) first, then a 32-bit decimal constant,
      and anything else names a parameter. */
  function ParseLenString(lenStr: string): (r: ParamLen)
    ensures r.kind != UnknownLen
    ensures r.kind == CompSizeLen <==> HasPrefix(lenStr, "COMPSIZE")
    ensures r.kind == CompSizeLen ==> r.paramRef == "" && r.value == 0
    ensures r.kind == ValueLen ==>
              ParseInt(lenStr, 32) == Some(r.value) && MinInt32 <= r.value <= MaxInt32
              && r.paramRef == "" && r.params == ""
    ensures r.kind == ParamRefLen ==>
              ParseInt(lenStr, 32).None? && r.paramRef == lenStr && r.value == 0 && r.params == ""
  {
    if HasPrefix(lenStr, "COMPSIZE") then
      ParamLen(CompSizeLen, "", 0, TrimSuffix(TrimPrefix(lenStr, "COMPSIZE("), ")"))
    else match ParseInt(lenStr, 32)
      case Some(n) => ParamLen(ValueLen, "", n, "")
      case None => ParamLen(ParamRefLen, lenStr, 0, "")
  }

  /** The argument list of COMPSIZE(...) comes back unchanged. */
  lemma ParseLenStringOfCompSize(params: string)
    ensures ParseLenString("COMPSIZE(" + params + ")") == ParamLen(CompSizeLen, "", 0, params)
  {
    var s := "COMPSIZE(" + params + ")";
    assert s[..8] == "COMPSIZE";
    assert s[..9] == "COMPSIZE(";
    assert s[9..] == params + ")";
    assert (params + ")")[|params + ")"| - 1..] == ")";
  }

  /** Every 32-bit integer written in decimal is read as a constant length. */
  lemma ParseLenStringOfValue(i: int)
    requires MinInt32 <= i <= MaxInt32
    ensures ParseLenString(IntToDecimal(i)) == ParamLen(ValueLen, "", i, "")
  {
    ParseIntOfDecimal(i, 32);
    var s := IntToDecimal(i);
    assert s[0] != 'C';
    NoPrefixAtFirst(s, "COMPSIZE");
  }

  /** A plain parameter name is a parameter reference. */
  lemma ParseLenStringOfName(name: string)
    requires |name| > 0 && name[0] != '+' && name[0] != '-' && !IsDigit(name[0]) && name[0] != 'C'
    ensures ParseLenString(name) == ParamLen(ParamRefLen, name, 0, "")
  {
  }

  // ---------------------------------------------------------------------
  // Reserved words

  /** RenameIfReservedCWord: "near" and "far" are printed as they are, so
      every word comes back unchanged. */
  function RenameIfReservedCWord(word: string): (r: string)
    ensures r == word
  {
    if word == "near" || word == "far" then word[..] else word
  }

  const ReservedGoWords: set<string> := {"func", "type", "struct", "range", "map", "string"}

  /** RenameIfReservedGoWord: the six Go keywords and predeclared names
      that clash with GL parameter names get a "gl" prefix. */
  function RenameIfReservedGoWord(word: string): (r: string)
    ensures word in ReservedGoWords ==> r == "gl" + word
    ensures word !in ReservedGoWords ==> r == word
  {
    match word
    case "func" => "gl" + word
    case "type" => "gl" + word
    case "struct" => "gl" + word
    case "range" => "gl" + word
    case "map" => "gl" + word
    case "string" => "gl" + word
    case _ => word
  }

  /** The renamed word is never reserved: no reserved word starts with
      "gl". */
  lemma RenameIfReservedGoWordIsSafe(word: string)
    ensures RenameIfReservedGoWord(word) !in ReservedGoWords
  {
    if word in ReservedGoWords {
      var r := "gl" + word;
      assert r[..2] == "gl";
      forall w | w in ReservedGoWords
        ensures r != w
      {
        assert r[0] == 'g' && w[0] != 'g';
      }
    }
  }

  // ---------------------------------------------------------------------
  // CamelCase

  /** unicode.ToTitle on ASCII letters. */
  function ToTitle(c: char): (t: char)
    ensures 'a' <= c <= 'z' ==> 'A' <= t <= 'Z' && t as int == c as int - 32
    ensures !('a' <= c <= 'z') ==> t == c
  {
    if 'a' <= c <= 'z' then (c as int - 32) as char else c
  }

  /** The character strings.Map saw just before position `i`; the mapping
      function starts with '_' remembered. */
  function Prev(n: string, i: nat): char
    requires i <= |n|
  {
    if i == 0 then '_' else n[i - 1]
  }

  /** What the mapping function of CamelCase writes for `c` after `prev`:
      nothing for '_', the title-case letter after '_', else `c`. */
  function CamelChar(prev: char, c: char): (r: string)
    ensures c == '_' <==> r == []
    ensures '_' !in r
  {
    if c == '_' then [] else if prev == '_' then [ToTitle(c)] else [c]
  }

  /** The CamelCase of `n`, one input character at a time. */
  function CamelSpec(n: string): (r: string)
    ensures |r| == |n| - CountChar(n, '_')
    ensures '_' !in r
  {
    if |n| == 0 then []
    else CamelSpec(n[..|n| - 1]) + CamelChar(Prev(n, |n| - 1), n[|n| - 1])
  }

  /** CamelCase: bla_blub_foo becomes BlaBlubFoo. */
  method CamelCase(n: string) returns (r: string)
    ensures r == CamelSpec(n)
  {
    var prev := '_';
    r := [];
    var i := 0;
    while i < |n|
      invariant 0 <= i <= |n|
      invariant prev == Prev(n, i)
      invariant r == CamelSpec(n[..i])
    {
      var c := n[i];
      assert n[..i + 1][..i] == n[..i];
      if c == '_' {
        prev := c;
      } else if prev == '_' {
        prev := c;
        r := r + [ToTitle(c)];
      } else {
        prev := c;
        r := r + [c];
      }
      i := i + 1;
    }
    assert n[..i] == n;
  }

  /** The CamelCase of a prefix is a prefix of the CamelCase. */
  lemma {:induction false} CamelSpecPrefix(n: string, k: nat)
    requires k <= |n|
    ensures CamelSpec(n[..k]) <= CamelSpec(n)
    decreases |n| - k
  {
    if k < |n| {
      CamelSpecPrefix(n, k + 1);
      assert n[..k + 1][..k] == n[..k];
    } else {
      assert n[..k] == n;
    }
  }

  /** Each character other than '_' lands after the characters before it,
      less the underscores among them, title-cased when it is first or
      follows '_'. */
  lemma CamelSpecChar(n: string, i: nat)
    requires i < |n| && n[i] != '_'
    ensures i - CountChar(n[..i], '_') < |CamelSpec(n)|
    ensures CamelSpec(n)[i - CountChar(n[..i], '_')] ==
              if i == 0 || n[i - 1] == '_' then ToTitle(n[i]) else n[i]
  {
    CamelSpecPrefix(n, i + 1);
    var m := n[..i + 1];
    assert m[..|m| - 1] == n[..i];
  }

  lemma CamelStep(n: string, c: char)
    ensures CamelSpec(n + [c]) == CamelSpec(n) + CamelChar(if |n| == 0 then '_' else n[|n| - 1], c)
  {
    assert (n + [c])[..|n|] == n;
  }

  /** After an underscore CamelCase starts afresh, as at the beginning of
      the name: bla_blub is CamelCase(bla) followed by CamelCase(blub). */
  lemma {:induction false} CamelSpecAfterUnderscore(a: string, b: string)
    ensures CamelSpec(a + ['_'] + b) == CamelSpec(a) + CamelSpec(b)
    decreases |b|
  {
    if |b| == 0 {
      assert a + ['_'] + b == a + ['_'];
      CamelStep(a, '_');
    } else {
      var b' := b[..|b| - 1];
      var c := b[|b| - 1];
      SplitLast(b);
      CamelSpecAfterUnderscore(a, b');
      SnocAssoc(a + ['_'], b', c);
      var ab := a + ['_'] + b';
      var prev := if |b'| == 0 then '_' else b'[|b'| - 1];
      assert ab[|ab| - 1] == prev;
      CamelStep(ab, c);
      CamelStep(b', c);
      AppendAssoc(CamelSpec(a), CamelSpec(b'), CamelChar(prev, c));
    }
  }

  /** A word without underscores keeps its letters and gets its first one
      title-cased: blub becomes Blub. */
  lemma {:induction false} CamelSpecWord(w: string)
    requires |w| > 0 && '_' !in w
    ensures CamelSpec(w) == [ToTitle(w[0])] + w[1..]
    decreases |w|
  {
    if |w| > 1 {
      var w' := w[..|w| - 1];
      CamelSpecWord(w');
      assert w == w' + [w[|w| - 1]];
      CamelStep(w', w[|w| - 1]);
    } else {
      assert w == [] + [w[0]];
      CamelStep([], w[0]);
    }
  }

  // ---------------------------------------------------------------------
  // Blank lines

  /** unicode.IsSpace */
  predicate IsSpace(c: char) {
    c == '\t' || c == '\n' || c == '\U{000B}' || c == '\U{000C}' || c == '\r' || c == ' '
    || c == '\U{0085}' || c == '\U{00A0}' || c == '\U{1680}'
    || ('\U{2000}' <= c <= '\U{200A}')
    || c == '\U{2028}' || c == '\U{2029}' || c == '\U{202F}' || c == '\U{205F}' || c == '\U{3000}'
  }

  /** A line made only of white space and slashes. */
  predicate BlankLine(line: string) {
    forall i :: 0 <= i < |line| ==> IsSpace(line[i]) || line[i] == '/'
  }

  /** isBlank: scans until the first character that is neither white space
      nor '/'. */
  method IsBlank(line: string) returns (blank: bool)
    ensures blank <==> BlankLine(line)
  {
    blank := true;
    var i := 0;
    while i < |line|
      invariant 0 <= i <= |line|
      invariant blank
      invariant forall k :: 0 <= k < i ==> IsSpace(line[k]) || line[k] == '/'
    {
      if !IsSpace(line[i]) && line[i] != '/' {
        blank := false;
        break;
      }
      i := i + 1;
    }
  }

  /** The first line of `s`, up to and including its first '\n': what
      bytes.Buffer.ReadString('\n') returns without error. */
  function FirstLine(s: string): (line: string)
    requires '\n' in s
    ensures 0 < |line| <= |s| && line == s[..|line|] && line[|line| - 1] == '\n'
    ensures '\n' !in line[..|line| - 1]
  {
    var i := IndexOf(s, '\n');
    assert s[..i + 1][..i] == s[..i];
    s[..i + 1]
  }

  /** The complete lines of `s`, each with its '\n'. */
  function Lines(s: string): seq<string>
    decreases |s|
  {
    if '\n' !in s then [] else [FirstLine(s)] + Lines(s[|FirstLine(s)|..])
  }

  /** What follows the last '\n' of `s`. */
  function Pending(s: string): (r: string)
    ensures '\n' !in r
    decreases |s|
  {
    if '\n' !in s then s else Pending(s[|FirstLine(s)|..])
  }

  function Concat(ls: seq<string>): string {
    if |ls| == 0 then [] else ls[0] + Concat(ls[1..])
  }

  /** The lines that are not blank, in their order. */
  function NonBlank(ls: seq<string>): (r: seq<string>)
    ensures |r| <= |ls|
    ensures forall k :: 0 <= k < |r| ==> !BlankLine(r[k]) && r[k] in ls
  {
    if |ls| == 0 then []
    else (if BlankLine(ls[0]) then [] else [ls[0]]) + NonBlank(ls[1..])
  }

  /** The text forwarded for the complete lines of `s`. */
  function Forwarded(s: string): string {
    Concat(NonBlank(Lines(s)))
  }

  /** Each line ends in its only '\n'. */
  lemma {:induction false} LinesAreLines(s: string)
    ensures forall k :: 0 <= k < |Lines(s)| ==>
              var l := Lines(s)[k]; |l| > 0 && l[|l| - 1] == '\n' && '\n' !in l[..|l| - 1]
    decreases |s|
  {
    if '\n' in s {
      LinesAreLines(s[|FirstLine(s)|..]);
    }
  }

  /** The complete lines followed by the pending part are the whole text. */
  lemma {:induction false} LinesThenPending(s: string)
    ensures Concat(Lines(s)) + Pending(s) == s
    decreases |s|
  {
    if '\n' in s {
      var line := FirstLine(s);
      var rest := s[|line|..];
      LinesThenPending(rest);
      assert Lines(s) == [line] + Lines(rest);
      ConcatPrefix(line, Lines(rest));
      assert s == line + rest;
    }
  }

  /** One step of the loop in Write: the first line is forwarded unless it
      is blank, and the rest is handled the same way. */
  lemma ForwardedStep(s: string)
    requires '\n' in s
    ensures Forwarded(s) ==
              (if BlankLine(FirstLine(s)) then [] else FirstLine(s)) + Forwarded(s[|FirstLine(s)|..])
    ensures Pending(s) == Pending(s[|FirstLine(s)|..])
  {
    var line := FirstLine(s);
    var rest := s[|line|..];
    assert Lines(s) == [line] + Lines(rest);
    ConsParts(line, Lines(rest));
    if BlankLine(line) {
      assert NonBlank(Lines(s)) == [] + NonBlank(Lines(rest)) == NonBlank(Lines(rest));
      assert [] + Forwarded(rest) == Forwarded(rest);
    } else {
      assert NonBlank(Lines(s)) == [line] + NonBlank(Lines(rest));
      ConcatPrefix(line, NonBlank(Lines(rest)));
    }
  }

  /** BlankLineStrippingWriter: buffers what it is given and passes every
      complete line that is not blank on to its output. */
  class BlankLineStrippingWriter {
    /** The partial line waiting for its '\n'. */
    var buf: string
    /** Everything passed on to the wrapped writer so far. */
    var output: string

    constructor ()
      ensures buf == [] && output == []
    {
      buf := [];
      output := [];
    }

    /** Write: the buffered text and `p` are cut into lines; the non-blank
        complete lines go to the output in order and the rest stays in the
        buffer. As written it reports 0 bytes written. */
    method Write(p: string) returns (n: int)
      modifies this
      ensures output == old(output) + Forwarded(old(buf) + p)
      ensures buf == Pending(old(buf) + p)
      ensures '\n' !in buf
      ensures n == 0
    {
      var out, rest := ForwardLines(output, buf + p);
      output := out;
      buf := rest;
      n := 0;
    }
  }

  /** The loop of Write: bytes.Buffer.ReadString drains the text line by
      line, each non-blank line is appended to `out`, and what is left after
      the last '\n' is returned for the buffer. */
  method ForwardLines(out0: string, s: string) returns (out: string, rest: string)
    ensures out == out0 + Forwarded(s)
    ensures rest == Pending(s) && '\n' !in rest
  {
    rest := s;
    out := out0;
    while '\n' in rest
      invariant out + Forwarded(rest) == out0 + Forwarded(s)
      invariant Pending(rest) == Pending(s)
      decreases |rest|
    {
      var line := FirstLine(rest);
      ForwardedStepFrom(out, rest);
      rest := rest[|line|..];
      var blank := IsBlank(line);
      if !blank {
        out := out + line;
      }
    }
    NoCompleteLine(rest);
  }

  /** Text without a '\n' forwards nothing and stays pending. */
  lemma NoCompleteLine(s: string)
    requires '\n' !in s
    ensures Forwarded(s) == [] && Pending(s) == s
  {
  }

  lemma ForwardedStepFrom(out: string, s: string)
    requires '\n' in s
    ensures out + Forwarded(s) ==
              (out + if BlankLine(FirstLine(s)) then [] else FirstLine(s)) + Forwarded(s[|FirstLine(s)|..])
    ensures Pending(s) == Pending(s[|FirstLine(s)|..])
  {
    ForwardedStep(s);
    AppendAssoc(out, if BlankLine(FirstLine(s)) then [] else FirstLine(s), Forwarded(s[|FirstLine(s)|..]));
  }

  lemma ConcatPrefix(line: string, ls: seq<string>)
    ensures Concat([line] + ls) == line + Concat(ls)
  {
    ConsParts(line, ls);
  }

  lemma {:induction false} ConcatAppend(a: seq<string>, b: seq<string>)
    ensures Concat(a + b) == Concat(a) + Concat(b)
    decreases |a|
  {
    if |a| > 0 {
      ConcatAppend(a[1..], b);
      DropFirstAppend(a, b);
      AppendAssoc(a[0], Concat(a[1..]), Concat(b));
    } else {
      assert a + b == b;
    }
  }

  lemma {:induction false} NonBlankAppend(a: seq<string>, b: seq<string>)
    ensures NonBlank(a + b) == NonBlank(a) + NonBlank(b)
    decreases |a|
  {
    if |a| > 0 {
      NonBlankAppend(a[1..], b);
      DropFirstAppend(a, b);
      AppendAssoc(if BlankLine(a[0]) then [] else [a[0]], NonBlank(a[1..]), NonBlank(b));
    } else {
      assert a + b == b;
    }
  }

  /** Appending text can only complete the pending line: the lines of
      `s + q` are those of `s` followed by those of the pending part and
      `q`. */
  lemma {:induction false} LinesAppend(s: string, q: string)
    ensures Lines(s + q) == Lines(s) + Lines(Pending(s) + q)
    ensures Pending(s + q) == Pending(Pending(s) + q)
    decreases |s|
  {
    if '\n' in s {
      var i := IndexOf(s, '\n');
      var t := s + q;
      assert t[..i] == s[..i] && t[i] == '\n';
      IndexOfUnique(t, '\n', i);
      assert FirstLine(t) == FirstLine(s);
      var line := FirstLine(s);
      assert t[|line|..] == s[|line|..] + q;
      LinesAppend(s[|line|..], q);
    } else {
      assert Pending(s) == s;
    }
  }

  /** Writing `p` and then `q` forwards the same text and leaves the same
      buffer as writing `p + q` at once: how the text is cut into writes
      does not matter. */
  lemma TwoWritesAsOne(b: string, p: string, q: string)
    ensures Forwarded(b + p) + Forwarded(Pending(b + p) + q) == Forwarded(b + p + q)
    ensures Pending(Pending(b + p) + q) == Pending(b + p + q)
  {
    LinesAppend(b + p, q);
    NonBlankAppend(Lines(b + p), Lines(Pending(b + p) + q));
    ConcatAppend(NonBlank(Lines(b + p)), NonBlank(Lines(Pending(b + p) + q)));
  }

  lemma FirstLineAt(s: string, i: nat)
    requires i < |s| && s[i] == '\n' && forall k :: 0 <= k < i ==> s[k] != '\n'
    ensures FirstLine(s) == s[..i + 1]
  {
    IndexOfUnique(s, '\n', i);
  }
}
