/** The parts of Go's `strings` and `strconv` packages that the generator
    relies on, over strings modelled as sequences of characters. */
module Text {
  import opened Wrappers

  // ---------------------------------------------------------------------
  // Prefixes, suffixes, containment, counting

  predicate HasPrefix(s: string, p: string) {
    |p| <= |s| && s[..|p|] == p
  }

  /** A string whose first character differs from the prefix's does not
      start with it. */
  lemma NoPrefixAtFirst(s: string, p: string)
    requires |s| > 0 && |p| > 0 && s[0] != p[0]
    ensures !HasPrefix(s, p)
  {
    if |p| <= |s| {
      assert s[..|p|][0] == s[0];
    }
  }

  predicate HasSuffix(s: string, p: string) {
    |p| <= |s| && s[|s| - |p|..] == p
  }

  /** strings.TrimPrefix: drops `p` from the front of `s` when it is there. */
  function TrimPrefix(s: string, p: string): (r: string)
    ensures HasPrefix(s, p) ==> p + r == s
    ensures !HasPrefix(s, p) ==> r == s
  {
    if HasPrefix(s, p) then s[|p|..] else s
  }

  /** strings.TrimSuffix: drops `p` from the end of `s` when it is there. */
  function TrimSuffix(s: string, p: string): (r: string)
    ensures HasSuffix(s, p) ==> r + p == s
    ensures !HasSuffix(s, p) ==> r == s
  {
    if HasSuffix(s, p) then s[..|s| - |p|] else s
  }

  /** strings.Contains */
  predicate Contains(s: string, sub: string)
    decreases |s|
  {
    HasPrefix(s, sub) || (|s| > 0 && Contains(s[1..], sub))
  }

  /** A non-empty sequence is its front followed by its last element. */
  lemma SplitLast<T>(s: seq<T>)
    requires |s| > 0
    ensures s == s[..|s| - 1] + [s[|s| - 1]]
  {
  }

  /** Appending an element after a concatenation. */
  lemma SnocAssoc<T>(x: seq<T>, y: seq<T>, c: T)
    ensures x + (y + [c]) == (x + y) + [c]
  {
  }

  /** A sequence is the part before `k` followed by the part from `k`. */
  lemma TakeDrop<T>(s: seq<T>, k: nat)
    requires k <= |s|
    ensures s[..k] + s[k..] == s
  {
  }

  /** The prefix one longer is the prefix followed by the next element. */
  lemma TakeSnoc<T>(s: seq<T>, i: nat)
    requires i < |s|
    ensures s[..i + 1] == s[..i] + [s[i]]
  {
  }

  /** Dropping the last element of a concatenation with a non-empty right
      operand drops it from the right operand. */
  lemma DropLastAppend<T>(a: seq<T>, b: seq<T>)
    requires |b| > 0
    ensures (a + b)[..|a + b| - 1] == a + b[..|b| - 1]
    ensures (a + b)[|a + b| - 1] == b[|b| - 1]
  {
  }

  /** The head and the tail of a sequence built from its first element. */
  lemma ConsParts<T>(x: T, s: seq<T>)
    ensures ([x] + s)[0] == x && ([x] + s)[1..] == s
  {
  }

  /** Dropping the first element of a concatenation with a non-empty left
      operand drops it from the left operand. */
  lemma DropFirstAppend<T>(a: seq<T>, b: seq<T>)
    requires |a| > 0
    ensures (a + b)[0] == a[0] && (a + b)[1..] == a[1..] + b
  {
  }

  /** The prefix as long as the sequence is the sequence. */
  lemma TakeAll<T>(s: seq<T>)
    ensures s[..|s|] == s
  {
  }

  /** An element of a non-empty sequence is in all but its last element or
      is the last. */
  lemma InSplitLast<T>(s: seq<T>, x: T)
    requires |s| > 0
    ensures x in s <==> x in s[..|s| - 1] || x == s[|s| - 1]
  {
    SplitLast(s);
  }

  /** An element of the prefix one longer is in the shorter prefix or is
      the next element. */
  lemma TakeSnocIn<T>(s: seq<T>, i: nat, x: T)
    requires i < |s|
    ensures x in s[..i + 1] <==> x in s[..i] || x == s[i]
  {
    TakeSnoc(s, i);
  }

  /** Concatenation is associative. */
  lemma AppendAssoc<T>(x: seq<T>, y: seq<T>, z: seq<T>)
    ensures x + (y + z) == (x + y) + z
  {
  }

  /** Whatever stands in front, a concatenation ends with its last parts. */
  lemma EndsWith(front: string, s: string, back: string)
    ensures HasSuffix(front + s + back, s + back)
  {
    AppendAssoc(front, s, back);
  }

  /** strings.Count for a one-character separator. */
  function CountChar(s: string, c: char): (n: nat)
    ensures n <= |s|
  {
    if |s| == 0 then 0 else CountChar(s[..|s| - 1], c) + (if s[|s| - 1] == c then 1 else 0)
  }

  /** No occurrence is counted exactly when the character is absent. */
  lemma {:induction false} CountCharZero(s: string, c: char)
    ensures CountChar(s, c) == 0 <==> c !in s
    decreases |s|
  {
    if |s| > 0 {
      CountCharZero(s[..|s| - 1], c);
      SplitLast(s);
    }
  }

  lemma {:induction false} CountCharAppend(a: string, b: string, c: char)
    ensures CountChar(a + b, c) == CountChar(a, c) + CountChar(b, c)
    decreases |b|
  {
    if |b| == 0 {
      assert a + b == a;
    } else {
      DropLastAppend(a, b);
      CountCharAppend(a, b[..|b| - 1], c);
    }
  }

  // ---------------------------------------------------------------------
  // strings.Trim(s, " ")

  function TrimLeftSpaces(s: string): (r: string)
    ensures |r| <= |s| && r == s[|s| - |r|..]
    ensures |r| > 0 ==> r[0] != ' '
    ensures forall i :: 0 <= i < |s| - |r| ==> s[i] == ' '
  {
    if |s| > 0 && s[0] == ' ' then TrimLeftSpaces(s[1..]) else s
  }

  function TrimRightSpaces(s: string): (r: string)
    ensures |r| <= |s| && r == s[..|r|]
    ensures |r| > 0 ==> r[|r| - 1] != ' '
    ensures forall i :: |r| <= i < |s| ==> s[i] == ' '
  {
    if |s| > 0 && s[|s| - 1] == ' ' then TrimRightSpaces(s[..|s| - 1]) else s
  }

  /** strings.Trim with the cut set " ": removes leading and trailing blanks
      (only the space character, not tabs or newlines). */
  function TrimSpaces(s: string): (r: string)
    ensures |r| <= |s|
    ensures |r| > 0 ==> r[0] != ' ' && r[|r| - 1] != ' '
  {
    TrimRightSpaces(TrimLeftSpaces(s))
  }

  /** Trimming blanks never removes a non-blank character, so it keeps every
      count of a non-blank character. */
  lemma TrimSpacesKeepsCount(s: string, c: char)
    requires c != ' '
    ensures CountChar(TrimSpaces(s), c) == CountChar(s, c)
  {
    TrimLeftKeepsCount(s, c);
    TrimRightKeepsCount(TrimLeftSpaces(s), c);
  }

  lemma {:induction false} TrimLeftKeepsCount(s: string, c: char)
    requires c != ' '
    ensures CountChar(TrimLeftSpaces(s), c) == CountChar(s, c)
  {
    if |s| > 0 && s[0] == ' ' {
      TrimLeftKeepsCount(s[1..], c);
      TakeDrop(s, 1);
      CountCharAppend(s[..1], s[1..], c);
      assert s[..1] == [' '];
      assert CountChar([' '], c) == 0;
    }
  }

  lemma {:induction false} TrimRightKeepsCount(s: string, c: char)
    requires c != ' '
    ensures CountChar(TrimRightSpaces(s), c) == CountChar(s, c)
  {
    if |s| > 0 && s[|s| - 1] == ' ' {
      TrimRightKeepsCount(s[..|s| - 1], c);
    }
  }

  // ---------------------------------------------------------------------
  // Splitting on one character

  function IndexOf(s: string, c: char): (i: nat)
    requires c in s
    ensures i < |s| && s[i] == c && c !in s[..i]
  {
    if s[0] == c then 0 else 1 + IndexOf(s[1..], c)
  }

  /** The first occurrence is the only index before which `c` does not
      occur. */
  lemma IndexOfUnique(s: string, c: char, i: nat)
    requires i < |s| && s[i] == c && c !in s[..i]
    ensures IndexOf(s, c) == i
  {
  }

  /** strings.Split with a one-character separator: always at least one part,
      and the parts never contain the separator. */
  function Split(s: string, sep: char): (parts: seq<string>)
    ensures |parts| >= 1
    ensures forall k :: 0 <= k < |parts| ==> sep !in parts[k]
    decreases |s|
  {
    if sep !in s then [s]
    else
      var i := IndexOf(s, sep);
      [s[..i]] + Split(s[i + 1..], sep)
  }

  /** Joining the parts back with the separator gives the input: Split loses
      nothing. */
  function Join(parts: seq<string>, sep: char): string
    requires |parts| >= 1
  {
    if |parts| == 1 then parts[0] else parts[0] + [sep] + Join(parts[1..], sep)
  }

  lemma {:induction false} SplitJoin(s: string, sep: char)
    ensures Join(Split(s, sep), sep) == s
    decreases |s|
  {
    if sep in s {
      var i := IndexOf(s, sep);
      SplitJoin(s[i + 1..], sep);
      assert Split(s, sep)[1..] == Split(s[i + 1..], sep);
      assert s == s[..i] + [sep] + s[i + 1..];
    }
  }

  /** The number of parts is one more than the number of separators. */
  lemma {:induction false} SplitCount(s: string, sep: char)
    ensures |Split(s, sep)| == CountChar(s, sep) + 1
    decreases |s|
  {
    if sep in s {
      var i := IndexOf(s, sep);
      SplitCount(s[i + 1..], sep);
      assert s == s[..i] + [sep] + s[i + 1..];
      CountCharAppend(s[..i] + [sep], s[i + 1..], sep);
      CountCharAppend(s[..i], [sep], sep);
      CountCharZero(s[..i], sep);
      assert CountChar([sep], sep) == 1;
    } else {
      CountCharZero(s, sep);
    }
  }

  /** Two separator-free pieces around one separator split back into those
      two pieces. */
  lemma SplitAroundOne(a: string, b: string, sep: char)
    requires sep !in a && sep !in b
    ensures Split(a + [sep] + b, sep) == [a, b]
  {
    var s := a + [sep] + b;
    assert s[|a|] == sep;
    assert s[..|a|] == a;
    var i := IndexOf(s, sep);
    assert i == |a|;
    assert s[i + 1..] == b;
  }

  /** strings.SplitN(s, sep, 2): the text before the first separator and the
      text after it, or just `s` when there is no separator. */
  function SplitFirst(s: string, sep: char): (parts: seq<string>)
    ensures sep !in s <==> parts == [s]
    ensures sep in s ==> |parts| == 2 && sep !in parts[0] && parts[0] + [sep] + parts[1] == s
  {
    if sep !in s then [s]
    else
      var i := IndexOf(s, sep);
      assert s == s[..i] + [sep] + s[i + 1..];
      [s[..i], s[i + 1..]]
  }

  // ---------------------------------------------------------------------
  // Replacing and repeating

  /** strings.Replace(s, string(c), r, -1): every `c` becomes `r`. */
  function ReplaceChar(s: string, c: char, r: string): (t: string)
    ensures |r| == 1 ==> |t| == |s|
    ensures |r| == 1 ==> forall i :: 0 <= i < |s| ==> t[i] == if s[i] == c then r[0] else s[i]
    ensures r == [] ==> |t| == |s| - CountChar(s, c)
    ensures c !in r ==> c !in t
  {
    if |s| == 0 then []
    else ReplaceChar(s[..|s| - 1], c, r) + (if s[|s| - 1] == c then r else [s[|s| - 1]])
  }

  lemma {:induction false} ReplaceCharAppend(a: string, b: string, c: char, r: string)
    ensures ReplaceChar(a + b, c, r) == ReplaceChar(a, c, r) + ReplaceChar(b, c, r)
    decreases |b|
  {
    if |b| == 0 {
      assert a + b == a;
    } else {
      var x := b[|b| - 1];
      ReplaceCharAppend(a, b[..|b| - 1], c, r);
      DropLastAppend(a, b);
      AppendAssoc(ReplaceChar(a, c, r), ReplaceChar(b[..|b| - 1], c, r), if x == c then r else [x]);
    }
  }

  lemma {:induction false} ReplaceCharAbsent(s: string, c: char, r: string)
    requires c !in s
    ensures ReplaceChar(s, c, r) == s
    decreases |s|
  {
    if |s| > 0 {
      ReplaceCharAbsent(s[..|s| - 1], c, r);
      assert s == s[..|s| - 1] + [s[|s| - 1]];
    }
  }

  /** strings.Repeat(s, n) for a one-character `s`. */
  function Repeat(c: char, n: nat): (r: string)
    ensures |r| == n && forall i :: 0 <= i < n ==> r[i] == c
  {
    if n == 0 then [] else Repeat(c, n - 1) + [c]
  }

  // ---------------------------------------------------------------------
  // Go string ordering (byte-wise, which for well-formed text is the same as
  // ordering by code point)

  predicate LexLess(a: string, b: string)
    decreases |a|
  {
    |b| > 0 && (|a| == 0 || a[0] < b[0] || (a[0] == b[0] && LexLess(a[1..], b[1..])))
  }

  lemma {:induction false} LexLessIrreflexive(a: string)
    ensures !LexLess(a, a)
    decreases |a|
  {
    if |a| > 0 {
      LexLessIrreflexive(a[1..]);
    }
  }

  lemma {:induction false} LexLessTransitive(a: string, b: string, c: string)
    requires LexLess(a, b) && LexLess(b, c)
    ensures LexLess(a, c)
    decreases |a|
  {
    if |a| > 0 && a[0] == b[0] && b[0] == c[0] {
      LexLessTransitive(a[1..], b[1..], c[1..]);
    }
  }

  lemma {:induction false} LexLessTotal(a: string, b: string)
    ensures LexLess(a, b) || a == b || LexLess(b, a)
    decreases |a|
  {
    if |a| > 0 && |b| > 0 && a[0] == b[0] {
      LexLessTotal(a[1..], b[1..]);
      if a[1..] == b[1..] {
        assert a == [a[0]] + a[1..] && b == [b[0]] + b[1..];
      }
    }
  }

  lemma {:induction false} LexLessAsymmetric(a: string, b: string)
    requires LexLess(a, b)
    ensures !LexLess(b, a)
    decreases |a|
  {
    if |a| > 0 && a[0] == b[0] {
      LexLessAsymmetric(a[1..], b[1..]);
    }
  }

  /** x <= y < z gives x < z. */
  lemma LexLessAfterNotGreater(x: string, y: string, z: string)
    requires !LexLess(y, x) && LexLess(y, z)
    ensures LexLess(x, z)
  {
    LexLessTotal(x, y);
    if x != y {
      LexLessTransitive(x, y, z);
    }
  }

  /** x <= y <= z gives x <= z. */
  lemma LexNotLessChain(x: string, y: string, z: string)
    requires !LexLess(y, x) && !LexLess(z, y)
    ensures !LexLess(z, x)
  {
    LexLessTotal(x, y);
    LexLessTotal(y, z);
    if x != y && y != z {
      LexLessTransitive(x, y, z);
      LexLessAsymmetric(x, z);
    }
  }

  /** A prefix of a string never sorts after it. */
  lemma {:induction false} PrefixNotGreater(p: string, s: string)
    requires HasPrefix(s, p)
    ensures !LexLess(s, p)
    decreases |p|
  {
    if |p| > 0 {
      assert s[1..][..|p| - 1] == p[1..];
      PrefixNotGreater(p[1..], s[1..]);
    }
  }

  // ---------------------------------------------------------------------
  // Decimal numerals: fmt's %d, strconv.Itoa and strconv.ParseInt(s, 10, bits)

  predicate IsDigit(c: char) {
    '0' <= c <= '9'
  }

  predicate AllDigits(s: string) {
    forall i :: 0 <= i < |s| ==> IsDigit(s[i])
  }

  function DigitChar(d: nat): (c: char)
    requires d < 10
    ensures IsDigit(c)
  {
    ('0' as int + d) as char
  }

  function DigitsValue(s: string): nat
    requires AllDigits(s)
  {
    if |s| == 0 then 0 else 10 * DigitsValue(s[..|s| - 1]) + (s[|s| - 1] as int - '0' as int)
  }

  /** The shortest decimal numeral of `n`, without leading zeros. */
  function NatToDecimal(n: nat): (s: string)
    ensures |s| >= 1 && AllDigits(s)
    ensures |s| > 1 ==> s[0] != '0'
  {
    if n < 10 then [DigitChar(n)] else NatToDecimal(n / 10) + [DigitChar(n % 10)]
  }

  /** fmt's %d for an integer: a minus sign for negative numbers. */
  function IntToDecimal(i: int): (s: string)
    ensures |s| >= 1
    ensures i >= 0 ==> AllDigits(s)
    ensures i < 0 ==> s[0] == '-' && AllDigits(s[1..])
  {
    if i < 0 then "-" + NatToDecimal(-i) else NatToDecimal(i)
  }

  /** A numeral holds only digits and a leading minus sign. */
  lemma IntToDecimalChars(i: int, c: char)
    requires !IsDigit(c) && c != '-'
    ensures c !in IntToDecimal(i)
  {
    var s := IntToDecimal(i);
    if i < 0 {
      assert s == [s[0]] + s[1..];
    }
  }

  lemma {:induction false} NatToDecimalValue(n: nat)
    ensures DigitsValue(NatToDecimal(n)) == n
  {
    if n >= 10 {
      NatToDecimalValue(n / 10);
      var s := NatToDecimal(n);
      assert s[..|s| - 1] == NatToDecimal(n / 10);
    }
  }

  const MinInt64: int := -0x8000_0000_0000_0000
  const MaxInt64: int := 0x7fff_ffff_ffff_ffff

  const MinInt32: int := -0x8000_0000
  const MaxInt32: int := 0x7fff_ffff

  /** The largest value of a signed integer of the given width. */
  function MaxSigned(bitSize: nat): int
    requires bitSize == 32 || bitSize == 64
  {
    if bitSize == 32 then MaxInt32 else MaxInt64
  }

  /** strconv.ParseInt(s, 10, bitSize): an optional sign, then at least one
      decimal digit and nothing else, and a value representable in `bitSize`
      bits; anything else is a syntax or range error. */
  function ParseInt(s: string, bitSize: nat): (r: Option<int>)
    requires bitSize == 32 || bitSize == 64
    ensures r.Some? ==> -MaxSigned(bitSize) - 1 <= r.value <= MaxSigned(bitSize)
    ensures s == [] ==> r == None
  {
    var signed := |s| > 0 && (s[0] == '+' || s[0] == '-');
    var digits := if signed then s[1..] else s;
    if |digits| == 0 || !AllDigits(digits) then None
    else
      var v: int := if signed && s[0] == '-' then 0 - DigitsValue(digits) else DigitsValue(digits);
      if -MaxSigned(bitSize) - 1 <= v <= MaxSigned(bitSize) then Some(v) else None
  }

  /** strconv.Atoi: ParseInt at the 64-bit width of Go's `int`. */
  function Atoi(s: string): (r: Option<int>)
    ensures r.Some? ==> MinInt64 <= r.value <= MaxInt64
  {
    ParseInt(s, 64)
  }

  /** ParseInt reads back every integer of its width that %d prints. */
  lemma ParseIntOfDecimal(i: int, bitSize: nat)
    requires bitSize == 32 || bitSize == 64
    requires -MaxSigned(bitSize) - 1 <= i <= MaxSigned(bitSize)
    ensures ParseInt(IntToDecimal(i), bitSize) == Some(i)
  {
    var s := IntToDecimal(i);
    if i < 0 {
      NatToDecimalValue(-i);
      assert s[1..] == NatToDecimal(-i);
    } else {
      NatToDecimalValue(i);
      assert s[0] != '+' && s[0] != '-';
    }
  }

  /** Atoi reads back every 64-bit integer that %d prints. */
  lemma AtoiOfDecimal(i: int)
    requires MinInt64 <= i <= MaxInt64
    ensures Atoi(IntToDecimal(i)) == Some(i)
  {
    ParseIntOfDecimal(i, 64);
  }
}
