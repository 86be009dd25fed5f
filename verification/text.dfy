/**
 * The pieces of Python's `str` methods and `re` character classes that the
 * services use, on ASCII text: `\w`, `\s`/`str.isspace`, `lower`, `strip`,
 * `rstrip(c)`, `re.sub(r"\s+", " ", _)`, `re.sub(r"[^\w\s]", "", _)`,
 * `startswith`/`endswith`/`in`, `split(c)`, `replace`, `str(int)` and `int(str)`.
 */
module Text {
  import opened Wrappers

  /** Python's `\s` and `str.isspace` on ASCII: space, \t \n \v \f \r and the separators 0x1c-0x1f. */
  predicate IsSpace(c: char) {
    c == ' ' || (9 <= c as int <= 13) || (28 <= c as int <= 31)
  }

  /** Python's `\w` on ASCII. */
  predicate IsWordChar(c: char) {
    ('a' <= c <= 'z') || ('A' <= c <= 'Z') || ('0' <= c <= '9') || c == '_'
  }

  predicate IsDigit(c: char) {
    '0' <= c <= '9'
  }

  predicate IsUpper(c: char) {
    'A' <= c <= 'Z'
  }

  function ToLower(c: char): (r: char)
    ensures !IsUpper(r)
    ensures IsWordChar(r) == IsWordChar(c) && IsSpace(r) == IsSpace(c) && IsDigit(r) == IsDigit(c)
    ensures !IsUpper(c) ==> r == c
  {
    if IsUpper(c) then (c as int + 32) as char else c
  }

  /** `s.lower()` */
  function Lower(s: string): (r: string)
    ensures |r| == |s|
    ensures forall i :: 0 <= i < |s| ==> r[i] == ToLower(s[i])
  {
    seq(|s|, i requires 0 <= i < |s| => ToLower(s[i]))
  }

  lemma LowerIdentity(s: string)
    requires forall i :: 0 <= i < |s| ==> !IsUpper(s[i])
    ensures Lower(s) == s
  {
  }

  /** `s.lstrip()`: the longest suffix that does not start with whitespace. */
  function LStrip(s: string): (r: string)
    ensures |r| <= |s| && r == s[|s| - |r|..]
    ensures r == [] || !IsSpace(r[0])
    ensures forall i :: 0 <= i < |s| - |r| ==> IsSpace(s[i])
  {
    if s != [] && IsSpace(s[0]) then LStrip(s[1..]) else s
  }

  /** `s.rstrip()`: the longest prefix that does not end with whitespace. */
  function RStrip(s: string): (r: string)
    ensures |r| <= |s| && r == s[..|r|]
    ensures r == [] || !IsSpace(r[|r| - 1])
    ensures forall i :: |r| <= i < |s| ==> IsSpace(s[i])
  {
    if s != [] && IsSpace(s[|s| - 1]) then RStrip(s[..|s| - 1]) else s
  }

  /** Where `Strip(s)` starts inside `s`. */
  function StripOffset(s: string): (a: nat)
    ensures a <= |s|
  {
    |s| - |LStrip(s)|
  }

  /**
   * `s.strip()`: no whitespace at either end, everything cut off being whitespace; that it is
   * the slice of `s` in between is `StripIsSlice`.
   */
  function Strip(s: string): (r: string)
    ensures StripOffset(s) + |r| <= |s|
    ensures forall i :: 0 <= i < StripOffset(s) ==> IsSpace(s[i])
    ensures forall i :: StripOffset(s) + |r| <= i < |s| ==> IsSpace(s[i])
    ensures r == [] || (!IsSpace(r[0]) && !IsSpace(r[|r| - 1]))
  {
    var l := LStrip(s);
    var r := RStrip(l);
    StripSliceAt(s, l, r);
    r
  }

  /** The stripped text is the slice of `s` that starts at `StripOffset(s)`. */
  lemma StripIsSlice(s: string)
    ensures Strip(s) == s[StripOffset(s)..StripOffset(s) + |Strip(s)|]
  {
    var l := LStrip(s);
    var r := RStrip(l);
    StripSliceAt(s, l, r);
  }

  lemma StripNoOuterSpace(s: string)
    ensures NoOuterSpace(Strip(s))
  {
  }

  /** Stripping keeps only characters of `s`. */
  lemma StripChars(s: string)
    ensures forall c :: c in Strip(s) ==> c in s
  {
    StripIsSlice(s);
  }

  lemma StripSliceAt(s: string, l: string, r: string)
    requires |l| <= |s| && l == s[|s| - |l|..]
    requires |r| <= |l| && r == l[..|r|]
    requires forall i :: |r| <= i < |l| ==> IsSpace(l[i])
    ensures r == s[|s| - |l|..|s| - |l| + |r|]
    ensures forall i :: |s| - |l| + |r| <= i < |s| ==> IsSpace(s[i])
  {
    var a := |s| - |l|;
    forall i | a + |r| <= i < |s|
      ensures IsSpace(s[i])
    {
      assert s[i] == l[i - a];
    }
  }

  predicate NoOuterSpace(s: string) {
    s == [] || (!IsSpace(s[0]) && !IsSpace(s[|s| - 1]))
  }

  lemma StripIdentity(s: string)
    requires NoOuterSpace(s)
    ensures Strip(s) == s
  {
  }

  /** `s.rstrip(c)` for a single character `c`. */
  function RStripChar(s: string, c: char): (r: string)
    ensures |r| <= |s| && r == s[..|r|]
    ensures r == [] || r[|r| - 1] != c
    ensures forall i :: |r| <= i < |s| ==> s[i] == c
  {
    if s != [] && s[|s| - 1] == c then RStripChar(s[..|s| - 1], c) else s
  }

  /** Every whitespace character is a plain space and no two spaces are adjacent. */
  predicate SingleSpaced(s: string) {
    && (forall i :: 0 <= i < |s| && IsSpace(s[i]) ==> s[i] == ' ')
    && (forall i :: 0 <= i < |s| - 1 ==> !(s[i] == ' ' && s[i + 1] == ' '))
  }

  /** `re.sub(r"\s+", " ", s)`: every maximal whitespace run becomes one space. */
  function CollapseSpaces(s: string): (r: string)
    ensures |r| <= |s| && (s == [] <==> r == [])
    decreases |s|
  {
    if s == [] then []
    else if IsSpace(s[0]) then " " + CollapseSpaces(LStrip(s))
    else [s[0]] + CollapseSpaces(s[1..])
  }

  /** The result of collapsing is single-spaced. */
  lemma {:induction false} CollapseSingleSpaced(s: string)
    ensures SingleSpaced(CollapseSpaces(s))
    decreases |s|
  {
    if s == [] {
    } else if IsSpace(s[0]) {
      var rest := LStrip(s);
      CollapseSingleSpaced(rest);
      CollapseFirst(rest);
      var t := CollapseSpaces(rest);
      assert t != [] ==> t[0] != ' ';
    } else {
      CollapseSingleSpaced(s[1..]);
    }
  }

  /** Collapsing keeps a non-whitespace first character and never starts a result with a space otherwise. */
  lemma {:induction false} CollapseFirst(s: string)
    ensures s != [] && !IsSpace(s[0]) ==> CollapseSpaces(s)[0] == s[0]
  {
  }

  /** Collapsing keeps a non-whitespace last character in place. */
  lemma {:induction false} CollapseLast(s: string)
    ensures s != [] && !IsSpace(s[|s| - 1]) ==> CollapseSpaces(s)[|CollapseSpaces(s)| - 1] == s[|s| - 1]
    decreases |s|
  {
    if s == [] {
    } else if IsSpace(s[0]) {
      var rest := LStrip(s);
      CollapseLast(rest);
      assert rest != [] ==> rest[|rest| - 1] == s[|s| - 1];
    } else {
      var rest := s[1..];
      CollapseLast(rest);
      assert rest != [] ==> rest[|rest| - 1] == s[|s| - 1];
    }
  }

  /** Collapsing text with no whitespace at either end leaves it so, and single-spaced. */
  lemma CollapseShape(s: string)
    requires NoOuterSpace(s)
    ensures NoOuterSpace(CollapseSpaces(s)) && SingleSpaced(CollapseSpaces(s))
  {
    CollapseFirst(s);
    CollapseLast(s);
    CollapseSingleSpaced(s);
  }

  /** Collapsing keeps the non-whitespace characters and adds only spaces. */
  lemma {:induction false} CollapseChars(s: string)
    ensures forall c :: c in CollapseSpaces(s) ==> c == ' ' || (c in s && !IsSpace(c))
    decreases |s|
  {
    if s == [] {
    } else if IsSpace(s[0]) {
      var rest := LStrip(s);
      CollapseChars(rest);
    } else {
      CollapseChars(s[1..]);
    }
  }

  lemma {:induction false} CollapseIdentity(s: string)
    requires SingleSpaced(s)
    ensures CollapseSpaces(s) == s
    decreases |s|
  {
    if s == [] {
    } else if IsSpace(s[0]) {
      assert s[0] == ' ';
      assert LStrip(s) == s[1..] by {
        if |s| > 1 {
          assert !IsSpace(s[1]);
        }
      }
      CollapseIdentity(s[1..]);
    } else {
      CollapseIdentity(s[1..]);
    }
  }

  lemma LowerAppend(a: string, b: string)
    ensures Lower(a + b) == Lower(a) + Lower(b)
  {
  }

  /** Lower-casing and whitespace collapsing commute, since `ToLower` keeps whitespace. */
  lemma {:induction false} CollapseLower(s: string)
    ensures CollapseSpaces(Lower(s)) == Lower(CollapseSpaces(s))
    decreases |s|
  {
    if s == [] {
    } else if IsSpace(s[0]) {
      CollapseLower(LStrip(s));
      CollapseLowerSpaceStep(s);
    } else {
      CollapseLower(s[1..]);
      CollapseLowerWordStep(s);
    }
  }

  lemma CollapseLowerSpaceStep(s: string)
    requires s != [] && IsSpace(s[0])
    requires CollapseSpaces(Lower(LStrip(s))) == Lower(CollapseSpaces(LStrip(s)))
    ensures CollapseSpaces(Lower(s)) == Lower(CollapseSpaces(s))
  {
    var t := CollapseSpaces(LStrip(s));
    LStripLower(s);
    CollapseSpaceHead(Lower(s));
    assert CollapseSpaces(s) == " " + t;
    LowerCons(' ', t);
  }

  lemma CollapseLowerWordStep(s: string)
    requires s != [] && !IsSpace(s[0])
    requires CollapseSpaces(Lower(s[1..])) == Lower(CollapseSpaces(s[1..]))
    ensures CollapseSpaces(Lower(s)) == Lower(CollapseSpaces(s))
  {
    var c, rest := s[0], s[1..];
    assert s == [c] + rest;
    LowerCons(c, rest);
    CollapseWordCons(ToLower(c), Lower(rest));
    CollapseWordCons(c, rest);
    LowerCons(c, CollapseSpaces(rest));
  }

  lemma LowerCons(c: char, t: string)
    ensures Lower([c] + t) == [ToLower(c)] + Lower(t)
  {
    LowerAppend([c], t);
  }

  lemma CollapseWordCons(c: char, t: string)
    requires !IsSpace(c)
    ensures CollapseSpaces([c] + t) == [c] + CollapseSpaces(t)
  {
    assert ([c] + t)[1..] == t;
  }

  lemma CollapseSpaceHead(s: string)
    requires s != [] && IsSpace(s[0])
    ensures CollapseSpaces(s) == " " + CollapseSpaces(LStrip(s))
  {
  }

  lemma {:induction false} LStripLower(s: string)
    ensures LStrip(Lower(s)) == Lower(LStrip(s))
    decreases |s|
  {
    if s != [] && IsSpace(s[0]) {
      assert Lower(s)[1..] == Lower(s[1..]);
      LStripLower(s[1..]);
    }
  }

  /** `re.sub(r"[^\w\s]", "", s)`: keeps exactly the word characters and the whitespace, in order. */
  function KeepWordAndSpace(s: string): (r: string)
    ensures |r| <= |s|
    ensures forall i :: 0 <= i < |r| ==> IsWordChar(r[i]) || IsSpace(r[i])
    ensures forall c :: c in r ==> c in s
    ensures (forall i :: 0 <= i < |s| ==> IsWordChar(s[i]) || IsSpace(s[i])) ==> r == s
  {
    if s == [] then []
    else if IsWordChar(s[0]) || IsSpace(s[0]) then [s[0]] + KeepWordAndSpace(s[1..])
    else KeepWordAndSpace(s[1..])
  }

  predicate StartsWith(s: string, p: string) {
    |p| <= |s| && s[..|p|] == p
  }

  predicate EndsWith(s: string, p: string) {
    |p| <= |s| && s[|s| - |p|..] == p
  }

  /** Python's `p in s` for strings. */
  predicate Contains(s: string, p: string)
    decreases |s|
  {
    StartsWith(s, p) || (s != [] && Contains(s[1..], p))
  }

  lemma {:induction false} ContainsAt(s: string, p: string, i: nat)
    requires i + |p| <= |s| && s[i..i + |p|] == p
    ensures Contains(s, p)
    decreases i
  {
    if i > 0 {
      assert s[1..][i - 1..i - 1 + |p|] == p;
      ContainsAt(s[1..], p, i - 1);
    }
  }

  /** The first index of `c` in `s`. */
  function IndexOfChar(s: string, c: char): (r: Option<nat>)
    ensures r.None? <==> c !in s
    ensures r.Some? ==> r.value < |s| && s[r.value] == c && c !in s[..r.value]
  {
    if s == [] then None
    else if s[0] == c then Some(0)
    else
      match IndexOfChar(s[1..], c)
      case None => None
      case Some(i) => Some(i + 1)
  }

  /** The first index of `c` is the one with no `c` before it. */
  lemma IndexOfCharIs(s: string, c: char, k: nat)
    requires k < |s| && s[k] == c && c !in s[..k]
    ensures IndexOfChar(s, c) == Some(k)
  {
    assert s[k] in s;
  }

  /** The last index of `c` in `s`. */
  function LastIndexOfChar(s: string, c: char): (r: Option<nat>)
    ensures r.None? <==> c !in s
    ensures r.Some? ==> r.value < |s| && s[r.value] == c && c !in s[r.value + 1..]
  {
    if s == [] then None
    else if s[|s| - 1] == c then Some(|s| - 1)
    else LastIndexOfChar(s[..|s| - 1], c)
  }

  /** An occurrence of `c` with none after it is the last one. */
  lemma LastIndexOfCharAt(s: string, c: char, i: nat)
    requires i < |s| && s[i] == c && c !in s[i + 1..]
    ensures LastIndexOfChar(s, c) == Some(i)
  {
    var r := LastIndexOfChar(s, c);
    assert c in s;
    NoCharAfter(s, c, i);
    NoCharAfter(s, c, r.value);
  }

  /** `c !in s[i + 1..]` read index by index. */
  lemma NoCharAfter(s: string, c: char, i: nat)
    requires i < |s| && c !in s[i + 1..]
    ensures forall k :: i < k < |s| ==> s[k] != c
  {
    forall k | i < k < |s|
      ensures s[k] != c
    {
      assert s[k] == s[i + 1..][k - i - 1];
    }
  }

  /** `s.split(sep)` for a one-character separator. */
  function Split(s: string, sep: char): (parts: seq<string>)
    ensures |parts| >= 1
    ensures forall i :: 0 <= i < |parts| ==> sep !in parts[i]
    decreases |s|
  {
    match IndexOfChar(s, sep)
    case None => [s]
    case Some(i) => [s[..i]] + Split(s[i + 1..], sep)
  }

  /** `sep.join(parts)` */
  function Join(parts: seq<string>, sep: string): string {
    if parts == [] then []
    else if |parts| == 1 then parts[0]
    else parts[0] + sep + Join(parts[1..], sep)
  }

  /** Splitting on a character and joining back with it gives the original string. */
  lemma {:induction false} JoinSplit(s: string, sep: char)
    ensures Join(Split(s, sep), [sep]) == s
    decreases |s|
  {
    match IndexOfChar(s, sep)
    case None =>
      assert Split(s, sep) == [s];
    case Some(i) =>
      var tail := s[i + 1..];
      var rest := Split(tail, sep);
      assert Split(s, sep) == [s[..i]] + rest;
      JoinSplit(tail, sep);
      assert ([s[..i]] + rest)[1..] == rest;
      assert Join([s[..i]] + rest, [sep]) == s[..i] + [sep] + Join(rest, [sep]);
      assert s == s[..i] + [sep] + tail;
  }

  /** `s.replace(a, b)` for single characters. */
  function ReplaceChar(s: string, a: char, b: char): (r: string)
    ensures |r| == |s|
    ensures forall i :: 0 <= i < |s| ==> r[i] == if s[i] == a then b else s[i]
  {
    seq(|s|, i requires 0 <= i < |s| => if s[i] == a then b else s[i])
  }

  /** `s.replace(pat, rep)`: leftmost, non-overlapping occurrences. */
  function ReplaceAll(s: string, pat: string, rep: string): string
    requires pat != []
    decreases |s|
  {
    if |s| < |pat| then s
    else if s[..|pat|] == pat then rep + ReplaceAll(s[|pat|..], pat, rep)
    else [s[0]] + ReplaceAll(s[1..], pat, rep)
  }

  lemma {:induction false} ReplaceAllAbsent(s: string, pat: string, rep: string)
    requires pat != [] && !Contains(s, pat)
    ensures ReplaceAll(s, pat, rep) == s
    decreases |s|
  {
    if |s| >= |pat| {
      ReplaceAllAbsent(s[1..], pat, rep);
    }
  }

  function DigitChar(d: nat): (c: char)
    requires d < 10
    ensures IsDigit(c)
  {
    ('0' as int + d) as char
  }

  function DigitValue(c: char): (d: nat)
    requires IsDigit(c)
    ensures d < 10 && DigitChar(d) == c
  {
    c as int - '0' as int
  }

  predicate AllDigits(s: string) {
    forall i :: 0 <= i < |s| ==> IsDigit(s[i])
  }

  /** The value of a decimal digit string. */
  function DigitsValue(s: string): (n: nat)
    requires AllDigits(s)
  {
    if s == [] then 0 else DigitsValue(s[..|s| - 1]) * 10 + DigitValue(s[|s| - 1])
  }

  /** `str(n)` for a natural number. */
  function NatToString(n: nat): (s: string)
    ensures s != [] && AllDigits(s)
    ensures DigitsValue(s) == n
    ensures |s| == 1 <==> n < 10
  {
    if n < 10 then [DigitChar(n)]
    else
      var p := NatToString(n / 10);
      var s := p + [DigitChar(n % 10)];
      assert s[..|s| - 1] == p;
      s
  }

  /** `str(n)` */
  function IntToString(n: int): string {
    if n < 0 then "-" + NatToString(-n) else NatToString(n)
  }

  /**
   * The whitespace `int()` skips around the digits of ASCII text: space and \t \n \v \f \r.
   * Unlike `str.strip`, it does not skip the separators 0x1c-0x1f.
   */
  predicate IsIntSpace(c: char) {
    c == ' ' || (9 <= c as int <= 13)
  }

  /** The longest suffix that does not start with `int()` whitespace. */
  function IntLStrip(s: string): (r: string)
    ensures |r| <= |s| && r == s[|s| - |r|..]
    ensures r == [] || !IsIntSpace(r[0])
    ensures forall i :: 0 <= i < |s| - |r| ==> IsIntSpace(s[i])
  {
    if s != [] && IsIntSpace(s[0]) then IntLStrip(s[1..]) else s
  }

  /** The longest prefix that does not end with `int()` whitespace. */
  function IntRStrip(s: string): (r: string)
    ensures |r| <= |s| && r == s[..|r|]
    ensures r == [] || !IsIntSpace(r[|r| - 1])
    ensures forall i :: |r| <= i < |s| ==> IsIntSpace(s[i])
  {
    if s != [] && IsIntSpace(s[|s| - 1]) then IntRStrip(s[..|s| - 1]) else s
  }

  /** What `int()` parses: `s` without its surrounding `int()` whitespace. */
  function IntTrim(s: string): string {
    IntRStrip(IntLStrip(s))
  }

  /** Python's `int(s)` on ASCII text: surrounding whitespace, an optional sign, then decimal digits. */
  function PyInt(s: string): (r: Option<int>)
    ensures r.Some? ==> IntTrim(s) != [] && NoOuterSpace(IntTrim(s))
  {
    var t := IntTrim(s);
    if SignedDecimal(t).Some? then SignedDecimalShape(t); SignedDecimal(t) else None
  }

  /** Text with no whitespace at either end is what `int()` parses. */
  lemma IntTrimIdentity(t: string)
    requires NoOuterSpace(t)
    ensures IntTrim(t) == t
  {
    assert IntLStrip(t) == t;
    assert IntRStrip(t) == t;
  }

  /** A signed decimal neither starts nor ends with whitespace. */
  lemma SignedDecimalShape(t: string)
    requires SignedDecimal(t).Some?
    ensures t != [] && NoOuterSpace(t)
  {
    var body := if t[0] == '-' || t[0] == '+' then t[1..] else t;
    assert IsDigit(body[|body| - 1]) && t[|t| - 1] == body[|body| - 1];
  }

  /**
   * When `int()` accepts `s`, `str.strip` cuts off exactly the characters `int()` skips: the
   * text between is a signed decimal, which no whitespace of either kind starts or ends.
   */
  lemma StripOfIntTrim(s: string)
    ensures IntTrim(s) != [] && NoOuterSpace(IntTrim(s)) ==> Strip(s) == IntTrim(s)
  {
    if IntTrim(s) != [] && NoOuterSpace(IntTrim(s)) {
      var a := IntTrimSlice(s);
      StripOfPadded(s, a, IntTrim(s));
    }
  }

  /** Stripping first does not change what `int()` accepts. */
  lemma PyIntOfStrip(s: string)
    ensures PyInt(s).Some? ==> PyInt(Strip(s)) == PyInt(s)
  {
    if PyInt(s).Some? {
      StripOfIntTrim(s);
      IntTrimIdentity(IntTrim(s));
    }
  }

  /** `IntTrim(s)` is a slice of `s` with only `int()` whitespace around it. */
  lemma IntTrimSlice(s: string) returns (a: nat)
    ensures a + |IntTrim(s)| <= |s| && s[a..a + |IntTrim(s)|] == IntTrim(s)
    ensures forall i :: 0 <= i < a ==> IsIntSpace(s[i])
    ensures forall i :: a + |IntTrim(s)| <= i < |s| ==> IsIntSpace(s[i])
  {
    var l := IntLStrip(s);
    a := |s| - |l|;
    IntSliceAt(s, l, IntRStrip(l));
  }

  lemma IntSliceAt(s: string, l: string, r: string)
    requires |l| <= |s| && l == s[|s| - |l|..]
    requires |r| <= |l| && r == l[..|r|]
    requires forall i :: |r| <= i < |l| ==> IsIntSpace(l[i])
    ensures r == s[|s| - |l|..|s| - |l| + |r|]
    ensures forall i :: |s| - |l| + |r| <= i < |s| ==> IsIntSpace(s[i])
  {
    var a := |s| - |l|;
    forall i | a + |r| <= i < |s|
      ensures IsIntSpace(s[i])
    {
      assert s[i] == l[i - a];
    }
  }

  /**
   * `Strip(s)` is the one slice of `s` that has no outer whitespace and only whitespace around
   * it.
   */
  lemma StripOfPadded(s: string, a: nat, r: string)
    requires a + |r| <= |s| && s[a..a + |r|] == r && r != [] && NoOuterSpace(r)
    requires forall i :: 0 <= i < a ==> IsSpace(s[i])
    requires forall i :: a + |r| <= i < |s| ==> IsSpace(s[i])
    ensures Strip(s) == r
  {
    var t, o := Strip(s), StripOffset(s);
    StripIsSlice(s);
    assert s[a] == r[0] && s[a + |r| - 1] == r[|r| - 1];
    assert s[o] == t[0] && s[o + |t| - 1] == t[|t| - 1];
    assert o == a;
    assert o + |t| == a + |r|;
  }

  /** A separator 0x1c-0x1f in front of a number: `str.strip` removes it. */
  lemma StripDropsSeparator(c: char, d: string)
    requires 28 <= c as int <= 31 && d != [] && AllDigits(d)
    ensures Strip([c] + d) == d
  {
    var s := [c] + d;
    assert s[1..1 + |d|] == d;
    DigitsNoOuterSpace(d);
    StripOfPadded(s, 1, d);
  }

  /** A separator 0x1c-0x1f in front of a number: `int()` rejects the text. */
  lemma PyIntRejectsSeparator(c: char, d: string)
    requires 28 <= c as int <= 31 && d != [] && AllDigits(d)
    ensures PyInt([c] + d).None?
  {
    var s := [c] + d;
    assert IntLStrip(s) == s;
    assert IntRStrip(s) == s by {
      assert s[|s| - 1] == d[|d| - 1];
    }
    SignedDecimalNeedsDigitOrSign(s);
  }

  /** Text whose first character is neither a digit nor a sign is no integer. */
  lemma SignedDecimalNeedsDigitOrSign(t: string)
    requires t != [] && !IsDigit(t[0]) && t[0] != '-' && t[0] != '+'
    ensures SignedDecimal(t).None?
  {
    assert !AllDigits(t) by {
      assert !IsDigit(t[0]);
    }
  }

  /** `int()` reads a plain digit string as its value. */
  lemma PyIntOfDigits(d: string)
    requires d != [] && AllDigits(d)
    ensures PyInt(d) == Some(DigitsValue(d))
  {
    DigitsNoOuterSpace(d);
    IntTrimIdentity(d);
    assert d[0] != '-' && d[0] != '+';
  }

  lemma DigitsNoOuterSpace(d: string)
    requires d != [] && AllDigits(d)
    ensures NoOuterSpace(d)
  {
    assert IsDigit(d[0]) && IsDigit(d[|d| - 1]);
  }

  /** An optional sign followed by one or more decimal digits, and nothing else. */
  function SignedDecimal(t: string): Option<int> {
    if t == [] then None
    else
      var neg := t[0] == '-';
      var body := if t[0] == '-' || t[0] == '+' then t[1..] else t;
      if body != [] && AllDigits(body) then
        var v: int := DigitsValue(body);
        Some(if neg then -v else v)
      else None
  }

  lemma IntToStringShape(n: int)
    ensures var s := IntToString(n);
            s != [] && NoOuterSpace(s) && (s[0] == '-' <==> n < 0) && (n >= 0 ==> s[0] != '+')
  {
    var d := NatToString(if n < 0 then -n else n);
    assert IsDigit(d[0]) && IsDigit(d[|d| - 1]);
  }

  /** `int(str(n)) == n` */
  lemma PyIntOfIntToString(n: int)
    ensures PyInt(IntToString(n)) == Some(n)
  {
    var s := IntToString(n);
    IntToStringShape(n);
    StripIdentity(s);
    if n < 0 {
      assert s[1..] == NatToString(-n);
    }
  }

  /** The first index holding a decimal digit. */
  function FirstDigitIndex(s: string): (r: Option<nat>)
    ensures r.None? <==> forall i :: 0 <= i < |s| ==> !IsDigit(s[i])
    ensures r.Some? ==> r.value < |s| && IsDigit(s[r.value]) && forall i :: 0 <= i < r.value ==> !IsDigit(s[i])
  {
    if s == [] then None
    else if IsDigit(s[0]) then Some(0)
    else
      match FirstDigitIndex(s[1..])
      case None => None
      case Some(i) => Some(i + 1)
  }

  /** The longest prefix of digits, or of digits and commas when `commas` is set. */
  function DigitRun(s: string, commas: bool): (r: string)
    ensures |r| <= |s| && r == s[..|r|]
    ensures forall i :: 0 <= i < |r| ==> IsDigit(r[i]) || (commas && r[i] == ',')
    ensures |r| < |s| ==> !(IsDigit(s[|r|]) || (commas && s[|r|] == ','))
  {
    if s != [] && (IsDigit(s[0]) || (commas && s[0] == ',')) then [s[0]] + DigitRun(s[1..], commas) else []
  }

  /** A run is the whole of a matching prefix that the next character ends. */
  lemma {:induction false} DigitRunOf(p: string, rest: string, commas: bool)
    requires forall i :: 0 <= i < |p| ==> IsDigit(p[i]) || (commas && p[i] == ',')
    requires rest == [] || !(IsDigit(rest[0]) || (commas && rest[0] == ','))
    ensures DigitRun(p + rest, commas) == p
    decreases |p|
  {
    if p == [] {
      assert p + rest == rest;
    } else {
      assert (p + rest)[0] == p[0] && (p + rest)[1..] == p[1..] + rest;
      DigitRunOf(p[1..], rest, commas);
    }
  }
}
