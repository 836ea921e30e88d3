/** The string operations the loader and the edit menu rely on: Python's
    `str.strip()`, `str.split(",")`, `", ".join(...)`, `int(...)`,
    `str(int)` and `str.lower()` restricted to what the catalogue needs. */
module Text {
  import opened Wrappers

  /** The characters Python's `str.isspace()` accepts, which `str.strip()`
      with no argument removes from both ends. */
  predicate IsSpace(c: char) {
    || c == ' '
    || ('\t' <= c <= '\r')
    || ('\U{1C}' <= c <= '\U{1F}')
    || c == '\U{85}' || c == '\U{A0}' || c == '\U{1680}'
    || ('\U{2000}' <= c <= '\U{200A}')
    || c == '\U{2028}' || c == '\U{2029}' || c == '\U{202F}'
    || c == '\U{205F}' || c == '\U{3000}'
  }

  /** The six characters C's `isspace` accepts: space and `\t` to `\r`. */
  predicate IsCSpace(c: char) {
    c == ' ' || ('\t' <= c <= '\r')
  }

  /** The whitespace `int()` skips around a literal. CPython first maps
      every non-ASCII `str.isspace()` character to a space and copies every
      ASCII character as it is, then skips C's whitespace: so the ASCII
      information separators U+001C to U+001F, which `str.isspace()`
      accepts, are not skipped. */
  predicate IsIntSpace(c: char) {
    IsCSpace(c) || (c >= '\U{80}' && IsSpace(c))
  }

  /** `int()` skips exactly the `str.isspace()` characters other than the
      four ASCII information separators. */
  lemma {:induction false} IntSpaceIsSpaceButSeparators(c: char)
    ensures IsIntSpace(c) <==> IsSpace(c) && !('\U{1C}' <= c <= '\U{1F}')
  {
  }

  /** Which whitespace a strip removes: that of `str.isspace()`, or that
      of `int()`. */
  datatype Spaces = PythonSpaces | IntSpaces

  predicate IsSpaceIn(sp: Spaces, c: char) {
    match sp
    case PythonSpaces => IsSpace(c)
    case IntSpaces => IsIntSpace(c)
  }

  /** Index of the first non-space character of `s` at or after `i`, or
      `|s|` when there is none. */
  function SkipLeading(sp: Spaces, s: string, i: nat): (a: nat)
    requires i <= |s|
    ensures i <= a <= |s|
    ensures forall k :: i <= k < a ==> IsSpaceIn(sp, s[k])
    ensures a == |s| || !IsSpaceIn(sp, s[a])
    decreases |s| - i
  {
    if i < |s| && IsSpaceIn(sp, s[i]) then SkipLeading(sp, s, i + 1) else i
  }

  /** Index just past the last non-space character of `s[a..j]`, or `a`
      when there is none. */
  function SkipTrailing(sp: Spaces, s: string, a: nat, j: nat): (b: nat)
    requires a <= j <= |s|
    ensures a <= b <= j
    ensures forall k :: b <= k < j ==> IsSpaceIn(sp, s[k])
    ensures b == a || !IsSpaceIn(sp, s[b - 1])
    decreases j
  {
    if j > a && IsSpaceIn(sp, s[j - 1]) then SkipTrailing(sp, s, a, j - 1) else j
  }

  /** Where the stripped text starts in `s`. */
  function StripStart(sp: Spaces, s: string): nat
    ensures StripStart(sp, s) <= |s|
  {
    SkipLeading(sp, s, 0)
  }

  /** `s` with the whitespace of `sp` cut from both ends: the infix of `s`
      that neither starts nor ends with such whitespace, everything cut off
      on either side being whitespace. */
  function StripIn(sp: Spaces, s: string): (r: string)
    ensures r == [] || (!IsSpaceIn(sp, r[0]) && !IsSpaceIn(sp, r[|r| - 1]))
    ensures StripStart(sp, s) + |r| <= |s|
    ensures r == s[StripStart(sp, s)..StripStart(sp, s) + |r|]
    ensures forall k :: 0 <= k < StripStart(sp, s) ==> IsSpaceIn(sp, s[k])
    ensures forall k :: StripStart(sp, s) + |r| <= k < |s| ==> IsSpaceIn(sp, s[k])
  {
    var a := SkipLeading(sp, s, 0);
    var b := SkipTrailing(sp, s, a, |s|);
    s[a..b]
  }

  /** Python's `s.strip()`. */
  function Strip(s: string): string {
    StripIn(PythonSpaces, s)
  }

  /** A string that starts and ends with a non-space character, followed by
      any run of whitespace, strips back to itself. */
  lemma {:induction false} StripTrailingSpace(sp: Spaces, s: string, tail: string)
    requires |s| > 0 && !IsSpaceIn(sp, s[0]) && !IsSpaceIn(sp, s[|s| - 1])
    requires forall k :: 0 <= k < |tail| ==> IsSpaceIn(sp, tail[k])
    ensures StripIn(sp, s + tail) == s
  {
    var t := s + tail;
    var a := SkipLeading(sp, t, 0);
    assert a == 0 by { assert t[0] == s[0]; }
    assert t[0..|s|] == s;
  }

  /** Python's `sep.join(xs)`. */
  function Join(xs: seq<string>, sep: string): string
  {
    if |xs| == 0 then ""
    else if |xs| == 1 then xs[0]
    else xs[0] + sep + Join(xs[1..], sep)
  }

  /** Joining one more element appends the separator and that element. */
  lemma {:induction false} JoinSnoc(xs: seq<string>, y: string, sep: string)
    requires |xs| > 0
    ensures Join(xs + [y], sep) == Join(xs, sep) + sep + y
    decreases |xs|
  {
    if |xs| == 1 {
      assert (xs + [y])[1..] == [y];
    } else {
      assert (xs + [y])[1..] == xs[1..] + [y];
      JoinSnoc(xs[1..], y, sep);
    }
  }

  /** A join ends with the last piece. */
  lemma {:induction false} JoinEndsWithLast(xs: seq<string>, sep: string)
    requires |xs| > 0 && |xs[|xs| - 1]| > 0
    ensures |Join(xs, sep)| >= |xs[|xs| - 1]|
    ensures Join(xs, sep)[|Join(xs, sep)| - 1] == xs[|xs| - 1][|xs[|xs| - 1]| - 1]
    decreases |xs|
  {
    if |xs| > 1 {
      assert xs[1..][|xs| - 2] == xs[|xs| - 1];
      JoinEndsWithLast(xs[1..], sep);
    }
  }

  /** Python's `s.split(sep)` for a one-character separator: every occurrence
      of `sep` cuts, empty pieces are kept, and `""` splits into `[""]`. */
  function Split(s: string, sep: char): (r: seq<string>)
    ensures |r| >= 1
    ensures forall i :: 0 <= i < |r| ==> sep !in r[i]
    ensures Join(r, [sep]) == s
  {
    if |s| == 0 then [""]
    else
      var rest := Split(s[1..], sep);
      if s[0] == sep then
        assert [sep] + s[1..] == s;
        [""] + rest
      else
        var r := [[s[0]] + rest[0]] + rest[1..];
        assert Join(r, [sep]) == [s[0]] + Join(rest, [sep]);
        assert [s[0]] + s[1..] == s;
        r
  }

  /** A piece free of the separator, followed by the separator, splits off as
      the first field. */
  lemma {:induction false} SplitCons(x: string, sep: char, rest: string)
    requires sep !in x
    ensures Split(x + [sep] + rest, sep) == [x] + Split(rest, sep)
    decreases |x|
  {
    var s := x + [sep] + rest;
    if |x| == 0 {
      assert s[1..] == rest;
    } else {
      assert s[1..] == x[1..] + [sep] + rest;
      SplitCons(x[1..], sep, rest);
      assert [x[0]] + x[1..] == x;
    }
  }

  /** A string free of the separator splits into itself alone. */
  lemma {:induction false} SplitNone(x: string, sep: char)
    requires sep !in x
    ensures Split(x, sep) == [x]
    decreases |x|
  {
    if |x| > 0 {
      SplitNone(x[1..], sep);
      assert [x[0]] + x[1..] == x;
    }
  }

  /** Splitting undoes joining when no piece contains the separator. */
  lemma {:induction false} SplitJoin(xs: seq<string>, sep: char)
    requires |xs| >= 1
    requires forall i :: 0 <= i < |xs| ==> sep !in xs[i]
    ensures Split(Join(xs, [sep]), sep) == xs
    decreases |xs|
  {
    if |xs| == 1 {
      SplitNone(xs[0], sep);
    } else {
      SplitJoin(xs[1..], sep);
      SplitCons(xs[0], sep, Join(xs[1..], [sep]));
      assert [xs[0]] + xs[1..] == xs;
    }
  }

  predicate IsDigit(c: char) {
    '0' <= c <= '9'
  }

  /** A non-empty run of ASCII decimal digits. */
  predicate IsDigits(t: string) {
    |t| > 0 && forall i :: 0 <= i < |t| ==> IsDigit(t[i])
  }

  /** The grammar `int()` accepts once surrounding whitespace is removed:
      an optional sign and then decimal digits. */
  predicate IsIntLiteral(t: string) {
    if |t| > 0 && (t[0] == '+' || t[0] == '-') then IsDigits(t[1..]) else IsDigits(t)
  }

  function DigitValue(c: char): nat
    requires IsDigit(c)
  {
    c as int - '0' as int
  }

  function DigitChar(d: nat): (c: char)
    requires d < 10
    ensures IsDigit(c) && DigitValue(c) == d
  {
    ('0' as int + d) as char
  }

  /** The number a run of decimal digits denotes, most significant first. */
  function DigitsValue(t: string): nat
    requires forall i :: 0 <= i < |t| ==> IsDigit(t[i])
  {
    if |t| == 0 then 0 else DigitsValue(t[..|t| - 1]) * 10 + DigitValue(t[|t| - 1])
  }

  /** The text `int(s)` reads a literal from: `s` without the whitespace
      `int()` skips at either end. */
  function IntText(s: string): string {
    StripIn(IntSpaces, s)
  }

  /** The number an integer literal denotes. */
  function LiteralValue(t: string): int
    requires IsIntLiteral(t)
  {
    var m: int := if t[0] == '+' || t[0] == '-' then DigitsValue(t[1..]) else DigitsValue(t);
    if t[0] == '-' then -m else m
  }

  /** Python's `int(s)` on base-10 text: `None` where Python raises
      `ValueError`. */
  function ParseInt(s: string): (r: Option<int>)
    ensures r.Some? <==> IsIntLiteral(IntText(s))
  {
    var t := IntText(s);
    if IsIntLiteral(t) then Some(LiteralValue(t)) else None
  }

  /** A run of `z` zeros. */
  function Zeros(z: nat): (r: string)
    ensures |r| == z && forall i :: 0 <= i < z ==> r[i] == '0'
  {
    seq(z, i => '0')
  }

  /** The magnitude of `n`. */
  function Abs(n: int): nat {
    if n < 0 then -n else n
  }

  /** A digit's character is the digit. */
  lemma {:induction false} DigitCharValue(c: char)
    requires IsDigit(c)
    ensures DigitChar(DigitValue(c)) == c
  {
  }

  /** A run of digits is the `str()` of its value with zeros in front. */
  lemma {:induction false} DigitsCanonical(t: string) returns (z: nat)
    requires IsDigits(t)
    ensures t == Zeros(z) + NatToString(DigitsValue(t))
    decreases |t|
  {
    var f := t[..|t| - 1];
    var d := t[|t| - 1];
    assert t == f + [d];
    DigitCharValue(d);
    var v := DigitsValue(t);
    if |f| == 0 {
      z := 0;
      assert NatToString(v) == [d];
    } else {
      assert IsDigits(f);
      var zf := DigitsCanonical(f);
      var vf := DigitsValue(f);
      assert v == vf * 10 + DigitValue(d);
      if vf == 0 {
        z := zf + 1;
        assert f == Zeros(zf) + "0";
        assert f == Zeros(z);
        assert NatToString(v) == [d];
      } else {
        z := zf;
        assert v / 10 == vf && v % 10 == DigitValue(d);
        assert NatToString(v) == NatToString(vf) + [d];
      }
    }
  }

  /** The number `int(s)` returns: the text it reads is an optional sign,
      some zeros, then `str()` of the number's magnitude; a negative number
      was written with `-`, and `-` never gives a positive number. */
  lemma {:induction false} ParseIntValue(s: string) returns (sign: string, z: nat)
    requires ParseInt(s).Some?
    ensures sign == "" || sign == "+" || sign == "-"
    ensures ParseInt(s).value < 0 ==> sign == "-"
    ensures sign == "-" ==> ParseInt(s).value <= 0
    ensures IntText(s) == sign + Zeros(z) + NatToString(Abs(ParseInt(s).value))
  {
    sign, z := LiteralCanonical(IntText(s));
  }

  /** An integer literal is an optional sign, some zeros, and `str()` of
      the magnitude of the number it denotes. */
  lemma {:induction false} LiteralCanonical(t: string) returns (sign: string, z: nat)
    requires IsIntLiteral(t)
    ensures sign == "" || sign == "+" || sign == "-"
    ensures LiteralValue(t) < 0 ==> sign == "-"
    ensures sign == "-" ==> LiteralValue(t) <= 0
    ensures t == sign + Zeros(z) + NatToString(Abs(LiteralValue(t)))
  {
    if t[0] == '+' || t[0] == '-' {
      var body := t[1..];
      assert Abs(LiteralValue(t)) == DigitsValue(body);
      sign := [t[0]];
      z := DigitsCanonical(body);
      assert t == sign + body;
    } else {
      assert Abs(LiteralValue(t)) == DigitsValue(t);
      sign := "";
      z := DigitsCanonical(t);
    }
  }

  /** Python's `str(n)` for a natural number: no leading zeros. */
  function NatToString(n: nat): (r: string)
    ensures IsDigits(r) && DigitsValue(r) == n
    ensures r[0] == '0' ==> n == 0
  {
    var last := [DigitChar(n % 10)];
    if n < 10 then last
    else
      var r := NatToString(n / 10) + last;
      assert r[..|r| - 1] == NatToString(n / 10);
      r
  }

  /** Python's `str(n)`. */
  function IntToString(n: int): string
  {
    if n < 0 then "-" + NatToString(-n) else NatToString(n)
  }

  /** `int()` skips only C's whitespace in ASCII text: an information
      separator stays, so "\x1c5" is refused although `str.strip()` would
      remove the separator. */
  lemma {:induction false} IntKeepsAsciiSeparator()
    ensures ParseInt("\U{1C}5") == None
  {
    var s := "\U{1C}5";
    assert !IsIntSpace(s[0]) && !IsIntSpace(s[1]);
    assert SkipLeading(IntSpaces, s, 0) == 0;
    assert SkipTrailing(IntSpaces, s, 0, 2) == 2;
    assert IntText(s) == s;
    assert !IsDigit(s[0]);
  }

  /** A non-ASCII character elsewhere in the text does not change that:
      "\x1c5\xa0" loses the no-break space but keeps the separator. */
  lemma {:induction false} IntKeepsSeparatorBesideUnicode()
    ensures ParseInt("\U{1C}5\U{A0}") == None
  {
    var s := "\U{1C}5\U{A0}";
    assert !IsIntSpace(s[0]) && !IsIntSpace(s[1]) && IsIntSpace(s[2]);
    assert SkipLeading(IntSpaces, s, 0) == 0;
    assert SkipTrailing(IntSpaces, s, 0, 2) == 2;
    assert SkipTrailing(IntSpaces, s, 0, 3) == 2;
    assert IntText(s) == "\U{1C}5";
    assert !IsDigit(s[0]);
  }

  /** Nor does a non-ASCII space before it: "\xa0\x1c5" loses the no-break
      space and is left starting with the separator. */
  lemma {:induction false} IntKeepsSeparatorAfterUnicode()
    ensures ParseInt("\U{A0}\U{1C}5") == None
  {
    var s := "\U{A0}\U{1C}5";
    assert IsIntSpace(s[0]) && !IsIntSpace(s[1]) && !IsIntSpace(s[2]);
    assert SkipLeading(IntSpaces, s, 1) == 1;
    assert SkipLeading(IntSpaces, s, 0) == 1;
    assert SkipTrailing(IntSpaces, s, 1, 3) == 3;
    assert IntText(s) == "\U{1C}5";
    assert !IsDigit(IntText(s)[0]);
  }

  /** Non-ASCII whitespace is skipped: `int("\xa05") == 5`. */
  lemma {:induction false} IntSkipsUnicodeSpace()
    ensures ParseInt("\U{A0}5") == Some(5)
  {
    var s := "\U{A0}5";
    assert IsIntSpace(s[0]) && !IsIntSpace(s[1]);
    assert SkipLeading(IntSpaces, s, 1) == 1;
    assert SkipLeading(IntSpaces, s, 0) == 1;
    assert SkipTrailing(IntSpaces, s, 1, 2) == 2;
    assert IntText(s) == "5";
    assert DigitsValue("5") == DigitsValue("") * 10 + 5;
  }

  /** `int(str(n)) == n`. */
  lemma {:induction false} ParseIntToString(n: int)
    ensures ParseInt(IntToString(n)) == Some(n)
  {
    var t := IntToString(n);
    var d := NatToString(Abs(n));
    assert IsDigit(t[|t| - 1]) by { assert t[|t| - 1] == d[|d| - 1]; }
    assert t[0] == '-' || IsDigit(t[0]);
    DigitIsNotSpace(t[0]);
    DigitIsNotSpace(t[|t| - 1]);
    StripTrailingSpace(IntSpaces, t, "");
    assert t + "" == t;
    assert IntText(t) == t;
    if n < 0 {
      assert t[1..] == d;
    } else {
      assert t == d;
    }
  }

  /** Signs and digits are whitespace neither to `str.strip()` nor to `int()`. */
  lemma {:induction false} DigitIsNotSpace(c: char)
    requires c == '-' || IsDigit(c)
    ensures !IsSpace(c) && !IsIntSpace(c)
  {
  }

  /** The last character of `str(n)` is a digit (the text never ends in
      whitespace or a sign). */
  lemma {:induction false} IntToStringEndsInDigit(n: int)
    ensures |IntToString(n)| > 0 && IsDigit(IntToString(n)[|IntToString(n)| - 1])
  {
    var d := NatToString(if n < 0 then -n else n);
    assert IsDigit(d[|d| - 1]);
  }

  /** ASCII lower-casing of one character; every other character is kept. */
  function LowerChar(c: char): char {
    if 'A' <= c <= 'Z' then (c as int + 32) as char else c
  }

  /** `str.lower()` on the characters that can spell a menu field name:
      no capital letter is left, each becomes its small letter, and every
      other character is kept. */
  function AsciiLower(s: string): (r: string)
    ensures |r| == |s|
    ensures forall i :: 0 <= i < |r| ==> !('A' <= r[i] <= 'Z')
    ensures forall i :: 0 <= i < |s| && 'A' <= s[i] <= 'Z' ==> r[i] as int == s[i] as int + 32
    ensures forall i :: 0 <= i < |s| && !('A' <= s[i] <= 'Z') ==> r[i] == s[i]
  {
    seq(|s|, i requires 0 <= i < |s| => LowerChar(s[i]))
  }

  /** Lower-casing is idempotent. */
  lemma {:induction false} AsciiLowerIdempotent(s: string)
    ensures AsciiLower(AsciiLower(s)) == AsciiLower(s)
  {
  }
}
