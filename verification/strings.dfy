/** Text operations the middleware and the probe test rely on: Python's
    `lstrip`, `endswith`, ASCII `lower`, `"%d" % n` and Python 2's
    `int(unicode)`, written out over `seq<char>`. */
module Strings {
  import opened Results

  /** Python's `s.lstrip(c)` for a single character `c`. */
  function LStrip(s: string, c: char): string {
    if |s| > 0 && s[0] == c then LStrip(s[1..], c) else s
  }

  /** `lstrip` drops every leading `c` and nothing else: the result is a
      suffix of `s`, what was dropped is all `c`, and the result does not
      start with `c`. */
  lemma {:induction false} LStripSpec(s: string, c: char)
    ensures var r := LStrip(s, c);
      && |r| <= |s|
      && r == s[|s| - |r|..]
      && (forall i :: 0 <= i < |s| - |r| ==> s[i] == c)
      && (r == [] || r[0] != c)
  {
    if |s| > 0 && s[0] == c {
      LStripSpec(s[1..], c);
    }
  }

  /** Stripping twice strips nothing more. */
  lemma LStripIdempotent(s: string, c: char)
    ensures LStrip(LStrip(s, c), c) == LStrip(s, c)
  {
    LStripSpec(s, c);
  }

  predicate StartsWith(s: string, prefix: string) {
    |prefix| <= |s| && s[..|prefix|] == prefix
  }

  /** Python's `s.endswith(suffix)`. */
  predicate EndsWith(s: string, suffix: string) {
    |suffix| <= |s| && s[|s| - |suffix|..] == suffix
  }

  predicate IsUpper(c: char) {
    'A' <= c <= 'Z'
  }

  /** Byte-string `lower()` of Python 2: only ASCII capitals change. */
  function LowerChar(c: char): char {
    if IsUpper(c) then (c as int + 32) as char else c
  }

  /** `s.lower()`: the same length, every ASCII capital replaced by its
      small letter, and every other character kept as it was. */
  function Lower(s: string): (r: string)
    ensures |r| == |s|
    ensures forall i :: 0 <= i < |r| ==> !IsUpper(r[i])
    ensures forall i :: 0 <= i < |s| && IsUpper(s[i]) ==> r[i] == (s[i] as int + 32) as char
    ensures forall i :: 0 <= i < |s| && !IsUpper(s[i]) ==> r[i] == s[i]
  {
    seq(|s|, i requires 0 <= i < |s| => LowerChar(s[i]))
  }

  /** `small` is a word of small letters and `capital` the same word in
      capitals. */
  predicate CaseForms(small: string, capital: string) {
    && |small| == |capital|
    && forall i :: 0 <= i < |small| ==> IsUpper(capital[i]) && small[i] as int == capital[i] as int + 32
  }

  /** `s.lower() == small` holds exactly when `s` spells the word in any
      mixture of cases. */
  lemma LowerSpells(s: string, small: string, capital: string)
    requires CaseForms(small, capital)
    ensures Lower(s) == small <==>
      |s| == |small| && forall i :: 0 <= i < |s| ==> s[i] == small[i] || s[i] == capital[i]
  {
    if |s| == |small| && forall i :: 0 <= i < |s| ==> s[i] == small[i] || s[i] == capital[i] {
      forall i | 0 <= i < |s|
        ensures Lower(s)[i] == small[i]
      {
        assert !IsUpper(small[i]);
      }
    }
    if Lower(s) == small {
      forall i | 0 <= i < |s|
        ensures s[i] == small[i] || s[i] == capital[i]
      {
        if IsUpper(s[i]) {
          assert s[i] as int == capital[i] as int;
        }
      }
    }
  }

  /** A header value compares equal to `chunked` after `lower()` exactly
      when it spells `chunked` in any mixture of cases. */
  lemma LowerIsChunked(s: string)
    ensures Lower(s) == "chunked" <==>
      |s| == 7 && forall i :: 0 <= i < 7 ==> s[i] == "chunked"[i] || s[i] == "CHUNKED"[i]
  {
    LowerSpells(s, "chunked", "CHUNKED");
  }

  predicate IsDigit(c: char) {
    '0' <= c <= '9'
  }

  predicate AllDigits(s: string) {
    forall i :: 0 <= i < |s| ==> IsDigit(s[i])
  }

  function DigitChar(d: nat): char
    requires d < 10
  {
    ('0' as int + d) as char
  }

  /** Value of a run of decimal digits, most significant first. */
  function DigitsValue(s: string): nat
    requires AllDigits(s)
  {
    if |s| == 0 then 0
    else DigitsValue(s[..|s| - 1]) * 10 + (s[|s| - 1] as int - '0' as int)
  }

  /** Decimal rendering of a natural number, as `"%d"` produces it. */
  function ShowNat(n: nat): (r: string)
    ensures |r| > 0 && AllDigits(r)
    ensures r[0] != '0' || n == 0
  {
    if n < 10 then [DigitChar(n)] else ShowNat(n / 10) + [DigitChar(n % 10)]
  }

  /** Python's `"%d" % n`: a minus sign, then the digits of `|n|`. */
  function ShowInt(n: int): (r: string)
    ensures |r| > 0
    ensures n < 0 <==> r[0] == '-'
  {
    if n < 0 then "-" + ShowNat(-n) else ShowNat(n)
  }

  /** The bytes C's `isspace` accepts. */
  predicate IsSpace(c: char) {
    c == ' ' || c == '\t' || c == '\n' || c == '\r' || c == '\U{000B}' || c == '\U{000C}'
  }

  /** Leading blanks removed. */
  function StripLeft(s: string): string {
    if |s| > 0 && IsSpace(s[0]) then StripLeft(s[1..]) else s
  }

  /** Trailing blanks removed. */
  function StripRight(s: string): string {
    if |s| > 0 && IsSpace(s[|s| - 1]) then StripRight(s[..|s| - 1]) else s
  }

  /** `StripLeft` drops the leading blanks and nothing else. */
  lemma {:induction false} StripLeftSpec(s: string)
    ensures var r := StripLeft(s);
      && |r| <= |s| && r == s[|s| - |r|..]
      && (forall i :: 0 <= i < |s| - |r| ==> IsSpace(s[i]))
      && (r == [] || !IsSpace(r[0]))
  {
    if |s| > 0 && IsSpace(s[0]) {
      StripLeftSpec(s[1..]);
    }
  }

  /** `StripRight` drops the trailing blanks and nothing else. */
  lemma {:induction false} StripRightSpec(s: string)
    ensures var r := StripRight(s);
      && |r| <= |s| && r == s[..|r|]
      && (forall i :: |r| <= i < |s| ==> IsSpace(s[i]))
      && (r == [] || !IsSpace(r[|r| - 1]))
  {
    if |s| > 0 && IsSpace(s[|s| - 1]) {
      StripRightSpec(s[..|s| - 1]);
    }
  }

  /** The characters Python 2.7's `unicode.isspace()` accepts (its Unicode
      5.2 database). */
  predicate IsUnicodeSpace(c: char) {
    || '\t' <= c <= '\r'
    || '\U{001C}' <= c <= ' '
    || c == '\U{0085}' || c == '\U{00A0}' || c == '\U{1680}' || c == '\U{180E}'
    || '\U{2000}' <= c <= '\U{200A}'
    || c == '\U{2028}' || c == '\U{2029}' || c == '\U{202F}' || c == '\U{205F}'
    || c == '\U{3000}'
  }

  /** The code points of the digit zero of every block of ten decimal
      digits (general category Nd) beyond ASCII in Unicode 5.2. */
  const DecimalZeros: seq<int> := [
    0x0660, 0x06F0, 0x07C0, 0x0966, 0x09E6, 0x0A66, 0x0AE6, 0x0B66, 0x0BE6,
    0x0C66, 0x0CE6, 0x0D66, 0x0E50, 0x0ED0, 0x0F20, 0x1040, 0x1090, 0x17E0,
    0x1810, 0x1946, 0x19D0, 0x1A80, 0x1A90, 0x1B50, 0x1BB0, 0x1C40, 0x1C50,
    0xA620, 0xA8D0, 0xA900, 0xA9D0, 0xAA50, 0xABF0, 0xFF10, 0x104A0,
    0x1D7CE, 0x1D7D8, 0x1D7E2, 0x1D7EC, 0x1D7F6]

  /** The digit a code point stands for, if its block of ten starts at one
      of `zeros[i..]`. */
  function DecimalIn(zeros: seq<int>, i: nat, c: int): (d: Option<nat>)
    requires i <= |zeros|
    ensures d.Some? ==> d.value < 10
    decreases |zeros| - i
  {
    if i == |zeros| then None
    else if zeros[i] <= c < zeros[i] + 10 then Some(c - zeros[i])
    else DecimalIn(zeros, i + 1, c)
  }

  /** `Py_UNICODE_TODECIMAL`: the value of a Unicode decimal digit. */
  function DecimalValue(c: char): (d: Option<nat>)
    ensures d.Some? ==> d.value < 10
    ensures IsDigit(c) ==> d == Some(c as int - '0' as int)
  {
    if c as int < 0x0660 then
      (if IsDigit(c) then Some(c as int - '0' as int) else None)
    else DecimalIn(DecimalZeros, 0, c as int)
  }

  /** What `PyUnicode_EncodeDecimal` writes for one character: a blank for
      whitespace, the ASCII digit for a decimal digit, any other Latin-1
      character except NUL as itself; None (UnicodeEncodeError, a
      ValueError) for the rest. */
  function EncodeDecimalChar(c: char): Option<char> {
    if IsUnicodeSpace(c) then Some(' ')
    else match DecimalValue(c)
      case Some(d) => Some(DigitChar(d))
      case None => if 0 < c as int < 256 then Some(c) else None
  }

  function EncodeDecimal(s: string): (r: Option<string>)
    ensures r.Some? ==> |r.value| == |s|
  {
    if forall i :: 0 <= i < |s| ==> EncodeDecimalChar(s[i]).Some? then
      Some(seq(|s|, i requires 0 <= i < |s| => EncodeDecimalChar(s[i]).value))
    else None
  }

  /** The encoding is character by character. */
  lemma EncodeDecimalEach(s: string, t: string)
    requires |s| == |t|
    requires forall i :: 0 <= i < |s| ==> EncodeDecimalChar(s[i]) == Some(t[i])
    ensures EncodeDecimal(s) == Some(t)
  {
    assert EncodeDecimal(s).value == t;
  }

  /** `PyInt_FromString(t, NULL, 10)` on the encoded bytes: blanks, an
      optional sign, blanks again, at least one ASCII digit, then nothing
      but blanks; None where it raises ValueError. */
  function ParseDecimal(t: string): Option<int> {
    var u := StripRight(StripLeft(t));
    var signed := |u| > 0 && (u[0] == '-' || u[0] == '+');
    var digits := if signed then StripLeft(u[1..]) else u;
    if |digits| == 0 || !AllDigits(digits) then None
    else
      var v: int := DigitsValue(digits);
      Some(if signed && u[0] == '-' then -v else v)
  }

  /** Python 2's `int(s)` on a unicode string, base 10. */
  function IntFromString(s: string): Option<int> {
    match EncodeDecimal(s)
    case None => None
    case Some(t) => ParseDecimal(t)
  }

  /** Stripping blanks never removes a character that is not a blank. */
  lemma StripLeftKeeps(s: string, c: char)
    requires c in s && !IsSpace(c)
    ensures c in StripLeft(s)
  {
    StripLeftSpec(s);
    var r := StripLeft(s);
    var i :| 0 <= i < |s| && s[i] == c;
    assert r[i - (|s| - |r|)] == c;
  }

  lemma StripRightKeeps(s: string, c: char)
    requires c in s && !IsSpace(c)
    ensures c in StripRight(s)
  {
    StripRightSpec(s);
    var r := StripRight(s);
    var i :| 0 <= i < |s| && s[i] == c;
    assert r[i] == c;
  }

  /** `int()` refuses a string whose encoded form holds a character other
      than a blank, a sign or a digit anywhere, such as `12a`, `1.5` or
      `0x10`: it raises ValueError. */
  lemma IntRefusesStray(s: string, t: string, i: int)
    requires EncodeDecimal(s) == Some(t) && 0 <= i < |t|
    requires !IsSpace(t[i]) && t[i] != '+' && t[i] != '-' && !IsDigit(t[i])
    ensures IntFromString(s) == None
  {
    var c := t[i];
    StripLeftKeeps(t, c);
    StripRightKeeps(StripLeft(t), c);
    var u := StripRight(StripLeft(t));
    var signed := |u| > 0 && (u[0] == '-' || u[0] == '+');
    if signed {
      var j :| 0 <= j < |u| && u[j] == c;
      assert u[1..][j - 1] == c;
      StripLeftKeeps(u[1..], c);
    }
    var digits := if signed then StripLeft(u[1..]) else u;
    var k :| 0 <= k < |digits| && digits[k] == c;
    assert !AllDigits(digits);
  }

  lemma {:induction false} DigitsValueOfShowNat(n: nat)
    ensures DigitsValue(ShowNat(n)) == n
  {
    if n >= 10 {
      var p := ShowNat(n / 10);
      var s := p + [DigitChar(n % 10)];
      assert s[..|s| - 1] == p;
      DigitsValueOfShowNat(n / 10);
    }
  }

  /** A string that neither starts nor ends with a blank is left alone by
      both strips. */
  lemma NoStrip(s: string)
    requires |s| > 0 && !IsSpace(s[0]) && !IsSpace(s[|s| - 1])
    ensures StripLeft(s) == s && StripRight(s) == s
  {
  }

  /** ASCII digits and the minus sign pass the decimal encoding unchanged. */
  lemma EncodeShowInt(n: int)
    ensures EncodeDecimal(ShowInt(n)) == Some(ShowInt(n))
  {
    var s := ShowInt(n);
    var m: nat := if n < 0 then -n else n;
    var d := ShowNat(m);
    assert s == if n < 0 then "-" + d else d;
    forall i | 0 <= i < |s|
      ensures EncodeDecimalChar(s[i]) == Some(s[i])
    {
      if n < 0 && i == 0 {
        assert s[i] == '-';
      } else {
        assert s[i] == d[if n < 0 then i - 1 else i];
        assert IsDigit(s[i]);
      }
    }
    EncodeDecimalEach(s, s);
  }

  /** A run of digits reads as its value. */
  lemma ParseDigits(d: string)
    requires |d| > 0 && AllDigits(d)
    ensures ParseDecimal(d) == Some(DigitsValue(d))
  {
    assert IsDigit(d[0]) && IsDigit(d[|d| - 1]);
    NoStrip(d);
  }

  /** A minus sign followed by a run of digits reads as the negated value. */
  lemma ParseMinusDigits(d: string)
    requires |d| > 0 && AllDigits(d)
    ensures ParseDecimal("-" + d) == Some(-(DigitsValue(d) as int))
  {
    var s := "-" + d;
    assert IsDigit(d[0]) && IsDigit(d[|d| - 1]);
    assert s[0] == '-' && s[|s| - 1] == d[|d| - 1];
    NoStrip(s);
    NoStrip(d);
    assert s[1..] == d;
    assert StripRight(StripLeft(s)) == s;
  }

  /** Rendering an integer with `"%d"` and reading it back with `int()`
      gives the integer back. */
  lemma IntFromShowInt(n: int)
    ensures IntFromString(ShowInt(n)) == Some(n)
  {
    EncodeShowInt(n);
    var m: nat := if n < 0 then -n else n;
    DigitsValueOfShowNat(m);
    if n < 0 {
      ParseMinusDigits(ShowNat(m));
    } else {
      ParseDigits(ShowNat(m));
    }
  }

  lemma DigitsTwelve()
    ensures AllDigits("12") && DigitsValue("12") == 12
  {
    assert "12"[..1] == "1" && "1"[..0] == "";
  }

  lemma ParseTwelve()
    ensures ParseDecimal("12") == Some(12)
  {
    NoStrip("12");
    DigitsTwelve();
  }

  lemma EncodeArabicIndic()
    ensures EncodeDecimal("\U{0661}\U{0662}") == Some("12")
  {
    var s := "\U{0661}\U{0662}";
    assert EncodeDecimalChar(s[0]) == Some('1');
    assert EncodeDecimalChar(s[1]) == Some('2');
    EncodeDecimalEach(s, "12");
  }

  /** Arabic-Indic digits are read as their ASCII counterparts. */
  lemma ArabicIndicDigits()
    ensures IntFromString("\U{0661}\U{0662}") == Some(12)
  {
    EncodeArabicIndic();
    ParseTwelve();
  }

  lemma StripSignBlank()
    ensures StripRight(StripLeft(" - 12")) == "- 12"
    ensures StripLeft("- 12"[1..]) == "12"
  {
    assert " - 12"[1..] == "- 12";
    assert "- 12"[1..] == " 12";
    assert " 12"[1..] == "12";
  }

  lemma ParseSignBlankDigits()
    ensures ParseDecimal(" - 12") == Some(-12)
  {
    StripSignBlank();
    DigitsTwelve();
  }

  /** Unicode whitespace around the number, and blanks between the sign and
      the digits, are allowed. */
  lemma SignBlankDigits()
    ensures IntFromString("\U{00A0}- 12") == Some(-12)
  {
    var s := "\U{00A0}- 12";
    assert EncodeDecimalChar(s[0]) == Some(' ');
    assert EncodeDecimalChar(s[1]) == Some('-');
    assert EncodeDecimalChar(s[2]) == Some(' ');
    assert EncodeDecimalChar(s[3]) == Some('1');
    assert EncodeDecimalChar(s[4]) == Some('2');
    EncodeDecimalEach(s, " - 12");
    ParseSignBlankDigits();
  }

  /** A sign with no digit after it is refused. */
  lemma LoneSignRefused()
    ensures IntFromString("- ") == None
  {
    var s := "- ";
    assert EncodeDecimalChar(s[0]) == Some('-');
    assert EncodeDecimalChar(s[1]) == Some(' ');
    EncodeDecimalEach(s, "- ");
    assert StripRight("- ") == "-" by {
      assert "- "[..1] == "-";
    }
  }
}
