/** The string primitives the TSV reader of
    `untriseptium/backend/tesseract.py` relies on: `str.split(sep)`,
    `str.strip()`, `int(...)` and `float(...)`. */
module Text {
  import opened Outcomes

  // ---------------------------------------------------------------------
  // str.split(sep) and its inverse sep.join(...)

  /** `s.split(sep)` for a one-character separator: every occurrence splits,
      so empty fields are kept and there is always at least one field. */
  function Split(s: string, sep: char): (parts: seq<string>)
    ensures |parts| >= 1
    ensures forall k :: 0 <= k < |parts| ==> sep !in parts[k]
  {
    if s == [] then [[]]
    else if s[0] == sep then [[]] + Split(s[1..], sep)
    else
      var rest := Split(s[1..], sep);
      [[s[0]] + rest[0]] + rest[1..]
  }

  /** `sep.join(parts)`. */
  function Join(parts: seq<string>, sep: char): string
    requires |parts| >= 1
  {
    if |parts| == 1 then parts[0] else parts[0] + [sep] + Join(parts[1..], sep)
  }

  /** Joining the fields of a split gives the string back. */
  lemma {:induction false} JoinSplit(s: string, sep: char)
    ensures Join(Split(s, sep), sep) == s
  {
    if s != [] {
      JoinSplit(s[1..], sep);
      var rest := Split(s[1..], sep);
      if s[0] == sep {
        assert s == [sep] + s[1..];
      } else if |rest| == 1 {
        assert s == [s[0]] + s[1..];
      } else {
        assert Join(rest, sep) == rest[0] + [sep] + Join(rest[1..], sep);
        assert s == [s[0]] + s[1..];
      }
    }
  }

  /** Splitting a join of separator-free fields gives the fields back. */
  lemma {:induction false} SplitJoin(parts: seq<string>, sep: char)
    requires |parts| >= 1
    requires forall k :: 0 <= k < |parts| ==> sep !in parts[k]
    ensures Split(Join(parts, sep), sep) == parts
  {
    if |parts| == 1 {
      SplitField(parts[0], [], sep);
      assert parts[0] + [] == parts[0];
    } else {
      SplitJoin(parts[1..], sep);
      var rest := [sep] + Join(parts[1..], sep);
      assert rest[1..] == Join(parts[1..], sep);
      SplitField(parts[0], rest, sep);
      assert parts[0] + [sep] + Join(parts[1..], sep) == parts[0] + rest;
      assert parts == [parts[0]] + parts[1..];
    }
  }

  /** A separator-free prefix becomes the first field, glued to the first
      field of what follows it. */
  lemma {:induction false} SplitField(f: string, rest: string, sep: char)
    requires sep !in f
    ensures rest == [] ==> Split(f + rest, sep) == [f]
    ensures rest != [] && rest[0] == sep ==> Split(f + rest, sep) == [f] + Split(rest[1..], sep)
  {
    if f == [] {
      assert f + rest == rest;
    } else {
      SplitField(f[1..], rest, sep);
      assert (f + rest)[1..] == f[1..] + rest;
      assert [f[0]] + f[1..] == f;
    }
  }

  // ---------------------------------------------------------------------
  // str.strip()

  /** `str.isspace()` for one character: the ASCII blanks, the separators
      0x1c to 0x1f, and the Unicode spaces Python strips. */
  predicate IsSpace(c: char) {
    var k := c as int;
    || (9 <= k <= 13) || (0x1c <= k <= 0x20) || k == 0x85 || k == 0xa0
    || k == 0x1680 || (0x2000 <= k <= 0x200a) || k == 0x2028 || k == 0x2029
    || k == 0x202f || k == 0x205f || k == 0x3000
  }

  /** Drops leading whitespace. */
  function StripLeft(s: string): (r: string)
    ensures |r| <= |s| && r == s[|s| - |r|..]
    ensures forall k :: 0 <= k < |s| - |r| ==> IsSpace(s[k])
    ensures r == [] || !IsSpace(r[0])
  {
    if s != [] && IsSpace(s[0]) then StripLeft(s[1..]) else s
  }

  /** Drops trailing whitespace. */
  function StripRight(s: string): (r: string)
    ensures |r| <= |s| && r == s[..|r|]
    ensures forall k :: |r| <= k < |s| ==> IsSpace(s[k])
    ensures r == [] || !IsSpace(r[|r| - 1])
  {
    if s != [] && IsSpace(s[|s| - 1]) then StripRight(s[..|s| - 1]) else s
  }

  /** `str.strip()`: the infix left once whitespace is removed from both ends. */
  function Strip(s: string): (r: string)
    ensures r == [] || (!IsSpace(r[0]) && !IsSpace(r[|r| - 1]))
    ensures |r| <= |s|
  {
    StripRight(StripLeft(s))
  }

  /** A string without whitespace at either end strips to itself, so
      stripping twice is stripping once. */
  lemma StripKeepsTrimmed(s: string)
    requires s == [] || (!IsSpace(s[0]) && !IsSpace(s[|s| - 1]))
    ensures Strip(s) == s
  {
  }

  lemma StripIdempotent(s: string)
    ensures Strip(Strip(s)) == Strip(s)
  {
    StripKeepsTrimmed(Strip(s));
  }

  // ---------------------------------------------------------------------
  // int(...) and float(...)

  predicate IsDigit(c: char) { '0' <= c <= '9' }

  predicate AllDigits(s: string) {
    forall k :: 0 <= k < |s| ==> IsDigit(s[k])
  }

  function DigitValue(c: char): nat
    requires IsDigit(c)
  {
    (c as int - '0' as int) as nat
  }

  /** The value of a run of decimal digits, most significant first. */
  function DigitsValue(s: string): nat
    requires AllDigits(s)
  {
    if s == [] then 0 else DigitsValue(s[..|s| - 1]) * 10 + DigitValue(s[|s| - 1])
  }

  function Pow10(k: nat): (p: nat)
    ensures p >= 1
  {
    if k == 0 then 1 else 10 * Pow10(k - 1)
  }

  /** An optional `+` or `-` sign (true when negative) and the text after it. */
  function SignOf(s: string): (r: (bool, string))
    ensures |r.1| <= |s|
  {
    if s != [] && (s[0] == '+' || s[0] == '-') then (s[0] == '-', s[1..])
    else (false, s)
  }

  /** `int(s)` on a decimal string: surrounding whitespace, an optional sign
      and at least one ASCII digit. */
  function ParseInt(s: string): (r: Option<int>)
    ensures r.Some? ==> Strip(s) != []
  {
    var (negative, digits) := SignOf(Strip(s));
    if digits != [] && AllDigits(digits) then
      var n: int := DigitsValue(digits);
      Some(if negative then -n else n)
    else None
  }

  /** Index of the first `.` in `s`, or `|s|` when there is none. */
  function DotIndex(s: string): (k: nat)
    ensures k <= |s|
    ensures forall j :: 0 <= j < k ==> s[j] != '.'
    ensures k < |s| ==> s[k] == '.'
  {
    if s == [] then 0 else if s[0] == '.' then 0 else 1 + DotIndex(s[1..])
  }

  /** `float(s)` on a decimal string: surrounding whitespace, an optional
      sign, digits with an optional fraction (`1`, `1.`, `.5`, `96.4`), at
      least one digit. */
  function ParseFloat(s: string): (r: Option<real>)
    ensures r.Some? ==> Strip(s) != []
  {
    var (negative, body) := SignOf(Strip(s));
    var k := DotIndex(body);
    var whole := body[..k];
    var frac := if k < |body| then body[k + 1..] else [];
    if AllDigits(whole) && AllDigits(frac) && |whole| + |frac| > 0 then
      var magnitude := DigitsValue(whole) as real + DigitsValue(frac) as real / Pow10(|frac|) as real;
      Some(if negative then -magnitude else magnitude)
    else None
  }

  /** `float` accepts every string `int` accepts, with the same value. */
  lemma ParseFloatExtendsParseInt(s: string)
    requires ParseInt(s).Some?
    ensures ParseFloat(s) == Some(ParseInt(s).value as real)
  {
    var (negative, body) := SignOf(Strip(s));
    assert body[..|body|] == body;
  }

  /** The decimal numeral of a natural number. */
  function NatToString(n: nat): (s: string)
    ensures s != [] && AllDigits(s)
    ensures DigitsValue(s) == n
  {
    if n < 10 then [('0' as int + n) as char]
    else
      var s := NatToString(n / 10) + [('0' as int + n % 10) as char];
      assert s[..|s| - 1] == NatToString(n / 10);
      s
  }

  /** The numeral of an integer, with a `-` when negative. */
  function IntToString(n: int): string {
    if n < 0 then "-" + NatToString(-n) else NatToString(n)
  }

  /** Reading back a printed integer gives the integer. */
  lemma ParseIntToString(n: int)
    ensures ParseInt(IntToString(n)) == Some(n)
    ensures ParseFloat(IntToString(n)) == Some(n as real)
  {
    var s := IntToString(n);
    NumeralTrimmed(n);
    StripKeepsTrimmed(s);
    if n < 0 {
      SignedNumeral(n);
    } else {
      UnsignedNumeral(n);
    }
    ParseFloatExtendsParseInt(s);
  }

  lemma NumeralTrimmed(n: int)
    ensures var s := IntToString(n); s != [] && !IsSpace(s[0]) && !IsSpace(s[|s| - 1])
  {
  }

  lemma SignedNumeral(n: int)
    requires n < 0
    ensures SignOf(IntToString(n)) == (true, NatToString(-n))
  {
  }

  lemma UnsignedNumeral(n: int)
    requires n >= 0
    ensures SignOf(IntToString(n)) == (false, NatToString(n))
  {
  }
}
