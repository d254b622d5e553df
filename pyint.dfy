/** Python's conversions between `int` and decimal text: `str(n)` and
    `int(s)` with the default base 10, as CPython implements them for ASCII
    digits. */
module PyInt {
  import opened Results
  import opened PyText

  /** CPython's default `sys.int_info.default_max_str_digits`: `int(s)`
      raises `ValueError` when `s` has more decimal digits than this. */
  const MaxStrDigits: nat := 4300

  predicate IsDigit(c: char) {
    '0' <= c <= '9'
  }

  predicate AllDigits(s: string) {
    forall i :: 0 <= i < |s| ==> IsDigit(s[i])
  }

  function DigitChar(d: nat): (c: char)
    requires d < 10
    ensures IsDigit(c) && c as int - '0' as int == d
  {
    ('0' as int + d) as char
  }

  /** The number a string of decimal digits denotes, most significant first. */
  function DigitsValue(s: string): nat
    requires AllDigits(s)
  {
    if s == [] then 0
    else 10 * DigitsValue(s[..|s| - 1]) + (s[|s| - 1] as int - '0' as int)
  }

  /** `str(n)` for `n >= 0`: the digits of `n` without leading zeros. */
  function NatToDecimal(n: nat): (r: string)
    ensures r != [] && AllDigits(r)
    ensures DigitsValue(r) == n
    ensures r[0] == '0' ==> r == "0"
  {
    if n < 10 then [DigitChar(n)]
    else
      var r := NatToDecimal(n / 10) + [DigitChar(n % 10)];
      assert r[..|r| - 1] == NatToDecimal(n / 10);
      r
  }

  /** `str(n)`: a minus sign for negative `n`, then the digits of `|n|`. */
  function IntToDecimal(n: int): string {
    if n < 0 then "-" + NatToDecimal(-n) else NatToDecimal(n)
  }

  /** The shape CPython's `int()` accepts after the sign: decimal digits, with
      single underscores allowed between two digits. */
  predicate UnderscoredDigits(s: string) {
    && s != [] && IsDigit(s[0]) && IsDigit(s[|s| - 1])
    && (forall i :: 0 <= i < |s| ==> IsDigit(s[i]) || s[i] == '_')
    && (forall i :: 0 <= i < |s| - 1 && s[i] == '_' ==> s[i + 1] != '_')
  }

  /** The characters of `s` other than underscores, in order. */
  function DropUnderscores(s: string): string {
    if s == [] then []
    else (if s[0] == '_' then [] else [s[0]]) + DropUnderscores(s[1..])
  }

  /** Reads digits the way CPython's `PyLong_FromString` scans them: a digit,
      then repeatedly an optional underscore and a digit. Yields the digits
      without the underscores, or `None` when `s` has another shape. */
  function ScanDigits(s: string): (r: Option<string>)
    ensures r.Some? ==> r.value != [] && AllDigits(r.value)
  {
    if s == [] || !IsDigit(s[0]) then None
    else if |s| == 1 then Some([s[0]])
    else
      var skip := if s[1] == '_' then 2 else 1;
      match ScanDigits(s[skip..])
      case Some(d) => Some([s[0]] + d)
      case None => None
  }

  /** `ScanDigits` accepts exactly the underscored digit strings, and
      yields their digits with the underscores dropped. */
  lemma {:induction false} ScanDigitsMeaning(s: string)
    ensures ScanDigits(s).Some? <==> UnderscoredDigits(s)
    ensures ScanDigits(s).Some? ==> ScanDigits(s).value == DropUnderscores(s)
    decreases |s|
  {
    if s == [] || !IsDigit(s[0]) {
    } else if |s| == 1 {
      assert DropUnderscores(s[1..]) == [];
    } else {
      var skip := if s[1] == '_' then 2 else 1;
      ScanDigitsMeaning(s[skip..]);
      UnderscoredStep(s, skip);
      DropUnderscoresStep(s, skip);
    }
  }

  /** After a leading digit and an optional underscore, the rest has the
      shape `int()` accepts exactly when the whole text has. */
  lemma UnderscoredStep(s: string, skip: nat)
    requires |s| >= 2 && IsDigit(s[0])
    requires skip == if s[1] == '_' then 2 else 1
    ensures UnderscoredDigits(s) <==> UnderscoredDigits(s[skip..])
  {
    var rest := s[skip..];
    if UnderscoredDigits(rest) {
      forall i | 0 <= i < |s| - 1 && s[i] == '_'
        ensures s[i + 1] != '_'
      {
        if i >= skip { assert s[i + 1] == rest[i + 1 - skip]; }
      }
    }
    if UnderscoredDigits(s) {
      assert forall i :: 0 <= i < |rest| ==> rest[i] == s[i + skip];
    }
  }

  /** Dropping the underscores keeps the leading digit and skips the
      optional underscore after it. */
  lemma DropUnderscoresStep(s: string, skip: nat)
    requires |s| >= 2 && IsDigit(s[0])
    requires skip == if s[1] == '_' then 2 else 1
    ensures DropUnderscores(s) == [s[0]] + DropUnderscores(s[skip..])
  {
    var t := s[1..];
    assert DropUnderscores(s) == [s[0]] + DropUnderscores(t);
    if skip == 2 {
      assert t[1..] == s[skip..];
      assert DropUnderscores(t) == DropUnderscores(t[1..]);
    }
  }

  /** The whitespace `int()` skips around the number. CPython first turns
      every non-ASCII whitespace character into a space, then skips only
      `\t`, `\n`, `\v`, `\f`, `\r` and the space: the separators
      U+001C to U+001F, which `str.isspace` accepts, are not skipped. */
  predicate IsIntSpace(c: char) {
    IsSpace(c) && !('\U{1c}' <= c <= '\U{1f}')
  }

  /** `s` without the `IsIntSpace` characters at its start. */
  function TrimStart(s: string): (r: string)
    ensures r == [] || !IsIntSpace(r[0])
  {
    if s != [] && IsIntSpace(s[0]) then TrimStart(s[1..]) else s
  }

  /** `s` without the `IsIntSpace` characters at its end. */
  function TrimEnd(s: string): (r: string)
    ensures r == [] || !IsIntSpace(r[|r| - 1])
  {
    if s != [] && IsIntSpace(s[|s| - 1]) then TrimEnd(s[..|s| - 1]) else s
  }

  /** The text of `s` that `int()` reads after skipping whitespace. */
  function IntText(s: string): string {
    TrimEnd(TrimStart(s))
  }

  /** The digits part of that text, after an optional sign. */
  function IntDigitsPart(t: string): string {
    if t != [] && (t[0] == '-' || t[0] == '+') then t[1..] else t
  }

  /** A text that starts and ends with something other than whitespace is
      read as it is. */
  lemma IntTextOfSolid(t: string)
    requires t != [] && !IsIntSpace(t[0]) && !IsIntSpace(t[|t| - 1])
    ensures IntText(t) == t
  {
    assert TrimStart(t) == t;
  }

  /** `int(s)`: surrounding whitespace is ignored, then the text is read by
      `SignedDigits`. `None` stands for the `ValueError` that `int()`
      raises. It accepts exactly an optional sign and digits with single
      underscores between two digits, no more than `MaxStrDigits` of them,
      and yields their value, negated after a minus sign. */
  function IntFromString(s: string): (r: Option<int>)
    ensures var t := IntText(s);
      var u := IntDigitsPart(t);
      && (r.Some? <==> UnderscoredDigits(u) && |DropUnderscores(u)| <= MaxStrDigits)
      && (r.Some? ==>
            var d := DropUnderscores(u);
            && AllDigits(d)
            && r.value == if t[0] == '-' then -(DigitsValue(d) as int) else DigitsValue(d))
  {
    var t := IntText(s);
    ScanDigitsMeaning(IntDigitsPart(t));
    SignedDigits(t)
  }

  /** An optional sign, then an unsigned number as `Unsigned` reads it. */
  function SignedDigits(t: string): Option<int> {
    if t != [] && t[0] == '-' then
      match Unsigned(t[1..])
      case None => None
      case Some(v) => Some(-(v as int))
    else if t != [] && t[0] == '+' then
      match Unsigned(t[1..])
      case None => None
      case Some(v) => Some(v)
    else
      match Unsigned(t)
      case None => None
      case Some(v) => Some(v)
  }

  /** Digits as `ScanDigits` reads them, no more than `MaxStrDigits` of
      them, and the number they denote. */
  function Unsigned(u: string): Option<nat> {
    match ScanDigits(u)
    case None => None
    case Some(d) => if |d| > MaxStrDigits then None else Some(DigitsValue(d))
  }

  /** A string of digits has no underscores to drop. */
  lemma {:induction false} DropUnderscoresOfDigits(s: string)
    requires AllDigits(s)
    ensures DropUnderscores(s) == s
    decreases |s|
  {
    if s != [] {
      DropUnderscoresOfDigits(s[1..]);
    }
  }

  /** A non-empty run of digits scans to itself. */
  lemma ScanDigitsOfDigits(d: string)
    requires d != [] && AllDigits(d)
    ensures ScanDigits(d) == Some(d)
  {
    assert UnderscoredDigits(d) by {
      assert IsDigit(d[0]) && IsDigit(d[|d| - 1]);
    }
    ScanDigitsMeaning(d);
    DropUnderscoresOfDigits(d);
  }

  /** A run of digits within the limit reads as its value. */
  lemma UnsignedOfDigits(d: string)
    requires d != [] && AllDigits(d) && |d| <= MaxStrDigits
    ensures Unsigned(d) == Some(DigitsValue(d))
  {
    ScanDigitsOfDigits(d);
  }

  /** Unsigned digits read back as their value. */
  lemma IntFromDigits(d: string)
    requires d != [] && AllDigits(d) && |d| <= MaxStrDigits
    ensures IntFromString(d) == Some(DigitsValue(d) as int)
  {
    assert IsDigit(d[0]) && IsDigit(d[|d| - 1]);
    IntTextOfSolid(d);
    UnsignedOfDigits(d);
  }

  /** A minus sign and digits read back as the negated value. */
  lemma IntFromNegatedDigits(d: string)
    requires d != [] && AllDigits(d) && |d| <= MaxStrDigits
    ensures IntFromString("-" + d) == Some(-(DigitsValue(d) as int))
  {
    var s := "-" + d;
    assert IsDigit(d[|d| - 1]) && s[|s| - 1] == d[|d| - 1];
    IntTextOfSolid(s);
    SignedOfNegated(d);
  }

  /** A minus sign before a run of digits negates its value. */
  lemma SignedOfNegated(d: string)
    requires d != [] && AllDigits(d) && |d| <= MaxStrDigits
    ensures SignedDigits("-" + d) == Some(-(DigitsValue(d) as int))
  {
    var s := "-" + d;
    assert s[1..] == d;
    UnsignedOfDigits(d);
    SignedOfMinus(s, DigitsValue(d));
  }

  /** A minus sign negates the unsigned number after it. */
  lemma SignedOfMinus(t: string, v: nat)
    requires t != [] && t[0] == '-' && Unsigned(t[1..]) == Some(v)
    ensures SignedDigits(t) == Some(-(v as int))
  {
  }

  /** `int()` skips ASCII and non-ASCII whitespace around the number, but
      an information separator such as U+001C makes it raise. */
  lemma {:induction false} IntFromPadded()
    ensures IntFromString(" 5\n") == Some(5)
    ensures IntFromString("\U{a0}5") == Some(5)
    ensures IntFromString("\U{1c}5") == None
  {
    assert IntText(" 5\n") == "5" by {
      assert TrimStart(" 5\n") == TrimStart("5\n") == "5\n";
      assert "5\n"[..1] == "5";
    }
    assert IntText("\U{a0}5") == "5" by {
      assert TrimStart("\U{a0}5") == TrimStart("5") == "5";
    }
    assert IntText("\U{1c}5") == "\U{1c}5";
    assert DigitsValue("5") == 5 by {
      assert "5"[..0] == [];
    }
    UnsignedOfDigits("5");
  }

  /** `int(str(n)) == n`: the decimal text of `n` reads back as `n`, as long
      as it stays within `MaxStrDigits` digits. */
  lemma IntFromDecimal(n: int)
    requires |NatToDecimal(if n < 0 then -n else n)| <= MaxStrDigits
    ensures IntFromString(IntToDecimal(n)) == Some(n)
  {
    if n < 0 {
      IntFromNegatedDigits(NatToDecimal(-n));
    } else {
      IntFromDigits(NatToDecimal(n));
    }
  }
}
