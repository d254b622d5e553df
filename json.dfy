/** The part of Python's `json.dumps` the fallback response uses: string
    values and a flat object of string members, with the default options
    (`ensure_ascii=True`, separators `", "` and `": "`). A decoder for JSON
    strings (RFC 8259, section 7) is the reference the encoder is checked
    against. */
module Json {
  import opened Results

  /** The lower-case hexadecimal digit for `d`. */
  function HexDigit(d: nat): (c: char)
    requires d < 16
    ensures '0' <= c <= 'f'
  {
    if d < 10 then ('0' as int + d) as char else ('a' as int + d - 10) as char
  }

  /** `'{0:04x}'.format(n)`: four lower-case hexadecimal digits. */
  function Hex4(n: nat): string
    requires n < 0x10000
  {
    [HexDigit(n / 4096), HexDigit((n / 256) % 16), HexDigit((n / 16) % 16), HexDigit(n % 16)]
  }

  /** The value of one hexadecimal digit in either case. */
  function HexDigitValue(c: char): Option<nat> {
    if '0' <= c <= '9' then Some(c as int - '0' as int)
    else if 'a' <= c <= 'f' then Some(c as int - 'a' as int + 10)
    else if 'A' <= c <= 'F' then Some(c as int - 'A' as int + 10)
    else None
  }

  /** The value of four hexadecimal digits. */
  function Hex4Value(t: string): (r: Option<nat>)
    requires |t| == 4
    ensures r.Some? ==> r.value < 0x10000
  {
    match (HexDigitValue(t[0]), HexDigitValue(t[1]), HexDigitValue(t[2]), HexDigitValue(t[3]))
    case (Some(a), Some(b), Some(c), Some(d)) =>
      assert a < 16 && b < 16 && c < 16 && d < 16;
      Some(4096 * a + 256 * b + 16 * c + d)
    case _ => None
  }

  /** The characters `json.dumps` copies unchanged: printable ASCII other
      than the quote and the backslash. */
  predicate IsPlain(c: char) {
    ' ' <= c <= '~' && c != '"' && c != '\\'
  }

  predicate IsPrintableAscii(s: string) {
    forall i :: 0 <= i < |s| ==> ' ' <= s[i] <= '~'
  }

  /** How `json.dumps` writes one character of a string: the two-character
      escapes for the quote, the backslash, `\n`, `\r`, `\t`, `\b` and `\f`;
      itself when plain; `\uXXXX` for the rest of the Basic Multilingual
      Plane; a surrogate pair of `\uXXXX` escapes above it. */
  function EscapeChar(c: char): string {
    if c == '"' then "\\\""
    else if c == '\\' then "\\\\"
    else if c == '\n' then "\\n"
    else if c == '\r' then "\\r"
    else if c == '\t' then "\\t"
    else if c == '\U{8}' then "\\b"
    else if c == '\U{c}' then "\\f"
    else if IsPlain(c) then [c]
    else if c < '\U{10000}' then "\\u" + Hex4(c as int)
    else
      var m := c as int - 0x10000;
      "\\u" + Hex4(0xD800 + m / 1024) + "\\u" + Hex4(0xDC00 + m % 1024)
  }

  /** The escaped characters of `s`, without the surrounding quotes. */
  function Escape(s: string): string {
    if s == [] then [] else EscapeChar(s[0]) + Escape(s[1..])
  }

  /** `json.dumps(s)` for a string `s`. */
  function Quote(s: string): string {
    "\"" + Escape(s) + "\""
  }

  /** `json.dumps(d)` for a dict whose keys and values are strings, members
      in insertion order. */
  function DumpsObject(members: seq<(string, string)>): string {
    "{" + Members(members) + "}"
  }

  function Members(members: seq<(string, string)>): string {
    if members == [] then ""
    else
      Quote(members[0].0) + ": " + Quote(members[0].1)
      + (if |members| == 1 then "" else ", " + Members(members[1..]))
  }

  function Prepend(c: char, r: Option<string>): Option<string> {
    match r
    case Some(s) => Some([c] + s)
    case None => None
  }

  /** The character a two-character escape `\x` stands for. */
  function ShortEscape(x: char): Option<char> {
    if x == '"' then Some('"')
    else if x == '\\' then Some('\\')
    else if x == '/' then Some('/')
    else if x == 'b' then Some('\U{8}')
    else if x == 'f' then Some('\U{c}')
    else if x == 'n' then Some('\n')
    else if x == 'r' then Some('\r')
    else if x == 't' then Some('\t')
    else None
  }

  /** Reads the inside of a JSON string: unescaped characters other than the
      quote, the backslash and control characters, and escapes. A `\u`
      escape of a high surrogate must be followed by one of a low surrogate;
      an unpaired surrogate has no Unicode scalar value and reads as `None`. */
  function Unescape(t: string): Option<string>
    decreases |t|
  {
    if t == [] then Some([])
    else if t[0] == '"' || t[0] < ' ' then None
    else if t[0] != '\\' then Prepend(t[0], Unescape(t[1..]))
    else if |t| < 2 then None
    else if t[1] != 'u' then
      match ShortEscape(t[1])
      case Some(c) => Prepend(c, Unescape(t[2..]))
      case None => None
    else if |t| < 6 then None
    else
      match Hex4Value(t[2..6])
      case None => None
      case Some(v) =>
        if 0xDC00 <= v < 0xE000 then None
        else if v < 0xD800 || 0xE000 <= v then Prepend(v as char, Unescape(t[6..]))
        else if |t| < 12 || t[6..8] != "\\u" then None
        else
          match Hex4Value(t[8..12])
          case Some(w) =>
            if 0xDC00 <= w < 0xE000 then
              Prepend((0x10000 + (v - 0xD800) * 0x400 + (w - 0xDC00)) as char, Unescape(t[12..]))
            else None
          case None => None
  }

  /** Reads a JSON string literal, quotes included. */
  function Unquote(q: string): Option<string> {
    if |q| >= 2 && q[0] == '"' && q[|q| - 1] == '"' then Unescape(q[1..|q| - 1])
    else None
  }

  /** Four hexadecimal digits read back as the number they were written for. */
  lemma Hex4RoundTrip(n: nat)
    requires n < 0x10000
    ensures Hex4Value(Hex4(n)) == Some(n)
  {
    var a, b, c, d := n / 4096, (n / 256) % 16, (n / 16) % 16, n % 16;
    HexDigitRoundTrip(a);
    HexDigitRoundTrip(b);
    HexDigitRoundTrip(c);
    HexDigitRoundTrip(d);
    Base16(n);
  }

  lemma HexDigitRoundTrip(d: nat)
    requires d < 16
    ensures HexDigitValue(HexDigit(d)) == Some(d)
  {
  }

  /** The four base-16 digits of `n` put back together. */
  lemma Base16(n: nat)
    requires n < 0x10000
    ensures 4096 * (n / 4096) + 256 * ((n / 256) % 16) + 16 * ((n / 16) % 16) + n % 16 == n
  {
    assert n / 256 == 16 * (n / 4096) + (n / 256) % 16;
    assert n / 16 == 16 * (n / 256) + (n / 16) % 16;
    assert n == 16 * (n / 16) + n % 16;
  }

  /** Every escape is printable ASCII. */
  lemma EscapeCharPrintable(c: char)
    ensures IsPrintableAscii(EscapeChar(c))
  {
  }

  lemma PrintableConcat(a: string, b: string)
    requires IsPrintableAscii(a) && IsPrintableAscii(b)
    ensures IsPrintableAscii(a + b)
  {
    forall i | 0 <= i < |a + b| ensures ' ' <= (a + b)[i] <= '~' {
      if i >= |a| { assert (a + b)[i] == b[i - |a|]; }
    }
  }

  /** `json.dumps` output for a string is printable ASCII (`ensure_ascii`),
      so it holds no line break. */
  lemma {:induction false} EscapePrintable(s: string)
    ensures IsPrintableAscii(Escape(s))
    decreases |s|
  {
    if s != [] {
      EscapeCharPrintable(s[0]);
      EscapePrintable(s[1..]);
      PrintableConcat(EscapeChar(s[0]), Escape(s[1..]));
    }
  }

  lemma QuotePrintable(s: string)
    ensures IsPrintableAscii(Quote(s))
  {
    EscapePrintable(s);
    PrintableConcat("\"", Escape(s));
    PrintableConcat("\"" + Escape(s), "\"");
  }

  /** The members of a `json.dumps` object are printable ASCII. */
  lemma {:induction false} MembersPrintable(members: seq<(string, string)>)
    ensures IsPrintableAscii(Members(members))
    decreases |members|
  {
    if members != [] {
      var k, v := Quote(members[0].0), Quote(members[0].1);
      QuotePrintable(members[0].0);
      QuotePrintable(members[0].1);
      PrintableConcat(k, ": ");
      PrintableConcat(k + ": ", v);
      var tail := if |members| == 1 then "" else ", " + Members(members[1..]);
      if |members| > 1 {
        MembersPrintable(members[1..]);
        PrintableConcat(", ", Members(members[1..]));
      }
      PrintableConcat(k + ": " + v, tail);
    }
  }

  /** A `json.dumps` object of string members is printable ASCII. */
  lemma DumpsObjectPrintable(members: seq<(string, string)>)
    ensures IsPrintableAscii(DumpsObject(members))
  {
    MembersPrintable(members);
    PrintableConcat("{", Members(members));
    PrintableConcat("{" + Members(members), "}");
  }

  /** Reading one escaped character yields that character and leaves the
      rest of the text to be read. */
  lemma UnescapeEscapeChar(c: char, rest: string)
    ensures Unescape(EscapeChar(c) + rest) == Prepend(c, Unescape(rest))
  {
    if IsPlain(c) || c == '"' || c == '\\' || c == '\n' || c == '\r' || c == '\t'
      || c == '\U{8}' || c == '\U{c}' {
      UnescapeShortEscape(c, rest);
    } else if c < '\U{10000}' {
      UnescapeBmpEscape(c, rest);
    } else {
      UnescapePairEscape(c, rest);
    }
  }

  lemma UnescapeShortEscape(c: char, rest: string)
    requires IsPlain(c) || c == '"' || c == '\\' || c == '\n' || c == '\r' || c == '\t'
      || c == '\U{8}' || c == '\U{c}'
    ensures Unescape(EscapeChar(c) + rest) == Prepend(c, Unescape(rest))
  {
    var t := EscapeChar(c) + rest;
    if IsPlain(c) {
      assert t[0] == c && t[1..] == rest;
    } else {
      assert t[0] == '\\' && t[2..] == rest;
    }
  }

  lemma UnescapeBmpEscape(c: char, rest: string)
    requires !IsPlain(c) && c != '"' && c != '\\' && c != '\n' && c != '\r' && c != '\t'
      && c != '\U{8}' && c != '\U{c}' && c < '\U{10000}'
    ensures Unescape(EscapeChar(c) + rest) == Prepend(c, Unescape(rest))
  {
    var t := EscapeChar(c) + rest;
    Hex4RoundTrip(c as int);
    assert t[0] == '\\' && t[1] == 'u';
    assert t[2..6] == Hex4(c as int);
    assert t[6..] == rest;
  }

  lemma UnescapePairEscape(c: char, rest: string)
    requires c >= '\U{10000}'
    ensures Unescape(EscapeChar(c) + rest) == Prepend(c, Unescape(rest))
  {
    var m := c as int - 0x10000;
    var v, w := 0xD800 + m / 1024, 0xDC00 + m % 1024;
    assert EscapeChar(c) == "\\u" + Hex4(v) + "\\u" + Hex4(w);
    SurrogatePair(c as int);
    UnescapeSurrogates(v, w, rest);
  }

  /** A high and a low surrogate escape read back as the one code point
      they encode. */
  lemma UnescapeSurrogates(v: nat, w: nat, rest: string)
    requires 0xD800 <= v < 0xDC00 && 0xDC00 <= w < 0xE000
    ensures 0x10000 <= 0x10000 + (v - 0xD800) * 0x400 + (w - 0xDC00) < 0x110000
    ensures Unescape("\\u" + Hex4(v) + "\\u" + Hex4(w) + rest)
      == Prepend((0x10000 + (v - 0xD800) * 0x400 + (w - 0xDC00)) as char, Unescape(rest))
  {
    var t := "\\u" + Hex4(v) + "\\u" + Hex4(w) + rest;
    Hex4RoundTrip(v);
    Hex4RoundTrip(w);
    assert t[0] == '\\' && t[1] == 'u';
    assert t[2..6] == Hex4(v);
    assert t[6..8] == "\\u";
    assert t[8..12] == Hex4(w);
    assert t[12..] == rest;
  }

  /** The UTF-16 surrogate pair of a code point above `U+FFFF` combines back
      into it. */
  lemma SurrogatePair(n: int)
    requires 0x10000 <= n
    requires n < 0x110000
    ensures var m := n - 0x10000;
      && 0xD800 <= 0xD800 + m / 1024 < 0xDC00
      && 0x10000 + (0xD800 + m / 1024 - 0xD800) * 0x400 + (0xDC00 + m % 1024 - 0xDC00) == n
  {
  }

  /** Decoding undoes escaping: the text `json.dumps` writes for `s` reads
      back as `s`. */
  lemma {:induction false} UnescapeEscape(s: string)
    ensures Unescape(Escape(s)) == Some(s)
    decreases |s|
  {
    if s != [] {
      assert Escape(s) == EscapeChar(s[0]) + Escape(s[1..]);
      UnescapeEscapeChar(s[0], Escape(s[1..]));
      UnescapeEscape(s[1..]);
      assert [s[0]] + s[1..] == s;
    }
  }

  /** `json.loads(json.dumps(s)) == s` for a string `s`. */
  lemma UnquoteQuote(s: string)
    ensures Unquote(Quote(s)) == Some(s)
  {
    var q := Quote(s);
    assert q[1..|q| - 1] == Escape(s);
    UnescapeEscape(s);
  }

  /** Plain text is written as it is. */
  lemma {:induction false} EscapePlain(s: string)
    requires forall i :: 0 <= i < |s| ==> IsPlain(s[i])
    ensures Escape(s) == s
    decreases |s|
  {
    if s != [] {
      EscapePlain(s[1..]);
      assert s == [s[0]] + s[1..];
    }
  }
}
