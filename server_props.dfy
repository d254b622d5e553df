/** Properties of the request-line parser, the 500 response and the response
    framing of main.py, stated over the functions of module `Server`. */
module ServerProperties {
  import opened Results
  import opened PyText
  import opened Server
  import PyInt
  import Utf8
  import Json

  /* ----- parse_request_line ----- */

  /** The words of the first line decide the result; stripping the line
      first makes no difference to them. */
  lemma ParseRequestLineWords(raw: string)
    ensures var words := SplitWhitespace(Before(raw, "\n"));
      ParseRequestLine(raw) == if |words| >= 2 then (words[0], words[1]) else ("UNKNOWN", "/")
  {
    SplitWhitespaceOfStrip(Before(raw, "\n"));
  }

  /** A word followed by nothing, or by whitespace, is the first word. */
  lemma WordThenRest(word: string, tail: string)
    requires word != [] && NoSpace(word)
    requires tail == [] || IsSpace(tail[0])
    ensures SplitWhitespace(word + tail)
      == [word] + (if tail == [] then [] else SplitWhitespace(tail[1..]))
  {
    SplitWhitespaceOfWord(word);
    if tail == [] {
      assert word + tail == word;
    } else {
      assert word + tail == word + [tail[0]] + tail[1..];
      SplitWhitespaceAtSpace(word, tail[0], tail[1..]);
    }
  }

  /** Two words separated by whitespace, then nothing or whitespace, split
      into those two words first. */
  lemma FirstTwoWords(verb: string, sp: char, path: string, tail: string)
    requires verb != [] && NoSpace(verb)
    requires path != [] && NoSpace(path)
    requires IsSpace(sp)
    requires tail == [] || IsSpace(tail[0])
    ensures var words := SplitWhitespace(verb + [sp] + path + tail);
      |words| >= 2 && words[0] == verb && words[1] == path
  {
    var more := if tail == [] then [] else SplitWhitespace(tail[1..]);
    var rest := path + tail;
    WordThenRest(path, tail);
    assert verb + [sp] + path + tail == verb + [sp] + rest;
    WordThenSpace(verb, sp, rest);
    var words := SplitWhitespace(verb + [sp] + rest);
    assert words == [verb] + ([path] + more);
  }

  /** A word and one whitespace character come off the front as one word. */
  lemma WordThenSpace(word: string, sp: char, rest: string)
    requires word != [] && NoSpace(word)
    requires IsSpace(sp)
    ensures SplitWhitespace(word + [sp] + rest) == [word] + SplitWhitespace(rest)
  {
    SplitWhitespaceAtSpace(word, sp, rest);
    SplitWhitespaceOfWord(word);
  }

  /** A request line `method SP path ...` yields its method and path,
      whatever follows the path on that line or on later lines. */
  lemma ParseRequestLineOfRequest(verb: string, sp: char, path: string, rest: string)
    requires verb != [] && NoSpace(verb)
    requires path != [] && NoSpace(path)
    requires IsSpace(sp) && sp != '\n'
    requires rest == [] || IsSpace(rest[0])
    ensures ParseRequestLine(verb + [sp] + path + rest) == (verb, path)
  {
    var raw := verb + [sp] + path + rest;
    var word := verb + [sp] + path;
    assert '\n' !in word by {
      assert forall i :: 0 <= i < |verb| ==> verb[i] != '\n';
      assert forall i :: 0 <= i < |path| ==> path[i] != '\n';
    }
    assert raw == word + rest;
    BeforeLineBreakConcat(word, rest);
    var tail := Before(rest, "\n");
    assert tail == [] || tail[0] == rest[0];
    FirstTwoWords(verb, sp, path, tail);
    ParseRequestLineWords(raw);
  }

  /** Only the first line is read: the lines after the first `'\n'` never
      matter, even when the first line falls back to the sentinels. */
  lemma ParseRequestLineIgnoresLaterLines(line: string, later: string)
    requires '\n' !in line
    ensures ParseRequestLine(line + "\n" + later) == ParseRequestLine(line)
  {
    var rest := "\n" + later;
    assert OccursAt(rest, "\n", 0) by { assert rest[0..1] == "\n"; }
    FindFirst(rest, "\n", 0);
    assert Before(rest, "\n") == [];
    BeforeLineBreakConcat(line, rest);
    assert line + rest == line + "\n" + later;
    assert Find(line, "\n").None? by {
      NotContainsWithout(line, "\n", 0);
    }
    assert Before(line, "\n") == line;
    assert line + [] == line;
  }

  /** Empty input, and a first line of fewer than two words, give the
      sentinels `("UNKNOWN", "/")`. */
  lemma ParseRequestLineSentinels(first: string, later: string)
    requires '\n' !in first
    requires |SplitWhitespace(first)| < 2
    ensures ParseRequestLine("") == ("UNKNOWN", "/")
    ensures ParseRequestLine(first + "\n" + later) == ("UNKNOWN", "/")
  {
    ParseRequestLineOfLine([]);
    ParseRequestLineOfLine(first);
    ParseRequestLineIgnoresLaterLines(first, later);
  }

  /** A single line is read by its words alone. */
  lemma ParseRequestLineOfLine(line: string)
    requires '\n' !in line
    ensures var words := SplitWhitespace(line);
      ParseRequestLine(line) == if |words| >= 2 then (words[0], words[1]) else ("UNKNOWN", "/")
  {
    ParseRequestLineWords(line);
    assert Find(line, "\n").None? by {
      NotContainsWithout(line, "\n", 0);
    }
  }

  /* ----- framing ----- */

  /** Text that can sit inside one header line: no `'\n'`, no `'\r'`. */
  predicate LineFree(s: string) {
    '\n' !in s && '\r' !in s
  }

  /** The inserted `Content-Length` line is one non-empty line. */
  lemma ContentLengthLineFree(n: nat)
    ensures ContentLengthLine(n) != [] && LineFree(ContentLengthLine(n))
  {
    var d := PyInt.NatToDecimal(n);
    assert forall c :: c in d ==> PyInt.IsDigit(c);
  }

  /** Where `p` can occur once `m`, none of whose characters is in `p`, is
      inserted between `x + y` and `rest`: only inside `x + y`, or shifted
      from where it occurred in `x + rest` past the inserted `y + m`. */
  lemma OccursAfterInsert(x: string, y: string, m: string, rest: string, p: string, j: int)
    requires p != [] && m != []
    requires forall i :: 0 <= i < |m| ==> m[i] !in p
    requires OccursAt(x + y + m + rest, p, j)
    ensures || (j + |p| <= |x| + |y| && OccursAt(x + y, p, j))
            || (j >= |x| + |y| + |m| && OccursAt(x + rest, p, j - |y| - |m|))
  {
    OccursAtAround(x + y, m, rest, p, j);
    if j >= |x| + |y| + |m| {
      OccursAtShift(x, rest, p, j - |x| - |y| - |m|);
    }
  }

  /** Where a blank line can occur once `line` is inserted after
      `header + sep` in `header + sep + sep + body`: only where it occurred
      before, or shifted past the inserted text. */
  lemma OccursInFramed(header: string, sep: string, line: string, body: string, p: string, j: int)
    requires line != [] && LineFree(line)
    requires p == CrlfBlank || p == LfBlank
    requires |sep| < |p|
    requires OccursAt(header + sep + line + (sep + sep + body), p, j)
    ensures var s := header + (sep + sep + body);
      || (j < |header| && OccursAt(s, p, j))
      || (j >= |header| + |sep| + |line| && OccursAt(s, p, j - |sep| - |line|))
  {
    forall i | 0 <= i < |line| ensures line[i] !in p {
      assert line[i] in line;
    }
    var rest := sep + sep + body;
    OccursAfterInsert(header, sep, line, rest, p, j);
    if j + |p| <= |header| + |sep| {
      assert header + rest == (header + sep) + (sep + body);
      OccursAtExtend(header + sep, sep + body, p, j);
    }
  }

  /** The framed text `header + sep + line + sep + sep + body`, its first
      blank line, and the text before and after it. */
  lemma FramedPieces(header: string, sep: string, line: string, body: string)
    requires sep != []
    ensures var out := header + sep + line + (sep + sep + body);
      var k := |header| + |sep| + |line|;
      && OccursAt(out, sep + sep, k)
      && out[..k] == header + sep + line
      && out[k + 2 * |sep|..] == body
  {
    var out := header + sep + line + (sep + sep + body);
    var k := |header| + |sep| + |line|;
    assert out[..k] == header + sep + line;
    assert out[k..] == sep + sep + body;
    assert out[k..k + 2 * |sep|] == sep + sep;
  }

  /** `SplitResponse` cuts at the first occurrence of the blank line of
      the separator it settles on. */
  lemma SplitResponseAt(text: string, sep: string, k: nat)
    requires sep == "\r\n" || sep == "\n"
    requires OccursAt(text, sep + sep, k)
    requires forall j :: 0 <= j < k ==> !OccursAt(text, sep + sep, j)
    requires sep == "\n" ==> !Contains(text, CrlfBlank)
    ensures SplitResponse(text) == Some(Framing(text[..k], sep, text[k + 2 * |sep|..]))
  {
    var r := SplitResponse(text);
    var blank := sep + sep;
    if sep == "\r\n" {
      assert blank == CrlfBlank;
    } else {
      assert blank == LfBlank;
    }
    assert r.Some? && r.value.lineSep == sep;
    var h := r.value.header;
    assert text == h + blank + r.value.body;
    assert OccursAt(text, blank, |h|) by {
      assert text[|h|..|h| + |blank|] == blank;
    }
    assert |h| == k;
    assert h == text[..k];
    assert r.value.body == text[k + |blank|..];
  }

  /** No blank line of either kind occurs before `k` in `out`. */
  lemma FirstBlankInFramed(header: string, sep: string, line: string, body: string)
    requires sep == "\r\n" || sep == "\n"
    requires line != [] && LineFree(line)
    requires forall j :: 0 <= j < |header| ==> !OccursAt(header + (sep + sep + body), sep + sep, j)
    requires sep == "\n" ==> !Contains(header + (sep + sep + body), CrlfBlank)
    ensures var out := header + sep + line + (sep + sep + body);
      var k := |header| + |sep| + |line|;
      && (forall j :: 0 <= j < k ==> !OccursAt(out, sep + sep, j))
      && (sep == "\n" ==> !Contains(out, CrlfBlank))
  {
    var s := header + (sep + sep + body);
    var out := header + sep + line + (sep + sep + body);
    var k := |header| + |sep| + |line|;
    if sep == "\r\n" {
      assert sep + sep == CrlfBlank;
      forall j | OccursAt(out, CrlfBlank, j) ensures j >= k {
        OccursInFramed(header, sep, line, body, CrlfBlank, j);
      }
    } else {
      assert sep + sep == LfBlank;
      assert forall j :: !OccursAt(s, CrlfBlank, j);
      forall j ensures !OccursAt(out, CrlfBlank, j) {
        if OccursAt(out, CrlfBlank, j) {
          OccursInFramed(header, sep, line, body, CrlfBlank, j);
        }
      }
      forall j | OccursAt(out, LfBlank, j) ensures j >= k {
        OccursInFramed(header, sep, line, body, LfBlank, j);
      }
    }
  }

  /** What a successful split tells about the shape of the text. */
  lemma SplitResponseShape(text: string, f: Framing)
    requires SplitResponse(text) == Some(f)
    ensures f.lineSep == "\r\n" || f.lineSep == "\n"
    ensures text == f.header + (f.lineSep + f.lineSep + f.body)
    ensures text == f.header + f.lineSep + f.lineSep + f.body
  {
    assert text == f.header + (f.lineSep + f.lineSep) + f.body;
    Regroup(f.header, f.lineSep, f.body);
  }

  lemma Regroup(header: string, sep: string, body: string)
    ensures header + (sep + sep + body) == header + sep + sep + body
  {
  }

  /** What a successful split tells about the blank lines of the text. */
  lemma SplitResponseFirst(text: string, f: Framing)
    requires SplitResponse(text) == Some(f)
    ensures forall j :: 0 <= j < |f.header| ==> !OccursAt(text, f.lineSep + f.lineSep, j)
    ensures f.lineSep == "\n" ==> !Contains(text, CrlfBlank)
  {
  }

  /** Re-splitting framed text: after a line free of line breaks is
      inserted before the first blank line, that blank line is still the
      first, and the body comes back unchanged. */
  lemma SplitAfterInsertedLine(header: string, sep: string, line: string, body: string)
    requires line != [] && LineFree(line)
    requires SplitResponse(header + sep + sep + body) == Some(Framing(header, sep, body))
    ensures SplitResponse(header + sep + line + sep + sep + body)
      == Some(Framing(header + sep + line, sep, body))
  {
    var out := header + sep + line + (sep + sep + body);
    var k := |header| + |sep| + |line|;
    assert sep == "\r\n" || sep == "\n" by {
      SplitResponseShape(header + sep + sep + body, Framing(header, sep, body));
    }
    assert (forall j :: 0 <= j < k ==> !OccursAt(out, sep + sep, j))
      && (sep == "\n" ==> !Contains(out, CrlfBlank)) by {
      var s := header + (sep + sep + body);
      Regroup(header, sep, body);
      SplitResponseFirst(s, Framing(header, sep, body));
      FirstBlankInFramed(header, sep, line, body);
    }
    FramedPieces(header, sep, line, body);
    SplitResponseAt(out, sep, k);
    RegroupLine(header, sep, line, body);
  }

  lemma RegroupLine(header: string, sep: string, line: string, body: string)
    ensures header + sep + line + (sep + sep + body) == header + sep + line + sep + sep + body
  {
  }

  /** `"\r\n\r\n"` wins wherever it is: a text whose first `"\r\n\r\n"`
      follows `x` is cut there with `"\r\n"` as the separator, even when
      `x` holds blank lines of `"\n\n"` (which stay in the header block). */
  lemma CrlfBlankWins(x: string, y: string)
    requires '\r' !in x
    ensures SplitResponse(x + CrlfBlank + y) == Some(Framing(x, "\r\n", y))
  {
    var s := x + CrlfBlank + y;
    assert "\r\n" + "\r\n" == CrlfBlank;
    assert s[..|x|] == x && s[|x|..|x| + 4] == CrlfBlank && s[|x| + 4..] == y;
    forall j | 0 <= j < |x| ensures !OccursAt(s, CrlfBlank, j) {
      assert s[j] == x[j] && x[j] in x;
      assert s[j..j + 4][0] == s[j];
    }
    SplitResponseAt(s, "\r\n", |x|);
  }

  /* ----- status extraction ----- */

  /** The status line is the header block's first line, whichever separator
      is in use, provided the block goes on with that separator. */
  lemma StatusLineOfFirstLine(line: string, rest: string, sep: string)
    requires sep == "\r\n" || sep == "\n"
    requires '\n' !in line
    requires rest == [] || (|rest| >= |sep| && rest[..|sep|] == sep)
    ensures StatusLine(line + rest, sep) == line
  {
    var header := line + rest;
    NotContainsWithout(line, "\n", 0);
    assert Before(line, "\n") == line;
    if rest == [] {
      assert header == line;
      if sep == "\r\n" {
        NotContainsWithout(line, sep, 1);
      }
    } else if sep == "\n" {
      assert OccursAt(rest, "\n", 0) by {
        assert rest[0..1] == rest[..|sep|];
      }
      FindFirst(rest, "\n", 0);
      BeforeLineBreakConcat(line, rest);
      assert line + [] == line;
    } else {
      assert OccursAt(header, sep, |line|) by {
        assert header[|line|..|line| + 2] == rest[..2];
      }
      forall j | 0 <= j < |line| ensures !OccursAt(header, sep, j) {
        if j + 1 < |line| {
          assert header[j + 1] == line[j + 1];
          assert line[j + 1] in line;
        } else {
          assert header[j + 1] == rest[0];
        }
        assert header[j..j + 2][1] == header[j + 1];
      }
      FindFirst(header, sep, |line|);
      assert header[..|line|] == line;
    }
  }

  /** The decimal text of an integer is one word. */
  lemma DecimalIsWord(code: int)
    ensures PyInt.IntToDecimal(code) != [] && NoSpace(PyInt.IntToDecimal(code))
  {
    var d := PyInt.NatToDecimal(if code < 0 then -code else code);
    assert forall i :: 0 <= i < |d| ==> PyInt.IsDigit(d[i]);
  }

  /** A status line `version SP code reason` where `version` mentions
      `"HTTP/"` yields `code`, whatever its range: 999 and negative codes
      pass through unchanged. */
  lemma StatusOfStatusLine(version: string, code: int, reason: string, rest: string, sep: string)
    requires sep == "\r\n" || sep == "\n"
    requires version != [] && NoSpace(version) && Contains(version, "HTTP/")
    requires |PyInt.NatToDecimal(if code < 0 then -code else code)| <= PyInt.MaxStrDigits
    requires (reason == [] || IsSpace(reason[0])) && '\n' !in reason
    requires rest == [] || (|rest| >= |sep| && rest[..|sep|] == sep)
    ensures ExtractStatus(version + " " + PyInt.IntToDecimal(code) + reason + rest, sep) == code
  {
    var d := PyInt.IntToDecimal(code);
    var line := version + [' '] + d + reason;
    assert version + " " + d + reason + rest == line + rest;
    StatusLineShape(version, d, reason);
    DecimalIsWord(code);
    FirstTwoWords(version, ' ', d, reason);
    StatusLineOfFirstLine(line, rest, sep);
    PyInt.IntFromDecimal(code);
  }

  /** A status line built from a version that mentions `"HTTP/"` is a
      single line that still mentions it. */
  lemma StatusLineShape(version: string, d: string, reason: string)
    requires NoSpace(version) && Contains(version, "HTTP/")
    requires NoSpace(d) && '\n' !in reason
    ensures var line := version + [' '] + d + reason;
      '\n' !in line && Contains(line, "HTTP/")
  {
    var line := version + [' '] + d + reason;
    assert '\n' !in line by {
      assert forall i :: 0 <= i < |version| ==> version[i] != '\n';
      assert forall i :: 0 <= i < |d| ==> d[i] != '\n';
    }
    var v := Find(version, "HTTP/").value;
    assert line == version + ([' '] + d + reason);
    OccursAtExtend(version, [' '] + d + reason, "HTTP/", v);
  }

  /** The status comes from the first line only: without `"HTTP/"` there,
      the status is 200 whatever later header lines say. */
  lemma StatusWithoutMarker(line: string, rest: string, sep: string)
    requires sep == "\r\n" || sep == "\n"
    requires '\n' !in line && !Contains(line, "HTTP/")
    requires rest == [] || (|rest| >= |sep| && rest[..|sep|] == sep)
    ensures ExtractStatus(line + rest, sep) == 200
  {
    StatusLineOfFirstLine(line, rest, sep);
  }

  /** A second word that `int()` rejects leaves the status at 200. */
  lemma StatusOfNonNumericCode(version: string, word: string, reason: string, rest: string, sep: string)
    requires sep == "\r\n" || sep == "\n"
    requires version != [] && NoSpace(version)
    requires word != [] && NoSpace(word) && PyInt.IntFromString(word).None?
    requires (reason == [] || IsSpace(reason[0])) && '\n' !in reason
    requires rest == [] || (|rest| >= |sep| && rest[..|sep|] == sep)
    ensures ExtractStatus(version + " " + word + reason + rest, sep) == 200
  {
    var line := version + [' '] + word + reason;
    assert version + " " + word + reason + rest == line + rest;
    assert '\n' !in line by {
      assert forall i :: 0 <= i < |version| ==> version[i] != '\n';
      assert forall i :: 0 <= i < |word| ==> word[i] != '\n';
    }
    StatusLineOfFirstLine(line, rest, sep);
    FirstTwoWords(version, ' ', word, reason);
  }

  /* ----- build_error_response ----- */

  /** `"\n".join(lines)`. */
  function JoinLines(lines: seq<string>): string
    requires |lines| > 0
  {
    if |lines| == 1 then lines[0] else lines[0] + "\n" + JoinLines(lines[1..])
  }

  /** Header lines: at least one, none empty, none holding a line break. */
  predicate HeaderLines(lines: seq<string>) {
    |lines| > 0 && forall i :: 0 <= i < |lines| ==> lines[i] != [] && LineFree(lines[i])
  }

  /** Joined header lines hold no `'\r'` and no blank line, and neither
      start nor end with `'\n'`. */
  lemma {:induction false} JoinedLinesHaveNoBlank(lines: seq<string>)
    requires HeaderLines(lines)
    ensures var t := JoinLines(lines);
      && t != [] && '\r' !in t && t[0] != '\n' && t[|t| - 1] != '\n'
      && forall j :: 0 <= j < |t| - 1 ==> !(t[j] == '\n' && t[j + 1] == '\n')
    decreases |lines|
  {
    var l := lines[0];
    assert l != [] && LineFree(l);
    assert forall i :: 0 <= i < |l| ==> l[i] != '\n' by {
      forall i | 0 <= i < |l| ensures l[i] != '\n' { assert l[i] in l; }
    }
    if |lines| > 1 {
      var tail := lines[1..];
      assert forall i :: 0 <= i < |tail| ==> tail[i] == lines[i + 1];
      JoinedLinesHaveNoBlank(tail);
      var u := JoinLines(tail);
      var t := l + "\n" + u;
      assert t == JoinLines(lines);
      forall j | 0 <= j < |t| - 1 ensures !(t[j] == '\n' && t[j + 1] == '\n') {
        if j > |l| {
          assert t[j] == u[j - |l| - 1] && t[j + 1] == u[j - |l|];
        } else if j == |l| {
          assert t[j + 1] == u[0];
        } else {
          assert t[j] == l[j];
        }
      }
      assert t[|t| - 1] == u[|u| - 1];
    }
  }

  /** Header lines joined with `'\n'`, a blank line and a body without
      `'\r'` split back into the header block and the body, at `"\n\n"`. */
  lemma SplitOfJoinedLines(lines: seq<string>, body: string)
    requires HeaderLines(lines) && '\r' !in body
    ensures SplitResponse(JoinLines(lines) + LfBlank + body)
      == Some(Framing(JoinLines(lines), "\n", body))
  {
    var t := JoinLines(lines);
    var s := t + LfBlank + body;
    JoinedLinesHaveNoBlank(lines);
    NotContainsWithout(s, CrlfBlank, 0);
    assert "\n" + "\n" == LfBlank;
    assert s[..|t|] == t && s[|t|..|t| + 2] == LfBlank && s[|t| + 2..] == body;
    forall j | 0 <= j < |t| ensures !OccursAt(s, LfBlank, j) {
      assert s[j] == t[j];
      if j + 1 < |t| {
        assert s[j + 1] == t[j + 1];
      }
      assert s[j..j + 2] == [s[j], s[j + 1]];
    }
    SplitResponseAt(s, "\n", |t|);
  }

  /** The fixed lines of the 500 response hold no line break. */
  lemma StatusLine500Free()
    ensures LineFree(StatusLine500)
  {
  }

  lemma ContentTypeJsonFree()
    ensures LineFree(ContentTypeJson)
  {
  }

  lemma ConnectionCloseFree()
    ensures LineFree(ConnectionClose)
  {
  }

  /** The lines of the 500 response's header block. */
  function ErrorHeadLines(size: nat): seq<string> {
    [StatusLine500, ContentTypeJson, ContentLengthLine(size), ConnectionClose]
  }

  /** The header block of the 500 response is four header lines. */
  lemma ErrorHeadIsLines(size: nat)
    ensures HeaderLines(ErrorHeadLines(size))
    ensures ErrorHead(size) == JoinLines(ErrorHeadLines(size))
  {
    ContentLengthLineFree(size);
    StatusLine500Free();
    ContentTypeJsonFree();
    ConnectionCloseFree();
    JoinFour(StatusLine500, ContentTypeJson, ContentLengthLine(size), ConnectionClose);
  }

  /** Four lines joined with `'\n'`. */
  lemma JoinFour(a: string, b: string, c: string, d: string)
    ensures JoinLines([a, b, c, d]) == a + "\n" + b + "\n" + c + "\n" + d
  {
    assert [c, d][1..] == [d];
    assert JoinLines([c, d]) == c + "\n" + d;
    assert [b, c, d][1..] == [c, d];
    assert JoinLines([b, c, d]) == b + "\n" + (c + "\n" + d);
    assert [a, b, c, d][1..] == [b, c, d];
    assert JoinLines([a, b, c, d]) == a + "\n" + (b + "\n" + (c + "\n" + d));
  }

  /** `str(500) == "500"`. */
  lemma Decimal500()
    ensures PyInt.IntToDecimal(500) == "500"
  {
    assert PyInt.NatToDecimal(5) == "5";
    assert PyInt.NatToDecimal(50) == "50";
  }

  /** The 500 response is framed like every other response: it splits at
      its blank line into the fixed header block and the JSON body. */
  lemma ErrorResponseSplits(message: string)
    ensures var r := BuildErrorResponse(message);
      SplitResponse(r.response) == Some(Framing(ErrorHead(r.size), "\n", ErrorBody(message)))
  {
    var r := BuildErrorResponse(message);
    var body := ErrorBody(message);
    Json.DumpsObjectPrintable([("error", "Internal Server Error: " + message), ("status", "error")]);
    assert '\r' !in body by {
      forall i | 0 <= i < |body| ensures body[i] != '\r' { }
    }
    ErrorHeadIsLines(r.size);
    SplitOfJoinedLines(ErrorHeadLines(r.size), body);
  }

  /** The status line of the 500 response, split into its words. */
  lemma StatusLine500Words()
    ensures StatusLine500 == "HTTP/1.1" + " " + PyInt.IntToDecimal(500) + " Internal Server Error"
    ensures NoSpace("HTTP/1.1") && Contains("HTTP/1.1", "HTTP/")
  {
    Decimal500();
    assert OccursAt("HTTP/1.1", "HTTP/", 0);
  }

  /** The status line of the 500 response reads back as status 500. */
  lemma ErrorResponseStatus(size: nat)
    ensures ExtractStatus(ErrorHead(size), "\n") == 500
  {
    var rest := "\n" + ContentTypeJson + "\n" + ContentLengthLine(size) + "\n" + ConnectionClose;
    FirstLineThenRest(StatusLine500, ContentTypeJson, ContentLengthLine(size), ConnectionClose);
    StatusLine500Words();
    StatusOfStatusLine("HTTP/1.1", 500, " Internal Server Error", rest, "\n");
  }

  /** Four lines joined with `'\n'` are the first line followed by the rest,
      which starts with `'\n'`. */
  lemma FirstLineThenRest(a: string, b: string, c: string, d: string)
    ensures a + "\n" + b + "\n" + c + "\n" + d == a + ("\n" + b + "\n" + c + "\n" + d)
  {
  }

  /** The two keys and the fixed value of the 500 body need no escaping. */
  lemma QuoteError()
    ensures Json.Quote("error") == "\"error\""
  {
    Json.EscapePlain("error");
  }

  lemma QuoteStatus()
    ensures Json.Quote("status") == "\"status\""
  {
    Json.EscapePlain("status");
  }

  /** The second member of the 500 body. */
  lemma StatusMember()
    ensures Json.Members([("status", "error")]) == "\"status\": \"error\""
  {
    QuoteError();
    QuoteStatus();
  }

  /** The members of the 500 body, one after the other. */
  lemma ErrorMembers(text: string)
    ensures Json.Members([("error", text), ("status", "error")])
      == Json.Quote("error") + ": " + Json.Quote(text) + (", " + Json.Members([("status", "error")]))
  {
    var members := [("error", text), ("status", "error")];
    assert members[1..] == [("status", "error")];
  }

  /** The fixed text of the 500 body before and after the message. */
  const ErrorBodyPrefix: string := "{\"error\": "
  const ErrorBodySuffix: string := ", \"status\": \"error\"}"

  lemma ErrorBodyAffixes()
    ensures "{" + "\"error\"" + ": " == ErrorBodyPrefix
    ensures ", " + "\"status\": \"error\"" + "}" == ErrorBodySuffix
  {
  }

  /** The JSON body of the 500 response: the `error` member holds the
      message after `"Internal Server Error: "` as a JSON string that
      decodes back to exactly that text, and the `status` member is
      `"error"`. */
  lemma ErrorBodyCarriesMessage(message: string)
    ensures var q := Json.Quote("Internal Server Error: " + message);
      && ErrorBody(message) == ErrorBodyPrefix + q + ErrorBodySuffix
      && Json.Unquote(q) == Some("Internal Server Error: " + message)
  {
    var text := "Internal Server Error: " + message;
    ErrorBodyShape(text);
    Json.UnquoteQuote(text);
  }

  /** The 500 body around the quoted error text. */
  lemma ErrorBodyShape(text: string)
    ensures Json.DumpsObject([("error", text), ("status", "error")])
      == ErrorBodyPrefix + Json.Quote(text) + ErrorBodySuffix
  {
    var q := Json.Quote(text);
    var x := Json.Quote("error");
    var y := Json.Members([("status", "error")]);
    ErrorMembers(text);
    QuoteError();
    StatusMember();
    ErrorBodyAffixes();
    Enclose(x, q, y);
  }

  lemma Enclose(x: string, q: string, y: string)
    ensures "{" + (x + ": " + q + (", " + y)) + "}" == ("{" + x + ": ") + q + (", " + y + "}")
  {
  }

  /* ----- process_with_ai ----- */

  /** The `Content-Length` value reads back with `int()` as the size it was
      written for. */
  lemma ContentLengthReadsBack(n: nat)
    requires |PyInt.NatToDecimal(n)| <= PyInt.MaxStrDigits
    ensures ContentLengthLine(n) == "Content-Length: " + PyInt.IntToDecimal(n)
    ensures PyInt.IntFromString(PyInt.IntToDecimal(n)) == Some(n)
  {
    PyInt.IntFromDecimal(n);
  }

  /** `FrameResponse` on a completion that splits, written out. */
  lemma FrameResponseOfSplit(text: string, f: Framing)
    requires SplitResponse(Strip(text)) == Some(f)
    ensures FrameResponse(text) == Ok(Reply(
      f.header + f.lineSep + ContentLengthLine(Utf8.Length(f.body)) + f.lineSep + f.lineSep + f.body,
      ExtractStatus(f.header, f.lineSep),
      Utf8.Length(f.body)))
  {
  }

  /** `ProcessWithAi` on a completion text that splits, written out. */
  lemma ProcessWithAiOfSplit(text: string, f: Framing)
    requires SplitResponse(Strip(text)) == Some(f)
    ensures ProcessWithAi(Text(text)) == Reply(
      f.header + f.lineSep + ContentLengthLine(Utf8.Length(f.body)) + f.lineSep + f.lineSep + f.body,
      ExtractStatus(f.header, f.lineSep),
      Utf8.Length(f.body))
  {
    FrameResponseOfSplit(text, f);
  }

  /** A framed reply splits again, with the same convention, into the
      completion's header block followed by the inserted `Content-Length`
      line, and the completion's body unchanged, whose UTF-8 encoding is
      `size` bytes long. The header block is kept verbatim, including any
      `Content-Length` line it already had. */
  lemma FramedResponseResplits(text: string, f: Framing, r: Reply)
    requires SplitResponse(Strip(text)) == Some(f)
    requires FrameResponse(text) == Ok(r)
    ensures r.response == f.header + f.lineSep + ContentLengthLine(r.size) + f.lineSep + f.lineSep + f.body
    ensures SplitResponse(r.response)
      == Some(Framing(f.header + f.lineSep + ContentLengthLine(r.size), f.lineSep, f.body))
    ensures r.size == |Utf8.Encode(f.body)|
    ensures r.status == ExtractStatus(f.header, f.lineSep)
  {
    FrameResponseOfSplit(text, f);
    ResplitWithContentLength(Strip(text), f, Utf8.Length(f.body));
    Utf8.EncodeLength(f.body);
  }

  /** Inserting a `Content-Length` line after the header block of a split
      text leaves the split at the same blank line. */
  lemma ResplitWithContentLength(t: string, f: Framing, n: nat)
    requires SplitResponse(t) == Some(f)
    ensures SplitResponse(f.header + f.lineSep + ContentLengthLine(n) + f.lineSep + f.lineSep + f.body)
      == Some(Framing(f.header + f.lineSep + ContentLengthLine(n), f.lineSep, f.body))
  {
    SplitResponseShape(t, f);
    var line := ContentLengthLine(n);
    ContentLengthLineFree(n);
    SplitAfterInsertedLine(f.header, f.lineSep, line, f.body);
  }

  /** The last character of the inserted `Content-Length` line is a digit. */
  lemma ContentLengthLineEnd(n: nat)
    ensures var c := ContentLengthLine(n); PyInt.IsDigit(c[|c| - 1])
  {
    var d := PyInt.NatToDecimal(n);
    assert ContentLengthLine(n)[|ContentLengthLine(n)| - 1] == d[|d| - 1];
  }

  /** The 500 header block ends with `Connection: close`. */
  lemma ErrorHeadEnd(n: nat)
    ensures var h := ErrorHead(n); h[|h| - 1] == 'e'
  {
    var h := ErrorHead(n);
    assert h[|h| - 1] == ConnectionClose[|ConnectionClose| - 1];
  }

  /** A completion text yields the 500 fallback for `"Invalid HTTP format"`
      exactly when its stripped text holds neither `"\r\n\r\n"` nor
      `"\n\n"`. */
  lemma FallbackExactlyWithoutBlankLine(text: string)
    ensures ProcessWithAi(Text(text)) == BuildErrorResponse(InvalidFormat)
      <==> !Contains(Strip(text), CrlfBlank) && !Contains(Strip(text), LfBlank)
  {
    var t := Strip(text);
    if SplitResponse(t).Some? {
      var f := SplitResponse(t).value;
      var r := FrameResponse(text).value;
      var e := BuildErrorResponse(InvalidFormat);
      FramedResponseResplits(text, f, r);
      ErrorResponseSplits(InvalidFormat);
      var h := f.header + f.lineSep + ContentLengthLine(r.size);
      ContentLengthLineEnd(r.size);
      assert h[|h| - 1] == ContentLengthLine(r.size)[|ContentLengthLine(r.size)| - 1];
      ErrorHeadEnd(e.size);
      assert h != ErrorHead(e.size);
      assert r.response != e.response;
    }
  }

  /** Blank lines that `strip()` removes do not count: a completion whose
      only blank lines are in its leading or trailing whitespace yields the
      500 fallback. */
  lemma StrippedBlankLinesIgnored(w1: string, t: string, w2: string)
    requires AllSpace(w1) && AllSpace(w2)
    requires t == [] || (!IsSpace(t[0]) && !IsSpace(t[|t| - 1]))
    requires !Contains(t, CrlfBlank) && !Contains(t, LfBlank)
    ensures ProcessWithAi(Text(w1 + t + w2)) == BuildErrorResponse(InvalidFormat)
  {
    StripOfPadded(w1, t, w2);
  }

  /** `t` ends with `suffix`. */
  predicate EndsWith(t: string, suffix: string) {
    |suffix| <= |t| && t[|t| - |suffix|..] == suffix
  }

  /** A well-framed reply: it splits at its first blank line; the size is
      the UTF-8 length of the body that follows it; the header block either
      is the fixed 500 block, with status 500, or ends with a
      `Content-Length` line for that size. */
  predicate WellFramed(r: Reply) {
    && SplitResponse(r.response).Some?
    && var f := SplitResponse(r.response).value;
    && Utf8.Length(f.body) == r.size
    && (|| (f.header == ErrorHead(r.size) && r.status == 500)
        || EndsWith(f.header, f.lineSep + ContentLengthLine(r.size)))
  }

  /** `x + y + z` ends with `y + z`. */
  lemma EndsWithTail(x: string, y: string, z: string)
    ensures EndsWith(x + y + z, y + z)
  {
    var t := x + y + z;
    assert t == x + (y + z);
    assert t[|x|..] == y + z;
  }

  /** The 500 reply is well framed. */
  lemma ErrorResponseWellFramed(message: string)
    ensures WellFramed(BuildErrorResponse(message))
  {
    ErrorResponseSplits(message);
  }

  /** A framed completion is well framed. */
  lemma FramedResponseWellFramed(text: string, r: Reply)
    requires FrameResponse(text) == Ok(r)
    ensures WellFramed(r)
  {
    var f := SplitResponse(Strip(text)).value;
    FramedResponseResplits(text, f, r);
    EndsWithTail(f.header, f.lineSep, ContentLengthLine(r.size));
    Utf8.EncodeLength(f.body);
  }

  /** Every reply, whatever the completion's outcome, is well framed, and a
      failed completion call gives the 500 reply carrying the call's
      message. */
  lemma ProcessWithAiWellFramed(c: Completion)
    ensures WellFramed(ProcessWithAi(c))
    ensures c.Failed? ==> ProcessWithAi(c) == BuildErrorResponse(c.message)
  {
    match c
    case Failed(m) =>
      ErrorResponseWellFramed(m);
    case Text(text) =>
      match FrameResponse(text)
      case Err(m) =>
        ErrorResponseWellFramed(m);
      case Ok(r) =>
        FramedResponseWellFramed(text, r);
  }

  /* ----- a worked example ----- */

  const StatusLine200: string := "HTTP/1.1 200 OK"
  const ContentTypeText: string := "Content-Type: text/plain"

  lemma StatusLine200Free()
    ensures LineFree(StatusLine200)
  {
  }

  lemma ContentTypeTextFree()
    ensures LineFree(ContentTypeText)
  {
  }

  /** The header lines of the example completion. */
  function ExampleLines(): seq<string> {
    [StatusLine200, ContentTypeText, ConnectionClose]
  }

  /** `str(200) == "200"`. */
  lemma Decimal200()
    ensures PyInt.IntToDecimal(200) == "200"
  {
    assert PyInt.NatToDecimal(2) == "2";
    assert PyInt.NatToDecimal(20) == "20";
  }

  /** The status line of the example, split into its words. */
  lemma StatusLine200Words()
    ensures StatusLine200 == "HTTP/1.1" + " " + PyInt.IntToDecimal(200) + " OK"
    ensures NoSpace("HTTP/1.1") && Contains("HTTP/1.1", "HTTP/")
  {
    Decimal200();
    assert OccursAt("HTTP/1.1", "HTTP/", 0);
  }

  /** The example's header block reads as status 200. */
  lemma ExampleStatus()
    ensures ExtractStatus(JoinLines(ExampleLines()), "\n") == 200
  {
    var rest := "\n" + ContentTypeText + "\n" + ConnectionClose;
    JoinThree(StatusLine200, ContentTypeText, ConnectionClose);
    StatusLine200Words();
    assert JoinLines(ExampleLines()) == "HTTP/1.1" + " " + PyInt.IntToDecimal(200) + " OK" + rest;
    StatusOfStatusLine("HTTP/1.1", 200, " OK", rest, "\n");
  }

  /** Three lines joined with `'\n'`. */
  lemma JoinThree(a: string, b: string, c: string)
    ensures JoinLines([a, b, c]) == a + "\n" + b + "\n" + c
  {
    assert [b, c][1..] == [c];
    assert JoinLines([b, c]) == b + "\n" + c;
    assert [a, b, c][1..] == [b, c];
    assert JoinLines([a, b, c]) == a + "\n" + (b + "\n" + c);
  }

  /** The example completion splits into its header block and `hello`. */
  lemma ExampleSplits()
    ensures var t := JoinLines(ExampleLines()) + LfBlank + "hello";
      && Strip(t) == t
      && SplitResponse(t) == Some(Framing(JoinLines(ExampleLines()), "\n", "hello"))
  {
    var lines := ExampleLines();
    StatusLine200Free();
    ContentTypeTextFree();
    ConnectionCloseFree();
    assert HeaderLines(lines);
    SplitOfJoinedLines(lines, "hello");
    var h := JoinLines(lines);
    var t := h + LfBlank + "hello";
    JoinThree(StatusLine200, ContentTypeText, ConnectionClose);
    assert t[0] == StatusLine200[0] == 'H' && t[|t| - 1] == 'o';
    StripOfSolid(t);
  }

  /** `hello` is five bytes of UTF-8. */
  lemma HelloSize()
    ensures Utf8.Length("hello") == 5
  {
    Utf8.LengthOfAscii("hello");
  }

  /** A completion `HTTP/1.1 200 OK`, `Content-Type: text/plain`,
      `Connection: close`, a blank line and `hello` gives that header block
      with `Content-Length: 5` added, the body `hello`, status 200 and size
      5. */
  lemma ExampleHello(h: string)
    requires h == JoinLines(ExampleLines())
    ensures ProcessWithAi(Text(h + LfBlank + "hello"))
      == Reply(h + "\n" + ContentLengthLine(5) + "\n\n" + "hello", 200, 5)
    ensures ContentLengthLine(5) == "Content-Length: 5"
  {
    var t := h + LfBlank + "hello";
    var line := ContentLengthLine(5);
    assert ProcessWithAi(Text(t)) == Reply(h + "\n" + line + "\n" + "\n" + "hello", 200, 5) by {
      var f := Framing(h, "\n", "hello");
      ExampleSplits();
      assert SplitResponse(Strip(t)) == Some(f);
      ProcessWithAiOfSplit(t, f);
      ExampleStatus();
      HelloSize();
    }
    LfTwice(h + "\n" + line, "hello");
    ContentLength5();
  }

  lemma LfTwice(x: string, y: string)
    ensures x + "\n" + "\n" + y == x + "\n\n" + y
  {
    assert "\n" + "\n" == "\n\n";
  }

  /** `f"Content-Length: {5}"`. */
  lemma ContentLength5()
    ensures ContentLengthLine(5) == "Content-Length: 5"
  {
    assert PyInt.NatToDecimal(5) == "5";
  }
}
