/** The text handling of the AI response server (main.py): reading the
    method and path from a request, the fixed 500 response, and turning a
    model completion into the response text, status code and body size the
    connection handler sends and logs. The completion call itself is an
    input: either the completion's text or the message of the exception the
    call raised. */
module Server {
  import opened Results
  import opened PyText
  import PyInt
  import Utf8
  import Json

  /** What `process_with_ai` and `build_error_response` return: the
      response text, the status code, and the body size in bytes. */
  datatype Reply = Reply(response: string, status: int, size: nat)

  /** The outcome of the completion call: the text of its first content
      block, or `str(e)` for the exception it raised. */
  datatype Completion = Text(text: string) | Failed(message: string)

  /** A completion cut at its first blank line: the header block, the line
      separator in use (`"\r\n"` or `"\n"`), and the body. */
  datatype Framing = Framing(header: string, lineSep: string, body: string)

  const CrlfBlank: string := "\r\n\r\n"
  const LfBlank: string := "\n\n"

  /** The message of the `ValueError` raised for a completion without a
      blank line. */
  const InvalidFormat: string := "Invalid HTTP format"

  /** `parse_request_line`: the first two whitespace-separated words of the
      text before the first `'\n'`, or `("UNKNOWN", "/")` when that line has
      fewer than two. Both results are words: non-empty, without
      whitespace. */
  function ParseRequestLine(raw: string): (r: (string, string))
    ensures r.0 != [] && NoSpace(r.0)
    ensures r.1 != [] && NoSpace(r.1)
  {
    var parts := SplitWhitespace(Strip(Before(raw, "\n")));
    if |parts| >= 2 then
      assert parts[0] in parts && parts[1] in parts;
      (parts[0], parts[1])
    else
      ("UNKNOWN", "/")
  }

  /** The JSON body of the 500 response. */
  function ErrorBody(message: string): string {
    Json.DumpsObject([("error", "Internal Server Error: " + message), ("status", "error")])
  }

  /** `f"Content-Length: {n}"`. */
  function ContentLengthLine(n: nat): string {
    "Content-Length: " + PyInt.NatToDecimal(n)
  }

  const StatusLine500: string := "HTTP/1.1 500 Internal Server Error"
  const ContentTypeJson: string := "Content-Type: application/json"
  const ConnectionClose: string := "Connection: close"

  /** The header block of the 500 response for a body of `size` bytes. */
  function ErrorHead(size: nat): string {
    StatusLine500 + "\n" + ContentTypeJson + "\n" + ContentLengthLine(size) + "\n" + ConnectionClose
  }

  /** `build_error_response`: status 500, the JSON body carrying the
      message, and its size in bytes, which for this ASCII-only body is its
      number of characters. */
  function BuildErrorResponse(message: string): (r: Reply)
    ensures r.status == 500
    ensures r.size == Utf8.Length(ErrorBody(message)) == |ErrorBody(message)|
    ensures r.response == ErrorHead(r.size) + LfBlank + ErrorBody(message)
  {
    var body := ErrorBody(message);
    Json.DumpsObjectPrintable([("error", "Internal Server Error: " + message), ("status", "error")]);
    Utf8.LengthOfAscii(body);
    var size := Utf8.Length(body);
    Reply(ErrorHead(size) + LfBlank + body, 500, size)
  }

  /** The split of main.py:75-82: at the first `"\r\n\r\n"` if there is one
      anywhere, otherwise at the first `"\n\n"`, otherwise none. The header
      block holds no earlier occurrence of the blank line it was cut at. */
  function SplitResponse(text: string): (r: Option<Framing>)
    ensures r.None? <==> !Contains(text, CrlfBlank) && !Contains(text, LfBlank)
    ensures r.Some? ==>
      && r.value.lineSep == (if Contains(text, CrlfBlank) then "\r\n" else "\n")
      && var blank := r.value.lineSep + r.value.lineSep;
      && text == r.value.header + blank + r.value.body
      && forall j :: 0 <= j < |r.value.header| ==> !OccursAt(text, blank, j)
  {
    match SplitOnce(text, CrlfBlank)
    case Some((header, body)) => Some(Framing(header, "\r\n", body))
    case None =>
      match SplitOnce(text, LfBlank)
      case Some((header, body)) => Some(Framing(header, "\n", body))
      case None => None
  }

  /** main.py:89: the header block up to its first `lineSep` if it holds
      one, otherwise up to its first `'\n'`. */
  function StatusLine(header: string, lineSep: string): (line: string)
    requires lineSep != []
    ensures |line| <= |header| && line == header[..|line|]
    ensures Contains(header, lineSep) ==>
      && OccursAt(header, lineSep, |line|)
      && forall j :: 0 <= j < |line| ==> !OccursAt(header, lineSep, j)
    ensures !Contains(header, lineSep) ==>
      && (line == header || OccursAt(header, "\n", |line|))
      && forall j :: 0 <= j < |line| ==> !OccursAt(header, "\n", j)
  {
    if Contains(header, lineSep) then Before(header, lineSep) else Before(header, "\n")
  }

  /** main.py:88-96: the second word of the status line read with `int()`
      when the line mentions `"HTTP/"`, and 200 in every other case. Any
      status other than 200 therefore comes from such a line, and a second
      word that `int()` accepts is always the status, whatever its value. */
  function ExtractStatus(header: string, lineSep: string): (status: int)
    requires lineSep != []
    ensures var line := StatusLine(header, lineSep);
      var parts := SplitWhitespace(line);
      || status == 200
      || (Contains(line, "HTTP/") && |parts| >= 2 && PyInt.IntFromString(parts[1]) == Some(status))
    ensures var line := StatusLine(header, lineSep);
      var parts := SplitWhitespace(line);
      Contains(line, "HTTP/") && |parts| >= 2 && PyInt.IntFromString(parts[1]).Some? ==>
        status == PyInt.IntFromString(parts[1]).value
  {
    var line := StatusLine(header, lineSep);
    if !Contains(line, "HTTP/") then 200
    else
      var parts := SplitWhitespace(line);
      if |parts| < 2 then 200
      else
        match PyInt.IntFromString(parts[1])
        case Some(code) => code
        case None => 200
  }

  /** The framing part of `process_with_ai` (main.py:73-98), applied to the
      completion text: strip it, split it at its first blank line, insert a
      `Content-Length` line for the body's UTF-8 size, and read the status.
      A text without a blank line is the `ValueError` of main.py:82. */
  function FrameResponse(completion: string): (r: Result<Reply>)
    ensures r.Err? <==> !Contains(Strip(completion), CrlfBlank) && !Contains(Strip(completion), LfBlank)
    ensures r.Err? ==> r.message == InvalidFormat
    ensures r.Ok? ==> r.value.size == Utf8.Length(SplitResponse(Strip(completion)).value.body)
  {
    match SplitResponse(Strip(completion))
    case None => Err(InvalidFormat)
    case Some(Framing(header, lineSep, body)) =>
      var size := Utf8.Length(body);
      Ok(Reply(
        header + lineSep + ContentLengthLine(size) + lineSep + lineSep + body,
        ExtractStatus(header, lineSep),
        size))
  }

  /** `process_with_ai` with the completion call replaced by its outcome:
      every failure, of the call or of the framing, becomes the 500 reply
      carrying the failure's message, so a status other than 500 can only
      come from a framed completion. */
  function ProcessWithAi(completion: Completion): (r: Reply)
    ensures completion.Failed? ==> r == BuildErrorResponse(completion.message)
    ensures completion.Text? && FrameResponse(completion.text).Err? ==> r == BuildErrorResponse(InvalidFormat)
    ensures completion.Text? && FrameResponse(completion.text).Ok? ==> r == FrameResponse(completion.text).value
    ensures r.status != 500 ==> completion.Text? && FrameResponse(completion.text).Ok?
  {
    match completion
    case Failed(message) => BuildErrorResponse(message)
    case Text(text) =>
      match FrameResponse(text)
      case Ok(reply) => reply
      case Err(message) => BuildErrorResponse(message)
  }
}
