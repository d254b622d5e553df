# AI response server: request-line parsing and response framing

This project models the text handling at the heart of `main.py`, a TCP server
that forwards each raw request to a language-model completion API and relays
the completion back as an HTTP response. It models three functions:

- `parse_request_line`: method and path for the access log.
- `build_error_response`: the fixed 500 response with a JSON body.
- The framing part of `process_with_ai`:
  - strip the completion;
  - cut it at its first blank line, where `"\r\n\r\n"` wins over `"\n\n"`;
  - insert a `Content-Length` line holding the body's UTF-8 size;
  - read the status code from the first header line.

The completion call itself is an input, `Server.Completion`. It is either the
text of the completion's first content block, or the message of the exception
the call raised. Every failure becomes the 500 reply carrying that message,
as the `except` clause of `process_with_ai` does.

The Python string operations the code relies on are modelled on their own:

- `PyText`:
  - `str.isspace` over CPython's full whitespace set;
  - `strip()`;
  - `in`;
  - `split(sep)[0]`, `split(sep, 1)` and `split()`.
- `PyInt`:
  - `str(n)`;
  - `int(s)`, with a sign, underscores between digits, CPython's
    4300-digit limit, and the surrounding whitespace CPython skips there:
    every `str.isspace` character except U+001C to U+001F.
- `Utf8`: `len(s.encode('utf-8'))`.
- `Json`:
  - `json.dumps` of a flat object of strings with `ensure_ascii`;
  - a decoder for the strings it writes.

Modules:

- `results.dfy`: `Option` and `Result`.
- `pytext.dfy`, `pyint.dfy`, `utf8.dfy`, `json.dfy`: the Python primitives.
- `server.dfy`: the three functions of `main.py`.
- `server_props.dfy`: what the code promises about them.

Two details of the framed response, as `main.py` writes it:

- The header block is kept verbatim, so a `Content-Length` line the
  completion already carries stays next to the inserted one
  (`ServerProperties.FramedResponseResplits` states the verbatim header).
- The separator is written twice before the body, so the blank line
  between the inserted `Content-Length` line and the body survives.

## Model

| member | source | states |
|---|---|---|
| Server.ParseRequestLine | main.py:27-34 | both returned words are non-empty and free of whitespace |
| ServerProperties.ParseRequestLineWords | main.py:29-34 | the result is the first two whitespace-separated words of the text before the first `'\n'`, or `("UNKNOWN", "/")` when there are fewer than two; stripping the line first changes nothing |
| ServerProperties.ParseRequestLineOfRequest | main.py:27-34 | a request `method SP path ...` yields exactly `(method, path)`, whatever follows on that line or on later lines |
| ServerProperties.ParseRequestLineIgnoresLaterLines | main.py:29-31 | text after the first `'\n'` never changes the result |
| ServerProperties.ParseRequestLineSentinels | main.py:30-34 | the empty request, and any first line of fewer than two words, give `("UNKNOWN", "/")` |
| ServerProperties.ParseRequestLineOfLine | main.py:29-34 | a single line is read by its words alone |
| Server.BuildErrorResponse | main.py:37-45 | status 500; size is the UTF-8 length of the JSON body, which equals its character count; the response is the 500 header block, a blank line and the body |
| ServerProperties.ErrorResponseSplits | main.py:44 | the 500 response splits, at `"\n\n"`, back into its four-line header block and the JSON body |
| ServerProperties.ErrorResponseStatus | main.py:44 | the status line of the 500 header block reads back as status 500 |
| ServerProperties.ErrorBodyCarriesMessage | main.py:39-42 | the body is `{"error": q, "status": "error"}`, where `q` decodes back to `"Internal Server Error: "` followed by the message |
| ServerProperties.ErrorHeadIsLines | main.py:44 | the 500 header block is four lines, none empty, none holding a line break |
| ServerProperties.ErrorResponseWellFramed | main.py:37-45 | the 500 reply is well framed: it splits, its size is its body's UTF-8 length, and its header is the fixed 500 block |
| Server.SplitResponse | main.py:75-82 | no split exactly when neither blank line occurs; otherwise `"\r\n"` is the separator exactly when `"\r\n\r\n"` occurs anywhere, the text is header + blank line + body, and the header holds no earlier occurrence of that blank line |
| ServerProperties.SplitResponseAt | main.py:75-80 | a text is cut at `k` whenever `k` is the first occurrence of the chosen blank line and, for `"\n"`, no `"\r\n\r\n"` occurs |
| ServerProperties.CrlfBlankWins | main.py:75-77 | the first `"\r\n\r\n"` wins even when `"\n\n"` occurs before it |
| ServerProperties.SplitOfJoinedLines | main.py:78-80 | header lines joined by `'\n'`, a blank line and a body without `'\r'` split back into that header block and that body |
| ServerProperties.JoinedLinesHaveNoBlank | main.py:78-80 | joined header lines hold no `'\r'`, no blank line, and neither start nor end with `'\n'` |
| ServerProperties.SplitAfterInsertedLine | main.py:86 | after a line without line breaks is inserted before the first blank line, that blank line is still the first one, and the body comes back unchanged |
| ServerProperties.FramedResponseResplits | main.py:73-98 | the framed response is the header, the `Content-Length` line and the body; it splits again, with the same separator, into the header plus that line and the unchanged body; the size is the body's UTF-8 byte count; the status is the one read from the header |
| ServerProperties.ContentLengthReadsBack | main.py:84-86 | the inserted value is `str(size)`, and `int()` reads it back as `size` |
| ServerProperties.ContentLengthLineFree | main.py:86 | the inserted `Content-Length` line is non-empty and holds no line break |
| Server.StatusLine | main.py:89 | the status line is a prefix of the header block: up to the first `line_sep` when the block holds one, otherwise up to its first `'\n'` or its end |
| Server.ExtractStatus | main.py:88-96 | when the status line mentions `"HTTP/"` and `int()` accepts its second word, that value is the status, whatever it is; every other status is 200 |
| ServerProperties.StatusLineOfFirstLine | main.py:89 | the status line is the header's first line, for either separator |
| ServerProperties.StatusOfStatusLine | main.py:88-96 | a line `version SP code reason` whose version mentions `"HTTP/"` yields `code` for every integer code within the digit limit, negative codes and codes above 599 included |
| ServerProperties.StatusWithoutMarker | main.py:90 | without `"HTTP/"` on the first line the status is 200, whatever later lines say |
| ServerProperties.StatusOfNonNumericCode | main.py:93-96 | a second word that `int()` rejects gives status 200 |
| Server.FrameResponse | main.py:73-98 | the framing fails, with the `"Invalid HTTP format"` error, exactly when the stripped completion holds neither `"\r\n\r\n"` nor `"\n\n"`; on success the size is the UTF-8 length of the text after the first blank line (`FramedResponseResplits` states the whole response) |
| Server.ProcessWithAi | main.py:48-103 | a failed completion call gives the 500 reply for its message, a framing failure the 500 reply for `"Invalid HTTP format"`, a framed completion its framed reply; a status other than 500 only comes from a framed completion |
| ServerProperties.FallbackExactlyWithoutBlankLine | main.py:73-103 | a completion gets the 500 reply for `"Invalid HTTP format"` if and only if its stripped text holds neither `"\r\n\r\n"` nor `"\n\n"` |
| ServerProperties.StrippedBlankLinesIgnored | main.py:73-82 | a blank line that exists only in the whitespace `strip()` removes does not count |
| ServerProperties.ProcessWithAiWellFramed | main.py:48-103 | every reply, framed or fallback, is well framed; a failed completion call gives exactly the 500 reply for its message |
| ServerProperties.FramedResponseWellFramed | main.py:84-98 | a framed completion is well framed: its header ends with the inserted `Content-Length` line for its size |
| ServerProperties.ExampleHello | main.py:73-98 | the completion `HTTP/1.1 200 OK`, `Content-Type: text/plain`, `Connection: close`, blank line, `hello` gives that header plus `Content-Length: 5`, body `hello`, status 200, size 5 |
| PyText.Strip | main.py:73 | the result is a slice of the input with only whitespace around it, and it neither starts nor ends with whitespace |
| PyText.StripOfPadded | main.py:73 | `strip()` is determined by that property: whitespace around a text that neither starts nor ends with whitespace is removed, nothing else |
| PyText.StripIdempotent | main.py:31 | `s.strip().strip() == s.strip()` |
| PyText.Find | main.py:75 | the result is the first occurrence of the pattern, or `None` when none exists |
| PyText.Before | main.py:29 | `s.split(p)[0]`: a prefix of `s` with no occurrence of `p` that ends at the first occurrence of `p` or at the end of `s` |
| PyText.SplitOnce | main.py:76 | `s.split(p, 1)`: none when `p` does not occur, otherwise the text before the first occurrence and the text after it, which concatenate back to `s` |
| PyText.SplitWhitespace | main.py:91 | every word of `split()` is non-empty and free of whitespace |
| PyText.SplitWhitespaceAtSpace | main.py:31 | any whitespace character separates: the words of `a + [c] + b` are those of `a`, then those of `b` |
| PyText.SplitWhitespaceOfStrip | main.py:31 | `s.strip().split() == s.split()` |
| PyText.SplitWhitespaceOfWord | main.py:91 | a non-empty text without whitespace is one word |
| PyText.SplitWhitespaceOfSpaces | main.py:31 | whitespace alone yields no words |
| PyText.BeforeLineBreakConcat | main.py:29 | `(x + y).split('\n')[0]` is `x` followed by `y.split('\n')[0]` when `x` holds no `'\n'` |
| PyText.OccursAtAround | main.py:75-80 | an occurrence of a pattern in `a + m + b`, where no character of `m` occurs in the pattern, lies wholly inside `a` or wholly inside `b` |
| PyInt.NatToDecimal | main.py:86 | `str(n)` is a non-empty digit string without leading zeros, and its digits denote `n` |
| PyInt.ScanDigitsMeaning | main.py:94 | `int()` accepts exactly digit runs with single underscores between digits, and reads their digits with the underscores dropped |
| PyInt.IntFromString | main.py:94 | `int()` accepts exactly an optional sign and digits with single underscores between digits, within the 4300-digit limit, after skipping surrounding whitespace other than U+001C to U+001F, and yields their value, negated after `-` |
| PyInt.IntFromPadded | main.py:94 | `int()` skips a space, a line break and U+00A0 around the number, and raises for a leading U+001C |
| PyInt.IntFromDecimal | main.py:94 | `int(str(n)) == n` for every integer within the 4300-digit limit |
| PyInt.IntFromDigits | main.py:94 | a run of ASCII digits within the limit reads as its value |
| PyInt.IntFromNegatedDigits | main.py:94 | a minus sign and digits read as the negated value |
| Utf8.EncodeLength | main.py:84-85 | the byte count used for `Content-Length` is the length of the UTF-8 encoding |
| Utf8.LengthBounds | main.py:84-85 | each character takes one to four bytes |
| Utf8.LengthConcat | main.py:84-85 | the byte length of a concatenation is the sum of the byte lengths |
| Utf8.LengthOfAscii | main.py:43-45 | ASCII text takes one byte per character |
| Json.UnquoteQuote | main.py:39-42 | a string written by `json.dumps` decodes back to itself |
| Json.UnescapeEscape | main.py:39-42 | decoding undoes the escaping of every string, including surrogate pairs above `U+FFFF` |
| Json.Hex4RoundTrip | main.py:39-42 | a `\uXXXX` escape reads back as the code unit it was written for |
| Json.DumpsObjectPrintable | main.py:39-42 | with `ensure_ascii`, the body is printable ASCII, so it holds no line break |
| Json.EscapePlain | main.py:39-42 | printable ASCII other than `"` and `\` is copied unchanged |

## Left out

- `handle_client` and `start_server`: socket accept, `recv(4096)`, UTF-8
  decoding of the request, `sendall` and `close` are I/O and are not part of
  this model.
- The prompt text and the call to the completion API: the call's outcome is
  the input `Server.Completion`.
- Every way the call can fail folds into `Completion.Failed(message)`:
  - an exception raised by the client;
  - an empty `message.content`;
  - a first block without `.text`.
  The message stands for `str(e)`.
- Loading `.env`, the API-key check at import, and `logging`: process
  configuration and side effects.
- Timing (`time.time()`): a clock.
- `int()` also accepts non-ASCII decimal digits, such as Arabic-Indic or
  full-width digits. The model accepts ASCII digits only, so a status token
  written in other digits reads as 200 here.
- `PYTHONINTMAXSTRDIGITS` and `sys.set_int_max_str_digits` can change the
  4300-digit limit. The model uses CPython's default.
- `PyInt.IntFromDecimal`: proved only within the 4300-digit limit. Past it,
  `str(n)` itself raises in CPython, and that path is not modelled.
- Lone surrogates: a Python `str` can hold them. A Dafny `char` cannot, so
  `encode('utf-8')` never fails in the model, and `json.dumps` never writes
  an unpaired `\ud800`-style escape.
- `Json.Unescape`: the decoder covers the strings `json.dumps` writes, for the
  round trip, and is not a full JSON parser. Whitespace and other value kinds
  are not modelled.
