# s-control PC server: a Dafny model

The PC server of s-control lets a phone drive a desktop. It has two channels:

- **Remote control.** A TCP connection carries newline-terminated text commands: `move:dx,dy`, `left_click`, `right_click`, `scroll:down`/`scroll:up`, `text:…`, `key:…`, `media:…`, `down:…` and `up:…`. Each command becomes one call on the input-action library.
- **File transfer.** A small HTTP handler does two things. `GET /getfile` serves the file chosen in the server's window. `POST /upload` takes one file from a `multipart/form-data` body and saves it in the `uploads` folder.

This project models the logic of both channels as written in `pc-server/server.py` and proves what it does. The modules are:

- `Wrappers`: `Option` and `Result`.
- `Sequences`: the Python text operations the server uses, written once over sequences: `startswith`, `in`, `split`, `split(sep)[-1]`, `strip` and `rstrip` with a character set. `Find` (the leftmost occurrence) is what `in` and `split` are built on, and `Join` is the inverse of `split` used to state what it does.
- `Numerals`: `int()` and `str()` on integer literals.
- `Bytes`: bytes and ASCII literals. It also holds the well-formedness test that a strict UTF-8 `decode()` performs, together with the UTF-8 encoding of a character that the test is proved against in both directions.
- `Commands`: the command grammar and dispatcher (`process_command`).
- `Session`: the receive loop of one connection (`handle_client`).
  - The class `LineSession` holds the receive buffer. Its method `Feed` runs one round of the loop, including the inner `while "\n" in buffer` loop.
  - The method `HandleClient` runs the outer loop over the chunks `recv` returns.
- `Multipart`: the upload extraction of `do_POST`. It covers:
  - the boundary delimiter;
  - the first part that mentions `filename=`;
  - the header/payload cut at the first blank line;
  - the trailer `rstrip`;
  - the filename parameter.
- `Routes`: the GET and POST decisions, `os.path.basename`, `os.path.join`, the body read and the status codes.

Python exceptions are modelled explicitly:

- A `move:` payload that is not two integers gives the `Failure(MalformedMove)` result. It ends the session.
- An exception escaping `do_POST` gives the `Aborted` reply: no status line is sent. This covers a missing or non-numeric `Content-Length`, a `Content-Length` that `rfile.read` refuses (below -1 or above `sys.maxsize`), a missing `Content-Type`, a chosen part with no blank line or no `filename="`, and a filename that is not UTF-8.
- An exception escaping `do_GET` gives the `HeaderUnencodable` reply: `send_header` encodes header lines as latin-1, so an offered file whose name holds a character beyond U+00FF gets no response.

The code behaves as follows, and the model with it:

- The session buffer holds decoded text.
- Malformed upload headers or parts raise, which is modelled as `Aborted`. 400 is answered only when no part mentions `filename=`.
- At most `Content-Length` bytes are read: fewer when the client closes first, everything it sends for -1.
- The payload loses every trailing `-`, CR and LF byte: `rstrip` takes a set of bytes.
- An offered path that is the empty string counts as no file, because the code tests the path's truth value.

## Model

| member | source | states |
|---|---|---|
| Commands.Dispatch | pc-server/server.py:63-93 | A line either yields at most one action, or fails; a failing line starts with `move:`, the only branch that can raise |
| Commands.Move | pc-server/server.py:64-66 | A `move:` payload that is accepted yields exactly one relative move |
| Commands.ScrollAmount | pc-server/server.py:71-73 | A scroll amount is always -100 or +100 |
| Commands.Media | pc-server/server.py:80-87 | A `media:` payload presses at most one key |
| Commands.MoveLine | pc-server/server.py:64-66 | Take `move:a,b` where neither side holds a comma. It moves by (3a, 3b) exactly when both sides are integer literals; otherwise it is the failure |
| Commands.MoveOfIntegers | pc-server/server.py:64-66 | `move:` followed by `str(dx)`, a comma and `str(dy)` yields the single move (3·dx, 3·dy) for every pair of integers |
| Commands.MoveCommaCount | pc-server/server.py:65 | A payload with no comma or several commas is the failure, whatever its fields are |
| Commands.ClickWords | pc-server/server.py:67-70 | `left_click` and `right_click` click the left and the right button |
| Commands.ScrollSplits | pc-server/server.py:72 | Every `scroll:` line has a second colon-separated field, so it never raises IndexError |
| Commands.ScrollDirection | pc-server/server.py:72 | Take a scroll line whose token holds no colon and is followed by nothing or by a colon. Its second colon-separated field is that token |
| Commands.ScrollLine | pc-server/server.py:71-73 | `scroll:<tok>`, optionally followed by `:` and more, yields one scroll: -100 when the token is `down`, +100 for every other token |
| Commands.ScrollOpposite | pc-server/server.py:71-73 | `scroll:down` and `scroll:up` scroll by -100 and +100 |
| Commands.TextLine | pc-server/server.py:74-76 | `text:` types exactly the rest of the line after its 5 characters |
| Commands.KeyLine | pc-server/server.py:77-79 | `key:` presses exactly the rest of the line after its 4 characters |
| Commands.MediaLine | pc-server/server.py:80-87 | `media:play_pause`, `media:next` and `media:prev` press `playpause`, `nexttrack` and `prevtrack`. Any other payload does nothing and is not a failure |
| Commands.DownLine | pc-server/server.py:88-90 | `down:` holds down exactly the rest of the line after its 5 characters |
| Commands.UpLine | pc-server/server.py:91-93 | `up:` releases exactly the rest of the line after its 3 characters |
| Commands.UnknownLine | pc-server/server.py:63-93 | A line that is neither exact word and starts with none of the prefixes does nothing and is not a failure |
| Numerals.ParseInt | pc-server/server.py:65 | `int()` succeeds exactly on a non-empty string of ASCII digits with an optional leading `+` or `-` |
| Numerals.ParseSigned | pc-server/server.py:65 | A digit string reads as its decimal value; a leading `+` or a leading zero leaves the value unchanged, and a leading `-` negates it |
| Numerals.ParseFormat | pc-server/server.py:65 | `int(str(n)) == n` for every integer |
| Sequences.StartsWith | pc-server/server.py:64 | `s.startswith(prefix)`: the prefix is no longer than `s` and equals its first elements; every branch of the command chain tests it (lines 64, 71, 74, 77, 80, 88, 91) |
| Sequences.Find | pc-server/server.py:52-53 | The index found is an occurrence, and no earlier occurrence exists; None means there is no occurrence at all |
| Sequences.FindIsLeftmost | pc-server/server.py:52-53 | The leftmost occurrence is the one Find returns |
| Sequences.FindSingle | pc-server/server.py:52 | For a one-element separator, finding nothing means the element is absent (`"\n" in buffer`). Otherwise the index holds the first copy of the element |
| Sequences.Contains | pc-server/server.py:116 | `sep in s`: Find locates an occurrence of `sep` in `s` |
| Sequences.ContainsOccurs | pc-server/server.py:52 | `sep in s` holds exactly when `sep` occurs at some index of `s` |
| Sequences.Split | pc-server/server.py:53 | `split` gives at least one piece; SplitJoin and SplitShape say which pieces |
| Sequences.SplitJoin | pc-server/server.py:53 | Joining the pieces of a split with the separator gives the text back |
| Sequences.SplitShape | pc-server/server.py:114 | Every piece except the last ends where the first separator after it starts. The last piece holds no separator |
| Sequences.SplitUnique | pc-server/server.py:114 | Split is the only decomposition that joins back to the text and has that shape |
| Sequences.SplitSingleCount | pc-server/server.py:65 | Splitting at a single character gives one more piece than the character's number of occurrences |
| Sequences.LastPiece | pc-server/server.py:112 | `split(sep)[-1]` is the last piece of Split; LastPieceShape says what it is |
| Sequences.LastPieceShape | pc-server/server.py:112 | The last piece of a split holds no separator and ends the text. Unless it is the whole text, a separator comes just before it |
| Sequences.LastPieceAfter | pc-server/server.py:112 | The last piece of `a + [c] + b` split at `c`, where `b` holds no `c`, is `b` |
| Sequences.Strip | pc-server/server.py:54 | A stripped result that is not empty starts and ends outside the stripped set |
| Sequences.StripShape | pc-server/server.py:54 | Strip removes a run of stripped characters at each end and nothing else. It leaves nothing exactly when every character is in the set |
| Sequences.RStrip | pc-server/server.py:118 | `rstrip` keeps a prefix. Every element after it is in the set, and it does not itself end in one |
| Sequences.RStripKeeps | pc-server/server.py:118 | A text that does not end in a stripped element, followed by stripped elements only, strips back to itself |
| Session.Frame | pc-server/server.py:52-53 | The buffer is cut into newline-free lines and a newline-free rest. The lines, each followed by "\n", and then the rest, give the buffer back |
| Session.FrameUnique | pc-server/server.py:52-53 | The cut is the only one with that property |
| Session.FrameAppend | pc-server/server.py:51-53 | Framing `s + t` equals framing `s`, then framing what `s` left over followed by `t`. The framing does not depend on where the chunks were cut |
| Session.StripTrimmed | pc-server/server.py:54 | A stripped line that is not blank neither starts nor ends with whitespace |
| Session.CommandLines | pc-server/server.py:54-55 | There is at most one line per raw line, and each is trimmed: not blank, no whitespace at either end |
| Session.CommandLinesAppend | pc-server/server.py:54-55 | Stripping and dropping blank lines works piecewise over concatenated line lists |
| Session.RunCommands | pc-server/server.py:55-60 | Lines are dispatched in order, stopping at the first that raises. Every earlier line was accepted, and if the run failed the last line dispatched was rejected |
| Session.RunAppend | pc-server/server.py:52-60 | Running `a + b` is running `a`, then `b` unless `a` failed |
| Session.SessionOutcome | pc-server/server.py:46-60 | What the loop does with a stream: at most one dispatch per completed line, and nothing at all before the first newline |
| Session.SessionOutcomeAppend | pc-server/server.py:46-60 | Receiving `t` after `s` continues the outcome of `s` with the lines completed by `t`, unless `s` already failed |
| Session.TakeRejected | pc-server/server.py:57-60 | A rejected line ends the session, and after it nothing of the stream is dispatched |
| Session.FailedAt | pc-server/server.py:58-60 | Once the text received so far makes a command raise, nothing received later changes the outcome |
| Session.UntilClosed | pc-server/server.py:49-50 | The chunks received before `if not chunk: break` fires; UntilClosedShape characterises them |
| Session.UntilClosedShape | pc-server/server.py:49-50 | What is received is a prefix of the chunks, all non-empty, and it stops only at an empty chunk or at the end |
| Session.ClosedAt | pc-server/server.py:49-50 | An empty chunk ends what the session receives |
| Session.LineSession.constructor | pc-server/server.py:44 | A session starts open, with an empty buffer |
| Session.LineSession.Feed | pc-server/server.py:48-60 | An empty chunk closes the session and dispatches nothing. Otherwise the raw lines cut off, each plus "\n", followed by the new buffer, equal the old buffer plus the chunk. The actions and the lines dispatched are those of framing that text, in order, up to the first failure. The session stays open exactly when no line raised, and then the buffer is the newline-free rest. When a line raised, the raw lines cut off are the first lines of that framing and the buffer is the text after them |
| Session.HandleClient | pc-server/server.py:43-60 | The actions of a connection are those of all the text received before the peer closed, however it was cut into chunks, up to the first command that raises |
| Bytes.SequenceLength | pc-server/server.py:119 | The length found is at most 4 and at most the bytes available. An ASCII byte, and only an ASCII byte, is a sequence of length 1; EncodeAccepted and DecodeEncodes say which longer sequences are accepted |
| Bytes.EncodeAccepted | pc-server/server.py:119 | The UTF-8 encoding of any character, by the bit layout of the Unicode Standard, is accepted as one sequence of exactly its own length, whatever follows it |
| Bytes.DecodeEncodes | pc-server/server.py:119 | Every sequence accepted is the encoding of the character it stands for, so overlong forms and surrogates are refused |
| Bytes.EncodedIsUtf8 | pc-server/server.py:119 | The UTF-8 encoding of any text passes the `decode()` check |
| Bytes.RefusesOverlongAndSurrogate | pc-server/server.py:119 | The overlong `C0 AF` and the surrogate `ED A0 80` are refused |
| Bytes.AsciiIsUtf8 | pc-server/server.py:119 | Pure ASCII always decodes |
| Bytes.ValidUtf8 | pc-server/server.py:119 | `decode()` succeeds exactly when the bytes are a run of well-formed sequences as SequenceLength finds them; EncodedIsUtf8 and AsciiIsUtf8 show encoded text passes |
| Multipart.Delimiter | pc-server/server.py:114 | The delimiter is two dashes followed by the boundary |
| Multipart.FirstFilePart | pc-server/server.py:115-116 | The part chosen is the first one that mentions `filename=`. None means no part does |
| Multipart.FirstFilePartIs | pc-server/server.py:115-116 | The first matching part is chosen, whatever follows it |
| Multipart.FilenameOf | pc-server/server.py:119 | There is a name exactly when the header holds `filename="`; otherwise the source raises IndexError |
| Multipart.FilenameOfShape | pc-server/server.py:119 | The name starts right after the first `filename="`, holds no quote, and no `filename="` starts inside it. So it ends at whichever comes first of the next quote, the next `filename="` and the end of the header |
| Multipart.FilenameOfFileHeader | pc-server/server.py:119 | A header whose first filename parameter is `filename="<name>"`, with a quote-free name that does not end in `filename=`, gives back `name`, whatever follows the closing quote (the rest of the line, a Content-Type line). |
| Multipart.ExtractPart | pc-server/server.py:117-119 | A part fails exactly when it has no blank line, no filename parameter, or a filename that is not UTF-8. Otherwise the name is the header's filename, and the payload is everything after the first blank line minus its trailing `-`/CR/LF run |
| Multipart.PayloadStripped | pc-server/server.py:118 | The saved payload is a prefix of the raw payload followed only by trailer bytes, and it does not end in one |
| Multipart.StripLineBreak | pc-server/server.py:118 | The CRLF before the next delimiter is stripped off a payload that does not itself end in `-`, CR or LF |
| Multipart.Extract | pc-server/server.py:114-128 | There is no file part exactly when no part of the body split at the delimiter mentions `filename=` |
| Multipart.ExtractFirstMatch | pc-server/server.py:115-127 | The outcome is decided by the first part that mentions `filename=`; later parts are never looked at |
| Multipart.SplitFormBody | pc-server/server.py:114 | A body holding one part between two delimiters is cut into the empty preamble, the part and the closing tail |
| Multipart.ExtractFilePart | pc-server/server.py:117-119 | A part whose first filename parameter is `name`, followed by any header lines, gives back that name and its payload, provided the name is quote-free, does not end in `filename=` and decodes as UTF-8, and the payload does not end in `-`, CR or LF |
| Multipart.ExtractFromHeader | pc-server/server.py:117-119 | A part whose header gives `name`, a name that decodes as UTF-8, and whose payload survives the strip extracts to that name and payload |
| Multipart.ExtractFormBody | pc-server/server.py:114-119 | Round trip: a form body carrying one file, with any part header whose filename parameter decodes to `name`, gives back exactly `name` and the payload, provided the payload does not end in `-`, CR or LF (those are stripped with the line break) |
| Routes.HandleGet | pc-server/server.py:97-107 | 404 exactly when the path is not `/getfile` or no file is offered. 200 exactly when, besides, the file's basename is latin-1; otherwise `send_header` raises and nothing is sent. On 200 the body is the file's bytes and the disposition is `attachment; filename=` followed by the basename |
| Routes.Basename | pc-server/server.py:102 | `os.path.basename` holds no "/", ends the path, and follows a "/" unless it is the whole path |
| Routes.DispositionNamesBasename | pc-server/server.py:102 | The announced name is the offered path's last component: it holds no "/", the path ends with it, and it follows a "/" or nothing |
| Routes.Latin1 | pc-server/server.py:102 | The strict latin-1 test `send_header` applies to a header line: every character is at most U+00FF. HandleGet answers 200 only when the basename passes it |
| Routes.UnencodableNameUnanswered | pc-server/server.py:102 | An offered file whose basename holds a character beyond U+00FF gets no response |
| Routes.ReadBody | pc-server/server.py:113 | `rfile.read` raises exactly for a length below -1 or above `sys.maxsize`. Otherwise it reads a prefix of the stream: the whole stream for -1, else `length` bytes or the whole stream when it is shorter |
| Routes.UploadTarget | pc-server/server.py:120 | The target is `uploads/` followed by the name, or the name alone when it is absolute: it ends with the name, starts with `uploads/` exactly when the name is not absolute, and is no longer than that |
| Routes.HandlePost | pc-server/server.py:109-130 | Status 404 exactly when the path is not `/upload`. A missing or non-numeric Content-Length or a missing Content-Type raises. A save needs a Content-Length that parses and that `read` accepts, and a Content-Type |
| Routes.BadRequestWhenNoFile | pc-server/server.py:111-128 | With a numeric Content-Length, status 400 is answered exactly when the body can be read and no part of it mentions `filename=`; nothing is saved then. A length `read` refuses raises |
| Routes.BoundaryOfFormContentType | pc-server/server.py:112 | The boundary is read back from `multipart/form-data; boundary=<b>` when `b` holds no "=" |
| Routes.UploadSaved | pc-server/server.py:109-125 | End to end: a one-file upload with its exact Content-Length, and any part header whose filename parameter decodes to `name`, is saved under `name` with its payload, whatever follows the body, provided the payload does not end in `-`, CR or LF |
| Routes.UploadSavedAscii | pc-server/server.py:109-125 | The same for a header `…filename="<name>"` followed by any further lines, with an ASCII name (which always decodes) that is quote-free and does not end in `filename=` |

## Left out

- Sockets, `listen`/`accept`, the greeting line and LAN-IP discovery are left out: they are network I/O. `recv` becomes the sequence of chunks given to `HandleClient`.
- Threads and daemon start-up are left out: their point is concurrency.
- The tkinter window is left out: it is UI. The global `file_to_send` it sets becomes the `Option<OfferedFile>` argument of `HandleGet`, and the bytes of the file become a field of that value.
- The pyautogui calls are `Action` values. Their own exceptions, the fail-safe among them, are not modelled: that code is outside the source.
- `print` is left out: it is logging.
- `mimetypes.guess_type` and the Content-type header are left out: they are a library lookup.
- File reads and writes, `os.makedirs` and their failures are left out: they are filesystem calls. `Saved(target, payload)` names the path and bytes that would be written.
- The `BaseHTTPRequestHandler`/`HTTPServer` framework is left out, including header parsing, methods other than GET and POST, and how `send_error` formats its page.
- The per-chunk UTF-8 `decode()` is left out, along with a multibyte character split across chunks: chunks are taken as decoded strings.
- Numerals.ParseInt: does not accept the surrounding whitespace, underscores or non-ASCII digits that Python's `int()` also takes.
- Numerals.ParseInt: accepts digit strings of any length. CPython 3.11 and later (and the 3.7.14, 3.8.14, 3.9.14 and 3.10.7 releases) raise ValueError above 4300 digits by default; that limit depends on the interpreter version and on `sys.set_int_max_str_digits`, so it is not modelled.
- Numerals.ParseFormat: holds for every integer, whereas a CPython with the 4300-digit limit raises in `str(n)` itself past it.
- Commands.MoveOfIntegers: covers integers of any size; past 4300 digits a CPython with the digit limit raises instead of moving.
- Routes.ReadBody: `sys.maxsize` is taken as on a 64-bit build. A length the reader cannot allocate raises MemoryError in CPython; memory is not modelled.
- Bytes.ValidUtf8: `decode()` is modelled only as a validity check. The filename stays as bytes in the model.
- Routes.Basename: follows POSIX `os.path`. On Windows `os.path` is `ntpath`, which also cuts at `\` and after a drive letter; that is not modelled.
- Routes.UploadTarget: `os.path.join` is modelled for two POSIX components only, for the same reason.
- Routes.HandlePost: an empty filename (`filename=""`, which a browser sends for an empty file input) is answered `Saved` with the target `uploads/`; there `open()` raises because the target is a directory, and that failure, like every other file-write failure, is not modelled.
- Routes.HandlePost: the Content-Type header is taken as the bytes its `.encode()` gives; headers are assumed to be ASCII.
- Session.HandleClient: a connection whose chunks run out without an empty chunk simply stops being modelled. The receive loop waiting for more data is not represented.
