# Screenshot server: a Dafny model of its request handling

`server.cpp` is a small HTTP/1.1 server. It serves `index.html`, a favicon,
one pinned screenshot and the newest file of a screenshot directory. Each
connection is handled by `handle_client`, which works in these steps:

- reads one chunk of at most 4095 bytes;
- takes the method and the path with `request >> method >> path`;
- refuses every method except GET and HEAD with 405;
- dispatches on the exact path;
- answers with a response that has three header fields (`Content-Type`,
  `Content-Length`, `Connection: close`), leaving the body out for HEAD;
- closes the socket.

The listening port comes from the first command-line argument, else the
`PORT` environment variable, else 80. The text is read with `std::stoi` and
must lie in [1, 65535]; otherwise the port is 80.

The model has one module per concern:

| file | module | models |
|---|---|---|
| `wrappers.dfy` | `Wrappers` | `Option` |
| `chars.dfy` | `Chars` | the C-locale `isspace`, `isdigit` and `tolower`; white-space skipping as `>>` and `stoi` do it |
| `decimal.dfy` | `Decimal` | decimal numerals: how `operator<<` writes `body.size()`, how `stoi` reads digits |
| `mime.dfy` | `Mime` | `guess_mime_type`, with `path::filename` and `path::extension` |
| `latest.dfy` | `Latest` | `latest_screenshot` over an abstract directory listing |
| `transport.dfy` | `Transport` | the connected socket (`recv`, `send`, `close`) and `send_all` |
| `response.dfy` | `Response` | `send_response` / `send_binary_response` and the bytes they put on the wire |
| `request.dfy` | `Request` | `request >> method >> path` |
| `port.dfy` | `Port` | `parse_port` and `std::stoi` in base 10 |
| `handler.dfy` | `Handler` | `handle_client`: receive, parse, method gate, dispatch, respond, close |

Bytes are modelled as `char`, with one `char` per octet.

The kernel is modelled as inputs held in a `Socket` object:
- the bytes the peer has sent;
- whether `recv` fails;
- the value each successive `send` returns.

The socket records every byte it transmits and how often it is closed. So
the contract of `HandleClient` says exactly which bytes the peer receives
for any request, filesystem and sequence of kernel replies. A send that
fails part-way cuts the response short.

The filesystem is a value. It holds:
- the contents of each existing file;
- the set of existing files that cannot be opened;
- what a scan of the screenshot directory observes: whether the directory
  is present, whether it is a directory, its entries in enumeration order
  (each with a path, a regular-file flag and a write time), and whether the
  scan throws.

The model follows the code in these places:
- A blank or empty request is answered `405 Method Not Allowed`, not 404.
  Its method is the empty string, which fails the check at server.cpp:121.
- When several files share the newest time, `latest_screenshot` returns the
  first one enumerated, because the comparison at server.cpp:48 is strict.
- The second spelling of the pinned path, `/18-12-2025 19-23-43.png` at
  server.cpp:161, can never match. A path read by `>>` contains no white
  space. Only the percent-encoded spelling reaches the pinned screenshot.
  `Handler.RawPinnedPathUnreachable` proves this.
- The 405 response is always sent with its body. The source does not pass
  `head_only` there, and the method is never HEAD on that branch.

## Model

| member | source | states |
|---|---|---|
| Chars.ToLower | server.cpp:29 | upper-case ASCII letters map to their lower-case letter; every other character is unchanged |
| Chars.SkipSpace | server.cpp:117 | the result is the suffix of the input left after its leading white space; it is empty or starts with a non-space character |
| Chars.SkipLeadingSpace | server.cpp:117 | white space put in front of a text does not change what remains after skipping white space |
| Decimal.Render | server.cpp:75 | the Content-Length text is a canonical numeral: at least one digit and no leading zero |
| Decimal.Value | server.cpp:218 | computes the value of a run of decimal digits, most significant first; `ValueOfRender` and `RenderOfValue` make it the inverse of `Render` |
| Decimal.ValueOfRender | server.cpp:75 | reading back the rendered length gives the length |
| Decimal.RenderOfValue | server.cpp:75 | each canonical numeral is the rendering of its value, so rendering is a bijection onto canonical numerals |
| Mime.FileName | server.cpp:28 | computes `path::filename`: the characters after the last '/', empty when the path ends in '/' |
| Mime.FromLastDot | server.cpp:28 | computes the part of a file name from its last '.', empty when there is none |
| Mime.Extension | server.cpp:28 | computes `path::extension`: the file name from its last '.', empty for ".", "..", a name without '.' and a name whose only '.' comes first |
| Mime.MimeForExtension | server.cpp:30-34 | computes the table: ".png", ".jpg"/".jpeg", ".gif", ".bmp" to their types, anything else to `application/octet-stream` |
| Mime.MimeOf | server.cpp:27-35 | computes the type `guess_mime_type` gives a path: the table applied to the lower-cased extension |
| Mime.FileNameShape | server.cpp:28 | the file name is the suffix of the path after its last '/' and contains no '/' |
| Mime.FromLastDotShape | server.cpp:28 | the part of the name from its last '.' is a suffix that starts with '.' and holds no other '.'; it is empty only when the name has no '.' |
| Mime.ExtensionShape | server.cpp:28 | an extension is a suffix of the path; when non-empty it starts with '.' and holds no other '.' and no '/' |
| Mime.FileNameUnder | server.cpp:28 | a name without '/', alone or after a directory ending in '/', is the file name of that path |
| Mime.ExtensionOfName | server.cpp:28 | a non-empty stem followed by an extension such as ".png", in a directory or not, has that extension |
| Mime.LowerEqualsLiteral | server.cpp:29-30 | comparing the lower-cased extension with a lower-case literal is a case-insensitive comparison with that literal |
| Mime.TableCases | server.cpp:30-34 | the table gives each type exactly for its extensions and `application/octet-stream` exactly for every other string |
| Mime.MimeOfCases | server.cpp:30-34 | each type is given exactly when the extension matches its entry (".png"; ".jpg" or ".jpeg"; ".gif"; ".bmp") ignoring case; `application/octet-stream` is given exactly when none matches |
| Mime.CaseInsensitive | server.cpp:29 | two paths whose extensions differ only in case get the same type |
| Mime.PngName | server.cpp:28-30 | any "<stem>.png", in a directory or not, is served as image/png |
| Mime.GuessMimeType | server.cpp:27-35 | the in-place lowercase loop followed by the if-chain returns the table's type for the lower-cased extension, one of the five types |
| Latest.Kept | server.cpp:45-52 | the index kept by the scan, if any, is that of a regular entry |
| Latest.KeptIsFirstNewest | server.cpp:45-52 | the scan keeps nothing exactly when there is no regular entry; otherwise it keeps exactly the first entry with the greatest time |
| Latest.Newest | server.cpp:37-58 | computes the result of `latest_screenshot`: none for a missing, non-directory or failing directory, else the path of the entry the scan keeps |
| Latest.NewestSpec | server.cpp:37-58 | there is no result exactly when the directory is missing, is not a directory, cannot be scanned or holds no regular file; otherwise the result is the path of the first newest regular file |
| Latest.LatestScreenshot | server.cpp:37-59 | the loop with its optional path and kept time returns the specified newest path |
| Latest.StrictlyNewerWins | server.cpp:48-50 | a regular file strictly newer than every file scanned so far becomes the kept one |
| Latest.TieKeepsFirst | server.cpp:48 | a later file with the same time as the kept one does not replace it |
| Transport.Socket.Recv | server.cpp:108-109 | `recv` returns at most `max` waiting bytes and removes them from the inbox; it returns 0 or less exactly when it fails or nothing is waiting, and then delivers nothing and leaves the inbox as it was |
| Transport.Socket.Send | server.cpp:64 | each `send` takes the next kernel reply and transmits that many leading bytes, never more than asked; an exhausted queue gives -1 |
| Transport.Socket.Close | server.cpp:110 | `close` is counted |
| Transport.Received | server.cpp:108-109 | the bytes received are a non-empty prefix of the waiting bytes of at most `max` bytes; there are none exactly when `recv` fails or nothing is waiting |
| Transport.Transmit | server.cpp:61-69 | `send_all` sends at most `len` bytes, succeeds exactly when it sends all of them, and a zero-length call succeeds without calling `send` |
| Transport.TransmitStopsAtFirstFailure | server.cpp:63-66 | every reply used before the last is positive; a failure with replies left ends on the first reply that is not positive |
| Transport.SendAll | server.cpp:61-69 | the loop's result and the bytes it puts on the wire are the specified outcome: the data cut at the number of bytes sent, with exactly the replies used consumed |
| Response.Lines | server.cpp:73-76 | computes header lines, each followed by CR LF |
| Response.HeaderLines | server.cpp:73-76 | computes the four header lines: `HTTP/1.1 <status>`, `Content-Type: <type>`, `Content-Length: <decimal length>`, `Connection: close` |
| Response.Header | server.cpp:72-78 | computes the header block: the four lines, each ended by CR LF, then the empty line |
| Response.Wire | server.cpp:78-81 | computes the bytes of a whole response: the header with the body's length, then the body unless HEAD |
| Response.FirstBlankLine | server.cpp:73-76 | after CR-free header lines the first CR LF CR LF is the one ending the last line, whatever follows |
| Response.LastLine | server.cpp:76 | after a single CR-free line and an empty line, the first CR LF CR LF is the one ending that line |
| Response.WireFraming | server.cpp:71-82 | a client that reads up to the first empty line gets exactly the header; what follows is the body, or nothing for HEAD; the Content-Length reads back as the body's length |
| Response.HeadIsGetWithoutBody | server.cpp:80 | the HEAD response is the GET response with the body cut off: same status, type and length |
| Response.ResponseTransmit | server.cpp:78-81 | the response succeeds exactly when all of its wire bytes go out; when the header is cut short, the body is never attempted |
| Response.SendResponse | server.cpp:71-95 | the bytes both response functions transmit are the wire form cut at the number sent, and the result says whether all went out |
| Request.WordLength | server.cpp:117 | a word is the longest run of non-space characters at the start |
| Request.NextWord | server.cpp:117 | computes one `>>` extraction: skip white space, take the word, keep the rest |
| Request.ParseRequestLine | server.cpp:115-117 | computes `request >> method >> path`: two extractions, the second on what the first leaves |
| Request.NextWordSplit | server.cpp:117 | `>>` splits its input into white space, the word and the rest, in that order |
| Request.NextWordParts | server.cpp:117 | the word holds no white space, and the rest is empty or starts with white space |
| Request.NextWordEmpty | server.cpp:117 | the word read is empty exactly when the input is all white space |
| Request.WordOfWord | server.cpp:117 | a word followed by white space or by nothing is read whole |
| Request.NextWordOf | server.cpp:117 | white space, a word and a rest starting with white space read back as that word and that rest |
| Request.ParseRoundTrip | server.cpp:115-117 | a method and a path separated by white space read back as that method and that path, whatever white space surrounds them |
| Request.BlankRequest | server.cpp:116-117 | input with no word in it gives an empty method and an empty path |
| Request.WordsHaveNoSpace | server.cpp:117 | the method and the path never contain white space |
| Port.PortText | server.cpp:210-216 | computes the text `parse_port` reads: `argv[1]` when given, else PORT when set, else "80" |
| Port.Magnitude | server.cpp:218 | computes the value of the leading digits, none when there are none |
| Port.SignedValue | server.cpp:218 | computes what `stoi` reads after white space: an optional '-' or '+', then the digits; none without digits |
| Port.Stoi | server.cpp:218 | computes `std::stoi` in base 10: skip white space, then read a signed decimal; none where `stoi` throws `invalid_argument` |
| Port.DigitRun | server.cpp:218 | `stoi` reads the longest run of leading digits |
| Port.DigitRunOf | server.cpp:218 | a run of digits followed by a non-digit or by nothing is taken whole |
| Port.MagnitudeOf | server.cpp:218 | a run of digits followed by a non-digit or by nothing has its decimal value |
| Port.StoiAfterSpace | server.cpp:218 | white space before the text does not change what `stoi` reads |
| Port.StoiUnsigned | server.cpp:218 | text starting with digits reads as their value, with or without a leading '+' |
| Port.StoiOfRenderBare | server.cpp:218 | `stoi` reads back the decimal form of any number when a non-digit or nothing follows |
| Port.StoiOfRender | server.cpp:218 | the same after any white space and an optional '+' |
| Port.ParsePort | server.cpp:209-227 | the port is always in [1, 65535]; it is the parsed value when that value is in range, and any other port than 80 comes from a successful parse |
| Port.ParsePortOfRender | server.cpp:217-222 | every port from 1 to 65535 written in decimal is the port chosen |
| Port.CommandLineFirst | server.cpp:212-216 | a command-line argument makes PORT irrelevant |
| Port.DefaultIs80 | server.cpp:211 | with neither an argument nor PORT the port is 80 |
| Port.NoDigitsFallsBack | server.cpp:217-226 | a PORT value without digits, such as "abc", falls back to 80 |
| Handler.Exists | server.cpp:141 | computes `fs::exists`: the path is a file of the filesystem |
| Handler.Open | server.cpp:97-104 | a file that can be opened exists |
| Handler.ServeFile | server.cpp:139-159 | computes the reply for a fixed file: 404 with its missing message, 500 with its open message, else 200 with its contents and its type |
| Handler.LatestReply | server.cpp:183-203 | computes the latest-image reply: 404 without a newest file, 500 when it cannot be opened, else 200 with its contents and its type |
| Handler.Route | server.cpp:127-205 | computes the dispatch on the exact path: index, favicon (two spellings), pinned (two spellings), latest image, else 404 "Not Found" |
| Handler.Decide | server.cpp:119-206 | the status is one of 200, 404, 405 or 500; it is 405 exactly when the method is neither GET nor HEAD; every non-200 reply is text/plain |
| Handler.Respond | server.cpp:122-123 | each branch sends its response and closes the socket once, reading nothing more |
| Handler.SendFile | server.cpp:139-181 | the favicon and pinned branches send 404 when the file is missing, 500 when it cannot be opened, else its contents with its type |
| Handler.SendLatest | server.cpp:183-203 | the latest-image branch sends 404 when there is no file, 500 when the newest cannot be opened, else its contents with its type |
| Handler.Serve | server.cpp:115-206 | once a request is received, the bytes sent are the wire form of the decided reply (HEAD only for HEAD), cut at the bytes sent, and the socket is closed once |
| Handler.HandleClient | server.cpp:106-207 | the socket is closed exactly once; a failed or empty `recv` sends nothing and takes nothing from the inbox; otherwise the peer receives the wire form of the reply decided for the parsed request, cut where a send fails, and exactly the received bytes leave the inbox |
| Handler.MethodGate | server.cpp:121-125 | any method but GET and HEAD gets 405 "Method Not Allowed", whatever the path and the filesystem |
| Handler.BlankRequestRefused | server.cpp:116-125 | a blank or empty request gets 405, not 404 |
| Handler.HeadMatchesGet | server.cpp:119 | HEAD decides the same reply as GET, and its wire form is the GET wire form without the body |
| Handler.UnknownPathNotFound | server.cpp:205 | a GET or HEAD for any path outside the route table gets 404 "Not Found" |
| Handler.NotRawPinnedPath | server.cpp:161 | a path without white space is never the second spelling of the pinned path |
| Handler.RawPinnedPathUnreachable | server.cpp:161 | no request parses to the second spelling of the pinned path |
| Handler.FaviconIsPng | server.cpp:155 | the favicon file is served as image/png |
| Handler.PinnedIsPng | server.cpp:177 | the pinned screenshot is served as image/png |
| Handler.ServedNamesArePng | server.cpp:155-177 | both fixed image files are served as image/png |
| Handler.FaviconRoute | server.cpp:139-159 | both favicon paths give 404 "Favicon missing" when the file does not exist, 500 "Failed to open favicon" when it cannot be opened, else its whole contents as image/png |
| Handler.IndexRoute | server.cpp:127-137 | "/" and "/index.html" give 500 "Failed to load index" when index.html cannot be opened, else its whole contents as text/html |
| Handler.PinnedRoute | server.cpp:161-181 | both pinned spellings give 404 "Pinned screenshot missing", 500 "Failed to open pinned screenshot", or the whole file as image/png |
| Handler.LatestOpenFails | server.cpp:191-196 | when the first newest file cannot be opened, "/latest-image" gets 500 "Failed to open screenshot" |
| Handler.NoScreenshots | server.cpp:183-189 | with no directory, no readable directory or no regular file, "/latest-image" gets 404 "No screenshots available" |
| Handler.LatestServesNewest | server.cpp:183-202 | "/latest-image" serves the whole contents of the first newest regular file, with the type its name gives |
| Handler.LatestRoute | server.cpp:183 | "/latest-image" is answered by the latest-image branch |
| Handler.OkServesWholeFile | server.cpp:127-203 | every 200 reply carries the whole contents of some file that could be opened |
| Handler.ShotIsPng | server.cpp:199 | "screenshots/b.png" is served as image/png |
| Handler.NewerScreenshotServed | server.cpp:183-202 | with an older a.png and a newer b.png, GET /latest-image answers 200 image/png with the bytes of b.png |

## Left out

- `main` is not part of this model: the socket, bind, listen and accept loop, the detached threads, ignoring SIGPIPE, and the screenshot-directory constant. The handler gets its socket and filesystem as parameters.
- Logging to `std::cerr` (server.cpp:54, 224) is left out. It has no effect on what is sent.
- Concurrency between handler threads is left out. The model handles one connection, on a filesystem that does not change while it is handled.
- `load_file_to_string` and the `ifstream` reads are modelled as `Handler.Open`: the whole file, or nothing when it cannot be opened. A read error part-way through a file, which the source would not detect, is not modelled.
- `fs::exists` and `fs::is_directory` are modelled as always answering. In the favicon and pinned branches an exception from `fs::exists` escapes `handle_client` (the source does not catch it there). The model does not represent that.
- `Latest.LatestScreenshot` models every exception of the scan as one `scanFails` flag on the listing. `file_time_type` is modelled as an unbounded integer, and `file_time_type::min()` is not needed, because the first regular file is always kept.
- Transport.Socket.Recv: a real `recv` may return fewer bytes than are waiting. The model delivers min(waiting, 4095) bytes, and so does not capture a request split across TCP segments. The source reads only once, so the rest of such a request is ignored there too.
- Transport.Socket.Send: `ssize_t`/`size_t` widths and `errno` values are not modelled. A reply larger than the requested length is clamped to it.
- Chars.ToLower: only ASCII letters are folded, as `std::tolower` does in the C locale. Other locales are not modelled.
- Port.ParsePort: `stoi` of a value outside `int` throws `out_of_range`. The model does not bound the value, because every such value also lies outside [1, 65535] and falls back to 80 the same way. Bases other than 10 do not arise (`stoi`'s default base is used).
