/** `handle_client`: read one request, apply the method gate, dispatch on
    the exact path, send one response and close the connection. */
module Handler {

  import opened Wrappers
  import opened Chars
  import opened Mime
  import opened Latest
  import opened Transport
  import opened Response
  import opened Request

  /** The largest request read: the 4096-byte buffer minus its terminator. */
  const MaxRequest := 4095

  const IndexFile := "index.html"
  const FaviconStem := "favicon"
  const FaviconFile := FaviconStem + ".png"
  const FaviconPath := "/favicon.png"
  const FaviconAlias := "/favicon.ico"
  const PinnedStem := "18-12-2025 19-23-43"
  const PinnedFile := PinnedStem + ".png"
  const PinnedPath := "/18-12-2025%2019-23-43.png"
  const PinnedPathRaw := "/18-12-2025 19-23-43.png"
  const LatestPath := "/latest-image"

  const Ok := "200 OK"
  const NotFound := "404 Not Found"
  const MethodNotAllowed := "405 Method Not Allowed"
  const ServerError := "500 Internal Server Error"
  const TextPlain := "text/plain; charset=UTF-8"
  const TextHtml := "text/html; charset=UTF-8"

  /** The filesystem as the handler sees it: the contents of each existing
      file, the existing files that cannot be opened for reading, and what
      a scan of the screenshot directory observes. */
  datatype FileSystem = FileSystem(contents: map<string, string>, unopenable: set<string>, screenshots: Dir)

  /** `fs::exists`. */
  predicate Exists(fs: FileSystem, path: string)
  {
    path in fs.contents
  }

  /** Opening `path` with an `std::ifstream` and reading it to the end:
      the whole contents, or nothing when it cannot be opened. */
  function Open(fs: FileSystem, path: string): (r: Option<string>)
    ensures r.Some? ==> Exists(fs, path)
  {
    if path in fs.contents && path !in fs.unopenable then Some(fs.contents[path]) else None
  }

  /** Status, Content-Type and body of a response. */
  datatype Reply = Reply(status: string, contentType: string, body: string)

  /** The paths the handler serves; every other path is answered 404. */
  predicate IsRoute(path: string)
  {
    path == "/" || path == "/index.html" || path == FaviconPath || path == FaviconAlias ||
    path == PinnedPath || path == PinnedPathRaw || path == LatestPath
  }

  /** A file served as is: 404 with `missing` when it does not exist, 500
      with `unopened` when it cannot be opened, else 200 with its contents
      and the type its name gives. */
  function ServeFile(fs: FileSystem, file: string, missing: string, unopened: string): Reply
  {
    if !Exists(fs, file) then Reply(NotFound, TextPlain, missing)
    else match Open(fs, file)
      case None => Reply(ServerError, TextPlain, unopened)
      case Some(data) => Reply(Ok, MimeOf(file), data)
  }

  /** The answer of the "/latest-image" route: 404 when the scan finds no
      file, 500 when the newest file cannot be opened, else 200 with its
      contents and the type its name gives. */
  function LatestReply(fs: FileSystem): Reply
  {
    match Newest(fs.screenshots)
    case None => Reply(NotFound, TextPlain, "No screenshots available\n")
    case Some(file) =>
      match Open(fs, file)
      case None => Reply(ServerError, TextPlain, "Failed to open screenshot\n")
      case Some(data) => Reply(Ok, MimeOf(file), data)
  }

  /** Dispatch on the exact path, once the method is known to be GET or HEAD. */
  function Route(path: string, fs: FileSystem): Reply
  {
    if path == "/" || path == "/index.html" then
      match Open(fs, IndexFile)
      case None => Reply(ServerError, TextPlain, "Failed to load index\n")
      case Some(html) => Reply(Ok, TextHtml, html)
    else if path == FaviconPath || path == FaviconAlias then
      ServeFile(fs, FaviconFile, "Favicon missing\n", "Failed to open favicon\n")
    else if path == PinnedPath || path == PinnedPathRaw then
      ServeFile(fs, PinnedFile, "Pinned screenshot missing\n", "Failed to open pinned screenshot\n")
    else if path == LatestPath then LatestReply(fs)
    else Reply(NotFound, TextPlain, "Not Found\n")
  }

  /** The response `handle_client` sends for a request with method `m` and
      path `path`: the method gate first, then the route. */
  function Decide(m: string, path: string, fs: FileSystem): (r: Reply)
    ensures r.status in {Ok, NotFound, MethodNotAllowed, ServerError}
    ensures r.status == MethodNotAllowed <==> m != "GET" && m != "HEAD"
    ensures r.status != Ok ==> r.contentType == TextPlain
  {
    if m != "HEAD" && m != "GET" then Reply(MethodNotAllowed, TextPlain, "Method Not Allowed\n")
    else Route(path, fs)
  }

  /** The socket went from its old state to its new one by sending the reply
      `r` (cut short where a send failed) and closing once; nothing was read. */
  twostate predicate Answered(sock: Socket, r: Reply, headOnly: bool)
    reads sock
  {
    var o := ResponseTransmit(old(sock.sendReplies), r.status, r.contentType, r.body, headOnly);
    sock.output == old(sock.output) + Wire(r.status, r.contentType, r.body, headOnly)[..o.sent] &&
    sock.sendReplies == old(sock.sendReplies)[o.used..] &&
    sock.inbox == old(sock.inbox) &&
    sock.closes == old(sock.closes) + 1
  }

  /** `send_response(...); ::close(client_fd);`, the end of every branch. */
  method Respond(sock: Socket, r: Reply, headOnly: bool)
    modifies sock`sendReplies, sock`output, sock`closes
    ensures Answered(sock, r, headOnly)
  {
    var sent := SendResponse(sock, r.status, r.contentType, r.body, headOnly);
    sock.Close();
  }

  /** The favicon and pinned-screenshot branches: check existence, open,
      read the whole file, send it with the type its name gives. */
  method SendFile(sock: Socket, fs: FileSystem, file: string, missing: string, unopened: string,
                  headOnly: bool)
    modifies sock`sendReplies, sock`output, sock`closes
    ensures Answered(sock, ServeFile(fs, file, missing, unopened), headOnly)
  {
    if !Exists(fs, file) {
      Respond(sock, Reply(NotFound, TextPlain, missing), headOnly);
      return;
    }
    var input := Open(fs, file);
    if input.None? {
      Respond(sock, Reply(ServerError, TextPlain, unopened), headOnly);
      return;
    }
    var mime := GuessMimeType(file);
    Respond(sock, Reply(Ok, mime, input.value), headOnly);
  }

  /** The "/latest-image" branch: scan, open the newest file, send it. */
  method SendLatest(sock: Socket, fs: FileSystem, headOnly: bool)
    modifies sock`sendReplies, sock`output, sock`closes
    ensures Answered(sock, LatestReply(fs), headOnly)
  {
    var latest := LatestScreenshot(fs.screenshots);
    if latest.None? {
      Respond(sock, Reply(NotFound, TextPlain, "No screenshots available\n"), headOnly);
      return;
    }
    var input := Open(fs, latest.value);
    if input.None? {
      Respond(sock, Reply(ServerError, TextPlain, "Failed to open screenshot\n"), headOnly);
      return;
    }
    var mime := GuessMimeType(latest.value);
    Respond(sock, Reply(Ok, mime, input.value), headOnly);
  }

  /** Everything `handle_client` does once a request has been received:
      parse, gate, dispatch, answer, close. */
  method Serve(sock: Socket, fs: FileSystem, request: string)
    modifies sock`sendReplies, sock`output, sock`closes
    ensures var line := ParseRequestLine(request);
      Answered(sock, Decide(line.httpMethod, line.path, fs), line.httpMethod == "HEAD")
  {
    var line := ParseRequestLine(request);
    var httpMethod, path := line.httpMethod, line.path;
    var headOnly := httpMethod == "HEAD";
    ghost var r := Decide(httpMethod, path, fs);

    if !headOnly && httpMethod != "GET" {
      Respond(sock, Reply(MethodNotAllowed, TextPlain, "Method Not Allowed\n"), false);
      return;
    }
    assert r == Route(path, fs);

    if path == "/" || path == "/index.html" {
      var html := Open(fs, IndexFile);
      if html.None? {
        Respond(sock, Reply(ServerError, TextPlain, "Failed to load index\n"), headOnly);
        return;
      }
      Respond(sock, Reply(Ok, TextHtml, html.value), headOnly);
      return;
    }

    if path == FaviconPath || path == FaviconAlias {
      assert r == ServeFile(fs, FaviconFile, "Favicon missing\n", "Failed to open favicon\n");
      SendFile(sock, fs, FaviconFile, "Favicon missing\n", "Failed to open favicon\n", headOnly);
      return;
    }

    if path == PinnedPath || path == PinnedPathRaw {
      assert r == ServeFile(fs, PinnedFile, "Pinned screenshot missing\n", "Failed to open pinned screenshot\n");
      SendFile(sock, fs, PinnedFile, "Pinned screenshot missing\n", "Failed to open pinned screenshot\n",
               headOnly);
      return;
    }

    if path == LatestPath {
      assert r == LatestReply(fs);
      SendLatest(sock, fs, headOnly);
      return;
    }

    assert r == Reply(NotFound, TextPlain, "Not Found\n");
    Respond(sock, Reply(NotFound, TextPlain, "Not Found\n"), headOnly);
  }

  /** `handle_client`. The received bytes, the kernel's replies and the
      filesystem are inputs; what the peer receives is the response's wire
      form, cut short where a send fails; the connection is closed exactly
      once on every path. */
  method HandleClient(sock: Socket, fs: FileSystem)
    modifies sock`inbox, sock`sendReplies, sock`output, sock`closes
    ensures sock.closes == old(sock.closes) + 1
    ensures Received(old(sock.inbox), sock.recvFails, MaxRequest).None? ==>
              sock.output == old(sock.output) && sock.sendReplies == old(sock.sendReplies) &&
              sock.inbox == old(sock.inbox)
    ensures match Received(old(sock.inbox), sock.recvFails, MaxRequest)
      case None => true
      case Some(request) =>
        var line := ParseRequestLine(request);
        var r := Decide(line.httpMethod, line.path, fs);
        var headOnly := line.httpMethod == "HEAD";
        var o := ResponseTransmit(old(sock.sendReplies), r.status, r.contentType, r.body, headOnly);
        sock.output == old(sock.output) + Wire(r.status, r.contentType, r.body, headOnly)[..o.sent] &&
        sock.sendReplies == old(sock.sendReplies)[o.used..] &&
        sock.inbox == old(sock.inbox)[|request|..]
  {
    var n, data := sock.Recv(MaxRequest);
    if n <= 0 {
      sock.Close();
      return;
    }
    Serve(sock, fs, data);
  }

  /** Any method other than GET and HEAD is refused with 405, whatever the
      path and whatever the filesystem holds: the gate comes before dispatch. */
  lemma MethodGate(m: string, path: string, path': string, fs: FileSystem, fs': FileSystem)
    requires m != "GET" && m != "HEAD"
    ensures Decide(m, path, fs) == Decide(m, path', fs')
    ensures Decide(m, path, fs) == Reply(MethodNotAllowed, TextPlain, "Method Not Allowed\n")
  {
  }

  /** A request that holds only white space, or nothing, has an empty
      method and so gets 405, not 404. */
  lemma BlankRequestRefused(request: string, fs: FileSystem)
    requires AllSpace(request)
    ensures var line := ParseRequestLine(request);
      Decide(line.httpMethod, line.path, fs) == Reply(MethodNotAllowed, TextPlain, "Method Not Allowed\n")
  {
    BlankRequest(request);
  }

  /** HEAD gets the reply GET gets, and its wire form is the GET wire form
      without the body: same status, Content-Type and Content-Length. */
  lemma HeadMatchesGet(path: string, fs: FileSystem)
    ensures Decide("HEAD", path, fs) == Decide("GET", path, fs)
    ensures var r := Decide("GET", path, fs);
      Wire(r.status, r.contentType, r.body, true) == Header(r.status, r.contentType, |r.body|) &&
      Wire(r.status, r.contentType, r.body, false) == Wire(r.status, r.contentType, r.body, true) + r.body
  {
    var r := Decide("GET", path, fs);
    HeadIsGetWithoutBody(r.status, r.contentType, r.body);
  }

  /** A GET or HEAD for a path outside the route table gets 404 "Not Found". */
  lemma UnknownPathNotFound(m: string, path: string, fs: FileSystem)
    requires m == "GET" || m == "HEAD"
    requires !IsRoute(path)
    ensures Decide(m, path, fs) == Reply(NotFound, TextPlain, "Not Found\n")
  {
  }

  /** A path without white space is never the spelling of the pinned path
      that holds a space. */
  lemma NotRawPinnedPath(path: string)
    requires NoSpace(path)
    ensures path != PinnedPathRaw
  {
    if path == PinnedPathRaw {
      assert IsSpace(PinnedPathRaw[11]);
    }
  }

  /** The second spelling of the pinned path holds a space, and a path read
      by `>>` never does, so no request reaches the pinned file through it. */
  lemma RawPinnedPathUnreachable(request: string)
    ensures ParseRequestLine(request).path != PinnedPathRaw
  {
    WordsHaveNoSpace(request);
    NotRawPinnedPath(ParseRequestLine(request).path);
  }

  /** "favicon.png" is served as image/png. */
  lemma FaviconIsPng()
    ensures MimeOf(FaviconFile) == Png
  {
    assert forall i :: 0 <= i < |FaviconStem| ==> FaviconStem[i] != '/';
    PngName([], FaviconStem);
    assert [] + FaviconStem == FaviconStem;
  }

  /** The pinned screenshot's file name is served as image/png. */
  lemma PinnedIsPng()
    ensures MimeOf(PinnedFile) == Png
  {
    assert forall i :: 0 <= i < |PinnedStem| ==> PinnedStem[i] != '/';
    PngName([], PinnedStem);
    assert [] + PinnedStem == PinnedStem;
  }

  /** Both served images are PNG files by name. */
  lemma ServedNamesArePng()
    ensures MimeOf(FaviconFile) == Png && MimeOf(PinnedFile) == Png
  {
    FaviconIsPng();
    PinnedIsPng();
  }

  /** The favicon route: 404 "Favicon missing" when the file does not exist,
      500 when it cannot be opened, else its whole contents as image/png. */
  lemma FaviconRoute(m: string, path: string, fs: FileSystem)
    requires m == "GET" || m == "HEAD"
    requires path == FaviconPath || path == FaviconAlias
    ensures !Exists(fs, FaviconFile) ==>
              Decide(m, path, fs) == Reply(NotFound, TextPlain, "Favicon missing\n")
    ensures Exists(fs, FaviconFile) && Open(fs, FaviconFile).None? ==>
              Decide(m, path, fs) == Reply(ServerError, TextPlain, "Failed to open favicon\n")
    ensures Open(fs, FaviconFile).Some? ==>
              Decide(m, path, fs) == Reply(Ok, Png, Open(fs, FaviconFile).value)
  {
    ServedNamesArePng();
  }

  /** The index route, "/" or "/index.html": 500 "Failed to load index" when
      index.html cannot be opened, else its whole contents as text/html. */
  lemma IndexRoute(m: string, path: string, fs: FileSystem)
    requires m == "GET" || m == "HEAD"
    requires path == "/" || path == "/index.html"
    ensures Open(fs, IndexFile).None? ==>
              Decide(m, path, fs) == Reply(ServerError, TextPlain, "Failed to load index\n")
    ensures Open(fs, IndexFile).Some? ==>
              Decide(m, path, fs) == Reply(Ok, TextHtml, Open(fs, IndexFile).value)
  {
  }

  /** The pinned route, under either spelling: 404 "Pinned screenshot missing"
      when the file does not exist, 500 "Failed to open pinned screenshot"
      when it cannot be opened, else its whole contents as image/png. */
  lemma PinnedRoute(m: string, path: string, fs: FileSystem)
    requires m == "GET" || m == "HEAD"
    requires path == PinnedPath || path == PinnedPathRaw
    ensures !Exists(fs, PinnedFile) ==>
              Decide(m, path, fs) == Reply(NotFound, TextPlain, "Pinned screenshot missing\n")
    ensures Exists(fs, PinnedFile) && Open(fs, PinnedFile).None? ==>
              Decide(m, path, fs) == Reply(ServerError, TextPlain, "Failed to open pinned screenshot\n")
    ensures Open(fs, PinnedFile).Some? ==>
              Decide(m, path, fs) == Reply(Ok, Png, Open(fs, PinnedFile).value)
  {
    PinnedIsPng();
    assert path != "/" && path != "/index.html";
    assert path != FaviconPath && path != FaviconAlias;
  }

  /** The latest-image route when the newest file cannot be opened: 500
      "Failed to open screenshot". */
  lemma LatestOpenFails(m: string, fs: FileSystem, k: nat)
    requires m == "GET" || m == "HEAD"
    requires fs.screenshots.present && fs.screenshots.isDirectory && !fs.screenshots.scanFails
    requires IsFirstNewest(fs.screenshots.entries, k)
    requires Open(fs, fs.screenshots.entries[k].path).None?
    ensures Decide(m, LatestPath, fs) == Reply(ServerError, TextPlain, "Failed to open screenshot\n")
  {
    KeptIsFirstNewest(fs.screenshots.entries);
    assert Newest(fs.screenshots) == Some(fs.screenshots.entries[k].path);
    LatestRoute(m, fs);
  }

  /** The latest-image route with no file to offer (directory missing, not a
      directory, unreadable, or without a regular file) gets 404. */
  lemma NoScreenshots(m: string, fs: FileSystem)
    requires m == "GET" || m == "HEAD"
    requires var d := fs.screenshots; !d.present || !d.isDirectory || d.scanFails || !HasRegular(d.entries)
    ensures Decide(m, LatestPath, fs) == Reply(NotFound, TextPlain, "No screenshots available\n")
  {
    NewestSpec(fs.screenshots);
  }

  /** The latest-image route serves the first newest regular file of the
      directory, whole, with the type its name gives. */
  lemma LatestServesNewest(m: string, fs: FileSystem, k: nat, data: string)
    requires m == "GET" || m == "HEAD"
    requires fs.screenshots.present && fs.screenshots.isDirectory && !fs.screenshots.scanFails
    requires IsFirstNewest(fs.screenshots.entries, k)
    requires Open(fs, fs.screenshots.entries[k].path) == Some(data)
    ensures Decide(m, LatestPath, fs) == Reply(Ok, MimeOf(fs.screenshots.entries[k].path), data)
  {
    KeptIsFirstNewest(fs.screenshots.entries);
    var file := fs.screenshots.entries[k].path;
    assert Newest(fs.screenshots) == Some(file);
    assert LatestReply(fs) == Reply(Ok, MimeOf(file), data);
    LatestRoute(m, fs);
  }

  /** "/latest-image" is answered by the latest-image route. */
  lemma LatestRoute(m: string, fs: FileSystem)
    requires m == "GET" || m == "HEAD"
    ensures Decide(m, LatestPath, fs) == LatestReply(fs)
  {
    assert LatestPath[1] == 'l';
    assert LatestPath != "/" && LatestPath != "/index.html";
    assert LatestPath != FaviconPath && LatestPath != FaviconAlias;
    assert LatestPath != PinnedPath && LatestPath != PinnedPathRaw;
  }

  /** A 200 reply carries the whole contents of a file that could be opened. */
  lemma OkServesWholeFile(m: string, path: string, fs: FileSystem)
    requires Decide(m, path, fs).status == Ok
    ensures exists file :: Open(fs, file) == Some(Decide(m, path, fs).body)
  {
    if path == "/" || path == "/index.html" {
      assert Open(fs, IndexFile) == Some(Decide(m, path, fs).body);
    } else if path == FaviconPath || path == FaviconAlias {
      assert Open(fs, FaviconFile) == Some(Decide(m, path, fs).body);
    } else if path == PinnedPath || path == PinnedPathRaw {
      assert Open(fs, PinnedFile) == Some(Decide(m, path, fs).body);
    } else {
      var file := Newest(fs.screenshots).value;
      assert Open(fs, file) == Some(Decide(m, path, fs).body);
    }
  }

  /** "screenshots/b.png" is served as image/png; a step of
      `NewerScreenshotServed`, kept apart to keep that proof small. */
  lemma ShotIsPng()
    ensures MimeOf("screenshots/b.png") == Png
  {
    var dir := "screenshots/";
    assert dir[11] == '/';
    PngName(dir, "b");
    assert dir + "b" + ".png" == "screenshots/b.png";
  }

  /** A directory holding an older "a.png" and a newer "b.png": GET
      "/latest-image" answers 200, image/png, with the bytes of "b.png". */
  lemma NewerScreenshotServed(older: string, newer: string)
    ensures var a, b := Entry("screenshots/a.png", true, 1), Entry("screenshots/b.png", true, 2);
      var fs := FileSystem(map["screenshots/a.png" := older, "screenshots/b.png" := newer], {},
                           Dir(true, true, [a, b], false));
      Decide("GET", LatestPath, fs) == Reply(Ok, Png, newer)
  {
    var pa, pb := "screenshots/a.png", "screenshots/b.png";
    assert pa[12] != pb[12];
    var a, b := Entry(pa, true, 1), Entry(pb, true, 2);
    var fs := FileSystem(map[pa := older, pb := newer], {}, Dir(true, true, [a, b], false));
    assert Open(fs, pb) == Some(newer);
    assert IsFirstNewest([a, b], 1);
    LatestServesNewest("GET", fs, 1, newer);
    ShotIsPng();
  }
}
