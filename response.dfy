/** `send_response` and `send_binary_response`: an HTTP/1.1 response with
    exactly three header fields, then the body unless the request was HEAD. */
module Response {

  import opened Chars
  import opened Decimal
  import opened Transport

  /** Header lines, each terminated by CR LF. */
  function Lines(ls: seq<string>): string
  {
    if ls == [] then [] else ls[0] + "\r\n" + Lines(ls[1..])
  }

  /** The four header lines of a response: the status line (section 4 of
      RFC 9112), then the Content-Type, Content-Length and Connection fields. */
  function HeaderLines(status: string, contentType: string, length: nat): seq<string>
  {
    ["HTTP/1.1 " + status,
     "Content-Type: " + contentType,
     "Content-Length: " + Render(length),
     "Connection: close"]
  }

  /** The header block: the four lines, each ended by CR LF, then the empty
      line that ends the header section. */
  function Header(status: string, contentType: string, length: nat): string
  {
    Lines(HeaderLines(status, contentType, length)) + "\r\n"
  }

  /** The bytes a response puts on the wire when every send succeeds. The
      Content-Length is the body's length even when the body is withheld,
      as section 9.3.2 of RFC 9110 allows for HEAD. */
  function Wire(status: string, contentType: string, body: string, headOnly: bool): string
  {
    Header(status, contentType, |body|) + (if headOnly then [] else body)
  }

  predicate NoCR(s: string)
  {
    forall i :: 0 <= i < |s| ==> s[i] != '\r'
  }

  /** An empty line (CR LF CR LF) starts at position `i` of `s`. */
  predicate BlankLineAt(s: string, i: int)
  {
    0 <= i && i + 4 <= |s| && s[i] == '\r' && s[i + 1] == '\n' && s[i + 2] == '\r' && s[i + 3] == '\n'
  }

  /** An empty line found past a prefix is an empty line of what follows it. */
  lemma BlankLineShift(a: string, b: string, i: int)
    requires i >= |a|
    ensures BlankLineAt(a + b, i) <==> BlankLineAt(b, i - |a|)
  {
    if i + 4 <= |a + b| {
      assert forall j :: i <= j < i + 4 ==> (a + b)[j] == b[j - |a|];
    }
  }

  /** No empty line starts inside a CR-free line or its terminator when
      the next line does not start with CR. */
  lemma NoBlankLineInLine(l: string, next: string, i: int)
    requires NoCR(l) && next != [] && next[0] != '\r'
    requires 0 <= i < |l| + 2
    ensures !BlankLineAt(l + "\r\n" + next, i)
  {
    var s := l + "\r\n" + next;
    if i < |l| {
      assert s[i] == l[i];
    } else if i == |l| {
      assert s[i + 2] == next[0];
    } else {
      assert s[i] == '\n';
    }
  }

  /** A single CR-free line followed by an empty line: the first CR LF CR LF
      is the one that ends the line. */
  lemma LastLine(l: string, rest: string)
    requires NoCR(l)
    ensures BlankLineAt(l + "\r\n" + ("\r\n" + rest), |l|)
    ensures forall i :: 0 <= i < |l| ==> !BlankLineAt(l + "\r\n" + ("\r\n" + rest), i)
  {
    var s := l + "\r\n" + ("\r\n" + rest);
    assert s[|l|] == '\r' && s[|l| + 1] == '\n' && s[|l| + 2] == '\r' && s[|l| + 3] == '\n';
    forall i | 0 <= i < |l| ensures !BlankLineAt(s, i) {
      assert s[i] == l[i];
    }
  }

  /** After non-empty lines free of CR, the first CR LF CR LF is the one
      that ends the last line, whatever follows. */
  lemma {:induction false} FirstBlankLine(ls: seq<string>, rest: string)
    requires ls != []
    requires forall k :: 0 <= k < |ls| ==> ls[k] != [] && NoCR(ls[k])
    ensures |Lines(ls)| >= 2
    ensures BlankLineAt(Lines(ls) + "\r\n" + rest, |Lines(ls)| - 2)
    ensures forall i :: 0 <= i < |Lines(ls)| - 2 ==> !BlankLineAt(Lines(ls) + "\r\n" + rest, i)
  {
    var l := ls[0];
    var p := l + "\r\n";
    var body := Lines(ls[1..]);
    var tail := body + "\r\n" + rest;
    var s := Lines(ls) + "\r\n" + rest;
    assert Lines(ls) == p + body;
    assert s == p + tail;
    if ls[1..] == [] {
      assert body == [];
      assert s == l + "\r\n" + ("\r\n" + rest);
      LastLine(l, rest);
    } else {
      FirstBlankLine(ls[1..], rest);
      assert tail[0] == ls[1][0];
      BlankLineShift(p, tail, |p| + |body| - 2);
      forall i | 0 <= i < |Lines(ls)| - 2 ensures !BlankLineAt(s, i) {
        if i < |p| {
          NoBlankLineInLine(l, tail, i);
        } else {
          BlankLineShift(p, tail, i);
        }
      }
    }
  }

  /** A client that reads up to the first empty line gets exactly the
      header; what follows is the body, or nothing for HEAD; and the
      Content-Length field reads back as the body's length. */
  lemma WireFraming(status: string, contentType: string, body: string, headOnly: bool)
    requires NoCR(status) && NoCR(contentType)
    ensures var h, w := Header(status, contentType, |body|), Wire(status, contentType, body, headOnly);
      |h| >= 4 && BlankLineAt(w, |h| - 4) &&
      (forall i :: 0 <= i < |h| - 4 ==> !BlankLineAt(w, i)) &&
      w[|h|..] == (if headOnly then [] else body)
    ensures Value(Render(|body|)) == |body|
  {
    var ls := HeaderLines(status, contentType, |body|);
    var rest := if headOnly then [] else body;
    assert NoCR(ls[0]) && NoCR(ls[1]) && NoCR(ls[3]);
    assert NoCR(ls[2]) by {
      assert forall i :: 0 <= i < |Render(|body|)| ==> IsDigit(Render(|body|)[i]);
    }
    FirstBlankLine(ls, rest);
    ValueOfRender(|body|);
  }

  /** A HEAD response is the GET response cut after the header: same status,
      same Content-Type, same Content-Length. */
  lemma HeadIsGetWithoutBody(status: string, contentType: string, body: string)
    ensures Wire(status, contentType, body, false) == Wire(status, contentType, body, true) + body
    ensures Wire(status, contentType, body, true) == Header(status, contentType, |body|)
  {
  }

  /** The outcome of `send_response` against the reply queue: the header in
      one `send_all`, then, if it went out and the request was not HEAD, the
      body in a second one. */
  function ResponseTransmit(replies: seq<int>, status: string, contentType: string, body: string,
                            headOnly: bool): (o: Outcome)
    ensures o.ok <==> o.sent == |Wire(status, contentType, body, headOnly)|
    ensures o.sent <= |Wire(status, contentType, body, headOnly)| && o.used <= |replies|
    ensures var first := Transmit(replies, |Header(status, contentType, |body|)|);
      o.sent < |Header(status, contentType, |body|)| ==> !o.ok && o.used == first.used
  {
    var header := Header(status, contentType, |body|);
    var first := Transmit(replies, |header|);
    if !first.ok || headOnly then first
    else
      var second := Transmit(replies[first.used..], |body|);
      Outcome(second.ok, first.sent + second.sent, first.used + second.used)
  }

  /** `send_response` / `send_binary_response`: both build the same header
      and send the same bytes, so one method models both. */
  method SendResponse(sock: Socket, status: string, contentType: string, body: string, headOnly: bool)
    returns (ok: bool)
    modifies sock`sendReplies, sock`output
    ensures var o := ResponseTransmit(old(sock.sendReplies), status, contentType, body, headOnly);
      ok == o.ok &&
      sock.output == old(sock.output) + Wire(status, contentType, body, headOnly)[..o.sent] &&
      sock.sendReplies == old(sock.sendReplies)[o.used..]
  {
    var header := Header(status, contentType, |body|);
    ghost var wire := Wire(status, contentType, body, headOnly);
    ghost var first := Transmit(sock.sendReplies, |header|);
    assert wire[..first.sent] == header[..first.sent];
    ok := SendAll(sock, header);
    if !ok {
      return;
    }
    if headOnly {
      assert wire[..|header|] == header;
      return true;
    }
    ghost var second := Transmit(sock.sendReplies, |body|);
    assert wire[..|header| + second.sent] == header + body[..second.sent];
    ok := SendAll(sock, body);
  }
}
