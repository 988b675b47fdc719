/** Reading the request line as `request >> method >> path` does on an
    `std::istringstream` over the received bytes. */
module Request {

  import opened Chars

  /** The length of the run of non-space characters `s` starts with. */
  function WordLength(s: string): (n: nat)
    ensures n <= |s| && forall i :: 0 <= i < n ==> !IsSpace(s[i])
    ensures n == |s| || IsSpace(s[n])
  {
    if s == [] || IsSpace(s[0]) then 0 else 1 + WordLength(s[1..])
  }

  /** `stream >> word`: the word read and what the stream holds afterwards.
      With no word left the word is empty (the target keeps its empty value). */
  function NextWord(s: string): (string, string)
  {
    var t := SkipSpace(s);
    var n := WordLength(t);
    (t[..n], t[n..])
  }

  datatype RequestLine = RequestLine(httpMethod: string, path: string)

  /** `request >> method >> path`. When the first extraction finds no word
      the stream fails and the second one leaves `path` empty; the model's
      second `NextWord` then reads an empty rest and gives the same. */
  function ParseRequestLine(s: string): RequestLine
  {
    var (m, rest) := NextWord(s);
    var (p, _) := NextWord(rest);
    RequestLine(m, p)
  }

  /** A string whose suffix from `k` is `w + rest` is its prefix, `w` and `rest`. */
  lemma SuffixSplit(s: string, k: nat, w: string, rest: string)
    requires k <= |s| && s[k..] == w + rest
    ensures s == s[..k] + w + rest
  {
    assert s == s[..k] + s[k..];
  }

  /** `>>` consumes the leading white space, then the word, and leaves the rest. */
  lemma NextWordSplit(s: string)
    ensures |SkipSpace(s)| <= |s| && AllSpace(s[..|s| - |SkipSpace(s)|])
    ensures SkipSpace(s) == NextWord(s).0 + NextWord(s).1
    ensures s == s[..|s| - |SkipSpace(s)|] + NextWord(s).0 + NextWord(s).1
  {
    var t := SkipSpace(s);
    var n := WordLength(t);
    var w, rest := t[..n], t[n..];
    var k := |s| - |t|;
    assert t == w + rest;
    assert s[k..] == t;
    SuffixSplit(s, k, w, rest);
    var lead := s[..k];
    forall i | 0 <= i < |lead| ensures IsSpace(lead[i]) {
      assert lead[i] == s[i];
    }
  }

  /** The word holds no white space and the rest is empty or starts with white space. */
  lemma NextWordParts(s: string)
    ensures NoSpace(NextWord(s).0)
    ensures NextWord(s).1 == [] || IsSpace(NextWord(s).1[0])
  {
    var t := SkipSpace(s);
    var n := WordLength(t);
  }

  /** The word `>>` reads is empty exactly when the input is all white space. */
  lemma NextWordEmpty(s: string)
    ensures NextWord(s).0 == [] <==> AllSpace(s)
  {
    var t := SkipSpace(s);
    var k := |s| - |t|;
    if t != [] {
      assert t[0] == s[k];
    } else {
      assert s == s[..k];
    }
  }

  /** A word followed by white space or by nothing is read whole. */
  lemma {:induction false} WordOfWord(w: string, rest: string)
    requires NoSpace(w) && (rest == [] || IsSpace(rest[0]))
    ensures WordLength(w + rest) == |w|
  {
    if w != [] {
      assert (w + rest)[1..] == w[1..] + rest;
      WordOfWord(w[1..], rest);
    }
  }

  /** White space, a word, then a rest that starts with white space (or is
      empty): `>>` reads that word and leaves that rest. */
  lemma NextWordOf(lead: string, w: string, rest: string)
    requires AllSpace(lead) && w != [] && NoSpace(w) && (rest == [] || IsSpace(rest[0]))
    ensures NextWord(lead + w + rest) == (w, rest)
  {
    var t := w + rest;
    assert lead + w + rest == lead + t;
    SkipLeadingSpace(lead, t);
    assert t[0] == w[0];
    assert SkipSpace(t) == t;
    WordOfWord(w, rest);
    assert t[..|w|] == w && t[|w|..] == rest;
  }

  /** A request line written as method, white space, path, then white space
      or nothing, is read back as that method and that path. */
  lemma ParseRoundTrip(lead: string, httpMethod: string, sep: string, path: string, rest: string)
    requires AllSpace(lead) && AllSpace(sep) && sep != []
    requires httpMethod != [] && NoSpace(httpMethod) && path != [] && NoSpace(path)
    requires rest == [] || IsSpace(rest[0])
    ensures ParseRequestLine(lead + httpMethod + sep + path + rest) == RequestLine(httpMethod, path)
  {
    var tail := sep + path + rest;
    assert lead + httpMethod + sep + path + rest == lead + httpMethod + tail;
    NextWordOf(lead, httpMethod, tail);
    NextWordOf(sep, path, rest);
  }

  /** Input with no word in it, the empty input included, gives an empty
      method and an empty path. */
  lemma BlankRequest(s: string)
    requires AllSpace(s)
    ensures ParseRequestLine(s) == RequestLine("", "")
  {
    NextWordEmpty(s);
    NextWordSplit(s);
    NextWordEmpty(NextWord(s).1);
  }

  /** The method and the path never contain white space. */
  lemma WordsHaveNoSpace(s: string)
    ensures NoSpace(ParseRequestLine(s).httpMethod) && NoSpace(ParseRequestLine(s).path)
  {
    NextWordParts(s);
    NextWordParts(NextWord(s).1);
  }
}
