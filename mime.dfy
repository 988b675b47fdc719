/** `guess_mime_type`: the content type of a file, chosen by its
    lower-cased extension from a fixed table. */
module Mime {

  import opened Chars

  const Png := "image/png"
  const Jpeg := "image/jpeg"
  const Gif := "image/gif"
  const Bmp := "image/bmp"
  const OctetStream := "application/octet-stream"

  /** The last component of a path: what follows its final '/', empty when
      the path ends in '/' (`std::filesystem::path::filename`). */
  function FileName(p: string): string
  {
    if p == [] || p[|p| - 1] == '/' then [] else FileName(p[..|p| - 1]) + [p[|p| - 1]]
  }

  /** The file name is the suffix of the path after its last '/'. */
  lemma {:induction false} FileNameShape(p: string)
    ensures |FileName(p)| <= |p| && FileName(p) == p[|p| - |FileName(p)|..]
    ensures forall i :: 0 <= i < |FileName(p)| ==> FileName(p)[i] != '/'
    ensures |FileName(p)| < |p| ==> p[|p| - |FileName(p)| - 1] == '/'
  {
    if p != [] && p[|p| - 1] != '/' {
      var q := p[..|p| - 1];
      FileNameShape(q);
      var g := FileName(q);
      var f := g + [p[|p| - 1]];
      assert FileName(p) == f;
      assert p[|p| - |f|..] == q[|q| - |g|..] + [p[|p| - 1]];
      forall i | 0 <= i < |f| ensures f[i] != '/' {
        if i < |g| { assert f[i] == g[i]; }
      }
      if |f| < |p| {
        assert p[|p| - |f| - 1] == q[|q| - |g| - 1];
      }
    }
  }

  /** The part of `f` from its last '.', or nothing when `f` has no '.'. */
  function FromLastDot(f: string): string
  {
    if f == [] then []
    else if f[|f| - 1] == '.' then "."
    else
      var d := FromLastDot(f[..|f| - 1]);
      if d == [] then [] else d + [f[|f| - 1]]
  }

  /** The part from the last '.' is a suffix that starts with '.' and holds
      no other '.'; it is empty only when there is no '.'. */
  lemma {:induction false} FromLastDotShape(f: string)
    ensures FromLastDot(f) == [] ==> forall i :: 0 <= i < |f| ==> f[i] != '.'
    ensures FromLastDot(f) != [] ==>
              FromLastDot(f)[0] == '.' && |FromLastDot(f)| <= |f| &&
              FromLastDot(f) == f[|f| - |FromLastDot(f)|..]
    ensures forall i :: 1 <= i < |FromLastDot(f)| ==> FromLastDot(f)[i] != '.'
  {
    if f == [] {
    } else if f[|f| - 1] == '.' {
      assert f[|f| - 1..] == ".";
    } else {
      var g := f[..|f| - 1];
      FromLastDotShape(g);
      var e := FromLastDot(g);
      if e == [] {
        forall i | 0 <= i < |f| ensures f[i] != '.' {
          if i < |g| { assert f[i] == g[i]; }
        }
      } else {
        var d := e + [f[|f| - 1]];
        assert FromLastDot(f) == d;
        assert f[|f| - |d|..] == g[|g| - |e|..] + [f[|f| - 1]];
        forall i | 1 <= i < |d| ensures d[i] != '.' {
          if i < |e| { assert d[i] == e[i]; }
        }
      }
    }
  }

  /** The special file names "." and "..", which have no extension. */
  predicate IsDotName(f: string)
  {
    f == "." || f == ".."
  }

  /** `std::filesystem::path::extension`: the file name from its last '.';
      empty for the names "." and "..", for a name without '.', and for a
      name whose only '.' is its first character (".profile"). */
  function Extension(p: string): string
  {
    var f := FileName(p);
    if IsDotName(f) then ""
    else
      var d := FromLastDot(f);
      if |d| == |f| then "" else d
  }

  /** An extension is a suffix of the path that starts with '.' and holds
      no other '.' and no '/'. */
  lemma ExtensionShape(p: string)
    ensures var e := Extension(p);
      |e| <= |p| && e == p[|p| - |e|..] && (e != [] ==> e[0] == '.') &&
      forall i :: 1 <= i < |e| ==> e[i] != '.' && e[i] != '/'
  {
    var f := FileName(p);
    var d := FromLastDot(f);
    FileNameShape(p);
    FromLastDotShape(f);
    if !IsDotName(f) && |d| != |f| {
      assert Extension(p) == d;
      forall i | 0 <= i < |d| ensures d[i] == p[|p| - |d| + i] && d[i] != '/' {
        assert d[i] == f[|f| - |d| + i];
      }
    }
  }

  function Lower(s: string): string
  {
    seq(|s|, i requires 0 <= i < |s| => ToLower(s[i]))
  }

  /** The table of `guess_mime_type`, looked up with an already lower-cased extension. */
  function MimeForExtension(ext: string): string
  {
    if ext == ".png" then Png
    else if ext == ".jpg" || ext == ".jpeg" then Jpeg
    else if ext == ".gif" then Gif
    else if ext == ".bmp" then Bmp
    else OctetStream
  }

  /** The content type `guess_mime_type` gives the file at path `p`. */
  function MimeOf(p: string): string
  {
    MimeForExtension(Lower(Extension(p)))
  }

  /** Equality of two strings once both are lower-cased, character by character. */
  predicate SameIgnoringCase(a: string, b: string)
  {
    |a| == |b| && forall i :: 0 <= i < |a| ==> ToLower(a[i]) == ToLower(b[i])
  }

  /** Comparing a lower-cased string with a lower-case literal is a
      case-insensitive comparison with that literal. */
  lemma LowerEqualsLiteral(e: string, lit: string)
    requires Lower(lit) == lit
    ensures Lower(e) == lit <==> SameIgnoringCase(e, lit)
  {
    if SameIgnoringCase(e, lit) {
      forall i | 0 <= i < |e| ensures Lower(e)[i] == lit[i] {
        assert Lower(lit)[i] == ToLower(lit[i]);
      }
    }
    if Lower(e) == lit {
      forall i | 0 <= i < |e| ensures ToLower(e[i]) == ToLower(lit[i]) {
        assert Lower(e)[i] == ToLower(e[i]);
        assert Lower(lit)[i] == ToLower(lit[i]);
      }
    }
  }

  /** A string without upper-case letters is its own lower-case form. */
  lemma LowerOfLowerCase(s: string)
    requires forall i :: 0 <= i < |s| ==> !('A' <= s[i] <= 'Z')
    ensures Lower(s) == s
  {
  }

  /** The five content types are different strings. */
  lemma TypesDistinct()
    ensures Png != Jpeg && Png != Gif && Png != Bmp && Png != OctetStream
    ensures Jpeg != Gif && Jpeg != Bmp && Jpeg != OctetStream
    ensures Gif != Bmp && Gif != OctetStream && Bmp != OctetStream
  {
    assert Png[6] == 'p' && Gif[6] == 'g' && Bmp[6] == 'b';
    assert |Jpeg| == 10 && |OctetStream| == 24;
  }

  /** The table itself: which extension gives which type. */
  lemma TableCases(ext: string)
    ensures MimeForExtension(ext) == Png <==> ext == ".png"
    ensures MimeForExtension(ext) == Jpeg <==> ext == ".jpg" || ext == ".jpeg"
    ensures MimeForExtension(ext) == Gif <==> ext == ".gif"
    ensures MimeForExtension(ext) == Bmp <==> ext == ".bmp"
    ensures MimeForExtension(ext) == OctetStream <==>
              ext != ".png" && ext != ".jpg" && ext != ".jpeg" && ext != ".gif" && ext != ".bmp"
  {
    TypesDistinct();
  }

  /** The lookup of a lower-cased extension matches a literal exactly when
      the extension matches it ignoring case. */
  lemma MatchesLiteral(e: string, lit: string)
    requires forall i :: 0 <= i < |lit| ==> !('A' <= lit[i] <= 'Z')
    ensures Lower(e) == lit <==> SameIgnoringCase(e, lit)
  {
    LowerOfLowerCase(lit);
    LowerEqualsLiteral(e, lit);
  }

  /** The table, stated as case-insensitive matches on the extension: each
      known extension in any mix of cases gives its type, and everything
      else, no extension included, gives `application/octet-stream`. */
  lemma MimeOfCases(p: string)
    ensures MimeOf(p) == Png <==> SameIgnoringCase(Extension(p), ".png")
    ensures MimeOf(p) == Jpeg <==>
              SameIgnoringCase(Extension(p), ".jpg") || SameIgnoringCase(Extension(p), ".jpeg")
    ensures MimeOf(p) == Gif <==> SameIgnoringCase(Extension(p), ".gif")
    ensures MimeOf(p) == Bmp <==> SameIgnoringCase(Extension(p), ".bmp")
    ensures MimeOf(p) == OctetStream <==>
              !SameIgnoringCase(Extension(p), ".png") && !SameIgnoringCase(Extension(p), ".jpg") &&
              !SameIgnoringCase(Extension(p), ".jpeg") && !SameIgnoringCase(Extension(p), ".gif") &&
              !SameIgnoringCase(Extension(p), ".bmp")
  {
    var e := Extension(p);
    var l := Lower(e);
    assert MimeOf(p) == MimeForExtension(l);
    TableCases(l);
    var png, jpg, jpeg, gif, bmp := ".png", ".jpg", ".jpeg", ".gif", ".bmp";
    MatchesLiteral(e, png);
    MatchesLiteral(e, jpg);
    MatchesLiteral(e, jpeg);
    MatchesLiteral(e, gif);
    MatchesLiteral(e, bmp);
  }

  /** Two paths whose extensions differ only in case get the same type. */
  lemma CaseInsensitive(p: string, q: string)
    requires SameIgnoringCase(Extension(p), Extension(q))
    ensures MimeOf(p) == MimeOf(q)
  {
    assert Lower(Extension(p)) == Lower(Extension(q));
  }

  /** The file name of a path made of a directory part ending in '/' (or
      empty) and a name without '/' is that name. */
  lemma {:induction false} FileNameUnder(dir: string, name: string)
    requires dir == [] || dir[|dir| - 1] == '/'
    requires forall i :: 0 <= i < |name| ==> name[i] != '/'
    ensures FileName(dir + name) == name
  {
    var p := dir + name;
    if name == [] {
      assert p == dir;
    } else {
      assert p[..|p| - 1] == dir + name[..|name| - 1];
      FileNameUnder(dir, name[..|name| - 1]);
      assert p[|p| - 1] == name[|name| - 1];
      assert name == name[..|name| - 1] + [name[|name| - 1]];
    }
  }

  /** A name ending in a dot-suffix with no other '.' has that suffix from its last '.'. */
  lemma {:induction false} FromLastDotOf(stem: string, ext: string)
    requires ext != [] && ext[0] == '.' && forall i :: 1 <= i < |ext| ==> ext[i] != '.'
    ensures FromLastDot(stem + ext) == ext
  {
    var f := stem + ext;
    if |ext| == 1 {
      assert f[|f| - 1] == '.';
    } else {
      assert f[..|f| - 1] == stem + ext[..|ext| - 1];
      FromLastDotOf(stem, ext[..|ext| - 1]);
      assert f[|f| - 1] == ext[|ext| - 1] != '.';
      assert ext == ext[..|ext| - 1] + [ext[|ext| - 1]];
    }
  }

  /** A name of a non-empty stem and a dot-suffix has no '/' when its parts have none. */
  lemma NameWithoutSlash(stem: string, ext: string)
    requires forall i :: 0 <= i < |stem| ==> stem[i] != '/'
    requires forall i :: 0 <= i < |ext| ==> ext[i] != '/'
    ensures forall i :: 0 <= i < |stem + ext| ==> (stem + ext)[i] != '/'
  {
    var f := stem + ext;
    forall i | 0 <= i < |f| ensures f[i] != '/' {
      if i < |stem| { assert f[i] == stem[i]; } else { assert f[i] == ext[i - |stem|]; }
    }
  }

  /** A path whose file name is a non-empty stem and an extension such as
      ".png" has that extension. */
  lemma ExtensionOfFile(p: string, stem: string, ext: string)
    requires FileName(p) == stem + ext
    requires stem != []
    requires |ext| >= 2 && ext[0] == '.' && forall i :: 1 <= i < |ext| ==> ext[i] != '.'
    ensures Extension(p) == ext
  {
    var f := stem + ext;
    FromLastDotOf(stem, ext);
    assert !IsDotName(f) by {
      assert f[|f| - 1] == ext[|ext| - 1] != '.';
    }
  }

  /** A file name made of a non-empty stem and an extension such as ".png",
      in a directory or not, has that extension. */
  lemma ExtensionOfName(dir: string, stem: string, ext: string)
    requires dir == [] || dir[|dir| - 1] == '/'
    requires stem != [] && forall i :: 0 <= i < |stem| ==> stem[i] != '/'
    requires |ext| >= 2 && ext[0] == '.' && forall i :: 1 <= i < |ext| ==> ext[i] != '.' && ext[i] != '/'
    ensures Extension(dir + stem + ext) == ext
  {
    NameWithoutSlash(stem, ext);
    FileNameUnder(dir, stem + ext);
    assert dir + stem + ext == dir + (stem + ext);
    ExtensionOfFile(dir + stem + ext, stem, ext);
  }

  /** Any "<stem>.png", in a directory or not, is served as image/png. */
  lemma PngName(dir: string, stem: string)
    requires dir == [] || dir[|dir| - 1] == '/'
    requires stem != [] && forall i :: 0 <= i < |stem| ==> stem[i] != '/'
    ensures MimeOf(dir + stem + ".png") == Png
  {
    var ext := ".png";
    assert ext[1] == 'p' && ext[2] == 'n' && ext[3] == 'g';
    ExtensionOfName(dir, stem, ext);
    LowerOfLowerCase(ext);
    TableCases(ext);
  }

  /** `guess_mime_type`: lower-cases the extension in place, then looks it up. */
  method GuessMimeType(path: string) returns (mime: string)
    ensures mime == MimeOf(path)
    ensures mime in {Png, Jpeg, Gif, Bmp, OctetStream}
  {
    var ext := Extension(path);
    ghost var original := ext;
    var i := 0;
    while i < |ext|
      invariant 0 <= i <= |ext| == |original|
      invariant forall k :: 0 <= k < i ==> ext[k] == ToLower(original[k])
      invariant forall k :: i <= k < |ext| ==> ext[k] == original[k]
    {
      ext := ext[i := ToLower(ext[i])];
      i := i + 1;
    }
    assert ext == Lower(original);
    if ext == ".png" {
      mime := Png;
    } else if ext == ".jpg" || ext == ".jpeg" {
      mime := Jpeg;
    } else if ext == ".gif" {
      mime := Gif;
    } else if ext == ".bmp" {
      mime := Bmp;
    } else {
      mime := OctetStream;
    }
  }
}
