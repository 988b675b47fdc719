/** Character classes of the C library in the "C" locale. A `char` here
    stands for one C++ `char`, i.e. one octet of a request or a file. */
module Chars {

  /** `std::isspace`: space, tab, newline, vertical tab, form feed, carriage return. */
  predicate IsSpace(c: char)
  {
    c == ' ' || '\t' <= c <= '\r'
  }

  /** `std::isdigit`. */
  predicate IsDigit(c: char)
  {
    '0' <= c <= '9'
  }

  /** `std::tolower`: maps 'A'..'Z' to 'a'..'z' and leaves every other character alone. */
  function ToLower(c: char): (r: char)
    ensures 'A' <= c <= 'Z' ==> 'a' <= r <= 'z' && r as int == c as int + 32
    ensures !('A' <= c <= 'Z') ==> r == c
  {
    if 'A' <= c <= 'Z' then (c as int + 32) as char else c
  }

  /** The text of `s` is white space only. */
  predicate AllSpace(s: string)
  {
    forall i :: 0 <= i < |s| ==> IsSpace(s[i])
  }

  /** No character of `s` is white space. */
  predicate NoSpace(s: string)
  {
    forall i :: 0 <= i < |s| ==> !IsSpace(s[i])
  }

  /** What is left once leading white space is skipped, as `>>` and `std::stoi` do. */
  function SkipSpace(s: string): (r: string)
    ensures |r| <= |s| && r == s[|s| - |r|..]
    ensures forall i :: 0 <= i < |s| - |r| ==> IsSpace(s[i])
    ensures r == [] || !IsSpace(r[0])
  {
    if s != [] && IsSpace(s[0]) then SkipSpace(s[1..]) else s
  }

  /** Leading white space does not change where a word starts. */
  lemma {:induction false} SkipLeadingSpace(lead: string, s: string)
    requires AllSpace(lead)
    ensures SkipSpace(lead + s) == SkipSpace(s)
  {
    if lead != [] {
      assert (lead + s)[0] == lead[0];
      assert (lead + s)[1..] == lead[1..] + s;
      assert SkipSpace(lead + s) == SkipSpace(lead[1..] + s);
      SkipLeadingSpace(lead[1..], s);
    } else {
      assert lead + s == s;
    }
  }
}
