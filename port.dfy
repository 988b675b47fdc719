/** `parse_port`: the listening port, from the command line, the PORT
    environment variable or the default, read as `std::stoi` reads it. */
module Port {

  import opened Wrappers
  import opened Chars
  import opened Decimal

  const DefaultPort := 80

  /** The text `parse_port` reads: the first command-line argument when
      there is one (`args` includes the program name, as `argv` does), else
      the value of PORT when it is set, else "80". */
  function PortText(args: seq<string>, env: Option<string>): string
  {
    if |args| > 1 then args[1] else if env.Some? then env.value else "80"
  }

  /** The length of the run of digits `s` starts with. */
  function DigitRun(s: string): (n: nat)
    ensures n <= |s| && forall i :: 0 <= i < n ==> IsDigit(s[i])
    ensures n == |s| || !IsDigit(s[n])
  {
    if s == [] || !IsDigit(s[0]) then 0 else 1 + DigitRun(s[1..])
  }

  /** The value of the run of digits `u` starts with; `None` when there is none. */
  function Magnitude(u: string): Option<nat>
  {
    var n := DigitRun(u);
    if n == 0 then None else Some(Value(u[..n]))
  }

  /** `std::stoi` once white space is skipped: an optional sign, then digits. */
  function SignedValue(t: string): Option<int>
  {
    if t != [] && t[0] == '-' then
      match Magnitude(t[1..])
      case Some(m) => Some(-(m as int))
      case None => None
    else if t != [] && t[0] == '+' then
      match Magnitude(t[1..])
      case Some(m) => Some(m)
      case None => None
    else
      match Magnitude(t)
      case Some(m) => Some(m)
      case None => None
  }

  /** `std::stoi(s)` in base 10: skip white space, take an optional sign and
      the longest run of digits, ignore what follows; no digit means
      `invalid_argument`, modelled as `None`. The value is not bounded:
      values beyond `int` make `stoi` throw `out_of_range`, and every one of
      them is also outside [1, 65535], which `ParsePort` treats the same way. */
  function Stoi(s: string): Option<int>
  {
    SignedValue(SkipSpace(s))
  }

  /** `parse_port`: the value of the chosen text when it parses and lies in
      [1, 65535], otherwise 80. */
  function ParsePort(args: seq<string>, env: Option<string>): (port: int)
    ensures 1 <= port <= 65535
    ensures port != DefaultPort ==> Stoi(PortText(args, env)) == Some(port)
    ensures Stoi(PortText(args, env)).Some? && 1 <= Stoi(PortText(args, env)).value <= 65535 ==>
              port == Stoi(PortText(args, env)).value
  {
    match Stoi(PortText(args, env))
    case Some(v) => if v < 1 || v > 65535 then DefaultPort else v
    case None => DefaultPort
  }

  /** A run of digits followed by a non-digit or by nothing is taken whole. */
  lemma {:induction false} DigitRunOf(ds: string, rest: string)
    requires AllDigits(ds) && (rest == [] || !IsDigit(rest[0]))
    ensures DigitRun(ds + rest) == |ds|
  {
    if ds != [] {
      assert (ds + rest)[0] == ds[0];
      assert (ds + rest)[1..] == ds[1..] + rest;
      DigitRunOf(ds[1..], rest);
    } else {
      assert ds + rest == rest;
    }
  }

  /** White space before the text does not change what `std::stoi` reads. */
  lemma StoiAfterSpace(lead: string, s: string)
    requires AllSpace(lead)
    ensures Stoi(lead + s) == Stoi(s)
  {
    SkipLeadingSpace(lead, s);
  }

  /** A run of digits followed by a non-digit or by nothing has its value. */
  lemma MagnitudeOf(ds: string, rest: string)
    requires ds != [] && AllDigits(ds) && (rest == [] || !IsDigit(rest[0]))
    ensures Magnitude(ds + rest) == Some(Value(ds))
  {
    DigitRunOf(ds, rest);
    assert (ds + rest)[..|ds|] == ds;
  }

  /** Text that does not start with white space is read as it stands. */
  lemma StoiNoLeadingSpace(x: string)
    requires x != [] && !IsSpace(x[0])
    ensures Stoi(x) == SignedValue(x)
  {
    assert SkipSpace(x) == x;
  }

  /** Text that starts with a digit is read as the value of its leading
      digits, with or without a '+' in front. */
  lemma StoiUnsigned(u: string, m: nat)
    requires u != [] && IsDigit(u[0]) && Magnitude(u) == Some(m)
    ensures Stoi(u) == Some(m) && Stoi("+" + u) == Some(m)
  {
    StoiNoLeadingSpace(u);
    StoiNoLeadingSpace("+" + u);
    assert ("+" + u)[1..] == u;
  }

  /** `std::stoi` reads back the decimal rendering of any number when a
      non-digit or nothing follows it, with or without a '+' in front. */
  lemma StoiOfRenderBare(n: nat, rest: string)
    requires rest == [] || !IsDigit(rest[0])
    ensures Stoi(Render(n) + rest) == Some(n) && Stoi("+" + (Render(n) + rest)) == Some(n)
  {
    var u := Render(n) + rest;
    MagnitudeOf(Render(n), rest);
    ValueOfRender(n);
    assert u[0] == Render(n)[0];
    StoiUnsigned(u, n);
  }

  /** Concatenation regrouped to the right; stated over plain variables so
      that `StoiOfRender` does not regroup terms holding `Render(n)`. */
  lemma Regroup(a: string, b: string, c: string, d: string)
    ensures a + b + c + d == a + (b + (c + d))
  {
  }

  /** The same after any white space. */
  lemma StoiOfRender(lead: string, sign: string, n: nat, rest: string)
    requires AllSpace(lead) && (sign == "" || sign == "+")
    requires rest == [] || !IsDigit(rest[0])
    ensures Stoi(lead + sign + Render(n) + rest) == Some(n)
  {
    var r := Render(n);
    var u := r + rest;
    StoiOfRenderBare(n, rest);
    var x := sign + u;
    Regroup(lead, sign, r, rest);
    StoiAfterSpace(lead, x);
    if sign == "" {
      assert x == u;
    } else {
      assert x == "+" + u;
    }
  }

  /** Every port in range written in decimal is the port chosen. */
  lemma ParsePortOfRender(args: seq<string>, env: Option<string>, n: nat)
    requires 1 <= n <= 65535 && PortText(args, env) == Render(n)
    ensures ParsePort(args, env) == n
  {
    StoiOfRender("", "", n, "");
    assert "" + "" + Render(n) + "" == Render(n);
  }

  /** A command-line argument makes PORT irrelevant. */
  lemma CommandLineFirst(args: seq<string>, env: Option<string>, env': Option<string>)
    requires |args| > 1
    ensures ParsePort(args, env) == ParsePort(args, env')
  {
  }

  /** With neither an argument nor PORT the port is 80. */
  lemma DefaultIs80(program: string)
    ensures ParsePort([program], None) == 80
  {
    assert Render(80) == "80" by {
      assert Render(8) == "8";
    }
    ParsePortOfRender([program], None, 80);
  }

  /** A PORT value without digits, such as "abc", falls back to 80. */
  lemma NoDigitsFallsBack(program: string, value: string)
    requires forall i :: 0 <= i < |value| ==> !IsDigit(value[i])
    ensures ParsePort([program], Some(value)) == 80
  {
    var t := SkipSpace(value);
    if t != [] {
      assert t[0] == value[|value| - |t|];
      assert DigitRun(t) == 0;
      if |t| > 1 {
        assert t[1..][0] == value[|value| - |t| + 1];
      }
      assert DigitRun(t[1..]) == 0;
    }
    assert Stoi(value) == None;
  }
}
