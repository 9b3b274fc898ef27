/**
 * `int.TryParse(string, out int)`, which the listing parser uses for the
 * VERSION column: NumberStyles.Integer under the current culture, with that
 * culture's signs taken to be `+` and `-`. Accepted are optional white
 * space, an optional sign, one or more ASCII digits, optional white space,
 * then (as .NET tolerates) trailing NUL characters, with the value inside
 * the 32-bit signed range.
 */
module Int32Parse {
  import opened Options

  const MinInt32: int := -0x8000_0000
  const MaxInt32: int := 0x7FFF_FFFF

  predicate IsInt32(v: int) {
    MinInt32 <= v <= MaxInt32
  }

  predicate IsDigit(c: char) {
    '0' <= c <= '9'
  }

  /** The white space NumberStyles.AllowLeadingWhite/AllowTrailingWhite skip. */
  predicate IsNumberWhite(c: char) {
    ('\t' <= c <= '\r') || c == ' '
  }

  predicate AllDigits(s: string) {
    forall i :: 0 <= i < |s| ==> IsDigit(s[i])
  }

  predicate AllNul(s: string) {
    forall i :: 0 <= i < |s| ==> s[i] == '\0'
  }

  predicate AllNumberWhite(s: string) {
    forall i :: 0 <= i < |s| ==> IsNumberWhite(s[i])
  }

  function LeadingNumberWhite(s: string): (n: nat)
    ensures n <= |s|
    ensures forall i :: 0 <= i < n ==> IsNumberWhite(s[i])
    ensures n < |s| ==> !IsNumberWhite(s[n])
  {
    if |s| == 0 || !IsNumberWhite(s[0]) then 0 else 1 + LeadingNumberWhite(s[1..])
  }

  function DigitRun(s: string): (n: nat)
    ensures n <= |s|
    ensures forall i :: 0 <= i < n ==> IsDigit(s[i])
    ensures n < |s| ==> !IsDigit(s[n])
  {
    if |s| == 0 || !IsDigit(s[0]) then 0 else 1 + DigitRun(s[1..])
  }

  function DigitValue(c: char): nat
    requires IsDigit(c)
  {
    c as int - '0' as int
  }

  /** The decimal value of a digit string (most significant digit first). */
  function DigitsValue(s: string): nat
    requires AllDigits(s)
  {
    if |s| == 0 then 0 else 10 * DigitsValue(s[..|s| - 1]) + DigitValue(s[|s| - 1])
  }

  /** The length of the sign at the start of a text: 1 or 0. */
  function SignLength(t: string): (k: nat)
    ensures k <= |t|
  {
    if |t| > 0 && (t[0] == '-' || t[0] == '+') then 1 else 0
  }

  /** White space, then only NULs: what may follow the digits. */
  predicate PaddingTail(rest: string) {
    AllNul(rest[LeadingNumberWhite(rest)..])
  }

  /** A magnitude with its sign applied. */
  function Signed(negative: bool, magnitude: nat): int {
    if negative then 0 - magnitude as int else magnitude
  }

  /** The value TryParse gives for a signed value: itself when it fits. */
  function InRange(v: int): (r: Option<int>)
    ensures r.Some? ==> IsInt32(r.value)
  {
    if IsInt32(v) then Some(v) else None
  }

  /** The digits after the sign, then white space, then only NULs. */
  function ParseDigits(negative: bool, u: string): (r: Option<int>)
    ensures r.Some? ==> IsInt32(r.value)
  {
    var d := DigitRun(u);
    if d == 0 || !PaddingTail(u[d..]) then None
    else InRange(Signed(negative, DigitsValue(u[..d])))
  }

  /** The text after the leading white space. */
  function ParseSigned(t: string): (r: Option<int>)
    ensures r.Some? ==> IsInt32(r.value)
  {
    ParseDigits(|t| > 0 && t[0] == '-', t[SignLength(t)..])
  }

  /** int.TryParse: None where .NET returns false. */
  function TryParseInt32(s: string): (r: Option<int>)
    ensures r.Some? ==> IsInt32(r.value)
  {
    ParseSigned(s[LeadingNumberWhite(s)..])
  }

  /** The text int.TryParse accepts, in its five parts: leading white
      space, an optional sign, the digits, trailing white space, NULs. */
  predicate NumberText(lead: string, sign: string, digits: string, trail: string, nuls: string) {
    && AllNumberWhite(lead)
    && (sign == "" || sign == "+" || sign == "-")
    && |digits| > 0 && AllDigits(digits)
    && AllNumberWhite(trail)
    && AllNul(nuls)
  }

  /** The signed value of a sign and a digit string. */
  function SignedValue(sign: string, digits: string): int
    requires AllDigits(digits)
  {
    Signed(sign == "-", DigitsValue(digits))
  }

  lemma {:induction false} LeadingWhiteThrough(a: string, b: string)
    requires AllNumberWhite(a)
    requires |b| == 0 || !IsNumberWhite(b[0])
    ensures LeadingNumberWhite(a + b) == |a|
    decreases |a|
  {
    if |a| == 0 {
      assert a + b == b;
    } else {
      assert (a + b)[1..] == a[1..] + b;
      LeadingWhiteThrough(a[1..], b);
    }
  }

  lemma {:induction false} DigitRunThrough(a: string, b: string)
    requires AllDigits(a)
    requires |b| == 0 || !IsDigit(b[0])
    ensures DigitRun(a + b) == |a|
    decreases |a|
  {
    if |a| == 0 {
      assert a + b == b;
    } else {
      assert (a + b)[1..] == a[1..] + b;
      DigitRunThrough(a[1..], b);
    }
  }

  /** Digits, white space and NULs give the digits' value, signed. */
  lemma ParseDigitsText(negative: bool, digits: string, trail: string, nuls: string)
    requires |digits| > 0 && AllDigits(digits) && AllNumberWhite(trail) && AllNul(nuls)
    ensures ParseDigits(negative, digits + trail + nuls) == InRange(Signed(negative, DigitsValue(digits)))
  {
    var rest := trail + nuls;
    var u := digits + rest;
    assert u == digits + trail + nuls;
    assert DigitRun(u) == |digits| by {
      DigitRunThrough(digits, rest);
    }
    assert u[..|digits|] == digits && u[|digits|..] == rest;
    assert PaddingTail(rest) by {
      LeadingWhiteThrough(trail, nuls);
      assert rest[|trail|..] == nuls;
    }
  }

  /** A sign and what follows it. */
  lemma ParseSignedText(sign: string, u: string)
    requires sign == "" || sign == "+" || sign == "-"
    requires |u| > 0 && IsDigit(u[0])
    ensures ParseSigned(sign + u) == ParseDigits(sign == "-", u)
  {
    var t := sign + u;
    assert t[0] == (if sign == "" then u[0] else sign[0]);
    assert SignLength(t) == |sign|;
    assert t[|sign|..] == u;
  }

  /** Every text of the accepted shape parses to its signed value when that
      fits in an Int32, and is refused otherwise: leading zeros, a `+`,
      padding and trailing NULs make no difference. */
  lemma TryParseText(lead: string, sign: string, digits: string, trail: string, nuls: string)
    requires NumberText(lead, sign, digits, trail, nuls)
    ensures TryParseInt32(lead + sign + digits + trail + nuls) == InRange(SignedValue(sign, digits))
  {
    var u := digits + trail + nuls;
    var body := sign + u;
    var s := lead + body;
    assert s == lead + sign + digits + trail + nuls;
    assert TryParseInt32(s) == ParseSigned(body) by {
      assert body[0] == (if sign == "" then digits[0] else sign[0]);
      LeadingWhiteThrough(lead, body);
      assert s[|lead|..] == body;
    }
    assert ParseSigned(body) == ParseDigits(sign == "-", u) by {
      ParseSignedText(sign, u);
    }
    ParseDigitsText(sign == "-", digits, trail, nuls);
  }

  lemma DigitPrefix(u: string)
    ensures AllDigits(u[..DigitRun(u)])
  {
    var d := DigitRun(u);
    forall i | 0 <= i < d
      ensures IsDigit(u[..d][i])
    {
      assert u[..d][i] == u[i];
    }
  }

  lemma WhitePrefix(u: string)
    ensures AllNumberWhite(u[..LeadingNumberWhite(u)])
  {
    var n := LeadingNumberWhite(u);
    forall i | 0 <= i < n
      ensures IsNumberWhite(u[..n][i])
    {
      assert u[..n][i] == u[i];
    }
  }

  lemma CutThree(u: string, d: nat, m: nat)
    requires d <= |u| && m <= |u[d..]|
    ensures u == u[..d] + u[d..][..m] + u[d..][m..]
  {
    assert u[d..] == u[d..][..m] + u[d..][m..];
    assert u == u[..d] + u[d..];
  }

  /** What ParseDigits accepted, cut into its parts. */
  lemma ParseDigitsParts(negative: bool, u: string, v: int) returns (digits: string, trail: string, nuls: string)
    requires ParseDigits(negative, u) == Some(v)
    ensures |digits| > 0 && AllDigits(digits) && AllNumberWhite(trail) && AllNul(nuls)
    ensures u == digits + trail + nuls
    ensures v == Signed(negative, DigitsValue(digits))
  {
    var d := DigitRun(u);
    var rest := u[d..];
    var m := LeadingNumberWhite(rest);
    digits, trail, nuls := u[..d], rest[..m], rest[m..];
    DigitPrefix(u);
    WhitePrefix(rest);
    CutThree(u, d, m);
  }

  /** A text is its leading white space followed by the rest. */
  lemma WhiteCut(s: string)
    ensures s == s[..LeadingNumberWhite(s)] + s[LeadingNumberWhite(s)..]
    ensures AllNumberWhite(s[..LeadingNumberWhite(s)])
  {
    WhitePrefix(s);
    SplitAt(s, LeadingNumberWhite(s));
  }

  lemma SplitAt(s: string, n: nat)
    requires n <= |s|
    ensures s == s[..n] + s[n..]
  {
  }

  /** What ParseSigned accepted, cut after its sign. */
  lemma ParseSignedParts(t: string, v: int) returns (sign: string, u: string)
    requires ParseSigned(t) == Some(v)
    ensures sign == "" || sign == "+" || sign == "-"
    ensures t == sign + u && ParseDigits(sign == "-", u) == Some(v)
  {
    var k := SignLength(t);
    sign, u := t[..k], t[k..];
    assert t == sign + u;
    assert (sign == "-") == (|t| > 0 && t[0] == '-');
  }

  /** What ParseSigned accepted, cut into its four parts. */
  lemma SignedParts(t: string, v: int) returns (sign: string, digits: string, trail: string, nuls: string)
    requires ParseSigned(t) == Some(v)
    ensures sign == "" || sign == "+" || sign == "-"
    ensures |digits| > 0 && AllDigits(digits) && AllNumberWhite(trail) && AllNul(nuls)
    ensures t == sign + digits + trail + nuls
    ensures v == SignedValue(sign, digits)
  {
    var u;
    sign, u := ParseSignedParts(t, v);
    digits, trail, nuls := ParseDigitsParts(sign == "-", u, v);
    PrependParts(t, sign, u, digits, trail, nuls);
  }

  lemma PrependParts(t: string, sign: string, u: string, digits: string, trail: string, nuls: string)
    requires t == sign + u && u == digits + trail + nuls
    ensures t == sign + digits + trail + nuls
  {
  }

  lemma PrependLead(s: string, lead: string, t: string, sign: string, digits: string, trail: string, nuls: string)
    requires s == lead + t && t == sign + digits + trail + nuls
    ensures s == lead + sign + digits + trail + nuls
  {
  }

  /** And only such texts parse: a parsed value is the signed value of the
      digits of a text of that shape. */
  lemma TryParseOnlyText(s: string, v: int)
    requires TryParseInt32(s) == Some(v)
    ensures exists lead, sign, digits, trail, nuls ::
              && NumberText(lead, sign, digits, trail, nuls)
              && s == lead + sign + digits + trail + nuls
              && v == SignedValue(sign, digits)
  {
    var n := LeadingNumberWhite(s);
    var lead, t := s[..n], s[n..];
    WhiteCut(s);
    var sign, digits, trail, nuls := SignedParts(t, v);
    PrependLead(s, lead, t, sign, digits, trail, nuls);
    assert NumberText(lead, sign, digits, trail, nuls);
  }

  function DigitChar(d: nat): (c: char)
    requires d < 10
  {
    ('0' as int + d) as char
  }

  /** Decimal rendering of a natural number, without leading zeros. */
  function ShowNat(n: nat): (s: string)
    ensures |s| > 0 && AllDigits(s)
    ensures DigitsValue(s) == n
  {
    if n < 10 then
      [DigitChar(n)]
    else
      var p := ShowNat(n / 10);
      var s := p + [DigitChar(n % 10)];
      assert s[..|s| - 1] == p;
      s
  }

  /** Decimal rendering of an integer, with a leading '-' when negative. */
  function ShowInt(v: int): string {
    if v < 0 then "-" + ShowNat(-v) else ShowNat(v)
  }

  /** A rendered integer is a non-empty run of digits, after a minus sign
      for a negative value. */
  lemma ShowIntChars(v: int)
    ensures |ShowInt(v)| > 0
    ensures forall i :: 0 <= i < |ShowInt(v)| ==> ShowInt(v)[i] == '-' || IsDigit(ShowInt(v)[i])
    ensures (ShowInt(v)[0] == '-') == (v < 0)
  {
    var digits := ShowNat(if v < 0 then -v else v);
    assert forall i :: 0 <= i < |digits| ==> IsDigit(digits[i]);
    if v < 0 {
      var s := "-" + digits;
      assert forall i :: 1 <= i < |s| ==> s[i] == digits[i - 1];
    }
  }

  /** Every rendered integer parses back to itself exactly when it fits in
      an Int32, and is refused otherwise. */
  lemma ParseShowInt(v: int)
    ensures TryParseInt32(ShowInt(v)) == if IsInt32(v) then Some(v) else None
  {
    var s := ShowInt(v);
    var digits := ShowNat(if v < 0 then -v else v);
    assert LeadingNumberWhite(s) == 0;
    assert s[0..] == s;
    var u := if v < 0 then s[1..] else s;
    assert u == digits;
    assert DigitRun(u) == |u| by {
      DigitRunAll(u);
    }
    assert u[..|u|] == u;
    assert u[|u|..] == [];
  }

  lemma DigitRunAll(s: string)
    requires AllDigits(s)
    ensures DigitRun(s) == |s|
  {
  }

  /** A string with no digit never parses, whatever else it holds. */
  lemma NoDigitNoParse(s: string)
    requires forall i :: 0 <= i < |s| ==> !IsDigit(s[i])
    ensures TryParseInt32(s) == None
  {
  }

  /** The values the VERSION column normally holds, and the fallback case of
      a column such as "N/A". */
  lemma VersionTokens()
    ensures TryParseInt32("1") == Some(1)
    ensures TryParseInt32("2") == Some(2)
    ensures TryParseInt32("N/A") == None
  {
    ParseShowInt(1);
    ParseShowInt(2);
    NoDigitNoParse("N/A");
  }
}
