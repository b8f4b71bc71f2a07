/**
 * The session token codec.  The application signs `{email, exp}` with the
 * `jwt-simple` library (lib/auth.js:36) and decodes it again (lib/auth.js:75, 93).
 * That library is not part of this model; in its place stands a concrete,
 * unsigned text codec.  Decoding an issued token gives back its payload, and
 * in this codec every other string fails to decode.  The second property is
 * the stand-in's own: the application's signing key is a client-side constant
 * (lib/auth.js:3), so it accepts any payload signed with it, and never expires
 * one without a numeric `exp`.  A token is the decimal expiry time, a dot,
 * and the email.
 */
module TokenCodec {
  import opened Wrappers

  /** The claims carried by a session token; `exp` is in milliseconds. */
  datatype Payload = Payload(email: string, exp: int)

  predicate IsDigit(c: char) { '0' <= c <= '9' }

  function DigitChar(d: nat): (c: char)
    requires d < 10
    ensures IsDigit(c) && c as int - '0' as int == d
  {
    ('0' as int + d) as char
  }

  function DigitValue(c: char): (d: nat)
    requires IsDigit(c)
    ensures d < 10 && DigitChar(d) == c
  {
    c as int - '0' as int
  }

  /** A decimal numeral without superfluous leading zeros. */
  predicate IsCanonicalNumeral(s: string) {
    |s| > 0 && (forall i :: 0 <= i < |s| ==> IsDigit(s[i])) && (|s| == 1 || s[0] != '0')
  }

  function NatToDecimal(n: nat): (s: string)
    ensures IsCanonicalNumeral(s)
    ensures s[0] == '0' ==> n == 0
    decreases n
  {
    if n < 10 then [DigitChar(n)] else NatToDecimal(n / 10) + [DigitChar(n % 10)]
  }

  function DecimalToNat(s: string): nat
    requires |s| > 0 && forall i :: 0 <= i < |s| ==> IsDigit(s[i])
    decreases |s|
  {
    if |s| == 1 then DigitValue(s[0])
    else DecimalToNat(s[..|s| - 1]) * 10 + DigitValue(s[|s| - 1])
  }

  function IntToDecimal(n: int): (s: string)
    ensures '.' !in s
  {
    if n < 0 then "-" + NatToDecimal(-n) else NatToDecimal(n)
  }

  function ParseInt(s: string): Option<int> {
    if |s| > 0 && s[0] == '-' then
      if IsCanonicalNumeral(s[1..]) && s[1..] != "0" then Some(-(DecimalToNat(s[1..]) as int)) else None
    else if IsCanonicalNumeral(s) then Some(DecimalToNat(s))
    else None
  }

  /** Position of the first `c` in `s`, if any. */
  function IndexOf(s: string, c: char): (r: Option<nat>)
    ensures r.Some? ==> r.value < |s| && s[r.value] == c && c !in s[..r.value]
    ensures r.None? ==> c !in s
  {
    if s == [] then None
    else if s[0] == c then Some(0)
    else match IndexOf(s[1..], c)
      case None => None
      case Some(k) => assert s[..k + 1] == [s[0]] + s[1..][..k]; Some(k + 1)
  }

  /** The stand-in for `jwt.encode(payload, SECRET_KEY)`. */
  function Encode(p: Payload): string {
    IntToDecimal(p.exp) + "." + p.email
  }

  /** The stand-in for `jwt.decode(token, SECRET_KEY)`; `None` is the thrown error. */
  function Decode(token: string): Option<Payload> {
    match IndexOf(token, '.')
    case None => None
    case Some(k) =>
      match ParseInt(token[..k])
      case None => None
      case Some(exp) => Some(Payload(token[k + 1..], exp))
  }

  lemma {:induction false} DecimalRoundTrip(n: nat)
    ensures DecimalToNat(NatToDecimal(n)) == n
    decreases n
  {
    if n >= 10 {
      var s := NatToDecimal(n);
      assert s[..|s| - 1] == NatToDecimal(n / 10);
      DecimalRoundTrip(n / 10);
    }
  }

  lemma {:induction false} LeadingDigitPositive(s: string)
    requires |s| > 0 && (forall i :: 0 <= i < |s| ==> IsDigit(s[i])) && s[0] != '0'
    ensures DecimalToNat(s) >= 1
    decreases |s|
  {
    if |s| > 1 {
      LeadingDigitPositive(s[..|s| - 1]);
    }
  }

  lemma {:induction false} CanonicalRoundTrip(s: string)
    requires IsCanonicalNumeral(s)
    ensures NatToDecimal(DecimalToNat(s)) == s
    decreases |s|
  {
    if |s| > 1 {
      var init := s[..|s| - 1];
      assert IsCanonicalNumeral(init);
      LeadingDigitPositive(init);
      CanonicalRoundTrip(init);
      var n := DecimalToNat(s);
      assert n / 10 == DecimalToNat(init) && n % 10 == DigitValue(s[|s| - 1]);
    }
  }

  lemma IntRoundTrip(n: int)
    ensures ParseInt(IntToDecimal(n)) == Some(n)
  {
    if n < 0 {
      var s := IntToDecimal(n);
      assert s[1..] == NatToDecimal(-n);
      DecimalRoundTrip(-n);
    } else {
      DecimalRoundTrip(n);
    }
  }

  lemma ParseIntCanonical(s: string, n: int)
    requires ParseInt(s) == Some(n)
    ensures IntToDecimal(n) == s
  {
    if |s| > 0 && s[0] == '-' {
      CanonicalRoundTrip(s[1..]);
      LeadingDigitPositive(s[1..]);
      assert s == "-" + s[1..];
    } else {
      CanonicalRoundTrip(s);
    }
  }

  /** An issued token decodes to the payload it was issued for. */
  lemma DecodeEncode(p: Payload)
    ensures Decode(Encode(p)) == Some(p)
  {
    var d := IntToDecimal(p.exp);
    var t := Encode(p);
    assert t[..|d|] == d && t[|d|] == '.' && t[|d| + 1..] == p.email;
    assert IndexOf(t, '.') == Some(|d|);
    IntRoundTrip(p.exp);
  }

  /** A string decodes exactly when it is the encoding of the payload it decodes to. */
  lemma DecodeOnlyIssued(t: string, p: Payload)
    ensures Decode(t) == Some(p) <==> t == Encode(p)
  {
    if t == Encode(p) {
      DecodeEncode(p);
    }
    if Decode(t) == Some(p) {
      var k := IndexOf(t, '.').value;
      ParseIntCanonical(t[..k], p.exp);
      assert t == t[..k] + "." + t[k + 1..];
    }
  }
}
