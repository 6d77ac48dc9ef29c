/** Byte strings, hexadecimal and decimal text, as the Go standard library writes and reads them.

    A Go string is a sequence of bytes. It is modelled as a `string` each of whose characters stands
    for one byte; digests are the only values whose characters must be proved to be bytes.
  */
module Text {
  datatype Option<+T> = None | Some(value: T)

  const MAX_UINT32: nat := 0xFFFF_FFFF

  type uint32 = n: nat | n <= MAX_UINT32

  predicate AllBytes(s: string) {
    forall i | 0 <= i < |s| :: s[i] as int < 256
  }

  /** A SHA-256 or HMAC-SHA256 output: 32 raw bytes. */
  type Digest = s: string | |s| == 32 && AllBytes(s) witness seq(32, i => '0')

  // ---------- encoding/hex ----------

  function HexDigit(n: nat): char
    requires n < 16
  {
    "0123456789abcdef"[n]
  }

  /** hex.DecodeString accepts either case. */
  function HexValue(c: char): (r: Option<nat>)
    ensures r.Some? ==> r.value < 16
  {
    if '0' <= c <= '9' then Some(c as int - '0' as int)
    else if 'a' <= c <= 'f' then Some(c as int - 'a' as int + 10)
    else if 'A' <= c <= 'F' then Some(c as int - 'A' as int + 10)
    else None
  }

  function HexEncode(s: string): (r: string)
    ensures |r| == 2 * |s|
  {
    if s == "" then ""
    else [HexDigit(s[0] as int / 16 % 16), HexDigit(s[0] as int % 16)] + HexEncode(s[1..])
  }

  function HexDecode(s: string): (r: Option<string>)
    ensures r.Some? ==> AllBytes(r.value)
  {
    if s == "" then Some("")
    else if |s| == 1 then None
    else match (HexValue(s[0]), HexValue(s[1]), HexDecode(s[2..]))
         case (Some(hi), Some(lo), Some(rest)) => Some([(16 * hi + lo) as char] + rest)
         case _ => None
  }

  lemma HexDigitRoundTrip(n: nat)
    requires n < 16
    ensures HexValue(HexDigit(n)) == Some(n)
  {
    assert HexDigit(n) == if n < 10 then (n + '0' as int) as char else (n - 10 + 'a' as int) as char;
  }

  lemma HexPairDecodes(hi: char, lo: char, x: nat, y: nat, h: string, rest: string)
    requires HexValue(hi) == Some(x) && HexValue(lo) == Some(y) && x < 16 && y < 16
    requires HexDecode(h) == Some(rest)
    ensures HexDecode([hi, lo] + h) == Some([(16 * x + y) as char] + rest)
  {
    var s := [hi, lo] + h;
    assert s[0] == hi && s[1] == lo && s[2..] == h;
  }

  lemma {:induction false} HexRoundTrip(s: string)
    requires AllBytes(s)
    ensures HexDecode(HexEncode(s)) == Some(s)
  {
    if s != "" {
      var c := s[0] as int;
      assert c < 256 && 16 * (c / 16 % 16) + c % 16 == c;
      HexRoundTrip(s[1..]);
      HexDigitRoundTrip(c / 16 % 16);
      HexDigitRoundTrip(c % 16);
      HexPairDecodes(HexDigit(c / 16 % 16), HexDigit(c % 16), c / 16 % 16, c % 16, HexEncode(s[1..]), s[1..]);
      assert s == [s[0]] + s[1..];
    }
  }

  lemma HexInjective(a: string, b: string)
    requires AllBytes(a) && AllBytes(b) && HexEncode(a) == HexEncode(b)
    ensures a == b
  {
    HexRoundTrip(a);
    HexRoundTrip(b);
  }

  /** No hexadecimal text contains a NUL. */
  lemma {:induction false} HexHasNoNul(s: string)
    ensures '\0' !in HexEncode(s)
  {
    if s != "" {
      HexHasNoNul(s[1..]);
    }
  }

  // ---------- decimal ----------

  function Decimal(n: nat): (r: string)
    ensures r != "" && forall i | 0 <= i < |r| :: '0' <= r[i] <= '9'
  {
    if n < 10 then [HexDigit(n)] else Decimal(n / 10) + [HexDigit(n % 10)]
  }

  /** The %d verb of a signed integer. */
  function DecimalInt(n: int): string {
    if n < 0 then "-" + Decimal(-n) else Decimal(n)
  }

  function ParseNat(s: string): Option<nat> {
    if s == "" then None
    else
      var c := s[|s| - 1];
      if !('0' <= c <= '9') then None
      else if |s| == 1 then Some(c as int - '0' as int)
      else match ParseNat(s[..|s| - 1])
           case Some(n) => Some(10 * n + (c as int - '0' as int))
           case None => None
  }

  /** strconv.ParseUint(s, 10, 32): digits only, leading zeros allowed, out of range is an error. */
  function ParseUint32(s: string): Option<uint32> {
    match ParseNat(s)
    case Some(n) => if n <= MAX_UINT32 then Some(n) else None
    case None => None
  }

  lemma DigitValue(d: nat)
    requires d < 10
    ensures '0' <= HexDigit(d) <= '9' && HexDigit(d) as int - '0' as int == d
  {
  }

  lemma ParseDigit(s: string, d: nat, n: nat)
    requires d < 10 && (if s == "" then n == 0 else ParseNat(s) == Some(n))
    ensures ParseNat(s + [HexDigit(d)]) == Some(10 * n + d)
  {
    DigitValue(d);
    var t := s + [HexDigit(d)];
    assert t[..|t| - 1] == s && t[|t| - 1] == HexDigit(d);
  }

  lemma {:induction false} DecimalRoundTrip(n: nat)
    ensures ParseNat(Decimal(n)) == Some(n)
  {
    if n < 10 {
      ParseDigit("", n, 0);
      assert Decimal(n) == "" + [HexDigit(n)];
    } else {
      DecimalRoundTrip(n / 10);
      ParseDigit(Decimal(n / 10), n % 10, n / 10);
    }
  }

  lemma DecimalIntInjective(a: int, b: int)
    requires DecimalInt(a) == DecimalInt(b)
    ensures a == b
  {
    var x, y := DecimalInt(a), DecimalInt(b);
    assert a < 0 ==> x[0] == '-';
    assert b < 0 ==> y[0] == '-';
    DecimalRoundTrip(if a < 0 then -a else a);
    DecimalRoundTrip(if b < 0 then -b else b);
    if a < 0 {
      assert x[1..] == Decimal(-a);
      assert y[1..] == Decimal(-b);
    }
  }

  lemma DecimalIntHasNoNul(n: int)
    ensures DecimalInt(n) != "" && '\0' !in DecimalInt(n)
    ensures DecimalInt(n)[0] == '-' || '0' <= DecimalInt(n)[0] <= '9'
  {
    assert forall i | 0 <= i < |DecimalInt(n)| :: DecimalInt(n)[i] != '\0';
  }
}
