/** Text as the Rust standard library reads it: UTF-8 validation, trimming,
    splitting, and the integer parsers and printers built on it. */
module Text {
  import opened Bytes

  /** usize::MAX on wasm32, the target of the tor-js-wasm crate. */
  const USIZE_MAX: nat := 0xFFFF_FFFF
  const U16_MAX: nat := 0xFFFF

  function Ascii(s: string): (b: seq<byte>)
    requires forall c | c in s :: c as int < 128
    ensures |b| == |s|
    ensures forall i :: 0 <= i < |b| ==> b[i] == s[i] as int
  {
    if s == "" then []
    else
      assert s[0] in s && forall c | c in s[1..] :: c in s;
      var b: byte := s[0] as int;
      [b] + Ascii(s[1..])
  }

  // ---- UTF-8 (RFC 3629, section 4) ----

  predicate Continuation(b: byte) { 0x80 <= b < 0xC0 }

  /** The first code point and the bytes it takes, or None when ill-formed. */
  function FirstCodePoint(b: seq<byte>): (r: Option<(char, nat)>)
    requires b != []
    ensures r.Some? ==> 1 <= r.value.1 <= |b|
  {
    var b0: int, b1: int, b2: int := b[0], if |b| > 1 then b[1] else 0, if |b| > 2 then b[2] else 0;
    if b0 < 0x80 then Some((b0 as char, 1))
    else if 0xC2 <= b0 < 0xE0 && |b| >= 2 && Continuation(b[1]) then
      Some((((b0 - 0xC0) * 64 + b1 - 0x80) as char, 2))
    else if 0xE0 <= b0 < 0xF0 && |b| >= 3 && Continuation(b[1]) && Continuation(b[2])
            && (b0 == 0xE0 ==> b[1] >= 0xA0) && (b0 == 0xED ==> b[1] < 0xA0) then
      Some((((b0 - 0xE0) * 4096 + (b1 - 0x80) * 64 + b2 - 0x80) as char, 3))
    else if 0xF0 <= b0 < 0xF5 && |b| >= 4 && Continuation(b[1]) && Continuation(b[2]) && Continuation(b[3])
            && (b0 == 0xF0 ==> b[1] >= 0x90) && (b0 == 0xF4 ==> b[1] < 0x90) then
      Some((((b0 - 0xF0) * 262144 + (b1 - 0x80) * 4096 + (b2 - 0x80) * 64 + b[3] - 0x80) as char, 4))
    else None
  }

  function Utf8(b: seq<byte>): Option<string>
  {
    if b == [] then Some("")
    else
      match FirstCodePoint(b)
      case None => None
      case Some((c, n)) =>
        match Utf8(b[n..])
        case None => None
        case Some(rest) => Some([c] + rest)
  }

  lemma {:induction false} Utf8OfAscii(s: string)
    requires forall c | c in s :: c as int < 128
    ensures Utf8(Ascii(s)) == Some(s)
  {
    if s != "" {
      assert s[0] in s && forall c | c in s[1..] :: c in s;
      Utf8OfAscii(s[1..]);
      assert Ascii(s)[1..] == Ascii(s[1..]);
      assert s == [s[0]] + s[1..];
    }
  }

  // ---- Trimming and splitting ----

  /** The Unicode White_Space property, which str::trim removes. */
  predicate IsSpace(c: char) {
    var u := c as int;
    9 <= u <= 13 || u == 0x20 || u == 0x85 || u == 0xA0 || u == 0x1680 || 0x2000 <= u <= 0x200A
    || u == 0x2028 || u == 0x2029 || u == 0x202F || u == 0x205F || u == 0x3000
  }

  function TrimStart(s: string): string {
    if s != "" && IsSpace(s[0]) then TrimStart(s[1..]) else s
  }

  function TrimEnd(s: string): string {
    if s != "" && IsSpace(s[|s| - 1]) then TrimEnd(s[..|s| - 1]) else s
  }

  function Trim(s: string): string { TrimEnd(TrimStart(s)) }

  /** The offset of the first c, or the length when there is none. */
  function IndexOf(s: string, c: char): (i: nat)
    ensures i <= |s|
    ensures i < |s| ==> s[i] == c
    ensures c !in s[..i]
  {
    if s == "" || s[0] == c then 0 else
      var i := IndexOf(s[1..], c) + 1;
      assert s[..i] == [s[0]] + s[1..][..i - 1];
      i
  }

  function LowerAscii(s: string): string {
    seq(|s|, i requires 0 <= i < |s| => if 'A' <= s[i] <= 'Z' then (s[i] as int + 32) as char else s[i])
  }

  // ---- Unsigned integers ----

  function DigitValue(c: char): int {
    if '0' <= c <= '9' then c as int - '0' as int
    else if 'a' <= c <= 'z' then c as int - 'a' as int + 10
    else if 'A' <= c <= 'Z' then c as int - 'A' as int + 10
    else 99
  }

  predicate AllDigits(s: string, radix: nat) { forall c | c in s :: DigitValue(c) < radix }

  function DigitsValue(s: string, radix: nat): nat
    requires AllDigits(s, radix)
  {
    if s == "" then 0
    else DigitsValue(s[..|s| - 1], radix) * radix + DigitValue(s[|s| - 1])
  }

  /** from_str_radix for an unsigned type: one leading '+' is accepted, an empty
      digit string, a foreign digit or a value above the type's maximum is not. */
  function ParseUnsigned(s: string, radix: nat, max: nat): Option<nat> {
    var digits := if s != "" && s[0] == '+' then s[1..] else s;
    if digits == "" || !AllDigits(digits, radix) || DigitsValue(digits, radix) > max then None
    else Some(DigitsValue(digits, radix))
  }

  function HexDigit(d: nat): (c: char)
    requires d < 16
    ensures c as int < 128 && DigitValue(c) == d && c != '+' && c != ';' && !IsSpace(c)
  {
    if d < 10 then ('0' as int + d) as char else ('a' as int + (d - 10)) as char
  }

  /** The `{:x}` rendering of an unsigned integer. */
  function Hex(n: nat): (s: string)
    ensures s != ""
    ensures forall c | c in s :: c as int < 128 && DigitValue(c) < 16 && c != '+' && c != ';' && !IsSpace(c)
  {
    if n < 16 then [HexDigit(n)] else Hex(n / 16) + [HexDigit(n % 16)]
  }

  lemma {:induction false} HexValue(n: nat)
    ensures AllDigits(Hex(n), 16) && DigitsValue(Hex(n), 16) == n
  {
    if n < 16 {
      assert Hex(n)[..0] == "";
    } else {
      HexValue(n / 16);
      assert Hex(n)[..|Hex(n)| - 1] == Hex(n / 16);
    }
  }

  /** Printing a length in hex and parsing it back is the identity up to the
      maximum of the type, and an error above it. */
  lemma HexRoundTrip(n: nat, max: nat)
    ensures ParseUnsigned(Hex(n), 16, max) == if n <= max then Some(n) else None
  {
    HexValue(n);
    assert Hex(n)[0] in Hex(n);
  }

  lemma {:induction false} TrimKeepsSolidText(s: string)
    requires forall c | c in s :: !IsSpace(c)
    ensures Trim(s) == s
  {
    if s != "" {
      assert s[0] in s && s[|s| - 1] in s;
    }
  }
}
