/** What the file names of storage keys look like, and what any file name decodes to. */
module KeyNames {
  import Bytes
  import opened Text
  import opened TextLaws
  import opened KeyMangling

  /** Text as code units. */
  function Units(s: string): seq<unit>
    requires forall i :: 0 <= i < |s| ==> s[i] as int < 128
  {
    seq(|s|, i requires 0 <= i < |s| => s[i] as int)
  }

  predicate IsAscii(s: string) { forall i :: 0 <= i < |s| ==> s[i] as int < 128 }

  // ---- Encoding ----

  predicate Alphanumeric(u: unit) {
    '0' as int <= u <= '9' as int || 'A' as int <= u <= 'Z' as int || 'a' as int <= u <= 'z' as int
  }

  /** Letters and digits pass through; every other unit becomes its hexadecimal number
      between underscores, with two digits up to 255 and four above. */
  lemma MangledForm(u: unit) returns (zeros: nat)
    ensures Alphanumeric(u) ==> MangleUnit(u) == [u]
    ensures !Alphanumeric(u) ==>
              && var s := "_" + (Zeros(zeros) + Numeral(u, 16)) + "_";
              && |s| == (if u <= 255 then 4 else 6) && IsAscii(s) && MangleUnit(u) == Units(s)
  {
    zeros := 0;
    if !Alphanumeric(u) {
      var width := if u <= 255 then 2 else 4;
      MangledEscape(u, width);
      zeros := PaddedIs(u, width);
      HexWidths(u);
      hide HexPadded, Numeral, Zeros, MangleUnit;
      BetweenUnderscores(Zeros(zeros) + Numeral(u, 16));
    }
  }

  lemma MangledEscape(u: unit, width: nat)
    requires !Alphanumeric(u) && width == if u <= 255 then 2 else 4
    ensures MangleUnit(u) == [UNDERSCORE] + HexPadded(u, width) + [UNDERSCORE]
  {
    assert !IsAlnum(u);
    hide HexPadded;
  }

  lemma BetweenUnderscores(digits: string)
    requires IsAscii(digits)
    ensures IsAscii("_" + digits + "_") && Units("_" + digits + "_") == [UNDERSCORE] + Units(digits) + [UNDERSCORE]
  {
  }

  lemma UnitsJoin(a: string, b: string)
    requires IsAscii(a) && IsAscii(b)
    ensures IsAscii(a + b) && Units(a + b) == Units(a) + Units(b)
  {
  }

  /** Padded hexadecimal digits are zeros and the numeral. */
  lemma {:induction false} PaddedIs(n: nat, width: nat) returns (zeros: nat)
    requires width >= 1
    ensures var s := Zeros(zeros) + Numeral(n, 16); IsAscii(s) && HexPadded(n, width) == Units(s)
    decreases width, n
  {
    var last := [HexDigit(n % 16)];
    assert IsAscii(last) && Units(last) == [DigitUnit(n % 16)];
    if width == 1 && n < 16 {
      zeros := 0;
      assert Zeros(0) + Numeral(n, 16) == last;
    } else {
      var w := if width > 1 then width - 1 else 1;
      var k := PaddedIs(n / 16, w);
      UnitsJoin(Zeros(k) + Numeral(n / 16, 16), last);
      if n < 16 {
        zeros := k + 1;
        NumeralOfZero(16);
        OneZeroMore(k);
      } else {
        zeros := k;
        Bytes.ConcatAssoc(Zeros(k), Numeral(n / 16, 16), last);
      }
    }
  }

  // ---- Decoding ----

  lemma HexDigitIs(c: char)
    requires c as int < 128
    ensures IsHex(c as int) <==> DigitValue(c) < 16
    ensures DigitValue(c) < 16 ==> KeyMangling.HexValue(c as int) == DigitValue(c)
  {
  }

  lemma {:induction false} ParsedDigits(digits: string)
    requires IsAscii(digits)
    ensures AllHex(Units(digits)) <==> AllDigits(digits, 16)
    ensures AllDigits(digits, 16) ==> ParseHex(Units(digits)) == DigitsValue(digits, 16)
  {
    hide IsHex, KeyMangling.HexValue, DigitValue;
    if digits != "" {
      var k := |digits| - 1;
      ParsedDigits(digits[..k]);
      HexDigitIs(digits[k]);
      assert Units(digits)[..k] == Units(digits[..k]);
      assert digits == digits[..k] + [digits[k]] && Units(digits) == Units(digits[..k]) + [digits[k] as int];
      assert AllDigits(digits, 16) <==> AllDigits(digits[..k], 16) && DigitValue(digits[k]) < 16;
      assert AllHex(Units(digits)) <==> AllHex(Units(digits[..k])) && IsHex(Units(digits)[k]);
    }
  }

  /** A name begins with an escape: two or four hexadecimal digits, of either case, between
      underscores. */
  ghost predicate Escaped(name: seq<unit>, digits: string, rest: seq<unit>) {
    && |digits| in {2, 4} && IsAscii(digits) && AllDigits(digits, 16)
    && name == [UNDERSCORE] + Units(digits) + [UNDERSCORE] + rest
  }

  lemma FrontEscape(name: seq<unit>, digits: string, rest: seq<unit>)
    requires Escaped(name, digits, rest)
    ensures NextToken(name, 0) == Token(DigitsValue(digits, 16) % 65536, |digits| + 2)
    ensures name[|digits| + 2..] == rest
  {
    var n := |digits|;
    ParsedDigits(digits);
    hide ParseHex, DigitsValue, AllDigits, IsHex;
    assert name[1..1 + n] == Units(digits) && name[n + 1] == UNDERSCORE && name[0] == UNDERSCORE;
    if n == 2 && 5 < |name| {
      assert name[1..5][2] == UNDERSCORE;
      UnderscoreIsNoDigit(name[1..5], 2);
    }
  }

  lemma UnderscoreIsNoDigit(s: seq<unit>, i: nat)
    requires i < |s| && s[i] == UNDERSCORE
    ensures !AllHex(s)
  {
  }

  lemma AsDigits(name: seq<unit>, n: nat) returns (digits: string)
    requires n in {2, 4} && EscapeAt(name, 0, n)
    ensures Escaped(name, digits, name[n + 2..])
  {
    var hex := name[1..1 + n];
    digits := seq(n, i requires 0 <= i < n => hex[i] as char);
    assert forall i :: 0 <= i < n ==> IsHex(hex[i]);
    assert Units(digits) == hex;
    ParsedDigits(digits);
    assert name == [UNDERSCORE] + hex + [UNDERSCORE] + name[n + 2..];
  }

  lemma {:induction false} DecodesFromHere(name: seq<unit>, i: nat)
    requires i <= |name|
    ensures UnmangleFrom(name, i) == Unmangle(name[i..])
    decreases |name| - i
  {
    hide NextToken;
    if i < |name| {
      TokenInSuffix(name, i);
      var n := NextToken(name, i).size;
      DecodesFromHere(name, i + n);
      DecodesBehind(name[i..], n);
      assert name[i..][n..] == name[i + n..];
    }
  }

  lemma {:induction false} DecodesBehind(name: seq<unit>, n: nat)
    requires 0 < n <= |name|
    ensures UnmangleFrom(name, n) == Unmangle(name[n..])
    decreases |name| - n
  {
    hide NextToken;
    if n < |name| {
      TokenInSuffix(name, n);
      var m := NextToken(name, n).size;
      DecodesBehind(name, n + m);
      DecodesBehind(name[n..], m);
      assert name[n..][m..] == name[n + m..];
    }
  }

  /** Any name decodes from the front: an escape to the unit of that number, and whatever
      is no escape, an underscore included, to itself. */
  lemma UnmangleIs(name: seq<unit>, digits: string, rest: seq<unit>)
    ensures Unmangle([]) == []
    ensures Escaped(name, digits, rest) ==> Unmangle(name) == [DigitsValue(digits, 16) % 65536] + Unmangle(rest)
    ensures name != [] && (forall d, r :: !Escaped(name, d, r)) ==> Unmangle(name) == [name[0]] + Unmangle(name[1..])
  {
    hide NextToken, EscapeAt, Escaped;
    if Escaped(name, digits, rest) {
      FrontEscape(name, digits, rest);
      assert name != [] by { assert Escaped(name, digits, rest); NotEmpty(name, digits, rest); }
      DecodesFromHere(name, |digits| + 2);
    }
    if name != [] && (forall d, r :: !Escaped(name, d, r)) {
      NoToken(name);
      DecodesFromHere(name, 1);
    }
  }

  lemma NotEmpty(name: seq<unit>, digits: string, rest: seq<unit>)
    requires Escaped(name, digits, rest)
    ensures name != [] && |digits| + 2 <= |name|
  {
  }

  lemma NoToken(name: seq<unit>)
    requires name != [] && (forall d, r :: !Escaped(name, d, r))
    ensures NextToken(name, 0) == Token(name[0], 1)
  {
    hide EscapeAt, Escaped;
    if EscapeAt(name, 0, 4) {
      var d := AsDigits(name, 4);
    }
    if EscapeAt(name, 0, 2) {
      var d := AsDigits(name, 2);
    }
  }
}
