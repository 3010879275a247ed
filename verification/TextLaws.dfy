/** What the text functions mean, by the printers they undo: UTF-8, white space and
    numerals. */
module TextLaws {
  import opened Bytes
  import opened Text

  // ---- UTF-8 ----

  /** The encoding of one character (section 3 of RFC 3629). */
  function EncodeChar(c: char): (b: seq<byte>)
    ensures 1 <= |b| <= 4
  {
    var u := c as int;
    if u < 0x80 then [u]
    else if u < 0x800 then [0xC0 + u / 64, 0x80 + u % 64]
    else if u < 0x10000 then [0xE0 + u / 4096, 0x80 + u / 64 % 64, 0x80 + u % 64]
    else [0xF0 + u / 262144, 0x80 + u / 4096 % 64, 0x80 + u / 64 % 64, 0x80 + u % 64]
  }

  function Encode(s: string): seq<byte> { if s == "" then [] else EncodeChar(s[0]) + Encode(s[1..]) }

  /** The groups of six bits of a character. */
  lemma Groups(u: nat)
    ensures u == u / 64 * 64 + u % 64
    ensures u == u / 4096 * 4096 + u / 64 % 64 * 64 + u % 64
    ensures u == u / 262144 * 262144 + u / 4096 % 64 * 4096 + u / 64 % 64 * 64 + u % 64
  {
    assert u / 64 / 64 == u / 4096 && u / 4096 / 64 == u / 262144;
  }

  lemma Regroup(high: nat, low: nat)
    requires low < 64
    ensures (high * 64 + low) / 64 == high && (high * 64 + low) % 64 == low
  {
  }

  lemma FromGroups(a: nat, b: nat, c: nat, d: nat)
    requires b < 64 && c < 64 && d < 64
    ensures var u := a * 262144 + b * 4096 + c * 64 + d;
            u / 262144 == a && u / 4096 % 64 == b && u / 64 % 64 == c && u % 64 == d
  {
    var u, high, top := a * 262144 + b * 4096 + c * 64 + d, a * 4096 + b * 64 + c, a * 64 + b;
    Regroup(high, d);
    Regroup(top, c);
    Regroup(a, b);
    assert u == high * 64 + d && high == top * 64 + c;
    assert u / 4096 == u / 64 / 64 && u / 262144 == u / 64 / 64 / 64;
  }

  lemma CharDecodes(c: char, rest: seq<byte>)
    ensures FirstCodePoint(EncodeChar(c) + rest) == Some((c, |EncodeChar(c)|))
  {
    var e, u := EncodeChar(c), c as int;
    var b := e + rest;
    Groups(u);
    if u < 0x80 {
      assert b[0] == e[0];
    } else if u < 0x800 {
      assert b[0] == e[0] && b[1] == e[1];
    } else if u < 0x10000 {
      assert b[0] == e[0] && b[1] == e[1] && b[2] == e[2];
    } else {
      assert b[0] == e[0] && b[1] == e[1] && b[2] == e[2] && b[3] == e[3];
    }
  }

  lemma TwoBytes(b0: int, b1: byte)
    requires 0xC2 <= b0 < 0xE0 && Continuation(b1)
    ensures EncodeChar(((b0 - 0xC0) * 64 + b1 - 0x80) as char) == [b0, b1]
  {
    Regroup(b0 - 0xC0, b1 - 0x80);
  }

  lemma ThreeBytes(b0: int, b1: byte, b2: byte)
    requires 0xE0 <= b0 < 0xF0 && Continuation(b1) && Continuation(b2)
    requires (b0 == 0xE0 ==> b1 >= 0xA0) && (b0 == 0xED ==> b1 < 0xA0)
    ensures EncodeChar(((b0 - 0xE0) * 4096 + (b1 - 0x80) * 64 + b2 - 0x80) as char) == [b0, b1, b2]
  {
    FromGroups(0, b0 - 0xE0, b1 - 0x80, b2 - 0x80);
    Regroup(b0 - 0xE0, b1 - 0x80);
  }

  lemma FourBytes(b0: int, b1: byte, b2: byte, b3: byte)
    requires 0xF0 <= b0 < 0xF5 && Continuation(b1) && Continuation(b2) && Continuation(b3)
    requires (b0 == 0xF0 ==> b1 >= 0x90) && (b0 == 0xF4 ==> b1 < 0x90)
    ensures EncodeChar(((b0 - 0xF0) * 262144 + (b1 - 0x80) * 4096 + (b2 - 0x80) * 64 + b3 - 0x80) as char) == [b0, b1, b2, b3]
  {
    FromGroups(b0 - 0xF0, b1 - 0x80, b2 - 0x80, b3 - 0x80);
  }

  lemma DecodedIsChar(b: seq<byte>)
    requires b != [] && FirstCodePoint(b).Some?
    ensures b[..FirstCodePoint(b).value.1] == EncodeChar(FirstCodePoint(b).value.0)
  {
    match FirstCodePoint(b).value.1
    case 2 =>
      assert b[..2] == [b[0], b[1]];
      TwoBytes(b[0], b[1]);
    case 3 =>
      assert b[..3] == [b[0], b[1], b[2]];
      ThreeBytes(b[0], b[1], b[2]);
    case 4 =>
      assert b[..4] == [b[0], b[1], b[2], b[3]];
      FourBytes(b[0], b[1], b[2], b[3]);
    case _ =>
      assert b[..1] == [b[0]];
  }

  /** The decoder accepts exactly the encodings, each as the text it encodes. */
  lemma {:induction false} Utf8Iff(b: seq<byte>, s: string)
    ensures Utf8(b) == Some(s) <==> b == Encode(s)
    decreases |b|
  {
    hide FirstCodePoint, EncodeChar;
    if b == [] {
      assert s != "" ==> |Encode(s)| >= 1;
    } else {
      if FirstCodePoint(b).Some? {
        DecodedIsChar(b);
        var (c, n) := FirstCodePoint(b).value;
        assert b == b[..n] + b[n..];
        if Utf8(b[n..]).Some? {
          Utf8Iff(b[n..], Utf8(b[n..]).value);
          assert ([c] + Utf8(b[n..]).value)[1..] == Utf8(b[n..]).value;
        }
      }
      if s != "" && b == Encode(s) {
        CharDecodes(s[0], Encode(s[1..]));
        assert b[|EncodeChar(s[0])|..] == Encode(s[1..]);
        Utf8Iff(b[|EncodeChar(s[0])|..], s[1..]);
        assert s == [s[0]] + s[1..];
      }
    }
  }

  // ---- White space ----

  predicate AllWhite(s: string) { forall c :: c in s ==> IsSpace(c) }

  /** No white space at either end. */
  predicate Solid(s: string) { s != "" ==> !IsSpace(s[0]) && !IsSpace(s[|s| - 1]) }

  /** Trimming takes the white space at both ends, and nothing else. */
  lemma {:induction false} TrimIs(a: string, b: string, c: string)
    requires AllWhite(a) && Solid(b) && AllWhite(c)
    ensures Trim(a + b + c) == b
  {
    if b == "" {
      AllWhiteGoes(a + c);
      assert a + b + c == a + c;
    } else {
      StartIs(a, b, c);
      EndIs(b, c);
    }
  }

  lemma {:induction false} StartIs(a: string, b: string, c: string)
    requires AllWhite(a) && Solid(b) && b != ""
    ensures TrimStart(a + b + c) == b + c
    decreases a
  {
    if a != "" {
      assert (a + b + c)[0] == a[0] && (a + b + c)[1..] == a[1..] + b + c;
      StartIs(a[1..], b, c);
    } else {
      assert a + b + c == b + c;
    }
  }

  lemma {:induction false} AllWhiteGoes(s: string)
    requires AllWhite(s)
    ensures TrimStart(s) == ""
  {
    if s != "" { AllWhiteGoes(s[1..]); }
  }

  lemma {:induction false} EndIs(b: string, c: string)
    requires Solid(b) && b != "" && AllWhite(c)
    ensures TrimEnd(b + c) == b
    decreases c
  {
    if c != "" {
      assert (b + c)[|b + c| - 1] == c[|c| - 1] && (b + c)[..|b + c| - 1] == b + c[..|c| - 1];
      EndIs(b, c[..|c| - 1]);
    } else {
      assert b + c == b;
    }
  }

  lemma {:induction false} EndParts(s: string) returns (c: string)
    ensures s == TrimEnd(s) + c && AllWhite(c) && (TrimEnd(s) != "" ==> !IsSpace(TrimEnd(s)[|TrimEnd(s)| - 1]))
  {
    c := "";
    if s != "" && IsSpace(s[|s| - 1]) {
      c := EndParts(s[..|s| - 1]);
      assert s == TrimEnd(s) + (c + [s[|s| - 1]]);
      c := c + [s[|s| - 1]];
    }
  }

  lemma {:induction false} StartParts(s: string) returns (a: string)
    ensures s == a + TrimStart(s) && AllWhite(a) && (TrimStart(s) != "" ==> !IsSpace(TrimStart(s)[0]))
  {
    a := "";
    if s != "" && IsSpace(s[0]) {
      a := StartParts(s[1..]);
      assert s == [s[0]] + a + TrimStart(s);
      a := [s[0]] + a;
    }
  }

  lemma TrimParts(s: string) returns (a: string, c: string)
    ensures s == a + Trim(s) + c && AllWhite(a) && Solid(Trim(s)) && AllWhite(c)
  {
    a := StartParts(s);
    c := EndParts(TrimStart(s));
    var t := Trim(s);
    assert TrimStart(s) == t + c;
    assert t != "" ==> TrimStart(s)[0] == t[0];
    ConcatAssoc(a, t, c);
  }

  // ---- Letters ----

  /** The ASCII codes 65 to 90 go to 97 to 122, everything else stays. */
  predicate Lowered(s: string, t: string) {
    |s| == |t| && forall i :: 0 <= i < |s| ==> if 65 <= s[i] as int <= 90 then t[i] as int == s[i] as int + 32 else t[i] == s[i]
  }

  lemma LowerIs(s: string, t: string)
    ensures Lowered(s, t) <==> t == LowerAscii(s)
  {
  }

  // ---- Numerals ----

  /** The usual notation: no leading zeros, letters small. */
  function Numeral(n: nat, radix: nat): (s: string)
    requires 2 <= radix <= 16
    ensures s != ""
  {
    if n < radix then [HexDigit(n)] else Numeral(n / radix, radix) + [HexDigit(n % radix)]
  }

  function Zeros(k: nat): string { seq(k, i requires 0 <= i < k => '0') }

  /** Up to the case of the letters. */
  predicate SameDigits(s: string, t: string) {
    |s| == |t| && forall i :: 0 <= i < |s| ==> s[i] == t[i] || ('A' <= s[i] <= 'F' && s[i] as int + 32 == t[i] as int)
  }

  /** A sign or none, leading zeros, and the numeral. */
  ghost predicate Denotes(s: string, n: nat, radix: nat, sign: string, digits: string, zeros: nat)
    requires 2 <= radix <= 16
  {
    s == sign + digits && (sign == "" || sign == "+") && SameDigits(digits, Zeros(zeros) + Numeral(n, radix))
  }

  ghost predicate IsNotation(s: string, n: nat, radix: nat)
    requires 2 <= radix <= 16
  {
    exists sign, digits, zeros :: Denotes(s, n, radix, sign, digits, zeros)
  }

  lemma DigitIs(c: char, t: char)
    requires c == t || ('A' <= c <= 'F' && c as int + 32 == t as int)
    requires DigitValue(t) < 16 && (t < 'A' || t > 'Z')
    ensures DigitValue(c) == DigitValue(t) && c != '+'
  {
  }

  lemma {:induction false} SameValue(s: string, t: string, radix: nat)
    requires radix <= 16 && SameDigits(s, t) && AllDigits(t, radix) && NoCapitals(t)
    ensures AllDigits(s, radix) && DigitsValue(s, radix) == DigitsValue(t, radix)
    decreases |s|
  {
    hide DigitValue, AllDigits, DigitsValue, NoCapitals;
    if s == "" {
      assert t == "";
      NoDigits(radix);
    } else {
      var k := |s| - 1;
      LastOfDigits(t, radix);
      SameValue(s[..k], t[..k], radix);
      DigitIs(s[k], t[k]);
      AppendedDigit(s[..k], s[k], radix);
      AppendedDigit(t[..k], t[k], radix);
      assert s == s[..k] + [s[k]] && t == t[..k] + [t[k]];
    }
  }

  lemma NoDigits(radix: nat)
    ensures AllDigits("", radix)
  {
  }

  lemma LastOfDigits(t: string, radix: nat)
    requires t != "" && AllDigits(t, radix) && NoCapitals(t)
    ensures var k := |t| - 1;
            && AllDigits(t[..k], radix) && NoCapitals(t[..k])
            && DigitValue(t[k]) < radix && (t[k] < 'A' || t[k] > 'Z')
  {
    hide DigitValue;
    var k := |t| - 1;
    assert t[k] in t && forall c :: c in t[..k] ==> c in t;
  }

  lemma AppendedDigit(front: string, c: char, radix: nat)
    requires AllDigits(front, radix) && DigitValue(c) < radix
    ensures AllDigits(front + [c], radix)
    ensures DigitsValue(front + [c], radix) == DigitsValue(front, radix) * radix + DigitValue(c)
  {
    hide DigitValue;
    assert (front + [c])[..|front|] == front;
  }

  lemma NoSign(s: string, t: string, radix: nat)
    requires radix <= 16 && SameDigits(s, t) && AllDigits(t, radix) && s != "" && NoCapitals(t)
    ensures s[0] != '+'
  {
    assert t[0] in t;
    DigitIs(s[0], t[0]);
  }

  lemma {:induction false} ZerosValue(k: nat, radix: nat)
    requires 2 <= radix <= 16
    ensures AllDigits(Zeros(k), radix) && DigitsValue(Zeros(k), radix) == 0
    ensures forall c :: c in Zeros(k) ==> c == '0'
  {
    if k > 0 {
      assert Zeros(k)[..k - 1] == Zeros(k - 1);
      ZerosValue(k - 1, radix);
    }
  }

  lemma NumeralIsSmall(d: nat)
    requires d < 16
    ensures HexDigit(d) < 'A' || HexDigit(d) > 'Z'
  {
  }

  predicate NoCapitals(s: string) { forall c :: c in s ==> c < 'A' || c > 'Z' }

  lemma NoCapitalsPlus(a: string, d: nat)
    requires NoCapitals(a) && d < 16
    ensures NoCapitals(a + [HexDigit(d)])
  {
    NumeralIsSmall(d);
    hide HexDigit;
    forall c | c in a + [HexDigit(d)] ensures c < 'A' || c > 'Z' {
      assert c in a || c == HexDigit(d);
    }
  }

  lemma {:induction false} NumeralHasNoCapitals(k: nat, n: nat, radix: nat)
    requires 2 <= radix <= 16
    ensures NoCapitals(Zeros(k) + Numeral(n, radix))
    decreases n
  {
    hide HexDigit, NoCapitals;
    if n < radix {
      assert NoCapitals(Zeros(k)) by { ZerosHaveNoCapitals(k); }
      NoCapitalsPlus(Zeros(k), n);
    } else {
      NumeralHasNoCapitals(k, n / radix, radix);
      ConcatAssoc(Zeros(k), Numeral(n / radix, radix), [HexDigit(n % radix)]);
      NoCapitalsPlus(Zeros(k) + Numeral(n / radix, radix), n % radix);
    }
  }

  lemma ZerosHaveNoCapitals(k: nat)
    ensures NoCapitals(Zeros(k))
  {
  }

  lemma {:induction false} NumeralValue(k: nat, n: nat, radix: nat)
    requires 2 <= radix <= 16
    ensures var s := Zeros(k) + Numeral(n, radix);
            AllDigits(s, radix) && DigitsValue(s, radix) == n
    decreases n
  {
    hide HexDigit, Zeros, DigitValue, AllDigits, DigitsValue;
    if n < radix {
      ZerosValue(k, radix);
      OneMoreDigit(Zeros(k), n, radix);
    } else {
      NumeralValue(k, n / radix, radix);
      Quotient(n, radix);
      ConcatAssoc(Zeros(k), Numeral(n / radix, radix), [HexDigit(n % radix)]);
      OneMoreDigit(Zeros(k) + Numeral(n / radix, radix), n % radix, radix);
    }
  }

  lemma OneMoreDigit(front: string, d: nat, radix: nat)
    requires radix <= 16 && d < radix && AllDigits(front, radix)
    ensures var s := front + [HexDigit(d)];
            AllDigits(s, radix) && DigitsValue(s, radix) == DigitsValue(front, radix) * radix + d
  {
    assert (front + [HexDigit(d)])[..|front|] == front;
  }

  lemma Quotient(n: nat, radix: nat)
    requires radix >= 2
    ensures n / radix * radix + n % radix == n
  {
  }

  lemma DigitIsDigit(c: char, radix: nat)
    requires radix <= 16 && 0 <= DigitValue(c) < radix
    ensures SameDigits([c], [HexDigit(DigitValue(c))])
  {
  }

  lemma DigitIsNat(c: char)
    ensures DigitValue(c) >= 0
  {
  }

  lemma {:induction false} DigitsAreNumeral(s: string, radix: nat) returns (zeros: nat)
    requires 2 <= radix <= 16 && s != "" && AllDigits(s, radix)
    ensures SameDigits(s, Zeros(zeros) + Numeral(DigitsValue(s, radix), radix))
    decreases |s|
  {
    hide DigitValue, HexDigit;
    var k := |s| - 1;
    var c, front := s[k], s[..k];
    assert s == front + [c] && c in s && forall d :: d in front ==> d in s;
    DigitIsNat(c);
    DigitIsDigit(c, radix);
    zeros := 0;
    if front != "" {
      zeros := DigitsAreNumeral(front, radix);
    }
    zeros := OneDigitMore(front, c, radix, zeros);
  }

  lemma OneDigitMore(front: string, c: char, radix: nat, k: nat) returns (zeros: nat)
    requires 2 <= radix <= 16 && AllDigits(front, radix) && 0 <= DigitValue(c) < radix
    requires SameDigits([c], [HexDigit(DigitValue(c))])
    requires front != "" ==> SameDigits(front, Zeros(k) + Numeral(DigitsValue(front, radix), radix))
    ensures AllDigits(front + [c], radix)
    ensures SameDigits(front + [c], Zeros(zeros) + Numeral(DigitsValue(front + [c], radix), radix))
  {
    var s, v, x := front + [c], DigitsValue(front, radix), DigitValue(c);
    assert s[..|front|] == front && DigitsValue(s, radix) == v * radix + x;
    var digit, w := [HexDigit(x)], DigitsValue(s, radix);
    hide DigitValue, HexDigit, DigitsValue, AllDigits, SameDigits, Zeros, Numeral;
    if front == "" {
      zeros := 0;
      NoZeros(digit);
      ShortNumeral(x, radix);
      assert s == [c];
    } else if v == 0 {
      zeros := k + 1;
      NumeralOfZero(radix);
      OneZeroMore(k);
      ShortNumeral(x, radix);
      Glue(front, Zeros(k + 1), [c], digit);
    } else {
      zeros := k;
      NumeralGrows(v, x, radix, w);
      Glue(front, Zeros(k) + Numeral(v, radix), [c], digit);
      ConcatAssoc(Zeros(k), Numeral(v, radix), digit);
    }
  }

  lemma NoZeros(s: string)
    ensures Zeros(0) + s == s
  {
  }

  lemma ShortNumeral(x: nat, radix: nat)
    requires 2 <= radix <= 16 && x < radix
    ensures Numeral(x, radix) == [HexDigit(x)]
  {
  }

  lemma NumeralGrows(v: nat, x: nat, radix: nat, w: nat)
    requires 2 <= radix <= 16 && v > 0 && x < radix && w == v * radix + x
    ensures Numeral(w, radix) == Numeral(v, radix) + [HexDigit(x)]
  {
    LastDigit(v, x, radix);
  }

  lemma OneZeroMore(k: nat)
    ensures Zeros(k) + "0" == Zeros(k + 1)
  {
  }

  lemma NumeralOfZero(radix: nat)
    requires 2 <= radix <= 16
    ensures Numeral(0, radix) == "0"
  {
  }

  lemma Glue(a: string, b: string, c: string, d: string)
    requires SameDigits(a, b) && SameDigits(c, d)
    ensures SameDigits(a + c, b + d)
  {
  }

  lemma LastDigit(v: nat, x: nat, radix: nat)
    requires 2 <= radix <= 16 && v > 0 && x < radix
    ensures v * radix + x >= radix && (v * radix + x) / radix == v && (v * radix + x) % radix == x
  {
  }

  /** Parsing gives n exactly for the notations of n, if n fits the type: a leading plus,
      leading zeros and capital letters are accepted, nothing else is. */
  lemma ParsedIff(s: string, radix: nat, max: nat, n: nat)
    requires 2 <= radix <= 16
    ensures ParseUnsigned(s, radix, max) == Some(n) <==> n <= max && IsNotation(s, n, radix)
  {
    hide DigitValue, AllDigits, DigitsValue, Numeral, Zeros, NoCapitals;
    var plus := s != "" && s[0] == '+';
    var rest := if plus then s[1..] else s;
    if ParseUnsigned(s, radix, max) == Some(n) {
      var zeros := DigitsAreNumeral(rest, radix);
      assert Denotes(s, n, radix, if plus then "+" else "", rest, zeros);
    }
    forall sign, digits, zeros | Denotes(s, n, radix, sign, digits, zeros)
      ensures rest == digits && rest != "" && AllDigits(rest, radix) && DigitsValue(rest, radix) == n
    {
      NumeralValue(zeros, n, radix);
      NumeralHasNoCapitals(zeros, n, radix);
      SameValue(digits, Zeros(zeros) + Numeral(n, radix), radix);
      NoSign(digits, Zeros(zeros) + Numeral(n, radix), radix);
    }
  }

  lemma {:induction false} HexIsNumeral(n: nat)
    ensures Hex(n) == Numeral(n, 16)
  {
    hide HexDigit;
    if n >= 16 { HexIsNumeral(n / 16); }
  }
}
