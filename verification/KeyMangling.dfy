/** Storage keys as file names. JavaScript strings are sequences of UTF-16 code
    units, lone surrogates included. */
module KeyMangling {

  type unit = u: int | 0 <= u < 65536

  const UNDERSCORE: unit := 95

  predicate IsAlnum(u: unit) { 97 <= u <= 122 || 65 <= u <= 90 || 48 <= u <= 57 }

  // ---- Hex digits ----

  function DigitUnit(d: int): unit
    requires 0 <= d < 16
  {
    if d < 10 then 48 + d else 87 + d
  }

  /** A hex digit of either case, as /[0-9a-f]/i accepts. */
  predicate IsHex(u: unit) { 48 <= u <= 57 || 97 <= u <= 102 || 65 <= u <= 70 }

  function HexValue(u: unit): (d: int)
    ensures IsHex(u) ==> 0 <= d < 16
  {
    if u <= 57 then u - 48 else if u <= 70 then u - 55 else u - 87
  }

  predicate AllHex(s: seq<unit>) { forall i :: 0 <= i < |s| ==> IsHex(s[i]) }

  function ParseHex(s: seq<unit>): (n: int)
    requires AllHex(s)
    ensures 0 <= n
  {
    if s == [] then 0 else ParseHex(s[..|s| - 1]) * 16 + HexValue(s[|s| - 1])
  }

  /** toString(16).padStart(width, '0') */
  function HexPadded(n: int, width: nat): (s: seq<unit>)
    requires 0 <= n && width >= 1
    ensures |s| >= width
    decreases width, n
  {
    if width == 1 && n < 16 then [DigitUnit(n)]
    else HexPadded(n / 16, if width > 1 then width - 1 else 1) + [DigitUnit(n % 16)]
  }

  lemma {:induction false} HexRoundTrip(n: int, width: nat)
    requires 0 <= n && width >= 1
    ensures AllHex(HexPadded(n, width)) && ParseHex(HexPadded(n, width)) == n
    decreases width, n
  {
    var s := HexPadded(n, width);
    if width == 1 && n < 16 {
      assert s[..0] == [];
    } else {
      var w := if width > 1 then width - 1 else 1;
      HexRoundTrip(n / 16, w);
      assert s[..|s| - 1] == HexPadded(n / 16, w);
    }
  }

  /** A number below 16^width takes exactly width digits. */
  lemma HexWidths(u: unit)
    ensures u <= 0xff ==> |HexPadded(u, 2)| == 2
    ensures |HexPadded(u, 4)| == 4
  {
    var a, b := u / 16, u / 16 / 16;
    assert b / 16 < 16 && |HexPadded(b / 16, 1)| == 1;
    assert |HexPadded(b, 2)| == 2;
    assert |HexPadded(a, 3)| == 3;
  }

  // ---- The encoding ----

  function MangleUnit(u: unit): seq<unit> {
    if IsAlnum(u) then [u]
    else if u <= 0xff then [UNDERSCORE] + HexPadded(u, 2) + [UNDERSCORE]
    else [UNDERSCORE] + HexPadded(u, 4) + [UNDERSCORE]
  }

  function Mangle(key: seq<unit>): seq<unit> {
    if key == [] then [] else MangleUnit(key[0]) + Mangle(key[1..])
  }

  method MangleKey(key: seq<unit>) returns (result: seq<unit>)
    ensures result == Mangle(key)
  {
    hide MangleUnit;
    result := [];
    for i := 0 to |key|
      invariant result + Mangle(key[i..]) == Mangle(key)
    {
      assert key[i..][1..] == key[i + 1..];
      assert result + (MangleUnit(key[i]) + Mangle(key[i + 1..])) == result + MangleUnit(key[i]) + Mangle(key[i + 1..]);
      result := result + MangleUnit(key[i]);
    }
  }

  /** An escape of the given number of digits at offset i of the name. */
  predicate EscapeAt(name: seq<unit>, i: nat, digits: nat) {
    i + digits + 1 < |name| && name[i] == UNDERSCORE && name[i + digits + 1] == UNDERSCORE
    && AllHex(name[i + 1..i + 1 + digits])
  }

  function EscapedUnit(name: seq<unit>, i: nat, digits: nat): unit
    requires EscapeAt(name, i, digits)
  {
    ParseHex(name[i + 1..i + 1 + digits]) % 65536
  }

  datatype Token = Token(code: unit, size: nat)

  /** At offset i: a four-digit escape, else a two-digit one, else one unit. */
  function NextToken(name: seq<unit>, i: nat): (t: Token)
    requires i < |name|
    ensures t.size >= 1 && i + t.size <= |name|
  {
    if EscapeAt(name, i, 4) then Token(EscapedUnit(name, i, 4), 6)
    else if EscapeAt(name, i, 2) then Token(EscapedUnit(name, i, 2), 4)
    else Token(name[i], 1)
  }

  function UnmangleFrom(name: seq<unit>, i: nat): seq<unit>
    decreases |name| - i
  {
    if i >= |name| then []
    else [NextToken(name, i).code] + UnmangleFrom(name, i + NextToken(name, i).size)
  }

  function Unmangle(name: seq<unit>): seq<unit> { UnmangleFrom(name, 0) }

  method UnmangleKey(name: seq<unit>) returns (result: seq<unit>)
    ensures result == Unmangle(name)
  {
    result := [];
    var i := 0;
    while i < |name|
      invariant result + UnmangleFrom(name, i) == Unmangle(name)
    {
      ghost var rest := UnmangleFrom(name, i + NextToken(name, i).size);
      var code, size := ReadToken(name, i);
      assert result + ([code] + rest) == result + [code] + rest;
      result := result + [code];
      i := i + size;
    }
  }

  /** The branches of the decoder's loop body. */
  method ReadToken(name: seq<unit>, i: nat) returns (code: unit, size: nat)
    requires i < |name|
    ensures Token(code, size) == NextToken(name, i)
  {
    if name[i] == UNDERSCORE {
      if i + 5 < |name| && name[i + 5] == UNDERSCORE {
        var hex := name[i + 1..i + 5];
        if AllHex(hex) {
          return ParseHex(hex) % 65536, 6;
        }
      }
      if i + 3 < |name| && name[i + 3] == UNDERSCORE {
        var hex := name[i + 1..i + 3];
        if AllHex(hex) {
          return ParseHex(hex) % 65536, 4;
        }
      }
    }
    return name[i], 1;
  }

  // ---- The decoder inverts the encoder ----

  /** One encoded unit in the middle of a name decodes to that unit, whatever
      follows: a two-digit escape cannot pass for a four-digit one, because its
      closing underscore stands where a digit would have to be. */
  lemma ShortDecodes(u: unit, rest: seq<unit>)
    requires !IsAlnum(u) && u <= 0xff
    ensures NextToken(MangleUnit(u) + rest, 0) == Token(u, |MangleUnit(u)|)
  {
    HexWidths(u);
    HexRoundTrip(u, 2);
    hide HexPadded, ParseHex;
    var name := MangleUnit(u) + rest;
    assert name[1..3] == HexPadded(u, 2) && name[3] == UNDERSCORE;
    if 5 < |name| {
      assert name[1..5][2] == UNDERSCORE;
    }
  }

  lemma LongDecodes(u: unit, rest: seq<unit>)
    requires !IsAlnum(u) && u > 0xff
    ensures NextToken(MangleUnit(u) + rest, 0) == Token(u, |MangleUnit(u)|)
  {
    HexWidths(u);
    HexRoundTrip(u, 4);
    hide HexPadded, ParseHex;
    var name := MangleUnit(u) + rest;
    assert name[1..5] == HexPadded(u, 4) && name[5] == UNDERSCORE;
  }

  lemma UnitDecodes(u: unit, rest: seq<unit>)
    ensures NextToken(MangleUnit(u) + rest, 0) == Token(u, |MangleUnit(u)|)
  {
    if IsAlnum(u) {
      assert (MangleUnit(u) + rest)[0] == u != UNDERSCORE;
    } else if u <= 0xff {
      ShortDecodes(u, rest);
    } else {
      LongDecodes(u, rest);
    }
  }

  /** Decoding looks only forward. */
  lemma TokenInSuffix(name: seq<unit>, i: nat)
    requires i < |name|
    ensures NextToken(name, i) == NextToken(name[i..], 0)
  {
    var s := name[i..];
    assert forall k :: 0 <= k < |s| ==> s[k] == name[i + k];
    if i + 5 < |name| {
      assert name[i + 1..i + 5] == s[1..5];
    }
    if i + 3 < |name| {
      assert name[i + 1..i + 3] == s[1..3];
    }
  }

  lemma TokenThere(name: seq<unit>, i: nat, u: unit, rest: seq<unit>)
    requires i <= |name| && name[i..] == MangleUnit(u) + rest
    ensures i < |name| && NextToken(name, i) == Token(u, |MangleUnit(u)|)
    ensures i + |MangleUnit(u)| <= |name| && name[i + |MangleUnit(u)|..] == rest
  {
    var code := MangleUnit(u);
    assert |name[i..]| == |code| + |rest|;
    UnitDecodes(u, rest);
    TokenInSuffix(name, i);
    assert name[i + |code|..] == name[i..][|code|..];
  }

  lemma {:induction false} SuffixDecodes(name: seq<unit>, i: nat, key: seq<unit>)
    requires i <= |name| && name[i..] == Mangle(key)
    ensures UnmangleFrom(name, i) == key
    decreases |key|
  {
    if key != [] {
      var code, rest := MangleUnit(key[0]), Mangle(key[1..]);
      TokenThere(name, i, key[0], rest);
      SuffixDecodes(name, i + |code|, key[1..]);
      assert key == [key[0]] + key[1..];
    }
  }

  /** Every key survives the trip through its file name, */
  lemma RoundTrip(key: seq<unit>)
    ensures Unmangle(Mangle(key)) == key
  {
    var name := Mangle(key);
    assert name[0..] == name;
    SuffixDecodes(name, 0, key);
  }

  /** so two keys never share a file, */
  lemma MangleIsInjective(a: seq<unit>, b: seq<unit>)
    ensures Mangle(a) == Mangle(b) <==> a == b
  {
    RoundTrip(a);
    RoundTrip(b);
  }

  /** and every file name is made of letters, digits and underscores. */
  lemma {:induction false} MangledIsSafe(key: seq<unit>)
    ensures forall i :: 0 <= i < |Mangle(key)| ==> IsAlnum(Mangle(key)[i]) || Mangle(key)[i] == UNDERSCORE
  {
    if key != [] {
      MangledIsSafe(key[1..]);
      HexRoundTrip(key[0], 2);
      HexRoundTrip(key[0], 4);
    }
  }
}
