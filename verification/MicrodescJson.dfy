/** The hand-written JSON string escaping of microdescriptors, against a reader of
    JSON strings (section 7 of RFC 8259). */
module MicrodescJson {
  import opened Bytes
  import opened Text

  // ---- The writer ----

  function EscapeByte(b: byte): string {
    if b == 10 then "\\n"
    else if b == 13 then "\\r"
    else if b == 34 then "\\\""
    else if b == 92 then "\\\\"
    else [b as char]
  }

  function Escape(bytes: seq<byte>): string {
    if bytes == [] then "" else EscapeByte(bytes[0]) + Escape(bytes[1..])
  }

  /** The loop of store_microdescs: one pass over the bytes. */
  method EscapeContent(bytes: seq<byte>) returns (value: string)
    ensures value == Escape(bytes)
  {
    value := "";
    for i := 0 to |bytes|
      invariant value + Escape(bytes[i..]) == Escape(bytes)
    {
      assert bytes[i..][1..] == bytes[i + 1..];
      assert value + (EscapeByte(bytes[i]) + Escape(bytes[i + 1..])) == value + EscapeByte(bytes[i]) + Escape(bytes[i + 1..]);
      value := value + EscapeByte(bytes[i]);
    }
  }

  // ---- A reader ----

  /** The character a two-character escape stands for. The \u form is not read:
      the writer has no use for it. */
  function Unescaped(c: char): Option<char> {
    match c
    case '\"' => Some('\"')
    case '\\' => Some('\\')
    case '/' => Some('/')
    case 'b' => Some(8 as char)
    case 'f' => Some(12 as char)
    case 'n' => Some('\n')
    case 'r' => Some('\r')
    case 't' => Some(9 as char)
    case _ => None
  }

  /** The inside of a JSON string: quotation marks, backslashes and control
      characters must be escaped. */
  function ReadString(s: string): Option<string> {
    if s == "" then Some("")
    else if s[0] == '\\' then
      if |s| < 2 || Unescaped(s[1]).None? then None
      else match ReadString(s[2..])
        case None => Option.None
        case Some(rest) => Some([Unescaped(s[1]).value] + rest)
    else if s[0] == '\"' || s[0] as int < 0x20 then None
    else match ReadString(s[1..])
      case None => Option.None
      case Some(rest) => Some([s[0]] + rest)
  }

  /** Bytes read as characters of the same number. */
  function ByteChars(bytes: seq<byte>): string {
    if bytes == [] then "" else [bytes[0] as char] + ByteChars(bytes[1..])
  }

  predicate EscapeCovers(b: byte) { b >= 0x20 || b == 10 || b == 13 }

  /** One escaped byte at the front is read back as its character, or not at all. */
  lemma ReadOne(b: byte, s: string)
    ensures EscapeCovers(b) ==>
              ReadString(EscapeByte(b) + s) == match ReadString(s) case None => None case Some(r) => Some([b as char] + r)
    ensures !EscapeCovers(b) ==> ReadString(EscapeByte(b) + s) == None
  {
    var e := EscapeByte(b);
    assert (e + s)[|e|..] == s;
  }

  /** Reading what was written gives the bytes back as characters exactly when
      the only control characters are CR and LF; otherwise it is not JSON. */
  lemma {:induction false} ReadUndoesEscape(bytes: seq<byte>)
    ensures (forall b :: b in bytes ==> EscapeCovers(b)) ==> ReadString(Escape(bytes)) == Some(ByteChars(bytes))
    ensures (exists b :: b in bytes && !EscapeCovers(b)) ==> ReadString(Escape(bytes)) == None
  {
    if bytes != [] {
      var b, rest := bytes[0], bytes[1..];
      ReadUndoesEscape(rest);
      ReadOne(b, Escape(rest));
      hide ReadString, EscapeByte;
      assert b in bytes && forall c :: c in bytes <==> c == b || c in rest;
    }
  }

  /** Multi-byte characters make the bytes outnumber the characters. */
  lemma {:induction false} Utf8Length(bytes: seq<byte>)
    requires Utf8(bytes).Some?
    ensures |Utf8(bytes).value| <= |bytes|
    ensures (forall b :: b in bytes ==> b < 0x80) ==> Utf8(bytes).value == ByteChars(bytes)
    ensures (exists b :: b in bytes && b >= 0x80) ==> |Utf8(bytes).value| < |bytes|
  {
    if bytes != [] {
      var n := FirstCodePoint(bytes).value.1;
      Utf8Length(bytes[n..]);
      assert bytes == bytes[..n] + bytes[n..];
      assert bytes[0] in bytes;
      assert forall b :: b in bytes[n..] ==> b in bytes;
      if n == 1 {
        assert bytes == [bytes[0]] + bytes[1..];
      }
    }
  }

  lemma {:induction false} ByteCharsLength(bytes: seq<byte>)
    ensures |ByteChars(bytes)| == |bytes|
  {
    if bytes != [] {
      ByteCharsLength(bytes[1..]);
    }
  }

  /** The stored string decodes to the microdescriptor's text exactly when that
      text is ASCII and its only control characters are CR and LF. */
  lemma StoredTextIff(bytes: seq<byte>)
    requires Utf8(bytes).Some?
    ensures ReadString(Escape(bytes)) == Utf8(bytes) <==>
            forall b :: b in bytes ==> b < 0x80 && EscapeCovers(b)
  {
    ReadUndoesEscape(bytes);
    Utf8Length(bytes);
    ByteCharsLength(bytes);
    if forall b :: b in bytes ==> EscapeCovers(b) {
      assert ReadString(Escape(bytes)) == Some(ByteChars(bytes));
    }
  }

  /** One character of two bytes comes back as two. */
  lemma AccentIsNotReadBack()
    ensures Utf8([0xC3, 0xA9]) == Some([0xE9 as char])
    ensures ReadString(Escape([0xC3, 0xA9])) != Utf8([0xC3, 0xA9])
  {
    var bytes: seq<byte> := [0xC3, 0xA9];
    assert FirstCodePoint(bytes) == Some((0xE9 as char, 2));
    assert bytes[2..] == [] && [0xE9 as char] + "" == [0xE9 as char];
    assert bytes[0] in bytes;
    StoredTextIff(bytes);
  }
}
