/** The Stored-only archive parser (section 4.3.7 of the ZIP APPNOTE), with the
    integer widths it computes in. */
module StoredZip {
  import opened Bytes
  import opened Text

  const HEADER: nat := 30
  const SIGNATURE: nat := 0x04034b50
  const U64_MAX: nat := 0xFFFF_FFFF_FFFF_FFFF
  /** The longest slice there is: isize::MAX bytes, on wasm32. */
  const ISIZE_MAX: nat := 0x7FFF_FFFF

  datatype ZipError = UnsupportedMethod(method_: nat) | Truncated | InvalidName | InvalidContent

  datatype Parsed = Files(files: map<string, string>) | ParseError(error: ZipError)

  function ByteAt(data: seq<byte>, at: nat): int
    requires at < |data|
  {
    data[at]
  }

  function Le16(data: seq<byte>, at: nat): (n: nat)
    requires at + 2 <= |data|
    ensures n <= 0xFFFF
  {
    ByteAt(data, at) + 256 * ByteAt(data, at + 1)
  }

  function Le32(data: seq<byte>, at: nat): (n: nat)
    requires at + 4 <= |data|
    ensures n <= 0xFFFF_FFFF
  {
    Le16(data, at) + 65536 * Le16(data, at + 2)
  }

  // ---- What an archive means, from its bytes ----

  /** One member read off the front: its name and content and how much it takes,
      or why it cannot be read, or that there is no member here. */
  datatype Front = NoMember | Broken(error: ZipError) | Member(name: string, content: string, size: nat)

  function FrontMember(data: seq<byte>): (r: Front)
    ensures r.Member? ==> HEADER <= r.size <= |data|
  {
    if |data| < HEADER || Le32(data, 0) != SIGNATURE then NoMember
    else if Le16(data, 8) != 0 then Broken(UnsupportedMethod(Le16(data, 8)))
    else
      var nameEnd := HEADER + Le16(data, 26);
      var dataStart := nameEnd + Le16(data, 28);
      var dataEnd := dataStart + Le32(data, 18);
      if dataEnd > |data| then Broken(Truncated)
      else
        match Utf8(data[HEADER..nameEnd])
        case None => Broken(InvalidName)
        case Some(name) =>
          match Utf8(data[dataStart..dataEnd])
          case None => Broken(InvalidContent)
          case Some(content) => Member(name, content, dataEnd)
  }

  function Parse(data: seq<byte>, files: map<string, string>): Parsed
    decreases |data|
  {
    match FrontMember(data)
    case NoMember => Files(files)
    case Broken(e) => ParseError(e)
    case Member(name, content, size) => Parse(data[size..], files[name := content])
  }

  /** The loop, with an offset into the whole archive. Offsets fit usize, their
      sums fit u64, and every turn advances by at least a header. */
  method ParseStoredZip(data: seq<byte>) returns (r: Parsed)
    requires |data| <= ISIZE_MAX
    ensures r == Parse(data, map[])
  {
    var files := map[];
    var offset := 0;
    ghost var rest := data;
    while SaturatingAdd(offset, HEADER) <= |data|
      invariant offset <= |data| && rest == data[offset..]
      invariant Parse(data, map[]) == Parse(rest, files)
      decreases |data| - offset
    {
      var front := ReadMember(data, offset);
      UnfoldParse(rest, files);
      match front
      case NoMember => return Files(files);
      case Broken(e) => return ParseError(e);
      case Member(name, content, size) =>
        SlicesInside(data, offset, offset, offset + size);
        rest := rest[size..];
        files := files[name := content];
        offset := offset + size;
    }
    TooShort(rest, files);
    return Files(files);
  }

  lemma UnfoldParse(data: seq<byte>, files: map<string, string>)
    ensures Parse(data, files) ==
            match FrontMember(data)
            case NoMember => Files(files)
            case Broken(e) => ParseError(e)
            case Member(name, content, size) => Parse(data[size..], files[name := content])
  {
  }

  lemma TooShort(data: seq<byte>, files: map<string, string>)
    requires |data| < HEADER
    ensures Parse(data, files) == Files(files)
  {
  }

  /** One turn of the loop, on the header at an offset that is known to fit. */
  method ReadMember(data: seq<byte>, offset: nat) returns (r: Front)
    requires |data| <= ISIZE_MAX && offset + HEADER <= |data|
    ensures r == FrontMember(data[offset..])
  {
    ReadsInside(data, offset);
    if Le32(data, offset) != SIGNATURE {
      return NoMember;
    }
    var compression := Le16(data, offset + 8);
    if compression != 0 {
      return Broken(UnsupportedMethod(compression));
    }
    var nameStart := offset + HEADER;
    var nameEnd := nameStart + Le16(data, offset + 26);
    var dataStart := nameEnd + Le16(data, offset + 28);
    var dataEnd := dataStart + Le32(data, offset + 18);
    assert dataEnd <= U64_MAX;
    if dataEnd > |data| {
      return Broken(Truncated);
    }
    assert dataEnd <= USIZE_MAX;
    SlicesInside(data, offset, nameStart, nameEnd);
    SlicesInside(data, offset, dataStart, dataEnd);
    var name := Utf8(data[nameStart..nameEnd]);
    if name.None? {
      return Broken(InvalidName);
    }
    var content := Utf8(data[dataStart..dataEnd]);
    if content.None? {
      return Broken(InvalidContent);
    }
    return Member(name.value, content.value, dataEnd - offset);
  }

  function SaturatingAdd(a: nat, b: nat): nat { if a + b > USIZE_MAX then USIZE_MAX else a + b }

  lemma ReadsInside(data: seq<byte>, offset: nat)
    requires offset + HEADER <= |data|
    ensures var rest := data[offset..];
            && Le32(data, offset) == Le32(rest, 0) && Le16(data, offset + 8) == Le16(rest, 8)
            && Le32(data, offset + 18) == Le32(rest, 18) && Le16(data, offset + 26) == Le16(rest, 26)
            && Le16(data, offset + 28) == Le16(rest, 28)
  {
  }

  lemma SlicesInside(data: seq<byte>, offset: nat, from: nat, to: nat)
    requires offset <= from <= to <= |data|
    ensures data[from..to] == data[offset..][from - offset..to - offset]
    ensures data[to..] == data[offset..][to - offset..]
  {
  }

  // ---- Writing an archive ----

  /** A member under a compression method, 0 for Stored; the header fields the parser
      skips can hold anything. */
  datatype Entry = Entry(skipped4: seq<byte>, method_: nat, skipped8: seq<byte>, skipped22: seq<byte>,
                         name: seq<byte>, extra: seq<byte>, content: seq<byte>)

  function ToLe16(n: nat): (b: seq<byte>)
    requires n <= 0xFFFF
    ensures |b| == 2
  {
    [n % 256, n / 256]
  }

  function ToLe32(n: nat): (b: seq<byte>)
    requires n <= 0xFFFF_FFFF
    ensures |b| == 4
  {
    [n % 256, n / 256 % 256, n / 65536 % 256, n / 16777216]
  }

  /** The fields fit: 2 bytes for the method and the lengths of name and extra, 4 for the
      length of the content. */
  predicate Fits(e: Entry) {
    && e.method_ <= 0xFFFF && |e.skipped4| == 4 && |e.skipped8| == 8 && |e.skipped22| == 4
    && |e.name| <= 0xFFFF && |e.extra| <= 0xFFFF && |e.content| <= 0xFFFF_FFFF
  }

  function EntryHeader(e: Entry): (b: seq<byte>)
    requires Fits(e)
    ensures |b| == HEADER
  {
    ToLe32(SIGNATURE) + e.skipped4 + ToLe16(e.method_) + e.skipped8 + ToLe32(|e.content|) + e.skipped22
    + ToLe16(|e.name|) + ToLe16(|e.extra|)
  }

  function EntryBytes(e: Entry): seq<byte>
    requires Fits(e)
  {
    EntryHeader(e) + e.name + e.extra + e.content
  }

  function ArchiveBytes(entries: seq<Entry>): seq<byte>
    requires forall i :: 0 <= i < |entries| ==> Fits(entries[i])
  {
    if entries == [] then [] else EntryBytes(entries[0]) + ArchiveBytes(entries[1..])
  }

  /** Why a member is refused, if it is. */
  function Refusal(e: Entry): Option<ZipError> {
    if e.method_ != 0 then Some(UnsupportedMethod(e.method_))
    else if Utf8(e.name).None? then Some(InvalidName)
    else if Utf8(e.content).None? then Some(InvalidContent)
    else None
  }

  /** The directory those entries describe: a later member replaces an earlier
      one of the same name, and the first member refused decides. */
  function LastWins(entries: seq<Entry>, files: map<string, string>): Parsed {
    if entries == [] then Files(files)
    else match Refusal(entries[0])
      case Some(e) => ParseError(e)
      case None => LastWins(entries[1..], files[Utf8(entries[0].name).value := Utf8(entries[0].content).value])
  }

  /** What may follow the members: the central directory, or anything else that
      is not another local header. */
  predicate EndsMembers(tail: seq<byte>) { |tail| < HEADER || Le32(tail, 0) != SIGNATURE }

  lemma HeaderFields(e: Entry, after: seq<byte>)
    requires Fits(e)
    ensures var data := EntryHeader(e) + after;
            && Le32(data, 0) == SIGNATURE && Le16(data, 8) == e.method_
            && Le32(data, 18) == |e.content| && Le16(data, 26) == |e.name| && Le16(data, 28) == |e.extra|
  {
    var h, data := EntryHeader(e), EntryHeader(e) + after;
    var sig, z, c, n, x := ToLe32(SIGNATURE), ToLe16(e.method_), ToLe32(|e.content|), ToLe16(|e.name|), ToLe16(|e.extra|);
    assert forall i :: 0 <= i < 4 ==> data[i] == h[i] == sig[i];
    assert forall i :: 0 <= i < 2 ==> data[8 + i] == h[8 + i] == z[i];
    assert forall i :: 0 <= i < 4 ==> data[18 + i] == h[18 + i] == c[i];
    assert forall i :: 0 <= i < 2 ==> data[26 + i] == h[26 + i] == n[i];
    assert forall i :: 0 <= i < 2 ==> data[28 + i] == h[28 + i] == x[i];
    Le32Inverse(SIGNATURE);
    Le32Inverse(|e.content|);
  }

  lemma Le32Inverse(n: nat)
    requires n <= 0xFFFF_FFFF
    ensures Le32(ToLe32(n), 0) == n
  {
    assert n % 256 + 256 * (n / 256 % 256) == n % 65536;
    assert n / 65536 % 256 + 256 * (n / 16777216) == n / 65536;
  }

  /** A serialised member is read back as that member or refused, whatever follows it. */
  lemma FrontEntry(e: Entry, rest: seq<byte>)
    requires Fits(e)
    ensures FrontMember(EntryBytes(e) + rest) ==
            match Refusal(e)
            case Some(error) => Broken(error)
            case None => Member(Utf8(e.name).value, Utf8(e.content).value, |EntryBytes(e)|)
  {
    EntryFields(e, rest);
    EntrySlices(e, rest);
    hide EntryHeader, EntryBytes, Utf8, Le16, Le32;
  }

  lemma EntryFields(e: Entry, rest: seq<byte>)
    requires Fits(e)
    ensures var data := EntryBytes(e) + rest;
            && |data| >= HEADER && Le32(data, 0) == SIGNATURE && Le16(data, 8) == e.method_
            && Le32(data, 18) == |e.content| && Le16(data, 26) == |e.name| && Le16(data, 28) == |e.extra|
  {
    var after := e.name + e.extra + e.content + rest;
    assert EntryBytes(e) + rest == EntryHeader(e) + after;
    HeaderFields(e, after);
    hide EntryHeader, EntryBytes, Le16, Le32;
  }

  lemma EntrySlices(e: Entry, rest: seq<byte>)
    requires Fits(e)
    ensures var data, nameEnd := EntryBytes(e) + rest, HEADER + |e.name|;
            && |EntryBytes(e)| == nameEnd + |e.extra| + |e.content|
            && data[HEADER..nameEnd] == e.name
            && data[nameEnd + |e.extra|..nameEnd + |e.extra| + |e.content|] == e.content
  {
  }

  /** Readable members are taken off the front one by one, whatever follows them;
      a refused one ends the parse. */
  lemma {:induction false} MembersInFront(entries: seq<Entry>, rest: seq<byte>, files: map<string, string>)
    requires forall i :: 0 <= i < |entries| ==> Fits(entries[i])
    ensures Parse(ArchiveBytes(entries) + rest, files) ==
            match LastWins(entries, files)
            case Files(all) => Parse(rest, all)
            case ParseError(e) => ParseError(e)
  {
    if entries == [] {
      assert ArchiveBytes(entries) + rest == rest;
    } else {
      hide FrontMember, EntryBytes, Parse, Utf8;
      var e, more := entries[0], ArchiveBytes(entries[1..]) + rest;
      assert ArchiveBytes(entries) + rest == EntryBytes(e) + more;
      FrontEntry(e, more);
      UnfoldParse(EntryBytes(e) + more, files);
      assert (EntryBytes(e) + more)[|EntryBytes(e)|..] == more;
      if Refusal(e).None? {
        MembersInFront(entries[1..], rest, files[Utf8(e.name).value := Utf8(e.content).value]);
      }
    }
  }

  /** Parsing undoes serialisation: the archive yields the last-wins directory
      of its members, or the error of the first member refused. */
  lemma ParseInvertsArchive(entries: seq<Entry>, tail: seq<byte>, files: map<string, string>)
    requires forall i :: 0 <= i < |entries| ==> Fits(entries[i])
    requires EndsMembers(tail)
    ensures Parse(ArchiveBytes(entries) + tail, files) == LastWins(entries, files)
  {
    MembersInFront(entries, tail, files);
    if LastWins(entries, files).Files? {
      UnfoldParse(tail, LastWins(entries, files).files);
    }
  }

  /** The content of a name: that of the last member so named. */
  ghost predicate IsLastNamed(entries: seq<Entry>, i: nat, name: string) {
    && i < |entries| && Utf8(entries[i].name) == Some(name)
    && forall j :: i < j < |entries| ==> Utf8(entries[j].name) != Some(name)
  }

  predicate AllReadable(entries: seq<Entry>) { forall i :: 0 <= i < |entries| ==> Refusal(entries[i]) == None }

  /** All members are readable exactly when there is a directory; then a name has the
      content of the last member of that name, and what was there before if there is none. */
  lemma {:induction false} LastMemberWins(entries: seq<Entry>, files: map<string, string>, name: string)
    ensures LastWins(entries, files).Files? <==> AllReadable(entries)
    ensures forall i: nat :: LastWins(entries, files).Files? && IsLastNamed(entries, i, name) ==>
              name in LastWins(entries, files).files && Utf8(entries[i].content) == Some(LastWins(entries, files).files[name])
    ensures LastWins(entries, files).Files? && (forall i :: 0 <= i < |entries| ==> Utf8(entries[i].name) != Some(name)) ==>
              && (name in LastWins(entries, files).files <==> name in files)
              && (name in files ==> LastWins(entries, files).files[name] == files[name])
  {
    hide Utf8;
    if entries != [] {
      var e, rest := entries[0], entries[1..];
      assert forall i :: 0 <= i < |rest| ==> rest[i] == entries[i + 1];
      assert AllReadable(entries) <==> Refusal(e).None? && AllReadable(rest) by {
        assert forall i :: 0 < i < |entries| ==> entries[i] == rest[i - 1];
      }
      if Refusal(e).None? {
        var more := files[Utf8(e.name).value := Utf8(e.content).value];
        assert LastWins(entries, files) == LastWins(rest, more);
        LastMemberWins(rest, more, name);
        forall i: nat | IsLastNamed(entries, i, name)
          ensures i > 0 ==> IsLastNamed(rest, i - 1, name)
          ensures i == 0 ==> forall j :: 0 <= j < |rest| ==> Utf8(rest[j].name) != Some(name)
        {
        }
      }
    }
  }

  /** A member whose declared end lies past the data, behind any readable members, is
      reported as truncated, however large the declared size. */
  lemma DeclaredEndPastData(entries: seq<Entry>, last: seq<byte>, files: map<string, string>)
    requires forall i :: 0 <= i < |entries| ==> Fits(entries[i])
    requires LastWins(entries, files).Files?
    requires |last| >= HEADER && Le32(last, 0) == SIGNATURE && Le16(last, 8) == 0
    requires HEADER + Le16(last, 26) + Le16(last, 28) + Le32(last, 18) > |last|
    ensures Parse(ArchiveBytes(entries) + last, files) == ParseError(Truncated)
  {
    MembersInFront(entries, last, files);
    UnfoldParse(last, LastWins(entries, files).files);
  }

  /** An archive cut inside a member: behind its header that is an error, inside its header
      the members in front of it are the result. */
  lemma CutArchive(entries: seq<Entry>, e: Entry, cut: seq<byte>, files: map<string, string>)
    requires forall i :: 0 <= i < |entries| ==> Fits(entries[i])
    requires LastWins(entries, files).Files? && Fits(e) && cut < EntryBytes(e)
    ensures Parse(ArchiveBytes(entries) + cut, files) ==
            if |cut| < HEADER then LastWins(entries, files)
            else ParseError(if e.method_ == 0 then Truncated else UnsupportedMethod(e.method_))
  {
    MembersInFront(entries, cut, files);
    UnfoldParse(cut, LastWins(entries, files).files);
    if |cut| >= HEADER {
      assert EntryBytes(e) + [] == EntryBytes(e);
      EntryFields(e, []);
      EntrySlices(e, []);
      hide EntryBytes, Parse, ArchiveBytes, LastWins;
      SameFields(cut, EntryBytes(e));
    }
  }

  lemma SameFields(cut: seq<byte>, data: seq<byte>)
    requires cut <= data && |cut| >= HEADER
    ensures Le32(cut, 0) == Le32(data, 0) && Le16(cut, 8) == Le16(data, 8) && Le32(cut, 18) == Le32(data, 18)
    ensures Le16(cut, 26) == Le16(data, 26) && Le16(cut, 28) == Le16(data, 28)
  {
    assert forall i :: 0 <= i < |cut| ==> cut[i] == data[i];
  }
}
