/** The two halves of a network stream. How the bytes are cut into reads, and
    where a write gives up, is decided by the network, so what is proved about
    callers holds for every cut. */
module ByteStream {
  import opened Bytes

  /** What follows the last byte: an orderly end of stream, or an I/O error. */
  datatype Tail = Closed | Broken

  datatype ReadResult = Data(bytes: seq<byte>) | Eof | IoError

  /** How many bytes the next read takes when the network cuts the stream like that:
      as many as the list says, within bounds, and one where it says nothing. */
  function Piece(cuts: seq<nat>, max: nat, available: nat): (n: nat)
    requires 0 < max && 0 < available
    ensures 1 <= n <= max && n <= available
  {
    var wish := if cuts == [] || cuts[0] == 0 then 1 else cuts[0];
    if wish <= max && wish <= available then wish else if max <= available then max else available
  }

  function Rest(cuts: seq<nat>): seq<nat> { if cuts == [] then [] else cuts[1..] }

  class Reader {
    /** The bytes the peer sends that have not been read yet. */
    var incoming: seq<byte>
    const tail: Tail
    /** Where the network cuts them. */
    var cuts: seq<nat>
    /** How many bytes have been handed out, and how many had been before the
        latest read: a record of when the caller chose to wait. */
    ghost var taken: nat
    ghost var takenBeforeLastRead: nat

    constructor (wire: seq<byte>, tail: Tail, cuts: seq<nat>)
      ensures incoming == wire && this.tail == tail && this.cuts == cuts
      ensures taken == takenBeforeLastRead == 0
    {
      incoming, this.tail, this.cuts, taken, takenBeforeLastRead := wire, tail, cuts, 0, 0;
    }

    /** Wait for at least one byte and at most max, or for the end. */
    method Read(max: nat) returns (r: ReadResult)
      requires 0 < max
      modifies this
      ensures old(incoming) != [] ==>
                && r.Data? && 0 < |r.bytes| <= max && r.bytes + incoming == old(incoming)
                && |r.bytes| == Piece(old(cuts), max, |old(incoming)|) && cuts == Rest(old(cuts))
      ensures old(incoming) == [] ==>
                incoming == [] && r == if tail.Closed? then Eof else IoError
      ensures taken == old(taken) + |old(incoming)| - |incoming|
      ensures takenBeforeLastRead == old(taken)
    {
      takenBeforeLastRead := taken;
      if incoming == [] {
        return if tail.Closed? then Eof else IoError;
      }
      var n := Piece(cuts, max, |incoming|);
      cuts := Rest(cuts);
      r := Data(incoming[..n]);
      incoming := incoming[n..];
      taken := taken + n;
    }
  }

  /** All of n bytes behind `at` others are taken, when the network gives out at that limit. */
  predicate Fits(limit: Option<nat>, at: nat, n: nat) { n == 0 || limit.None? || at + n <= limit.value }

  /** The bytes that are taken: all, or those up to the limit. */
  function Accepted(limit: Option<nat>, at: nat, bytes: seq<byte>): (r: seq<byte>)
    ensures r <= bytes && (r == bytes <==> Fits(limit, at, |bytes|))
  {
    if Fits(limit, at, |bytes|) then bytes else if at <= limit.value then bytes[..limit.value - at] else []
  }

  /** It makes no difference whether bytes are written together or in two parts, the
      second only if the first was taken. */
  lemma InTwoParts(limit: Option<nat>, before: seq<byte>, a: seq<byte>, b: seq<byte>)
    ensures Fits(limit, |before|, |a|) ==>
              && before + a + Accepted(limit, |before + a|, b) == before + Accepted(limit, |before|, a + b)
              && (Fits(limit, |before + a|, |b|) <==> Fits(limit, |before|, |a + b|))
    ensures !Fits(limit, |before|, |a|) ==>
              && Accepted(limit, |before|, a) == Accepted(limit, |before|, a + b)
              && !Fits(limit, |before|, |a + b|)
  {
    ConcatAssoc(before, a, b);
    if limit.Some? && |before| <= limit.value < |before| + |a| + |b| {
      var n := limit.value - |before|;
      assert (a + b)[..n] == if n <= |a| then a[..n] else a + b[..n - |a|];
      if n > |a| { ConcatAssoc(before, a, b[..n - |a|]); }
    }
  }

  class Writer {
    var written: seq<byte>
    /** Where the network gives out, if it does. */
    const limit: Option<nat>
    /** Whether what was written can be flushed. */
    const flushes: bool

    constructor (limit: Option<nat>, flushes: bool)
      ensures written == [] && this.limit == limit && this.flushes == flushes
    {
      written, this.limit, this.flushes := [], limit, flushes;
    }

    /** write_all: everything, or an error after what the network took. */
    method WriteAll(bytes: seq<byte>) returns (ok: bool)
      modifies this
      ensures ok <==> Fits(limit, |old(written)|, |bytes|)
      ensures written == old(written) + Accepted(limit, |old(written)|, bytes)
    {
      ok := Fits(limit, |written|, |bytes|);
      written := written + Accepted(limit, |written|, bytes);
    }

    /** flush: may fail, sends nothing of its own. */
    method Flush() returns (ok: bool)
      ensures ok == flushes
    {
      ok := flushes;
    }
  }
}
