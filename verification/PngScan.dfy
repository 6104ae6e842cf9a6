/** `ParsePng` of `src/imaging/MetadataParser.cpp`: a scan over the chunks of RFC 2083, sections 3.1, 3.2 and 4.2.5. */
module PngScan {
  import opened Common
  import opened Bytes
  import opened EmbeddedDpi

  const SIGNATURE: seq<Byte> := [0x89, 'P' as int, 'N' as int, 'G' as int, 0x0D, 0x0A, 0x1A, 0x0A]
  const PHYS: seq<Byte> := ['p' as int, 'H' as int, 'Y' as int, 's' as int]
  const IDAT: seq<Byte> := ['I' as int, 'D' as int, 'A' as int, 'T' as int]

  // ---------------------------------------------------------------- chunks

  datatype Chunk = Chunk(name: seq<Byte>, data: seq<Byte>, crc: seq<Byte>) {
    predicate Valid() {
      |name| == 4 && |crc| == 4 && |data| < 0x1_0000_0000
    }

    /** The scan walks over this chunk. */
    predicate Skipped() {
      name != PHYS && name != IDAT
    }
  }

  function PutChunk(c: Chunk): (bytes: seq<Byte>)
    requires c.Valid()
    ensures |bytes| == 12 + |c.data|
  {
    PutU32(|c.data|, false) + c.name + c.data + c.crc
  }

  function PutChunks(cs: seq<Chunk>): seq<Byte>
    requires forall i | 0 <= i < |cs| :: cs[i].Valid()
  {
    if cs == [] then [] else PutChunk(cs[0]) + PutChunks(cs[1..])
  }

  /** Whether a complete chunk starts at `at`. */
  predicate CompleteAt(b: seq<Byte>, at: nat) {
    at + 12 <= |b| && at + 12 + U32(b, at, false) <= |b|
  }

  function ChunkAt(b: seq<Byte>, at: nat): (c: Chunk)
    requires CompleteAt(b, at)
    ensures c.Valid()
  {
    var n := U32(b, at, false);
    Chunk(b[at + 4..at + 8], b[at + 8..at + 8 + n], b[at + 8 + n..at + 12 + n])
  }

  lemma ChunkReadBack(pre: seq<Byte>, c: Chunk, post: seq<Byte>)
    requires c.Valid()
    ensures var b := pre + PutChunk(c) + post;
      CompleteAt(b, |pre|) && ChunkAt(b, |pre|) == c && b[|pre| + 12 + |c.data|..] == post
  {
    hide U32, PutU32;
    var b, at, n := pre + PutChunk(c) + post, |pre|, |c.data|;
    var length := PutU32(n, false);
    FourParts(pre, length, c.name, c.data, c.crc, post);
    ReadU32(b, at, n, false);
  }

  /** Where four parts stand between others. */
  lemma FourParts(pre: seq<Byte>, p: seq<Byte>, q: seq<Byte>, r: seq<Byte>, t: seq<Byte>, post: seq<Byte>)
    ensures var b := pre + (p + q + r + t) + post;
      var i := |pre| + |p|;
      var j := i + |q|;
      var k := j + |r|;
      && Holds(b, |pre|, p) && b[i..j] == q && b[j..k] == r && b[k..k + |t|] == t && b[k + |t|..] == post
  {
    var parts, b := p + q + r + t, pre + (p + q + r + t) + post;
    PartAt(pre, [], p, q + r + t, post);
    PartAt(pre, p, q, r + t, post);
    PartAt(pre, p + q, r, t, post);
    PartAt(pre, p + q + r, t, [], post);
    Assoc(p, q, r + t);
    Assoc(p + q, r, t);
    Assoc(p, q, r);
    Assoc(p, q + r, t);
    assert [] + p == p && parts + [] == parts;
  }

  lemma PartAt(pre: seq<Byte>, before: seq<Byte>, part: seq<Byte>, after: seq<Byte>, post: seq<Byte>)
    ensures var b := pre + (before + part + after) + post;
      var i := |pre| + |before|;
      b[i..i + |part|] == part && b[i + |part| + |after|..] == post
  {
  }

  lemma ChunkPrintsBack(b: seq<Byte>, at: nat)
    requires CompleteAt(b, at)
    ensures b[at..at + 12 + U32(b, at, false)] == PutChunk(ChunkAt(b, at))
  {
    var n := U32(b, at, false);
    PrintU32(b, at, false);
    hide U32, PutU32;
    SplitRange(b, at, at + 4, at + 8);
    SplitRange(b, at, at + 8, at + 8 + n);
    SplitRange(b, at, at + 8 + n, at + 12 + n);
  }

  // ---------------------------------------------------------------- the scan

  function PhysVerdict(data: seq<Byte>): Dpi {
    if |data| < 9 then NotFound(PngPhys, Truncated)
    else DpiFromPhys(U32(data, 0, false), U32(data, 4, false), data[8])
  }

  /** The answer of the loop when it stands at offset `pos`. */
  function ScanFrom(b: seq<Byte>, pos: nat): Dpi
    decreases |b| - pos
  {
    if pos + 12 > |b| then NotFound(Png, NoPhysicalDpi)
    else if !CompleteAt(b, pos) then NotFound(Png, Truncated)
    else
      var c := ChunkAt(b, pos);
      if c.name == PHYS then PhysVerdict(c.data)
      else if c.name == IDAT then NotFound(Png, NoPhysicalDpi)
      else ScanFrom(b, pos + 12 + |c.data|)
  }

  function PngDpi(b: seq<Byte>): Dpi {
    if !Holds(b, 0, SIGNATURE) then NotFound(Png, InvalidFormat) else ScanFrom(b, 8)
  }

  /** The loop with its `size_t` guards: nothing wraps and no read leaves the buffer. */
  method ParsePng(bytes: seq<Byte>) returns (r: Dpi)
    requires |bytes| <= MAX_VECTOR
    ensures r == PngDpi(bytes)
  {
    var size := |bytes| as Size;
    if size < 8 || bytes[..8] != SIGNATURE {
      return NotFound(Png, InvalidFormat);
    }
    hide U32, DpiFromPhys, ScanFrom;
    var pos: Size := 8;
    ScanStep(bytes, 8);
    while pos + 12 <= size
      invariant 8 <= pos <= size
      invariant PngDpi(bytes) == ScanFrom(bytes, pos as int)
      decreases size - pos
    {
      var at := pos as int;
      ScanStep(bytes, at);
      var length := U32(bytes, at, false);
      if length as Size > size || pos + 12 > size - length as Size {
        return NotFound(Png, Truncated);
      }
      if bytes[at + 4..at + 8] == PHYS {
        if length < 9 {
          return NotFound(PngPhys, Truncated);
        }
        var payload := bytes[at + 8..at + 8 + length];
        return DpiFromPhys(U32(payload, 0, false), U32(payload, 4, false), payload[8]);
      }
      if bytes[at + 4..at + 8] == IDAT {
        break;
      }
      pos := pos + (length as Size + 12);
      ScanStep(bytes, pos as int);
    }
    return NotFound(Png, NoPhysicalDpi);
  }

  lemma {:induction false} ScanIsSound(b: seq<Byte>, pos: nat)
    ensures ScanFrom(b, pos).Sound()
    decreases |b| - pos
  {
    if CompleteAt(b, pos) && ChunkAt(b, pos).Skipped() {
      ScanIsSound(b, pos + 12 + |ChunkAt(b, pos).data|);
    }
  }

  // ---------------------------------------------------------------- first pHYs before the first IDAT

  /** What follows the chunks that were walked over: nothing that could be a chunk, a cut-off chunk,
      or a complete pHYs or IDAT chunk. */
  predicate Stops(rest: seq<Byte>) {
    CompleteAt(rest, 0) ==> !ChunkAt(rest, 0).Skipped()
  }

  function Verdict(rest: seq<Byte>): Dpi {
    if |rest| < 12 then NotFound(Png, NoPhysicalDpi)
    else if !CompleteAt(rest, 0) then NotFound(Png, Truncated)
    else if ChunkAt(rest, 0).name == PHYS then PhysVerdict(ChunkAt(rest, 0).data)
    else NotFound(Png, NoPhysicalDpi)
  }

  predicate AllSkipped(cs: seq<Chunk>) {
    forall i | 0 <= i < |cs| :: cs[i].Valid() && cs[i].Skipped()
  }

  lemma ScanIsPositionFree(pre: seq<Byte>, rest: seq<Byte>)
    requires Stops(rest)
    ensures ScanFrom(pre + rest, |pre|) == Verdict(rest)
  {
    SuffixChunk(pre, rest);
    hide U32, PhysVerdict, ChunkAt;
  }

  lemma SuffixChunk(pre: seq<Byte>, rest: seq<Byte>)
    ensures CompleteAt(pre + rest, |pre|) <==> CompleteAt(rest, 0)
    ensures CompleteAt(rest, 0) ==> ChunkAt(pre + rest, |pre|) == ChunkAt(rest, 0)
  {
    var b := pre + rest;
    if |rest| >= 12 {
      assert U32(b, |pre|, false) == U32(rest, 0, false);
      hide U32;
      if CompleteAt(rest, 0) {
        var n := U32(rest, 0, false);
        assert b[|pre| + 4..|pre| + 8] == rest[4..8] && b[|pre| + 8..|pre| + 8 + n] == rest[8..8 + n];
        assert b[|pre| + 8 + n..|pre| + 12 + n] == rest[8 + n..12 + n];
      }
    }
  }

  lemma {:induction false} ScanWalksChunks(pre: seq<Byte>, cs: seq<Chunk>, rest: seq<Byte>)
    requires AllSkipped(cs) && Stops(rest)
    ensures ScanFrom(pre + PutChunks(cs) + rest, |pre|) == Verdict(rest)
    decreases |cs|
  {
    hide U32, PutChunk, CompleteAt, ChunkAt;
    var b := pre + PutChunks(cs) + rest;
    if cs == [] {
      assert b == pre + rest;
      ScanIsPositionFree(pre, rest);
    } else {
      var first := PutChunk(cs[0]);
      var post := PutChunks(cs[1..]) + rest;
      assert b == pre + first + post;
      ChunkReadBack(pre, cs[0], post);
      assert b == (pre + first) + PutChunks(cs[1..]) + rest;
      CompleteIsRoomy(b, |pre|);
      ScanWalksChunks(pre + first, cs[1..], rest);
    }
  }

  lemma CompleteIsRoomy(b: seq<Byte>, at: nat)
    requires CompleteAt(b, at)
    ensures at + 12 + |ChunkAt(b, at).data| <= |b|
    ensures |ChunkAt(b, at).data| == U32(b, at, false)
  {
  }

  /** Any skipped chunks, then the stopping point: the answer depends on the stopping point alone. */
  lemma FirstPhysBeforeIdat(cs: seq<Chunk>, rest: seq<Byte>)
    requires AllSkipped(cs) && Stops(rest)
    ensures PngDpi(SIGNATURE + PutChunks(cs) + rest) == Verdict(rest)
  {
    var b := SIGNATURE + PutChunks(cs) + rest;
    assert b[0..8] == SIGNATURE;
    hide Verdict, Stops;
    ScanWalksChunks(SIGNATURE, cs, rest);
  }

  /** The chunks walked over from `pos`, and where the walk stops. */
  function Walk(b: seq<Byte>, pos: nat): (w: (seq<Chunk>, nat))
    requires pos <= |b|
    ensures pos <= w.1 <= |b| && AllSkipped(w.0)
    decreases |b| - pos
  {
    if CompleteAt(b, pos) && ChunkAt(b, pos).Skipped() then
      var (cs, stop) := Walk(b, pos + 12 + |ChunkAt(b, pos).data|);
      ([ChunkAt(b, pos)] + cs, stop)
    else ([], pos)
  }

  lemma StopsHere(b: seq<Byte>, pos: nat)
    requires pos <= |b| && (CompleteAt(b, pos) ==> !ChunkAt(b, pos).Skipped())
    ensures Stops(b[pos..])
  {
    var rest := b[pos..];
    if CompleteAt(rest, 0) {
      assert U32(b, pos, false) == U32(rest, 0, false);
      hide U32;
      assert b[pos + 4..pos + 8] == rest[4..8];
    }
  }

  lemma NoChunks(rest: seq<Byte>)
    ensures rest == PutChunks([]) + rest
  {
  }

  lemma ConsDecomposes(b: seq<Byte>, pos: nat, next: nat, c: Chunk, cs: seq<Chunk>, stop: nat)
    requires pos <= next <= |b| && stop <= |b| && c.Valid() && forall i | 0 <= i < |cs| :: cs[i].Valid()
    requires b[pos..next] == PutChunk(c) && b[next..] == PutChunks(cs) + b[stop..]
    ensures b[pos..] == PutChunks([c] + cs) + b[stop..]
  {
    PutChunksCons(c, cs);
    SplitFrom(b, pos, next);
    Assoc(PutChunk(c), PutChunks(cs), b[stop..]);
    hide *;
  }

  lemma PutChunksCons(c: Chunk, cs: seq<Chunk>)
    requires c.Valid() && forall i | 0 <= i < |cs| :: cs[i].Valid()
    ensures forall i | 0 <= i < |[c] + cs| :: ([c] + cs)[i].Valid()
    ensures PutChunks([c] + cs) == PutChunk(c) + PutChunks(cs)
  {
    hide PutChunk;
    assert ([c] + cs)[1..] == cs;
  }

  lemma {:induction false} WalkDecomposes(b: seq<Byte>, pos: nat)
    requires pos <= |b|
    ensures var (cs, stop) := Walk(b, pos); b[pos..] == PutChunks(cs) + b[stop..] && Stops(b[stop..])
    decreases |b| - pos
  {
    hide U32, PutChunk, PutChunks, Stops, Chunk.Skipped, ChunkAt;
    if CompleteAt(b, pos) && ChunkAt(b, pos).Skipped() {
      var c := ChunkAt(b, pos);
      var next := pos + 12 + |c.data|;
      CompleteIsRoomy(b, pos);
      ChunkPrintsBack(b, pos);
      WalkDecomposes(b, next);
      ConsDecomposes(b, pos, next, c, Walk(b, next).0, Walk(b, next).1);
    } else {
      StopsHere(b, pos);
      NoChunks(b[pos..]);
    }
  }

  /** Every file with the signature is skipped chunks and a stopping point, so the lemma above covers every file. */
  lemma EveryPngDecomposes(b: seq<Byte>)
    requires Holds(b, 0, SIGNATURE)
    ensures var (cs, stop) := Walk(b, 8);
      && b == SIGNATURE + PutChunks(cs) + b[stop..] && AllSkipped(cs) && Stops(b[stop..])
      && PngDpi(b) == Verdict(b[stop..])
  {
    var (cs, stop) := Walk(b, 8);
    WalkDecomposes(b, 8);
    assert b == b[0..8] + b[8..];
    hide Verdict, Stops, Walk, PngDpi;
    assert b == SIGNATURE + PutChunks(cs) + b[stop..];
    FirstPhysBeforeIdat(cs, b[stop..]);
  }

  // ---------------------------------------------------------------- prefixes

  lemma {:induction false} ScanInPrefix(b: seq<Byte>, more: seq<Byte>, pos: nat)
    requires ScanFrom(b, pos).source == PngPhys
    ensures ScanFrom(b + more, pos) == ScanFrom(b, pos)
    decreases |b| - pos
  {
    hide ScanFrom, CompleteAt, ChunkAt, PhysVerdict;
    ScanStep(b, pos);
    ChunkInPrefix(b, more, pos);
    ScanStep(b + more, pos);
    CompleteIsRoomy(b, pos);
    if ChunkAt(b, pos).Skipped() {
      ScanInPrefix(b, more, pos + 12 + |ChunkAt(b, pos).data|);
    }
  }

  /** One turn of the loop. */
  lemma ScanStep(b: seq<Byte>, pos: nat)
    ensures !CompleteAt(b, pos) ==>
      ScanFrom(b, pos) == NotFound(Png, if pos + 12 > |b| then NoPhysicalDpi else Truncated)
    ensures CompleteAt(b, pos) && ChunkAt(b, pos).name == PHYS ==> ScanFrom(b, pos) == PhysVerdict(ChunkAt(b, pos).data)
    ensures CompleteAt(b, pos) && ChunkAt(b, pos).name == IDAT ==> ScanFrom(b, pos) == NotFound(Png, NoPhysicalDpi)
    ensures CompleteAt(b, pos) && ChunkAt(b, pos).Skipped() ==>
      ScanFrom(b, pos) == ScanFrom(b, pos + 12 + |ChunkAt(b, pos).data|)
  {
    hide ChunkAt, PhysVerdict;
  }

  lemma ChunkInPrefix(b: seq<Byte>, more: seq<Byte>, pos: nat)
    requires CompleteAt(b, pos)
    ensures CompleteAt(b + more, pos) && ChunkAt(b + more, pos) == ChunkAt(b, pos)
  {
    var whole := b + more;
    assert U32(whole, pos, false) == U32(b, pos, false);
    hide U32;
    var n := U32(b, pos, false);
    assert whole[pos + 4..pos + 8] == b[pos + 4..pos + 8] && whole[pos + 8..pos + 8 + n] == b[pos + 8..pos + 8 + n];
    assert whole[pos + 8 + n..pos + 12 + n] == b[pos + 8 + n..pos + 12 + n];
  }

  /** A verdict read off a pHYs chunk in a prefix is the verdict on the whole file. */
  lemma PrefixIsExact(b: seq<Byte>, more: seq<Byte>)
    requires PngDpi(b).found
    ensures PngDpi(b + more) == PngDpi(b)
  {
    FoundIsFromPhys(b, 8);
    ScanInPrefix(b, more, 8);
    assert (b + more)[0..8] == b[0..8];
  }

  lemma {:induction false} FoundIsFromPhys(b: seq<Byte>, pos: nat)
    requires ScanFrom(b, pos).found
    ensures ScanFrom(b, pos).source == PngPhys
    decreases |b| - pos
  {
    hide ScanFrom, CompleteAt, ChunkAt;
    ScanStep(b, pos);
    CompleteIsRoomy(b, pos);
    if ChunkAt(b, pos).name != PHYS {
      FoundIsFromPhys(b, pos + 12 + |ChunkAt(b, pos).data|);
    }
  }
}
