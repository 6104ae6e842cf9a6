/** When the answer for the first bytes of a PNG file is the answer for the whole file: exactly when the chunk that
    decides has been reached. */
module PngFinality {
  import opened Common
  import opened Bytes
  import opened EmbeddedDpi
  import opened PngScan

  /** Whether a walk from `pos` comes to a complete pHYs or IDAT chunk, or to an empty IDAT chunk of which only checksum
      bytes are missing: that one is never reported as cut off. */
  predicate Settled(b: seq<Byte>, pos: nat)
    decreases |b| - pos
  {
    if CompleteAt(b, pos) then
      ChunkAt(b, pos).Skipped() ==> Settled(b, pos + 12 + |ChunkAt(b, pos).data|)
    else pos + 8 <= |b| && U32(b, pos, false) == 0 && b[pos + 4..pos + 8] == IDAT
  }

  lemma HeadInPrefix(b: seq<Byte>, more: seq<Byte>, pos: nat)
    requires pos + 8 <= |b|
    ensures U32(b + more, pos, false) == U32(b, pos, false) && (b + more)[pos + 4..pos + 8] == b[pos + 4..pos + 8]
  {
    hide U32;
    assert U32(b + more, pos, false) == U32(b, pos, false) by {
      SameFour(b, more, pos);
    }
  }

  lemma SameFour(b: seq<Byte>, more: seq<Byte>, pos: nat)
    requires pos + 4 <= |b|
    ensures U32(b + more, pos, false) == U32(b, pos, false)
  {
  }

  lemma {:induction false} SettledStays(b: seq<Byte>, more: seq<Byte>, pos: nat)
    requires Settled(b, pos)
    ensures ScanFrom(b + more, pos) == ScanFrom(b, pos)
    decreases |b| - pos
  {
    hide U32, ScanFrom, PhysVerdict;
    ScanStep(b, pos);
    ScanStep(b + more, pos);
    if CompleteAt(b, pos) {
      ChunkInPrefix(b, more, pos);
      CompleteIsRoomy(b, pos);
      if ChunkAt(b, pos).Skipped() {
        SettledStays(b, more, pos + 12 + |ChunkAt(b, pos).data|);
      }
    } else {
      HeadInPrefix(b, more, pos);
    }
  }

  // ---------------------------------------------------------------- another answer

  function Zeros(n: nat): (z: seq<Byte>)
    ensures |z| == n
  {
    seq(n, _ => 0)
  }

  /** The chunk that starts at `pos`, as far as it is there, with zeros for what is missing. */
  function Padded(b: seq<Byte>, pos: nat): (h: seq<Byte>)
    requires pos <= |b|
    ensures |h| >= pos + 8 && b <= h
  {
    if |b| < pos + 8 then b + Zeros(pos + 8 - |b|) else b
  }

  function Completion(b: seq<Byte>, pos: nat): seq<Byte>
    requires pos <= |b| && !CompleteAt(b, pos)
  {
    var n := U32(Padded(b, pos), pos, false);
    if pos + 12 + n < |b| then [] else Zeros(pos + 12 + n - |b|)
  }

  lemma Completed(b: seq<Byte>, pos: nat)
    requires pos <= |b| && !CompleteAt(b, pos)
    ensures var whole := b + Completion(b, pos);
      && CompleteAt(whole, pos) && |whole| == pos + 12 + |ChunkAt(whole, pos).data|
      && ChunkAt(whole, pos).name == Padded(b, pos)[pos + 4..pos + 8]
      && |ChunkAt(whole, pos).data| == U32(Padded(b, pos), pos, false)
  {
    var h, whole := Padded(b, pos), b + Completion(b, pos);
    assert |b| < pos + 8 || h == b;
    assert h <= whole by {
      hide U32;
      assert forall i | 0 <= i < |h| :: whole[i] == h[i];
    }
    HeadInPrefix(h, whole[|h|..], pos);
    assert h + whole[|h|..] == whole;
  }

  /** A pHYs chunk that has no unit. */
  const SOME_PHYS := Chunk(PHYS, [0, 0, 0, 1, 0, 0, 0, 1, 0], [0, 0, 0, 0])

  lemma PhysIsSeen(pre: seq<Byte>)
    ensures ScanFrom(pre + PutChunk(SOME_PHYS), |pre|).source == PngPhys
  {
    hide U32, PutChunk, ScanFrom, DpiFromPhys;
    ChunkReadBack(pre, SOME_PHYS, []);
    assert pre + PutChunk(SOME_PHYS) + [] == pre + PutChunk(SOME_PHYS);
    ScanStep(pre + PutChunk(SOME_PHYS), |pre|);
    PhysSource(SOME_PHYS.data);
  }

  lemma PhysSource(data: seq<Byte>)
    ensures PhysVerdict(data).source == PngPhys
  {
  }

  /** What else a file may say that starts with an unsettled prefix. */
  lemma {:induction false} OtherAnswer(b: seq<Byte>, pos: nat) returns (more: seq<Byte>)
    requires pos <= |b| && !Settled(b, pos)
    ensures ScanFrom(b + more, pos) != ScanFrom(b, pos)
    decreases |b| - pos
  {
    hide U32, ScanFrom, PhysVerdict, Completion;
    ScanStep(b, pos);
    if CompleteAt(b, pos) {
      CompleteIsRoomy(b, pos);
      more := OtherAnswer(b, pos + 12 + |ChunkAt(b, pos).data|);
      ChunkInPrefix(b, more, pos);
      ScanStep(b + more, pos);
    } else {
      more := CutAnswer(b, pos);
    }
  }

  lemma CutAnswer(b: seq<Byte>, pos: nat) returns (more: seq<Byte>)
    requires pos <= |b| && !CompleteAt(b, pos) && !Settled(b, pos)
    ensures ScanFrom(b + more, pos) != ScanFrom(b, pos)
  {
    hide U32, ScanFrom, PhysVerdict, Completion, PutChunk;
    var w := Completion(b, pos);
    var whole := b + w;
    Completed(b, pos);
    ScanStep(b, pos);
    ScanStep(whole, pos);
    var c := ChunkAt(whole, pos);
    if c.Skipped() {
      more := w + PutChunk(SOME_PHYS);
      Assoc(b, w, PutChunk(SOME_PHYS));
      ChunkInPrefix(whole, PutChunk(SOME_PHYS), pos);
      ScanStep(whole + PutChunk(SOME_PHYS), pos);
      PhysIsSeen(whole);
    } else if c.name == PHYS {
      more := w;
      PhysSource(c.data);
    } else {
      NameIsThere(b, pos);
      if pos + 12 <= |b| {
        more := w;
      } else {
        more := Zeros(pos + 12 - |b|);
        HeadInPrefix(b, more, pos);
        ScanStep(b + more, pos);
      }
    }
  }

  /** The name of an image data chunk does not end in a zero, so none of it is padding. */
  lemma NameIsThere(b: seq<Byte>, pos: nat)
    requires pos <= |b| && Padded(b, pos)[pos + 4..pos + 8] == IDAT
    ensures pos + 8 <= |b|
  {
    assert Padded(b, pos)[pos + 7] == Padded(b, pos)[pos + 4..pos + 8][3] == 'T' as int;
  }

  // ---------------------------------------------------------------- exactly when an answer is final

  ghost predicate Final(b: seq<Byte>) {
    forall more: seq<Byte> :: PngDpi(b + more) == PngDpi(b)
  }

  /** Whether a file that starts with these bytes may start with the PNG signature. */
  predicate MayBePng(b: seq<Byte>) {
    b <= SIGNATURE || SIGNATURE <= b
  }

  lemma NoPng(b: seq<Byte>, more: seq<Byte>)
    requires !MayBePng(b)
    ensures !Holds(b, 0, SIGNATURE) && !Holds(b + more, 0, SIGNATURE)
  {
    assert |b| > 8 ==> (b + more)[..8] == b[..8];
  }

  /** An answer is final exactly when the file cannot be a PNG file, or when the signature is there and the scan is
      settled. */
  lemma FinalExactly(b: seq<Byte>)
    ensures Final(b) <==> !MayBePng(b) || (SIGNATURE <= b && Settled(b, 8))
  {
    hide Settled, ScanFrom, SIGNATURE, MayBePng;
    if !MayBePng(b) {
      forall more: seq<Byte>
        ensures PngDpi(b + more) == PngDpi(b)
      {
        NoPng(b, more);
      }
    } else if SIGNATURE <= b && Settled(b, 8) {
      forall more: seq<Byte>
        ensures PngDpi(b + more) == PngDpi(b)
      {
        SettledStays(b, more, 8);
        Signed(b, more);
      }
    } else if SIGNATURE <= b {
      Signed(b, []);
      var more := OtherAnswer(b, 8);
      Signed(b, more);
      assert PngDpi(b + more) != PngDpi(b);
    } else {
      var more := Rest(b);
      assert PngDpi(b + more) != PngDpi(b);
    }
  }

  lemma Signed(b: seq<Byte>, more: seq<Byte>)
    requires SIGNATURE <= b
    ensures |b| >= 8 && Holds(b, 0, SIGNATURE) && Holds(b + more, 0, SIGNATURE)
  {
    assert (b + more)[0..8] == b[0..8] == SIGNATURE;
  }

  /** A part of the signature is no PNG file; the whole signature is one without a density. */
  lemma Rest(b: seq<Byte>) returns (more: seq<Byte>)
    requires MayBePng(b) && !(SIGNATURE <= b)
    ensures PngDpi(b + more) != PngDpi(b)
  {
    more := SIGNATURE[|b|..];
    assert b + more == SIGNATURE;
    assert |b| < 8;
    assert Holds(SIGNATURE, 0, SIGNATURE);
  }
}
