/** When the answer for the first bytes of a TIFF block is the answer for the whole block. */
module TiffFinality {
  import opened Common
  import opened Bytes
  import opened Tiff

  // ---------------------------------------------------------------- what a resolution depends on

  /** The offset in the last entry with this tag. */
  function LastOffset(entries: seq<Entry>, tag: nat): Option<nat> {
    if entries == [] then None
    else if Last(entries).Resolution? && Last(entries).tag == tag then Some(Last(entries).offset)
    else LastOffset(ButLast(entries), tag)
  }

  function RationalFor(bytes: seq<Byte>, offset: Option<nat>, le: bool): Option<real> {
    if offset.None? then None else RationalAt(bytes, offset.value, le)
  }

  lemma {:induction false} LastRationalIsRead(bytes: seq<Byte>, d: Directory, n: nat, tag: nat, le: bool)
    requires d.Valid() && IsEncoding(bytes, d, le) && n <= |d.entries|
    ensures LastRational(d, d.entries[..n], tag) == RationalFor(bytes, LastOffset(d.entries[..n], tag), le)
  {
    hide IsEncoding, RationalAt, Find;
    if n > 0 {
      LastRationalIsRead(bytes, d, n - 1, tag, le);
      assert ButLast(d.entries[..n]) == d.entries[..n - 1] && Last(d.entries[..n]) == d.entries[n - 1];
      if d.entries[n - 1].Resolution? {
        ReferenceReadBack(bytes, d, d.entries[n - 1].offset, le);
      }
    }
  }

  /** A block with a complete directory has the resolution that its last entries give. */
  lemma ResolutionByOffsets(bytes: seq<Byte>)
    requires DirectoryFits(bytes)
    ensures var entries, le := Decode(bytes).entries, IsLittleEndian(bytes);
      ResolutionOf(bytes) == Complete(Fields(RationalFor(bytes, LastOffset(entries, X_RESOLUTION), le),
        RationalFor(bytes, LastOffset(entries, Y_RESOLUTION), le), LastUnit(entries)))
  {
    hide DirectoryFits, Decode, IsEncoding, LastRational, LastOffset, LastUnit, RationalFor, ResolutionOf,
      IsLittleEndian, Complete;
    assert |bytes| >= 8 by {
      LongEnough(bytes);
    }
    var d, le := Decode(bytes), IsLittleEndian(bytes);
    EveryBlockIsAnEncoding(bytes);
    LastRationalIsRead(bytes, d, |d.entries|, X_RESOLUTION, le);
    LastRationalIsRead(bytes, d, |d.entries|, Y_RESOLUTION, le);
    assert d.entries[..|d.entries|] == d.entries;
  }

  lemma LongEnough(bytes: seq<Byte>)
    requires DirectoryFits(bytes)
    ensures |bytes| >= 8
  {
  }

  // ---------------------------------------------------------------- longer blocks

  lemma EntryInLonger(b: seq<Byte>, more: seq<Byte>, at: nat, le: bool)
    requires at + ENTRY_SIZE <= |b|
    ensures DecodeEntry(b + more, at, le) == DecodeEntry(b, at, le)
  {
    ReadsInPrefix(b, more, at, le);
    ReadsInPrefix(b, more, at + 2, le);
    ReadsInPrefix(b, more, at + 4, le);
    ReadsInPrefix(b, more, at + 8, le);
    hide U16, U32;
  }

  /** A complete directory stays what it is. */
  lemma DirectoryInLonger(b: seq<Byte>, more: seq<Byte>)
    requires DirectoryFits(b)
    ensures DirectoryFits(b + more) && IsLittleEndian(b + more) == IsLittleEndian(b)
    ensures Decode(b + more).entries == Decode(b).entries
  {
    hide U16, U32, DecodeEntry, DecodeRationals;
    var le := IsLittleEndian(b);
    var at := U32(b, 4, le);
    ReadsInPrefix(b, more, 2, le);
    ReadsInPrefix(b, more, 4, le);
    ReadsInPrefix(b, more, at, le);
    var short, long := Decode(b).entries, Decode(b + more).entries;
    forall i | 0 <= i < |short|
      ensures long[i] == short[i]
    {
      EntryInLonger(b, more, at + 2 + ENTRY_SIZE * i, le);
    }
  }

  lemma RationalInLonger(b: seq<Byte>, more: seq<Byte>, offset: nat, le: bool)
    requires offset + 8 <= |b|
    ensures RationalAt(b + more, offset, le) == RationalAt(b, offset, le)
  {
    ReadsInPrefix(b, more, offset, le);
    ReadsInPrefix(b, more, offset + 4, le);
    hide U32;
  }

  /** Whether a rational is in the block, and whether it is one. */
  predicate IsOpen(b: seq<Byte>, offset: Option<nat>) {
    offset.Some? && |b| < offset.value + 8
  }

  predicate IsLost(b: seq<Byte>, offset: Option<nat>, le: bool) {
    !IsOpen(b, offset) && RationalFor(b, offset, le).None?
  }

  lemma NotOpenStays(b: seq<Byte>, more: seq<Byte>, offset: Option<nat>, le: bool)
    requires !IsOpen(b, offset)
    ensures !IsOpen(b + more, offset) && RationalFor(b + more, offset, le) == RationalFor(b, offset, le)
  {
    hide RationalAt;
    if offset.Some? {
      RationalInLonger(b, more, offset.value, le);
    }
  }

  const MAX_OFFSET: nat := 0x1_0000_0000

  function Ones(): (z: seq<Byte>)
    ensures |z| == MAX_OFFSET + 8
    ensures forall i | 0 <= i < |z| :: z[i] == 1
  {
    seq(MAX_OFFSET + 8, _ => 1)
  }

  /** The last byte of an open denominator is still to come, so that it need not be zero. */
  lemma OpenCanBeRead(b: seq<Byte>, offset: nat, le: bool)
    requires offset < MAX_OFFSET && |b| < offset + 8
    ensures RationalAt(b + Ones(), offset, le).Some?
  {
    hide Ones;
    var whole := b + Ones();
    assert whole[offset + 7] == 1;
    NotZero(whole, offset + 4, le);
  }

  lemma NotZero(b: seq<Byte>, at: nat, le: bool)
    requires at + 4 <= |b| && b[at + 3] == 1
    ensures U32(b, at, le) != 0
  {
  }

  lemma {:induction false} OffsetsAreSmall(entries: seq<Entry>, tag: nat)
    requires forall i | 0 <= i < |entries| :: entries[i].Valid()
    ensures LastOffset(entries, tag).Some? ==> LastOffset(entries, tag).value < MAX_OFFSET
  {
    if entries != [] {
      OffsetsAreSmall(ButLast(entries), tag);
    }
  }

  // ---------------------------------------------------------------- complete directories

  /** Whether a block with a complete directory has said its last word: a resolution, or the lack of one that nothing
      behind it can mend. */
  predicate Settled(b: seq<Byte>)
    requires DirectoryFits(b)
  {
    var entries, le := Decode(b).entries, IsLittleEndian(b);
    var x, y := LastOffset(entries, X_RESOLUTION), LastOffset(entries, Y_RESOLUTION);
    LastUnit(entries).None? || IsLost(b, x, le) || IsLost(b, y, le) || (!IsOpen(b, x) && !IsOpen(b, y))
  }

  ghost predicate Final(b: seq<Byte>) {
    forall more: seq<Byte> :: ResolutionOf(b + more) == ResolutionOf(b)
  }

  lemma SettledStays(b: seq<Byte>, more: seq<Byte>)
    requires DirectoryFits(b) && Settled(b)
    ensures ResolutionOf(b + more) == ResolutionOf(b)
  {
    hide DirectoryFits, Decode, ResolutionOf, LastOffset, LastUnit, RationalFor, IsOpen, IsLittleEndian;
    LongEnough(b);
    var entries, le := Decode(b).entries, IsLittleEndian(b);
    var x, y := LastOffset(entries, X_RESOLUTION), LastOffset(entries, Y_RESOLUTION);
    ResolutionByOffsets(b);
    DirectoryInLonger(b, more);
    ResolutionByOffsets(b + more);
    if !IsOpen(b, x) {
      NotOpenStays(b, more, x, le);
    }
    if !IsOpen(b, y) {
      NotOpenStays(b, more, y, le);
    }
  }

  lemma ReadableWithOnes(b: seq<Byte>, offset: Option<nat>, le: bool)
    requires !IsLost(b, offset, le) && (offset.Some? ==> offset.value < MAX_OFFSET)
    ensures RationalFor(b + Ones(), offset, le).Some?
  {
    hide RationalAt, Ones;
    if IsOpen(b, offset) {
      OpenCanBeRead(b, offset.value, le);
    } else {
      NotOpenStays(b, Ones(), offset, le);
    }
  }

  lemma OpenIsUnread(b: seq<Byte>, offset: Option<nat>, le: bool)
    requires IsOpen(b, offset)
    ensures RationalFor(b, offset, le).None?
  {
  }

  lemma UnsettledCanBeMended(b: seq<Byte>)
    requires DirectoryFits(b) && !Settled(b)
    ensures ResolutionOf(b).None? && ResolutionOf(b + Ones()).Some?
  {
    hide DirectoryFits, ResolutionOf, LastOffset, LastUnit, RationalFor, IsOpen, IsLost, IsLittleEndian, DecodeEntry,
      DecodeRationals, U16, U32, Ones;
    LongEnough(b);
    var entries, le := Decode(b).entries, IsLittleEndian(b);
    var x, y := LastOffset(entries, X_RESOLUTION), LastOffset(entries, Y_RESOLUTION);
    ResolutionByOffsets(b);
    DirectoryInLonger(b, Ones());
    ResolutionByOffsets(b + Ones());
    EveryBlockIsAnEncoding(b);
    OffsetsAreSmall(entries, X_RESOLUTION);
    OffsetsAreSmall(entries, Y_RESOLUTION);
    ReadableWithOnes(b, x, le);
    ReadableWithOnes(b, y, le);
    if IsOpen(b, x) {
      OpenIsUnread(b, x, le);
    } else {
      OpenIsUnread(b, y, le);
    }
  }

  /** With a complete directory, an answer is final exactly when it is settled. */
  lemma FinalExactly(b: seq<Byte>)
    requires DirectoryFits(b)
    ensures Final(b) <==> Settled(b)
  {
    hide *;
    if Settled(b) {
      SettledIsFinal(b);
    } else {
      UnsettledCanBeMended(b);
      NotFinal(b, Ones());
    }
  }

  lemma SettledIsFinal(b: seq<Byte>)
    requires DirectoryFits(b) && Settled(b)
    ensures Final(b)
  {
    hide DirectoryFits, Settled, ResolutionOf;
    forall more: seq<Byte>
      ensures ResolutionOf(b + more) == ResolutionOf(b)
    {
      SettledStays(b, more);
    }
  }

  lemma NotFinal(b: seq<Byte>, more: seq<Byte>)
    requires ResolutionOf(b + more) != ResolutionOf(b)
    ensures !Final(b)
  {
    hide ResolutionOf;
  }

  // ---------------------------------------------------------------- directories that are cut off

  /** A header whose directory begins behind the end, or misses at least three whole entries. */
  predicate MissesThree(b: seq<Byte>) {
    && |b| >= 8 && (IsLittleEndian(b) || IsBigEndian(b))
    && var le := IsLittleEndian(b);
    && U16(b, 2, le) == 42
    && var at := U32(b, 4, le);
    && (at + 2 <= |b| ==> U16(b, at, le) >= 3 && at + 2 + ENTRY_SIZE * (U16(b, at, le) - 3) >= |b|)
  }

  /** A count that agrees with what is there of it. */
  function CountFor(b: seq<Byte>, at: nat, le: bool): (n: nat)
    requires at + 2 <= |b| ==> U16(b, at, le) >= 3
    ensures 3 <= n < 0x1_0000
  {
    if at + 2 <= |b| then U16(b, at, le)
    else if at + 1 == |b| then
      var known: int := b[at];
      if le then known + 0x100 else 0x100 * known + 3
    else 3
  }

  lemma CountAgrees(b: seq<Byte>, at: nat, le: bool, k: nat)
    requires at + 2 <= |b| ==> U16(b, at, le) >= 3
    requires k < 2 && at + k < |b|
    ensures PutU16(CountFor(b, at, le), le)[k] == b[at + k]
  {
    if at + 2 <= |b| {
      PrintU16(b, at, le);
      assert b[at..at + 2][k] == b[at + k];
    }
  }

  /** The offset of a usable rational: the header itself, whose last four bytes are not zero, or one behind the
      directory. */
  function RationalPlace(at: nat, n: nat): nat {
    if at == 0 then 2 + ENTRY_SIZE * n else 0
  }

  /** The count, the last three entries, and a rational behind them. */
  function LastPieces(at: nat, n: nat, le: bool): (pieces: seq<Piece>)
    requires 3 <= n < 0x1_0000
    ensures |pieces| == 5 && AllInside(pieces, at + 10 + ENTRY_SIZE * n)
  {
    hide PutU16, PutEntry, PutRational;
    var q, end := RationalPlace(at, n), at + 2 + ENTRY_SIZE * n;
    [Piece(at, PutU16(n, le)), Piece(end - 36, PutEntry(Resolution(X_RESOLUTION, q), le)),
     Piece(end - 24, PutEntry(Resolution(Y_RESOLUTION, q), le)), Piece(end - 12, PutEntry(Unit(2), le)),
     Piece(end, PutRational(Rational(end, 1, 1), le))]
  }

  lemma LastPiecesApart(at: nat, n: nat, le: bool)
    requires 3 <= n < 0x1_0000
    ensures AllApart(LastPieces(at, n, le))
  {
    hide PutU16, PutEntry, PutRational;
  }

  lemma {:induction false} OverlayKeeps(background: seq<Byte>, pieces: seq<Piece>, k: nat)
    requires AllInside(pieces, |background|) && k < |background|
    requires forall i | 0 <= i < |pieces| && pieces[i].at <= k < pieces[i].End() ::
      pieces[i].bytes[k - pieces[i].at] == background[k]
    ensures Overlay(background, pieces)[k] == background[k]
  {
    if pieces != [] {
      assert forall i | 0 <= i < |pieces| - 1 :: ButLast(pieces)[i] == pieces[i];
      OverlayKeeps(background, ButLast(pieces), k);
    }
  }

  /** The block with a complete directory that ends in a usable resolution. */
  function Mended(b: seq<Byte>): (whole: seq<Byte>)
    requires MissesThree(b)
    ensures |whole| >= |b|
  {
    hide U16, U32;
    var le := IsLittleEndian(b);
    var at := U32(b, 4, le);
    var n := CountFor(b, at, le);
    Overlay(b + seq(at + 10 + ENTRY_SIZE * n, _ => 0), LastPieces(at, n, le))
  }

  lemma MendedKeeps(b: seq<Byte>)
    requires MissesThree(b)
    ensures b <= Mended(b)
  {
    hide U16, U32, PutU16, PutEntry, PutRational, Overlay;
    var le := IsLittleEndian(b);
    var at := U32(b, 4, le);
    var n := CountFor(b, at, le);
    var pieces := LastPieces(at, n, le);
    var background := b + seq(at + 10 + ENTRY_SIZE * n, _ => 0);
    forall k | 0 <= k < |b|
      ensures Mended(b)[k] == b[k]
    {
      if at <= k < at + 2 {
        CountAgrees(b, at, le, k - at);
      }
      assert forall i | 1 <= i < 5 :: pieces[i].at >= |b|;
      OverlayKeeps(background, pieces, k);
    }
  }

  lemma MendedStands(b: seq<Byte>)
    requires MissesThree(b)
    ensures var le := IsLittleEndian(b);
      var at := U32(b, 4, le);
      var pieces := LastPieces(at, CountFor(b, at, le), le);
      forall i | 0 <= i < 5 :: Holds(Mended(b), pieces[i].at, pieces[i].bytes)
  {
    hide U16, U32, Holds, Overlay, LastPieces;
    var le := IsLittleEndian(b);
    var at := U32(b, 4, le);
    var n := CountFor(b, at, le);
    var pieces := LastPieces(at, n, le);
    LastPiecesApart(at, n, le);
    forall i | 0 <= i < 5
      ensures Holds(Mended(b), pieces[i].at, pieces[i].bytes)
    {
      PiecesStand(b + seq(at + 10 + ENTRY_SIZE * n, _ => 0), pieces, i);
    }
  }

  /** The last three entries decide, whatever the ones before them say. */
  lemma LastThreeDecide(whole: seq<Byte>, at: nat, n: nat, q: nat, le: bool)
    requires 3 <= n && at + 2 + ENTRY_SIZE * n <= |whole| && q < MAX_OFFSET
    requires Holds(whole, at + 2 + ENTRY_SIZE * (n - 3), PutEntry(Resolution(X_RESOLUTION, q), le))
    requires Holds(whole, at + 2 + ENTRY_SIZE * (n - 2), PutEntry(Resolution(Y_RESOLUTION, q), le))
    requires Holds(whole, at + 2 + ENTRY_SIZE * (n - 1), PutEntry(Unit(2), le))
    ensures ReadEntries(whole, at + 2, n, le) == Fields(RationalAt(whole, q, le), RationalAt(whole, q, le), Some(2))
  {
    hide Holds, PutEntry, ReadEntry, RationalAt;
    var before := ReadEntries(whole, at + 2, n - 3, le);
    var second := ReadEntry(whole, at + 2 + ENTRY_SIZE * (n - 3), le, before);
    var third := ReadEntry(whole, at + 2 + ENTRY_SIZE * (n - 2), le, second);
    EntryReadBack(Resolution(X_RESOLUTION, q), whole, at + 2 + ENTRY_SIZE * (n - 3), le, before);
    EntryReadBack(Resolution(Y_RESOLUTION, q), whole, at + 2 + ENTRY_SIZE * (n - 2), le, second);
    EntryReadBack(Unit(2), whole, at + 2 + ENTRY_SIZE * (n - 1), le, third);
    assert ReadEntries(whole, at + 2, n - 2, le) == second;
    assert ReadEntries(whole, at + 2, n - 1, le) == third;
  }

  lemma RationalIsUsable(whole: seq<Byte>, at: nat, n: nat, le: bool)
    requires |whole| >= 8 && U32(whole, 4, le) == at
    requires Holds(whole, at + 2 + ENTRY_SIZE * n, PutRational(Rational(at + 2 + ENTRY_SIZE * n, 1, 1), le))
    ensures RationalAt(whole, RationalPlace(at, n), le).Some?
  {
    hide U32, PutU32;
    if at == 0 {
      var q := 2 + ENTRY_SIZE * n;
      var one := PutU32(1, le);
      assert one + one == one + one + [];
      ThreeParts(one, one, []);
      HoldsInside(whole, q, one + one, 4, one);
      ReadU32(whole, q + 4, 1, le);
    }
  }

  /** Such a block has no resolution yet, and it can go on to one: it decides nothing. */
  lemma CutDirectoryIsOpen(b: seq<Byte>)
    requires MissesThree(b)
    ensures !DirectoryFits(b) && ResolutionOf(b).None?
    ensures b <= Mended(b) && ResolutionOf(Mended(b)).Some?
    ensures !Final(b)
  {
    hide U16, U32, PutU16, PutEntry, PutRational, Mended, ReadEntries, Holds, CountFor;
    var le := IsLittleEndian(b);
    var at := U32(b, 4, le);
    var n, whole := CountFor(b, at, le), Mended(b);
    MendedKeeps(b);
    MendedStands(b);
    var pieces := LastPieces(at, n, le);
    var more := whole[|b|..];
    assert b + more == whole;
    ReadsInPrefix(b, more, 2, le);
    ReadsInPrefix(b, more, 4, le);
    MendedReads(whole, at, n, le);
    NotFinal(b, more);
  }

  lemma MendedReads(whole: seq<Byte>, at: nat, n: nat, le: bool)
    requires |whole| >= 8 && (IsLittleEndian(whole) || IsBigEndian(whole)) && IsLittleEndian(whole) == le
    requires U16(whole, 2, le) == 42 && U32(whole, 4, le) == at && 3 <= n < 0x1_0000
    requires var pieces := LastPieces(at, n, le); forall i | 0 <= i < 5 :: Holds(whole, pieces[i].at, pieces[i].bytes)
    ensures ResolutionOf(whole).Some?
  {
    hide U16, U32, PutU16, PutEntry, PutRational, ReadEntries, RationalPlace;
    var pieces := LastPieces(at, n, le);
    assert Holds(whole, pieces[0].at, pieces[0].bytes) && Holds(whole, pieces[1].at, pieces[1].bytes);
    assert Holds(whole, pieces[2].at, pieces[2].bytes) && Holds(whole, pieces[3].at, pieces[3].bytes);
    assert Holds(whole, pieces[4].at, pieces[4].bytes);
    ReadU16(whole, at, n, le);
    RationalPlaceIsSmall(at, n);
    LastThreeDecide(whole, at, n, RationalPlace(at, n), le);
    RationalIsUsable(whole, at, n, le);
  }

  lemma RationalPlaceIsSmall(at: nat, n: nat)
    requires n < 0x1_0000
    ensures RationalPlace(at, n) < MAX_OFFSET
  {
  }
}
