/** When the answer for the first bytes of a JPEG file is the answer for the whole file: exactly when the scan of
    `ParseJpeg` has come to a point where it stops whatever follows. Otherwise the rest of the file can give any other
    density. */
module JpegFinality {
  import opened Common
  import opened Bytes
  import opened EmbeddedDpi
  import opened JpegScan
  import Tiff

  function Zeros(n: nat): (z: seq<Byte>)
    ensures |z| == n
  {
    seq(n, _ => 0)
  }

  // ---------------------------------------------------------------- completing what was cut off

  /** Bytes that complete the segment whose marker stands at `p` and that runs off the end. */
  function CutEnd(b: seq<Byte>, p: nat): seq<Byte>
    requires p < |b| && (p + 3 <= |b| ==> U16(b, p + 1, false) >= 2 && !SegmentFits(b, p))
  {
    if p + 1 == |b| then [0, 2]
    else if p + 2 == |b| then
      var high: int := b[p + 1];
      if high == 0 then [2] else [0] + Zeros(0x100 * high - 2)
    else Zeros(p + 1 + U16(b, p + 1, false) - |b|)
  }

  lemma CutEndFits(b: seq<Byte>, p: nat)
    requires p < |b| && (p + 3 <= |b| ==> U16(b, p + 1, false) >= 2 && !SegmentFits(b, p))
    ensures var whole := b + CutEnd(b, p);
      p + 3 <= |whole| && U16(whole, p + 1, false) >= 2 && p + 1 + U16(whole, p + 1, false) == |whole|
  {
    if p + 3 <= |b| {
      LengthInPrefix(b, CutEnd(b, p), p);
    }
  }

  /** Bytes behind which the scan of an unsettled prefix looks at whatever comes next. */
  function Completion(b: seq<Byte>, pos: nat): seq<Byte>
    requires pos <= |b| && !Settled(b, pos)
    decreases |b| - pos
  {
    var p := SkipFill(b, pos);
    if p == |b| then []
    else if Standalone(b[p]) then Completion(b, p + 1)
    else if SegmentFits(b, p) then Completion(b, p + 1 + U16(b, p + 1, false))
    else CutEnd(b, p)
  }

  lemma {:induction false} SkipThrough(b: seq<Byte>, pos: nat, p: nat)
    requires pos <= p <= |b| && forall k | pos <= k < p :: b[k] == 0xFF
    ensures SkipFill(b, pos) == SkipFill(b, p)
    decreases p - pos
  {
    if pos < p {
      SkipThrough(b, pos + 1, p);
    }
  }

  /** Fill bytes before a marker are part of its fill. */
  lemma FillBefore(b: seq<Byte>, next: seq<Byte>, pos: nat)
    requires pos <= |b| && SkipFill(b, pos) == |b| && |next| >= 4
    ensures Visit(b + next, pos) == Visit(next, 0)
  {
    hide U16, SegmentAt, SegmentFits, SkipFill, Visit;
    var whole := b + next;
    assert forall k | pos <= k < |b| :: whole[k] == b[k] == 0xFF;
    SkipThrough(whole, pos, |b|);
    VisitTurn(whole, pos);
    VisitTurn(whole, |b|);
    VisitSuffix(b, next, 0);
  }

  /** Behind the completion of an unsettled prefix, everything is visited as if it stood alone. */
  lemma {:induction false} Completed(b: seq<Byte>, pos: nat, next: seq<Byte>) returns (cut: seq<Segment>)
    requires pos <= |b| && !Settled(b, pos) && |next| >= 4
    ensures Visit(b + (Completion(b, pos) + next), pos) == cut + Visit(next, 0)
    decreases |b| - pos
  {
    hide U16, SegmentAt, Visit, CutEnd;
    var p, more := SkipFill(b, pos), Completion(b, pos) + next;
    var whole := b + more;
    VisitTurn(whole, pos);
    if p == |b| {
      FillBefore(b, next, pos);
      assert more == next;
      return [];
    }
    FillInPrefix(b, more, pos);
    assert whole[p] == b[p];
    if Standalone(b[p]) {
      cut := Completed(b, p + 1, next);
    } else if SegmentFits(b, p) {
      SegmentInPrefix(b, more, p);
      cut := Completed(b, p + 1 + U16(b, p + 1, false), next);
      Assoc([SegmentAt(b, p)], cut, Visit(next, 0));
      cut := [SegmentAt(b, p)] + cut;
    } else {
      cut := CutTaken(b, p, pos, next);
    }
  }

  lemma CutTaken(b: seq<Byte>, p: nat, pos: nat, next: seq<Byte>) returns (cut: seq<Segment>)
    requires pos <= p < |b| && !EndsScan(b[p]) && !Standalone(b[p]) && |next| >= 4
    requires p + 3 <= |b| ==> U16(b, p + 1, false) >= 2 && !SegmentFits(b, p)
    requires SkipFill(b + (CutEnd(b, p) + next), pos) == p
    ensures Visit(b + (CutEnd(b, p) + next), pos) == cut + Visit(next, 0)
  {
    hide U16, SegmentAt, Visit, CutEnd, SkipFill;
    var done := b + CutEnd(b, p);
    var whole := b + (CutEnd(b, p) + next);
    Assoc(b, CutEnd(b, p), next);
    CutEndFits(b, p);
    SegmentInPrefix(done, next, p);
    VisitTurn(whole, pos);
    assert whole[p] == b[p];
    VisitSuffix(done, next, 0);
    cut := [SegmentAt(whole, p)];
  }

  // ---------------------------------------------------------------- another answer

  /** A small TIFF directory with one density in dots per inch. */
  function DensityDirectory(density: Byte): (d: Tiff.Directory)
    ensures d.Valid()
  {
    Tiff.Directory(54, 8,
      [Tiff.Resolution(Tiff.X_RESOLUTION, 46), Tiff.Resolution(Tiff.Y_RESOLUTION, 46), Tiff.Unit(2)],
      [Tiff.Rational(46, density, 1)])
  }

  function DensityBlock(density: Byte): (b: seq<Byte>)
    ensures |b| == 54
  {
    Tiff.Overlay(Zeros(54), Tiff.Pieces(DensityDirectory(density), false))
  }

  lemma DensityPiecesApart(density: Byte)
    ensures Tiff.AllApart(Tiff.Pieces(DensityDirectory(density), false))
  {
    hide Tiff.Pieces, Tiff.PutEntry, Tiff.PutHeader, Tiff.PutRational, Tiff.AllInside;
    var d := DensityDirectory(density);
    var pieces := Tiff.Pieces(d, false);
    Tiff.WherePiecesAre(d, false);
    assert |pieces| == 6;
    var e, r := d.entries, d.rationals;
    assert pieces[2] == Tiff.Piece(10, Tiff.PutEntry(e[0], false)) &&
      pieces[3] == Tiff.Piece(22, Tiff.PutEntry(e[1], false));
    assert pieces[4] == Tiff.Piece(34, Tiff.PutEntry(e[2], false)) &&
      pieces[5] == Tiff.Piece(46, Tiff.PutRational(r[0], false));
    forall i, j | 0 <= i < j < |pieces|
      ensures Tiff.Apart(pieces[i], pieces[j])
    {
    }
  }

  lemma DensityIsRead(density: Byte)
    ensures Tiff.ResolutionOf(DensityBlock(density)) == Some(Tiff.TiffResolution(density as real, density as real, 2))
  {
    hide Tiff.ResolutionOf, Tiff.Overlay, Tiff.Pieces, Tiff.PutEntry, Tiff.PutHeader, Tiff.PutRational, Tiff.IsEncoding,
      Zeros;
    var d := DensityDirectory(density);
    DensityPiecesApart(density);
    Tiff.PrintedIsEncoding(Zeros(54), d, false);
    Tiff.ParsesAsMeant(DensityBlock(density), d, false);
    DensityMeans(density);
  }

  lemma DensityMeans(density: Byte)
    ensures Tiff.Meaning(DensityDirectory(density)) == Some(Tiff.TiffResolution(density as real, density as real, 2))
  {
    var d := DensityDirectory(density);
    var e := d.entries;
    assert ButLast(e) == [e[0], e[1]] && ButLast([e[0], e[1]]) == [e[0]];
    assert Tiff.LastUnit(e) == Some(2);
    assert Last(d.rationals) == Tiff.Rational(46, density, 1);
    assert Tiff.Find(d.rationals, 46) == Some(0);
    assert density as real / 1.0 == density as real;
    assert d.Resolve(46) == Some(density as real);
    assert Tiff.LastRational(d, [e[0]], Tiff.X_RESOLUTION) == Some(density as real);
    assert Tiff.LastRational(d, [e[0], e[1]], Tiff.X_RESOLUTION) == Some(density as real);
    assert Tiff.LastRational(d, [e[0], e[1]], Tiff.Y_RESOLUTION) == Some(density as real);
  }

  function DensityAnswer(density: Byte): Dpi {
    Dpi(true, density as real, density as real, ExifIfd, ResolutionFound)
  }

  /** What a file may go on with to say that density, wherever its prefix was cut. */
  function GoOn(b: seq<Byte>, density: Byte): seq<Byte>
    requires |b| >= 2 && !Settled(b, 2)
  {
    Completion(b, 2) + PutItem(Coded(0, ExifSegment(DensityBlock(density))))
  }

  lemma DensityItemReads(density: Byte)
    requires density > 0
    ensures var i := Coded(0, ExifSegment(DensityBlock(density)));
      i.Valid() && |PutItem(i)| >= 4 && Visit(PutItem(i), 0) == [i.segment] &&
        ExifOf(i.segment) == Some(DensityAnswer(density))
  {
    hide DensityBlock, Visit, ExifOf, ExifSegment, Tiff.ResolutionOf, PutItem, SegmentsOf;
    var i := Coded(0, ExifSegment(DensityBlock(density)));
    DensityIsRead(density);
    ExifSegmentMeans(DensityBlock(density));
    OneItemReads(i);
  }

  lemma OneItemReads(i: Item)
    requires i.Valid() && i.Coded?
    ensures |PutItem(i)| >= 4 && Visit(PutItem(i), 0) == [i.segment]
  {
    hide Visit, PutItems, SegmentsOf;
    ScanRecovers([], [i], []);
    OneItem(i);
    OneSegment(i);
    NothingAfterTerminator(0, 0xD9, []);
    assert [] + PutItem(i) + [] == PutItem(i);
    assert [i.segment] + [] == [i.segment];
  }

  lemma OneItem(i: Item)
    requires i.Valid()
    ensures PutItems([i]) == PutItem(i)
  {
    hide PutItem;
    assert [i][1..] == [];
    assert PutItem(i) + [] == PutItem(i);
  }

  /** An unsettled prefix decides nothing: the file can still give any density. */
  lemma AnyAnswerIsPossible(b: seq<Byte>, density: Byte)
    requires |b| >= 2 && b[..2] == SOI && !Settled(b, 2) && density > 0
    ensures JpegDpi(b + GoOn(b, density)) == DensityAnswer(density)
  {
    hide Visit, Settled, Completion, Choose, LastExif, LastJfif, ExifOf, JfifOf, ExifSegment, DensityBlock, PutItem;
    var i := Coded(0, ExifSegment(DensityBlock(density)));
    DensityItemReads(density);
    var cut := Completed(b, 2, PutItem(i));
    AppendOne(cut, i.segment);
    var whole := b + GoOn(b, density);
    assert whole[..2] == b[..2];
    FoundIsChosen(DensityAnswer(density), LastJfif(cut + [i.segment]));
  }

  lemma FoundIsChosen(exif: Dpi, jfif: Option<Dpi>)
    requires exif.found
    ensures Choose(Some(exif), jfif) == exif
  {
  }

  // ---------------------------------------------------------------- exactly when an answer is final

  /** The answer for a prefix is the answer for every file that starts with it. */
  ghost predicate Final(b: seq<Byte>) {
    forall more: seq<Byte> :: JpegDpi(b + more) == JpegDpi(b)
  }

  /** Whether a file that starts with these bytes may start with the start-of-image marker. */
  predicate MayBeJpeg(b: seq<Byte>) {
    (|b| > 0 ==> b[0] == SOI[0]) && (|b| > 1 ==> b[1] == SOI[1])
  }

  /** An answer is final exactly when the file cannot be a JPEG file, or when four bytes are there and the scan is
      settled. */
  lemma FinalExactly(b: seq<Byte>)
    ensures Final(b) <==> !MayBeJpeg(b) || (|b| >= 4 && Settled(b, 2))
  {
    hide JpegDpi, Settled;
    if !MayBeJpeg(b) {
      forall more: seq<Byte>
        ensures JpegDpi(b + more) == JpegDpi(b)
      {
        NoJpeg(b);
        NoJpeg(b + more);
      }
    } else if |b| >= 4 && Settled(b, 2) {
      forall more: seq<Byte>
        ensures JpegDpi(b + more) == JpegDpi(b)
      {
        assert b[..2] == SOI;
        PrefixIsExact(b, more);
      }
    } else {
      var more := OtherAnswer(b);
    }
  }

  lemma NoJpeg(b: seq<Byte>)
    requires !MayBeJpeg(b)
    ensures JpegDpi(b) == NotFound(Jpeg, InvalidFormat)
  {
  }

  lemma OtherAnswer(b: seq<Byte>) returns (more: seq<Byte>)
    requires MayBeJpeg(b) && !(|b| >= 4 && Settled(b, 2))
    ensures JpegDpi(b + more) != JpegDpi(b)
  {
    hide Settled, GoOn, JpegDpi;
    if |b| < 2 {
      NothingIsSettled(SOI);
      ShortIsInvalid(b);
      AnyAnswerIsPossible(SOI, 1);
      more := SOI[|b|..] + GoOn(SOI, 1);
      assert b + SOI[|b|..] == SOI;
      Assoc(b, SOI[|b|..], GoOn(SOI, 1));
    } else if |b| == 2 || !Settled(b, 2) {
      if |b| == 2 {
        NothingIsSettled(b);
      }
      assert b[..2] == SOI;
      AnyAnswerIsPossible(b, 1);
      AnyAnswerIsPossible(b, 2);
      more := if JpegDpi(b) == DensityAnswer(1) then GoOn(b, 2) else GoOn(b, 1);
    } else {
      more := [0];
      ShortIsInvalid(b);
      FourBytesAreEnough(b);
    }
  }

  /** Three bytes that end in a terminator are no valid file, but with one byte more they are. */
  lemma FourBytesAreEnough(b: seq<Byte>)
    requires |b| == 3 && MayBeJpeg(b) && Settled(b, 2)
    ensures JpegDpi(b + [0]) == NotFound(Jpeg, NoPhysicalDpi)
  {
    hide Visit, Settled;
    assert (b + [0])[..2] == SOI;
    SettledStays(b, [0], 2);
    ShortTail(b, 2);
    NothingVisited();
  }

  lemma NothingIsSettled(b: seq<Byte>)
    requires |b| == 2
    ensures !Settled(b, 2)
  {
  }

  lemma ShortIsInvalid(b: seq<Byte>)
    requires |b| < 4
    ensures JpegDpi(b) == NotFound(Jpeg, InvalidFormat)
  {
  }

  /** In particular a found answer can be replaced by any other as long as the scan is not settled. */
  lemma FoundIsFinalExactlyWhenSettled(b: seq<Byte>)
    requires JpegDpi(b).found
    ensures Final(b) <==> Settled(b, 2)
    ensures !Settled(b, 2) ==> exists more :: JpegDpi(b + more).found && JpegDpi(b + more).x != JpegDpi(b).x
  {
    hide Settled, Visit, Choose, LastExif, LastJfif, GoOn;
    assert |b| >= 4 && b[..2] == SOI;
    assert b[0] == b[..2][0] && b[1] == b[..2][1];
    FinalExactly(b);
    if !Settled(b, 2) {
      AnyAnswerIsPossible(b, 1);
      AnyAnswerIsPossible(b, 2);
      var more := if JpegDpi(b).x == 1.0 then GoOn(b, 2) else GoOn(b, 1);
      assert JpegDpi(b + more).found && JpegDpi(b + more).x != JpegDpi(b).x;
    }
  }

  // ---------------------------------------------------------------- two files

  /** A whole segment is walked over. */
  lemma SettledBehind(pre: seq<Byte>, i: Item, post: seq<Byte>)
    requires i.Valid() && i.Coded?
    ensures var b, next := pre + PutItem(i) + post, |pre| + |PutItem(i)|;
      Settled(b, |pre|) <==> Settled(b, next)
  {
    hide Settled, TurnAt, PutItem;
    ItemTurn(pre, i, post);
    TakenIsWalked(pre + PutItem(i) + post, |pre|);
  }

  lemma TakenIsWalked(b: seq<Byte>, pos: nat)
    requires pos <= |b| && TurnAt(b, pos).Take?
    ensures Settled(b, pos) <==> Settled(b, TurnAt(b, pos).next)
  {
    hide U16, SegmentAt, SkipFill;
  }

  function DensityFile(density: Byte): seq<Byte> {
    SOI + PutItem(Coded(0, ExifSegment(DensityBlock(density))))
  }

  /** A file with a found density to which it adds a segment of length zero, or nothing. */
  lemma DensityFileMeans(density: Byte, rest: seq<Byte>)
    requires density > 0 && Visit(rest, 0) == []
    ensures JpegDpi(DensityFile(density) + rest) == DensityAnswer(density)
    ensures |DensityFile(density)| >= 4 && (DensityFile(density) + rest)[..2] == SOI
  {
    hide Visit, ExifOf, JfifOf, LastExif, LastJfif, PutItem, ExifSegment, DensityBlock, SegmentsOf, PutItems, Choose;
    var i := Coded(0, ExifSegment(DensityBlock(density)));
    DensityItemReads(density);
    OneItem(i);
    OneSegment(i);
    NothingVisited();
    AppendOne([], i.segment);
    assert [] + [i.segment] == [i.segment] == [i.segment] + [];
    JpegMeaning([i], rest);
    FoundIsChosen(DensityAnswer(density), LastJfif([i.segment]));
  }

  lemma DensityFileIsWalked(density: Byte, rest: seq<Byte>)
    requires density > 0
    ensures |DensityFile(density)| >= 2
    ensures Settled(DensityFile(density) + rest, 2) <==> Settled(DensityFile(density) + rest, |DensityFile(density)|)
  {
    hide Settled, PutItem, ExifSegment, DensityBlock, Visit, ExifOf;
    DensityItemReads(density);
    SettledBehind(SOI, Coded(0, ExifSegment(DensityBlock(density))), rest);
  }

  /** A concrete found answer that is not final: the file may go on. */
  lemma FoundAndNotFinal()
    ensures JpegDpi(DensityFile(72)) == DensityAnswer(72) && !Final(DensityFile(72))
  {
    hide Settled, JpegDpi, DensityFile, Visit, Final;
    var b := DensityFile(72);
    NothingAfterTerminator(0, 0xD9, []);
    DensityFileMeans(72, []);
    DensityFileIsWalked(72, []);
    assert b + [] == b;
    EndIsUnsettled(b);
    FoundIsFinalExactlyWhenSettled(b);
  }

  lemma EndIsUnsettled(b: seq<Byte>)
    ensures !Settled(b, |b|)
  {
  }

  const MALFORMED: seq<Byte> := [0xFF, 0xE2, 0, 0]

  lemma MalformedSettles(b: seq<Byte>)
    ensures Settled(b + MALFORMED, |b|) && Visit(MALFORMED, 0) == []
  {
    var whole := b + MALFORMED;
    assert whole[|b|] == 0xFF && whole[|b| + 1] == 0xE2 && whole[|b| + 2] == 0 && whole[|b| + 3] == 0;
    assert SkipFill(whole, |b|) == |b| + 1;
    assert U16(whole, |b| + 2, false) == 0;
    assert SkipFill(MALFORMED, 0) == 1 && U16(MALFORMED, 2, false) == 0;
  }

  /** A concrete found answer that is final although there is no terminator: a segment of length zero stops the scan for
      good. */
  lemma FoundAndFinalWithoutTerminator()
    ensures JpegDpi(DensityFile(72) + MALFORMED) == DensityAnswer(72) && Final(DensityFile(72) + MALFORMED)
  {
    hide Settled, JpegDpi, DensityFile, Visit, Final, MALFORMED;
    MalformedSettles(DensityFile(72));
    DensityFileMeans(72, MALFORMED);
    DensityFileIsWalked(72, MALFORMED);
    FoundIsFinalExactlyWhenSettled(DensityFile(72) + MALFORMED);
  }
}
