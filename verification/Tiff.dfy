/** `RationalAt` and `ParseTiffResolution` of `src/imaging/MetadataParser.cpp`, and what they read
    from any TIFF block laid out by section 2 of TIFF 6.0. */
module Tiff {
  import opened Common
  import opened Bytes

  const X_RESOLUTION: nat := 282
  const Y_RESOLUTION: nat := 283
  const RESOLUTION_UNIT: nat := 296
  const SHORT: nat := 3
  const RATIONAL: nat := 5
  const ENTRY_SIZE: nat := 12

  datatype TiffResolution = TiffResolution(x: real, y: real, unit: nat)

  /** The three optional values the entry loop carries. */
  datatype Fields = Fields(x: Option<real>, y: Option<real>, unit: Option<nat>)

  const NO_FIELDS := Fields(None, None, None)

  function RationalAt(tiff: seq<Byte>, offset: nat, le: bool): Option<real> {
    if offset + 8 > |tiff| then None
    else
      var numerator, denominator := U32(tiff, offset, le), U32(tiff, offset + 4, le);
      if denominator == 0 then None else Some(numerator as real / denominator as real)
  }

  predicate IsLittleEndian(tiff: seq<Byte>)
    requires |tiff| >= 8
  {
    tiff[0] == 'I' as int && tiff[1] == 'I' as int
  }

  predicate IsBigEndian(tiff: seq<Byte>)
    requires |tiff| >= 8
  {
    tiff[0] == 'M' as int && tiff[1] == 'M' as int
  }

  /** What one entry, `at` bytes into the block, does to the values found so far. */
  function ReadEntry(tiff: seq<Byte>, at: nat, le: bool, f: Fields): Fields
    requires at + ENTRY_SIZE <= |tiff|
  {
    var tag, typ, count := U16(tiff, at, le), U16(tiff, at + 2, le), U32(tiff, at + 4, le);
    if tag == X_RESOLUTION && typ == RATIONAL && count == 1 then
      f.(x := RationalAt(tiff, U32(tiff, at + 8, le), le))
    else if tag == Y_RESOLUTION && typ == RATIONAL && count == 1 then
      f.(y := RationalAt(tiff, U32(tiff, at + 8, le), le))
    else if tag == RESOLUTION_UNIT && typ == SHORT && count == 1 then
      f.(unit := Some(U16(tiff, at + 8, le)))
    else f
  }

  /** The values found by the first `n` entries of the directory whose entries start at `base`. */
  function ReadEntries(tiff: seq<Byte>, base: nat, n: nat, le: bool): Fields
    requires base + ENTRY_SIZE * n <= |tiff|
  {
    if n == 0 then NO_FIELDS
    else ReadEntry(tiff, base + ENTRY_SIZE * (n - 1), le, ReadEntries(tiff, base, n - 1, le))
  }

  function Complete(f: Fields): Option<TiffResolution> {
    if f.x.None? || f.y.None? || f.unit.None? then None
    else Some(TiffResolution(f.x.value, f.y.value, f.unit.value))
  }

  /** Whether the header and the whole first directory lie inside the block. */
  predicate DirectoryFits(tiff: seq<Byte>) {
    && |tiff| >= 8
    && (IsLittleEndian(tiff) || IsBigEndian(tiff))
    && var le := IsLittleEndian(tiff);
    && U16(tiff, 2, le) == 42
    && var ifd := U32(tiff, 4, le);
    && ifd + 2 <= |tiff|
    && ifd + 2 + ENTRY_SIZE * U16(tiff, ifd, le) <= |tiff|
  }

  function ResolutionOf(tiff: seq<Byte>): Option<TiffResolution> {
    if !DirectoryFits(tiff) then None
    else
      var le := IsLittleEndian(tiff);
      var ifd := U32(tiff, 4, le);
      Complete(ReadEntries(tiff, ifd + 2, U16(tiff, ifd, le), le))
  }

  /** The guards in `size_t` arithmetic: no sum or product wraps, and every read is in bounds. */
  method ParseTiffResolution(tiff: seq<Byte>) returns (r: Option<TiffResolution>)
    requires |tiff| <= MAX_VECTOR
    ensures r == ResolutionOf(tiff)
  {
    var size := |tiff| as Size;
    if size < 8 {
      return None;
    }
    var le := tiff[0] == 'I' as int && tiff[1] == 'I' as int;
    var be := tiff[0] == 'M' as int && tiff[1] == 'M' as int;
    if !le && !be {
      return None;
    }
    if U16(tiff, 2, le) != 42 {
      return None;
    }
    var ifdOffset := U32(tiff, 4, le) as Size;
    if ifdOffset > size || size - ifdOffset < 2 {
      return None;
    }
    var entryCount := U16(tiff, ifdOffset as int, le);
    var entriesOffset := ifdOffset + 2;
    if entriesOffset > size || (size - entriesOffset) / 12 < entryCount as Size {
      return None;
    }
    var xRes, yRes, unit := ScanEntries(tiff, entriesOffset, entryCount, le);
    if xRes.None? || yRes.None? || unit.None? {
      return None;
    }
    return Some(TiffResolution(xRes.value, yRes.value, unit.value));
  }

  /** The entry loop. */
  method ScanEntries(tiff: seq<Byte>, entriesOffset: Size, entryCount: nat, le: bool)
    returns (xRes: Option<real>, yRes: Option<real>, unit: Option<nat>)
    requires |tiff| <= MAX_VECTOR && entryCount < 0x1_0000
    requires entriesOffset as int + ENTRY_SIZE * entryCount <= |tiff|
    ensures Fields(xRes, yRes, unit) == ReadEntries(tiff, entriesOffset as int, entryCount, le)
  {
    xRes, yRes, unit := None, None, None;
    var i := 0;
    while i < entryCount
      invariant 0 <= i <= entryCount
      invariant Fields(xRes, yRes, unit) == ReadEntries(tiff, entriesOffset as int, i, le)
    {
      var entry := entriesOffset + i as Size * 12;
      var at := entry as int;
      var tag, typ, count := U16(tiff, at, le), U16(tiff, at + 2, le), U32(tiff, at + 4, le);
      var valueOrOffset := U32(tiff, at + 8, le);
      if (tag == X_RESOLUTION || tag == Y_RESOLUTION) && typ == RATIONAL && count == 1 {
        var value := RationalOf(tiff, valueOrOffset as Size, le);
        if tag == X_RESOLUTION {
          xRes := value;
        } else {
          yRes := value;
        }
      } else if tag == RESOLUTION_UNIT && typ == SHORT && count == 1 {
        unit := Some(U16(tiff, at + 8, le));
      }
      i := i + 1;
    }
  }

  method RationalOf(tiff: seq<Byte>, offset: Size, le: bool) returns (r: Option<real>)
    requires |tiff| <= MAX_VECTOR
    ensures r == RationalAt(tiff, offset as int, le)
  {
    var size := |tiff| as Size;
    if offset > size || size - offset < 8 {
      return None;
    }
    var numerator := U32(tiff, offset as int, le);
    var denominator := U32(tiff, (offset + 4) as int, le);
    if denominator == 0 {
      return None;
    }
    return Some(numerator as real / denominator as real);
  }

  // ---------------------------------------------------------------- directories as data

  /** A directory entry: one of the two resolution tags with the offset of its rational, the resolution unit, or any
      other entry. */
  datatype Entry =
    | Resolution(tag: nat, offset: nat)
    | Unit(value: nat)
    | Other(tag: nat, typ: nat, count: nat)
  {
    predicate Valid() {
      match this
      case Resolution(t, o) => (t == X_RESOLUTION || t == Y_RESOLUTION) && o < 0x1_0000_0000
      case Unit(v) => v < 0x1_0000
      case Other(t, ty, c) =>
        && t < 0x1_0000 && ty < 0x1_0000 && c < 0x1_0000_0000
        && !((t == X_RESOLUTION || t == Y_RESOLUTION) && ty == RATIONAL && c == 1)
        && !(t == RESOLUTION_UNIT && ty == SHORT && c == 1)
    }
  }

  /** A rational, and where in the block it stands. */
  datatype Rational = Rational(at: nat, numerator: nat, denominator: nat) {
    predicate Valid() {
      numerator < 0x1_0000_0000 && denominator < 0x1_0000_0000
    }

    function Value(): Option<real> {
      if denominator == 0 then None else Some(numerator as real / denominator as real)
    }
  }

  /** What a TIFF block of `size` bytes says: where its directory stands, its entries, and rationals anywhere in the
      block: before or behind the directory, with anything between them, in any order, even overlapping. */
  datatype Directory = Directory(size: nat, at: nat, entries: seq<Entry>, rationals: seq<Rational>) {
    function EntryAt(i: nat): nat { at + 2 + ENTRY_SIZE * i }

    /** Every resolution entry refers to a rational that is there, or to a place that is not inside the block. */
    predicate Valid() {
      && size >= 8 && at < 0x1_0000_0000 && |entries| < 0x1_0000 && EntryAt(|entries|) <= size
      && (forall i | 0 <= i < |entries| :: entries[i].Valid())
      && (forall i | 0 <= i < |rationals| :: rationals[i].Valid() && rationals[i].at + 8 <= size)
      && (forall i | 0 <= i < |entries| && entries[i].Resolution? ::
          Find(rationals, entries[i].offset).Some? || size < entries[i].offset + 8)
    }

    /** The rational at an offset, with no mention of bytes. */
    function Resolve(offset: nat): Option<real> {
      var i := Find(rationals, offset);
      if i.Some? then rationals[i.value].Value() else None
    }
  }

  /** A rational that stands at this offset. */
  function Find(rationals: seq<Rational>, offset: nat): (i: Option<nat>)
    ensures i.Some? ==> i.value < |rationals| && rationals[i.value].at == offset
    ensures i.None? ==> forall k | 0 <= k < |rationals| :: rationals[k].at != offset
  {
    if rationals == [] then None
    else if Last(rationals).at == offset then Some(|rationals| - 1)
    else Find(ButLast(rationals), offset)
  }

  /** The value the LAST entry with this tag gives; an unusable rational there still shadows earlier ones. */
  function LastRational(d: Directory, entries: seq<Entry>, tag: nat): Option<real> {
    if entries == [] then None
    else if Last(entries).Resolution? && Last(entries).tag == tag then d.Resolve(Last(entries).offset)
    else LastRational(d, ButLast(entries), tag)
  }

  function LastUnit(entries: seq<Entry>): Option<nat> {
    if entries == [] then None
    else if Last(entries).Unit? then Some(Last(entries).value)
    else LastUnit(ButLast(entries))
  }

  /** What a directory means: no byte order, no bytes. */
  function Meaning(d: Directory): Option<TiffResolution> {
    Complete(Fields(LastRational(d, d.entries, X_RESOLUTION), LastRational(d, d.entries, Y_RESOLUTION),
      LastUnit(d.entries)))
  }

  function EntryHead(e: Entry): (nat, nat, nat) {
    match e
    case Resolution(t, _) => (t, RATIONAL, 1)
    case Unit(_) => (RESOLUTION_UNIT, SHORT, 1)
    case Other(t, ty, c) => (t, ty, c)
  }

  function PutHead(tag: nat, typ: nat, count: nat, le: bool): (bytes: seq<Byte>)
    requires tag < 0x1_0000 && typ < 0x1_0000 && count < 0x1_0000_0000
    ensures |bytes| == 8
  {
    PutU16(tag, le) + PutU16(typ, le) + PutU32(count, le)
  }

  /** The bytes of an entry that mean something; what is left of its twelve bytes may be anything. */
  function PutEntry(e: Entry, le: bool): (bytes: seq<Byte>)
    requires e.Valid()
    ensures 8 <= |bytes| <= ENTRY_SIZE
  {
    var (tag, typ, count) := EntryHead(e);
    PutHead(tag, typ, count, le) +
    match e
    case Resolution(_, offset) => PutU32(offset, le)
    case Unit(v) => PutU16(v, le)
    case Other(_, _, _) => []
  }

  function PutRational(r: Rational, le: bool): (bytes: seq<Byte>)
    requires r.Valid()
    ensures |bytes| == 8
  {
    PutU32(r.numerator, le) + PutU32(r.denominator, le)
  }

  function PutMark(le: bool): (bytes: seq<Byte>)
    ensures |bytes| == 2
  {
    if le then ['I' as int, 'I' as int] else ['M' as int, 'M' as int]
  }

  function PutHeader(at: nat, le: bool): (bytes: seq<Byte>)
    requires at < 0x1_0000_0000
    ensures |bytes| == 8
  {
    PutMark(le) + PutU16(42, le) + PutU32(at, le)
  }

  /** Whether a block says what a directory says, in one of the byte orders. Nothing is said of any other byte of the
      block. */
  predicate IsEncoding(bytes: seq<Byte>, d: Directory, le: bool)
    requires d.Valid()
  {
    && |bytes| == d.size
    && Holds(bytes, 0, PutHeader(d.at, le))
    && Holds(bytes, d.at, PutU16(|d.entries|, le))
    && (forall i | 0 <= i < |d.entries| :: Holds(bytes, d.EntryAt(i), PutEntry(d.entries[i], le)))
    && (forall i | 0 <= i < |d.rationals| :: Holds(bytes, d.rationals[i].at, PutRational(d.rationals[i], le)))
  }

  // ---------------------------------------------------------------- the round trip

  lemma ThreeParts(p: seq<Byte>, q: seq<Byte>, r: seq<Byte>)
    ensures var whole := p + q + r;
      Holds(whole, 0, p) && Holds(whole, |p|, q) && Holds(whole, |p| + |q|, r)
  {
    hide Holds;
    assert p + q + r == [] + p + (q + r) == (p + q) + r + [];
    HoldsMiddle([], p, q + r);
    HoldsMiddle(p, q, r);
    HoldsMiddle(p + q, r, []);
  }

  lemma HeaderReadBack(bytes: seq<Byte>, d: Directory, le: bool)
    requires d.Valid() && IsEncoding(bytes, d, le)
    ensures DirectoryFits(bytes) && IsLittleEndian(bytes) == le
    ensures U32(bytes, 4, le) == d.at && U16(bytes, d.at, le) == |d.entries|
  {
    hide U16, U32, PutU16, PutU32;
    var header := PutHeader(d.at, le);
    ThreeParts(PutMark(le), PutU16(42, le), PutU32(d.at, le));
    HoldsInside(bytes, 0, header, 0, PutMark(le));
    HoldsInside(bytes, 0, header, 2, PutU16(42, le));
    HoldsInside(bytes, 0, header, 4, PutU32(d.at, le));
    assert bytes[0] == bytes[0..2][0] && bytes[1] == bytes[0..2][1];
    ReadU16(bytes, 2, 42, le);
    ReadU32(bytes, 4, d.at, le);
    ReadU16(bytes, d.at, |d.entries|, le);
  }

  lemma ReferenceReadBack(bytes: seq<Byte>, d: Directory, offset: nat, le: bool)
    requires d.Valid() && IsEncoding(bytes, d, le)
    requires Find(d.rationals, offset).Some? || d.size < offset + 8
    ensures RationalAt(bytes, offset, le) == d.Resolve(offset)
  {
    hide Holds, PutU16, PutU32, U16, U32, PutEntry, PutHeader;
    var i := Find(d.rationals, offset);
    if i.Some? {
      var q := d.rationals[i.value];
      var num, den := PutU32(q.numerator, le), PutU32(q.denominator, le);
      assert num + den == num + den + [];
      ThreeParts(num, den, []);
      HoldsInside(bytes, offset, PutRational(q, le), 0, num);
      HoldsInside(bytes, offset, PutRational(q, le), 4, den);
      ReadU32(bytes, offset, q.numerator, le);
      ReadU32(bytes, offset + 4, q.denominator, le);
    }
  }

  /** The three leading fields of a printed entry. */
  lemma HeadReadBack(tag: nat, typ: nat, count: nat, bytes: seq<Byte>, at: nat, le: bool)
    requires tag < 0x1_0000 && typ < 0x1_0000 && count < 0x1_0000_0000
    requires Holds(bytes, at, PutHead(tag, typ, count, le))
    ensures at + 8 <= |bytes|
    ensures U16(bytes, at, le) == tag && U16(bytes, at + 2, le) == typ && U32(bytes, at + 4, le) == count
  {
    assert at + 8 <= |bytes|;
    hide Holds, PutU16, PutU32, U16, U32;
    var head := PutHead(tag, typ, count, le);
    ThreeParts(PutU16(tag, le), PutU16(typ, le), PutU32(count, le));
    HoldsInside(bytes, at, head, 0, PutU16(tag, le));
    HoldsInside(bytes, at, head, 2, PutU16(typ, le));
    HoldsInside(bytes, at, head, 4, PutU32(count, le));
    ReadU16(bytes, at, tag, le);
    ReadU16(bytes, at + 2, typ, le);
    ReadU32(bytes, at + 4, count, le);
  }

  lemma FieldsReadBack(e: Entry, bytes: seq<Byte>, at: nat, le: bool)
    requires e.Valid() && at + ENTRY_SIZE <= |bytes| && Holds(bytes, at, PutEntry(e, le))
    ensures (U16(bytes, at, le), U16(bytes, at + 2, le), U32(bytes, at + 4, le)) == EntryHead(e)
    ensures e.Resolution? ==> U32(bytes, at + 8, le) == e.offset
    ensures e.Unit? ==> U16(bytes, at + 8, le) == e.value
  {
    hide Holds, PutU16, PutU32, U16, U32, PutHead;
    var (tag, typ, count) := EntryHead(e);
    var head := PutHead(tag, typ, count, le);
    var entry := PutEntry(e, le);
    var value := entry[8..];
    assert entry == head + value == head + value + [];
    ThreeParts(head, value, []);
    HoldsInside(bytes, at, entry, 0, head);
    HoldsInside(bytes, at, entry, 8, value);
    HeadReadBack(tag, typ, count, bytes, at, le);
    if e.Resolution? {
      assert value == PutU32(e.offset, le);
      ReadU32(bytes, at + 8, e.offset, le);
    } else if e.Unit? {
      assert value == PutU16(e.value, le);
      ReadU16(bytes, at + 8, e.value, le);
    }
  }

  /** An entry printed anywhere is read back as what it is. */
  lemma EntryReadBack(e: Entry, bytes: seq<Byte>, at: nat, le: bool, f: Fields)
    requires e.Valid() && at + ENTRY_SIZE <= |bytes| && Holds(bytes, at, PutEntry(e, le))
    ensures ReadEntry(bytes, at, le, f) ==
      match e
      case Resolution(tag, o) =>
        if tag == X_RESOLUTION then f.(x := RationalAt(bytes, o, le)) else f.(y := RationalAt(bytes, o, le))
      case Unit(v) => f.(unit := Some(v))
      case Other(_, _, _) => f
  {
    hide Holds, PutU16, PutU32, U16, U32, PutHead, PutEntry, RationalAt;
    FieldsReadBack(e, bytes, at, le);
  }

  /** The entry loop over an encoded block finds the last matching entries of the abstract directory. */
  lemma {:induction false} EntriesReadBack(bytes: seq<Byte>, d: Directory, n: nat, le: bool)
    requires d.Valid() && IsEncoding(bytes, d, le) && n <= |d.entries|
    ensures ReadEntries(bytes, d.at + 2, n, le) ==
      Fields(LastRational(d, d.entries[..n], X_RESOLUTION), LastRational(d, d.entries[..n], Y_RESOLUTION),
        LastUnit(d.entries[..n]))
  {
    hide Holds, PutEntry, PutHeader, PutRational, ReadEntry, RationalAt, PutU16, PutU32, PutMark, Complete, Find;
    if n > 0 {
      var e, at := d.entries[n - 1], d.EntryAt(n - 1);
      EntriesReadBack(bytes, d, n - 1, le);
      assert d.entries[..n - 1] == ButLast(d.entries[..n]) && e == Last(d.entries[..n]);
      EntryReadBack(e, bytes, at, le, ReadEntries(bytes, d.at + 2, n - 1, le));
      if e.Resolution? {
        ReferenceReadBack(bytes, d, e.offset, le);
      }
    }
  }

  /** Round trip: every block that says what a directory says, in either byte order, is read as what that directory
      means. */
  lemma ParsesAsMeant(bytes: seq<Byte>, d: Directory, le: bool)
    requires d.Valid() && IsEncoding(bytes, d, le)
    ensures ResolutionOf(bytes) == Meaning(d)
  {
    hide IsEncoding, ReadEntries, Complete, LastRational, LastUnit;
    HeaderReadBack(bytes, d, le);
    EntriesReadBack(bytes, d, |d.entries|, le);
    assert d.entries[..|d.entries|] == d.entries;
  }

  /** Two blocks with the same directory parse to the same resolution: in opposite byte orders, and with any other
      bytes. */
  lemma ByteOrderDoesNotMatter(first: seq<Byte>, second: seq<Byte>, d: Directory)
    requires d.Valid() && IsEncoding(first, d, true) && IsEncoding(second, d, false)
    ensures ResolutionOf(first) == ResolutionOf(second)
  {
    hide *;
    ParsesAsMeant(first, d, true);
    ParsesAsMeant(second, d, false);
  }

  // ---------------------------------------------------------------- every block has a directory

  function DecodeEntry(bytes: seq<Byte>, at: nat, le: bool): (e: Entry)
    requires at + ENTRY_SIZE <= |bytes|
    ensures e.Valid()
  {
    var tag, typ, count := U16(bytes, at, le), U16(bytes, at + 2, le), U32(bytes, at + 4, le);
    if (tag == X_RESOLUTION || tag == Y_RESOLUTION) && typ == RATIONAL && count == 1 then
      Resolution(tag, U32(bytes, at + 8, le))
    else if tag == RESOLUTION_UNIT && typ == SHORT && count == 1 then Unit(U16(bytes, at + 8, le))
    else Other(tag, typ, count)
  }

  /** The rationals that the entries refer to, as far as they are inside the block. */
  function DecodeRationals(bytes: seq<Byte>, entries: seq<Entry>, le: bool): (r: seq<Rational>)
    ensures forall i | 0 <= i < |r| :: r[i].Valid() && r[i].at + 8 <= |bytes|
    ensures forall i | 0 <= i < |r| ::
      r[i].numerator == U32(bytes, r[i].at, le) && r[i].denominator == U32(bytes, r[i].at + 4, le)
    ensures forall i | 0 <= i < |entries| && entries[i].Resolution? ::
      |bytes| < entries[i].offset + 8 || exists k | 0 <= k < |r| :: r[k].at == entries[i].offset
  {
    if entries == [] then []
    else
      var e, before := Last(entries), DecodeRationals(bytes, ButLast(entries), le);
      assert forall i | 0 <= i < |entries| - 1 :: entries[i] == ButLast(entries)[i];
      if e.Resolution? && e.offset + 8 <= |bytes| then
        var r := before + [Rational(e.offset, U32(bytes, e.offset, le), U32(bytes, e.offset + 4, le))];
        assert r[|before|].at == e.offset;
        assert forall k | 0 <= k < |before| :: r[k] == before[k];
        r
      else before
  }

  /** What a block says. */
  function Decode(bytes: seq<Byte>): Directory
    requires DirectoryFits(bytes)
  {
    var le := IsLittleEndian(bytes);
    var at := U32(bytes, 4, le);
    var entries := seq(U16(bytes, at, le),
      i requires 0 <= i < U16(bytes, at, le) => DecodeEntry(bytes, at + 2 + ENTRY_SIZE * i, le));
    Directory(|bytes|, at, entries, DecodeRationals(bytes, entries, le))
  }

  lemma EntryPrintsBack(bytes: seq<Byte>, at: nat, le: bool)
    requires at + ENTRY_SIZE <= |bytes|
    ensures Holds(bytes, at, PutEntry(DecodeEntry(bytes, at, le), le))
  {
    hide U16, U32, PutU16, PutU32;
    PrintU16(bytes, at, le);
    PrintU16(bytes, at + 2, le);
    PrintU32(bytes, at + 4, le);
    PrintU32(bytes, at + 8, le);
    PrintU16(bytes, at + 8, le);
    SplitRange(bytes, at, at + 2, at + 4);
    SplitRange(bytes, at, at + 4, at + 8);
    SplitRange(bytes, at, at + 8, at + 12);
    SplitRange(bytes, at, at + 8, at + 10);
    assert bytes[at..at + 8] + [] == bytes[at..at + 8];
  }

  lemma RationalPrintsBack(bytes: seq<Byte>, r: Rational, le: bool)
    requires r.Valid() && r.at + 8 <= |bytes|
    requires r.numerator == U32(bytes, r.at, le) && r.denominator == U32(bytes, r.at + 4, le)
    ensures Holds(bytes, r.at, PutRational(r, le))
  {
    hide U16, U32, PutU16, PutU32;
    PrintU32(bytes, r.at, le);
    PrintU32(bytes, r.at + 4, le);
    SplitRange(bytes, r.at, r.at + 4, r.at + 8);
  }

  lemma HeaderPrintsBack(bytes: seq<Byte>)
    requires DirectoryFits(bytes)
    ensures Holds(bytes, 0, PutHeader(U32(bytes, 4, IsLittleEndian(bytes)), IsLittleEndian(bytes)))
  {
    hide U16, U32, PutU16, PutU32;
    var le := IsLittleEndian(bytes);
    PrintU16(bytes, 2, le);
    PrintU32(bytes, 4, le);
    assert bytes[0..2] == PutMark(le);
    SplitRange(bytes, 0, 2, 4);
    SplitRange(bytes, 0, 4, 8);
  }

  lemma DecodedIsValid(bytes: seq<Byte>)
    requires DirectoryFits(bytes)
    ensures Decode(bytes).Valid()
  {
    hide U16, U32, PutU16, PutU32, DecodeEntry, DecodeRationals, Find;
    var d := Decode(bytes);
    forall i | 0 <= i < |d.entries| && d.entries[i].Resolution?
      ensures Find(d.rationals, d.entries[i].offset).Some? || d.size < d.entries[i].offset + 8
    {
      assert d.size < d.entries[i].offset + 8 || exists k | 0 <= k < |d.rationals| ::
        d.rationals[k].at == d.entries[i].offset;
    }
  }

  lemma DecodedStands(bytes: seq<Byte>)
    requires DirectoryFits(bytes) && Decode(bytes).Valid()
    ensures IsEncoding(bytes, Decode(bytes), IsLittleEndian(bytes))
  {
    hide U16, U32, PutU16, PutU32, Holds, PutHeader, PutEntry, PutRational, Find, DecodeEntry, DecodeRationals;
    var d, le := Decode(bytes), IsLittleEndian(bytes);
    HeaderPrintsBack(bytes);
    CountPrintsBack(bytes, d.at, le);
    forall i | 0 <= i < |d.entries|
      ensures Holds(bytes, d.EntryAt(i), PutEntry(d.entries[i], le))
    {
      EntryPrintsBack(bytes, d.EntryAt(i), le);
    }
    forall i | 0 <= i < |d.rationals|
      ensures Holds(bytes, d.rationals[i].at, PutRational(d.rationals[i], le))
    {
      RationalPrintsBack(bytes, d.rationals[i], le);
    }
  }

  /** Every block whose directory fits says what `Decode` finds in it, so the round trip above is about every such
      block; any other block has no resolution. */
  lemma EveryBlockIsAnEncoding(bytes: seq<Byte>)
    ensures !DirectoryFits(bytes) ==> ResolutionOf(bytes) == None
    ensures DirectoryFits(bytes) ==>
      && Decode(bytes).Valid() && IsEncoding(bytes, Decode(bytes), IsLittleEndian(bytes))
      && ResolutionOf(bytes) == Meaning(Decode(bytes))
  {
    hide U16, U32, Decode, IsEncoding, Meaning, ReadEntries;
    if DirectoryFits(bytes) {
      DecodedIsValid(bytes);
      DecodedStands(bytes);
      ParsesAsMeant(bytes, Decode(bytes), IsLittleEndian(bytes));
    }
  }

  lemma CountPrintsBack(bytes: seq<Byte>, at: nat, le: bool)
    requires at + 2 <= |bytes|
    ensures Holds(bytes, at, PutU16(U16(bytes, at, le), le))
  {
    PrintU16(bytes, at, le);
  }

  /** Blocks that say the same are read as the same, whatever their byte orders. */
  lemma SameDirectorySameResolution(first: seq<Byte>, second: seq<Byte>)
    requires DirectoryFits(first) && DirectoryFits(second) && Decode(first) == Decode(second)
    ensures ResolutionOf(first) == ResolutionOf(second)
  {
    hide *;
    EveryBlockIsAnEncoding(first);
    EveryBlockIsAnEncoding(second);
  }

  // ---------------------------------------------------------------- printing

  /** Bytes for a place of a block. */
  datatype Piece = Piece(at: nat, bytes: seq<Byte>) {
    function End(): nat { at + |bytes| }
  }

  predicate Apart(p: Piece, q: Piece) {
    p.End() <= q.at || q.End() <= p.at
  }

  predicate AllApart(pieces: seq<Piece>) {
    forall i, j | 0 <= i < j < |pieces| :: Apart(pieces[i], pieces[j])
  }

  predicate AllInside(pieces: seq<Piece>, size: nat) {
    forall i | 0 <= i < |pieces| :: pieces[i].End() <= size
  }

  function Put(bytes: seq<Byte>, p: Piece): (r: seq<Byte>)
    requires p.End() <= |bytes|
    ensures |r| == |bytes|
  {
    bytes[..p.at] + p.bytes + bytes[p.End()..]
  }

  /** A background with pieces written over it. */
  function Overlay(background: seq<Byte>, pieces: seq<Piece>): (bytes: seq<Byte>)
    requires AllInside(pieces, |background|)
    ensures |bytes| == |background|
  {
    if pieces == [] then background
    else
      assert forall i | 0 <= i < |pieces| - 1 :: ButLast(pieces)[i] == pieces[i];
      Put(Overlay(background, ButLast(pieces)), Last(pieces))
  }

  lemma PutStands(bytes: seq<Byte>, p: Piece, q: Piece)
    requires p.End() <= |bytes|
    ensures Holds(Put(bytes, p), p.at, p.bytes)
    ensures Apart(p, q) && Holds(bytes, q.at, q.bytes) ==> Holds(Put(bytes, p), q.at, q.bytes)
  {
    var r := Put(bytes, p);
    if Apart(p, q) && Holds(bytes, q.at, q.bytes) {
      if q.End() <= p.at {
        assert r[q.at..q.End()] == bytes[q.at..q.End()];
      } else {
        assert r[q.at..q.End()] == bytes[q.at..q.End()];
      }
    }
  }

  /** Pieces that do not overlap all stand in the overlay. */
  lemma {:induction false} PiecesStand(background: seq<Byte>, pieces: seq<Piece>, i: nat)
    requires AllInside(pieces, |background|) && AllApart(pieces) && i < |pieces|
    ensures Holds(Overlay(background, pieces), pieces[i].at, pieces[i].bytes)
  {
    hide Holds, Put, Apart;
    var others := ButLast(pieces);
    assert forall k | 0 <= k < |others| :: others[k] == pieces[k];
    PutStands(Overlay(background, others), Last(pieces), pieces[i]);
    if i < |others| {
      PiecesStand(background, others, i);
      ApartIsSymmetric(pieces[i], Last(pieces));
    }
  }

  lemma ApartIsSymmetric(p: Piece, q: Piece)
    ensures Apart(p, q) <==> Apart(q, p)
  {
  }

  function EntryPieces(d: Directory, le: bool): (pieces: seq<Piece>)
    requires d.Valid()
    ensures |pieces| == |d.entries| && AllInside(pieces, d.size)
  {
    seq(|d.entries|, i requires 0 <= i < |d.entries| => Piece(d.EntryAt(i), PutEntry(d.entries[i], le)))
  }

  function RationalPieces(d: Directory, le: bool): (pieces: seq<Piece>)
    requires d.Valid()
    ensures |pieces| == |d.rationals| && AllInside(pieces, d.size)
  {
    seq(|d.rationals|, i requires 0 <= i < |d.rationals| => Piece(d.rationals[i].at, PutRational(d.rationals[i], le)))
  }

  /** Everything a directory has to say, and where. */
  function Pieces(d: Directory, le: bool): (pieces: seq<Piece>)
    requires d.Valid()
    ensures AllInside(pieces, d.size)
  {
    hide PutHeader, PutU16, EntryPieces, RationalPieces;
    [Piece(0, PutHeader(d.at, le)), Piece(d.at, PutU16(|d.entries|, le))] + EntryPieces(d, le) + RationalPieces(d, le)
  }

  lemma WherePiecesAre(d: Directory, le: bool)
    requires d.Valid()
    ensures var pieces := Pieces(d, le);
      && |pieces| == 2 + |d.entries| + |d.rationals|
      && pieces[0] == Piece(0, PutHeader(d.at, le)) && pieces[1] == Piece(d.at, PutU16(|d.entries|, le))
      && (forall i | 0 <= i < |d.entries| :: pieces[2 + i] == Piece(d.EntryAt(i), PutEntry(d.entries[i], le)))
      && forall i | 0 <= i < |d.rationals| ::
          pieces[2 + |d.entries| + i] == Piece(d.rationals[i].at, PutRational(d.rationals[i], le))
  {
    hide PutHeader, PutEntry, PutRational, PutU16, AllInside;
  }

  /** Printing over any background: wherever the rationals stand, when nothing overlaps, the block says what the
      directory says. */
  lemma PrintedIsEncoding(background: seq<Byte>, d: Directory, le: bool)
    requires d.Valid() && |background| == d.size && AllApart(Pieces(d, le))
    ensures IsEncoding(Overlay(background, Pieces(d, le)), d, le)
  {
    hide Holds, Overlay, AllApart, AllInside, Pieces, PutHeader, PutEntry, PutRational, PutU16;
    var pieces := Pieces(d, le);
    WherePiecesAre(d, le);
    forall i | 0 <= i < |pieces|
      ensures Holds(Overlay(background, pieces), pieces[i].at, pieces[i].bytes)
    {
      PiecesStand(background, pieces, i);
    }
    AllPiecesStand(Overlay(background, pieces), d, le);
  }

  lemma AllPiecesStand(bytes: seq<Byte>, d: Directory, le: bool)
    requires d.Valid() && |bytes| == d.size
    requires var pieces := Pieces(d, le); forall i | 0 <= i < |pieces| :: Holds(bytes, pieces[i].at, pieces[i].bytes)
    ensures IsEncoding(bytes, d, le)
  {
    hide Holds, AllInside, Pieces, PutHeader, PutEntry, PutRational, PutU16;
    var pieces := Pieces(d, le);
    WherePiecesAre(d, le);
    forall i | 0 <= i < |d.entries|
      ensures Holds(bytes, d.EntryAt(i), PutEntry(d.entries[i], le))
    {
      assert Holds(bytes, pieces[2 + i].at, pieces[2 + i].bytes);
    }
    forall i | 0 <= i < |d.rationals|
      ensures Holds(bytes, d.rationals[i].at, PutRational(d.rationals[i], le))
    {
      assert Holds(bytes, pieces[2 + |d.entries| + i].at, pieces[2 + |d.entries| + i].bytes);
    }
  }

  // ---------------------------------------------------------------- prefixes

  /** The rational found through a prefix is the one found through the whole. */
  predicate Extends(short: Fields, whole: Fields) {
    (short.x.Some? ==> whole.x == short.x) && (short.y.Some? ==> whole.y == short.y) && whole.unit == short.unit
  }

  lemma ReadsInPrefix(b: seq<Byte>, more: seq<Byte>, at: nat, le: bool)
    ensures at + 2 <= |b| ==> U16(b + more, at, le) == U16(b, at, le)
    ensures at + 4 <= |b| ==> U32(b + more, at, le) == U32(b, at, le)
  {
  }

  lemma EntryInPrefix(tiff: seq<Byte>, more: seq<Byte>, at: nat, le: bool, short: Fields, whole: Fields)
    requires at + ENTRY_SIZE <= |tiff| && Extends(short, whole)
    ensures Extends(ReadEntry(tiff, at, le, short), ReadEntry(tiff + more, at, le, whole))
  {
    ReadsInPrefix(tiff, more, at, le);
    ReadsInPrefix(tiff, more, at + 2, le);
    ReadsInPrefix(tiff, more, at + 4, le);
    ReadsInPrefix(tiff, more, at + 8, le);
    var offset := U32(tiff, at + 8, le);
    ReadsInPrefix(tiff, more, offset, le);
    ReadsInPrefix(tiff, more, offset + 4, le);
    hide U16, U32;
  }

  lemma {:induction false} EntriesInPrefix(tiff: seq<Byte>, more: seq<Byte>, base: nat, n: nat, le: bool)
    requires base + ENTRY_SIZE * n <= |tiff|
    ensures Extends(ReadEntries(tiff, base, n, le), ReadEntries(tiff + more, base, n, le))
  {
    hide ReadEntry;
    if n == 0 {
    } else {
      EntriesInPrefix(tiff, more, base, n - 1, le);
      EntryInPrefix(tiff, more, base + ENTRY_SIZE * (n - 1), le, ReadEntries(tiff, base, n - 1, le),
        ReadEntries(tiff + more, base, n - 1, le));
    }
  }

  /** A resolution found in a prefix of a block is the resolution of the block. */
  lemma PrefixIsExact(tiff: seq<Byte>, more: seq<Byte>)
    requires ResolutionOf(tiff).Some?
    ensures ResolutionOf(tiff + more) == ResolutionOf(tiff)
  {
    hide ReadEntries;
    var whole := tiff + more;
    var le := IsLittleEndian(tiff);
    var ifd := U32(tiff, 4, le);
    ReadsInPrefix(tiff, more, 2, le);
    ReadsInPrefix(tiff, more, 4, le);
    ReadsInPrefix(tiff, more, ifd, le);
    EntriesInPrefix(tiff, more, ifd + 2, U16(tiff, ifd, le), le);
  }
}
