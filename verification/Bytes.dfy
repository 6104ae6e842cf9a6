/** Fixed-width integers in byte buffers, in both byte orders. */
module Bytes {
  import opened Common

  /** Reads are only defined inside the buffer: every caller has to show that. */
  function U16(b: seq<Byte>, at: nat, le: bool): (v: nat)
    requires at + 2 <= |b|
    ensures v < 0x1_0000
  {
    var first: int, second: int := b[at], b[at + 1];
    if le then first + 0x100 * second else 0x100 * first + second
  }

  function U32(b: seq<Byte>, at: nat, le: bool): (v: nat)
    requires at + 4 <= |b|
    ensures v < 0x1_0000_0000
  {
    if le then U16(b, at, true) + 0x1_0000 * U16(b, at + 2, true)
    else 0x1_0000 * U16(b, at, false) + U16(b, at + 2, false)
  }

  function PutU16(v: nat, le: bool): (b: seq<Byte>)
    requires v < 0x1_0000
    ensures |b| == 2 && U16(b, 0, le) == v
  {
    if le then [v % 0x100, v / 0x100] else [v / 0x100, v % 0x100]
  }

  function PutU32(v: nat, le: bool): (b: seq<Byte>)
    requires v < 0x1_0000_0000
    ensures |b| == 4 && U32(b, 0, le) == v
  {
    if le then PutU16(v % 0x1_0000, true) + PutU16(v / 0x1_0000, true)
    else PutU16(v / 0x1_0000, false) + PutU16(v % 0x1_0000, false)
  }

  /** Whether `part` stands at offset `at` of `b` (`std::memcmp` with a bound). */
  predicate Holds(b: seq<Byte>, at: nat, part: seq<Byte>) {
    at + |part| <= |b| && b[at..at + |part|] == part
  }

  /** A field printed anywhere in a buffer is read back from its place. */
  lemma ReadU16(b: seq<Byte>, at: nat, v: nat, le: bool)
    requires v < 0x1_0000 && Holds(b, at, PutU16(v, le))
    ensures U16(b, at, le) == v
  {
    assert b[at] == b[at..at + 2][0] && b[at + 1] == b[at..at + 2][1];
  }

  lemma ReadU32(b: seq<Byte>, at: nat, v: nat, le: bool)
    requires v < 0x1_0000_0000 && Holds(b, at, PutU32(v, le))
    ensures U32(b, at, le) == v
  {
    var f := b[at..at + 4];
    assert f[0] == b[at] && f[1] == b[at + 1] && f[2] == b[at + 2] && f[3] == b[at + 3];
  }

  /** What stands in a part stands in the whole. */
  lemma HoldsInside(b: seq<Byte>, at: nat, part: seq<Byte>, off: nat, inner: seq<Byte>)
    requires Holds(b, at, part) && Holds(part, off, inner)
    ensures Holds(b, at + off, inner)
  {
    var found := b[at + off..at + off + |inner|];
    forall i | 0 <= i < |inner|
      ensures found[i] == inner[i]
    {
      assert part[off..off + |inner|][i] == part[off + i] == b[at..at + |part|][off + i];
    }
  }

  /** A field read anywhere in a buffer is printed as the bytes it was read from. */
  lemma PrintU16(b: seq<Byte>, at: nat, le: bool)
    requires at + 2 <= |b|
    ensures PutU16(U16(b, at, le), le) == b[at..at + 2]
  {
  }

  lemma PrintHalves(first: nat, second: nat)
    requires first < 0x1_0000 && second < 0x1_0000
    ensures PutU32(first + 0x1_0000 * second, true) == PutU16(first, true) + PutU16(second, true)
    ensures PutU32(0x1_0000 * first + second, false) == PutU16(first, false) + PutU16(second, false)
  {
    hide PutU16;
    var low, high := first + 0x1_0000 * second, 0x1_0000 * first + second;
    assert low % 0x1_0000 == first && low / 0x1_0000 == second;
    assert high / 0x1_0000 == first && high % 0x1_0000 == second;
  }

  lemma PrintU32(b: seq<Byte>, at: nat, le: bool)
    requires at + 4 <= |b|
    ensures PutU32(U32(b, at, le), le) == b[at..at + 4]
  {
    PrintU16(b, at, le);
    PrintU16(b, at + 2, le);
    hide PutU16, U16, PutU32;
    PrintHalves(U16(b, at, le), U16(b, at + 2, le));
    assert b[at..at + 4] == b[at..at + 2] + b[at + 2..at + 4];
  }

  lemma HoldsMiddle(pre: seq<Byte>, part: seq<Byte>, post: seq<Byte>)
    ensures Holds(pre + part + post, |pre|, part)
  {
  }
}
