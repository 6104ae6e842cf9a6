/** `ParseMultiSz` of `src/common/RegistryAudit.cpp`: reading REG_MULTI_SZ data. */
module MultiSz {
  import opened Common

  /** A UTF-16 code unit (`wchar_t`). */
  type Unit = n: nat | n < 0x1_0000

  predicate NulFree(s: seq<Unit>) {
    forall i | 0 <= i < |s| :: s[i] != 0
  }

  function UnitAt(bytes: seq<Byte>, i: nat): Unit
    requires 2 * i + 1 < |bytes|
  {
    var low: int, high: int := bytes[2 * i], bytes[2 * i + 1];
    low + 0x100 * high
  }

  /** The code units of a buffer; a trailing odd byte is not looked at. */
  function Units(bytes: seq<Byte>): (u: seq<Unit>)
    ensures |u| == |bytes| / 2
  {
    seq(|bytes| / 2, i requires 0 <= i < |bytes| / 2 => UnitAt(bytes, i))
  }

  function FirstNul(u: seq<Unit>, from: nat): (p: nat)
    requires from <= |u|
    ensures from <= p <= |u| && (p < |u| ==> u[p] == 0) && NulFree(u[from..p])
    decreases |u| - from
  {
    if from == |u| || u[from] == 0 then from
    else
      var p := FirstNul(u, from + 1);
      assert u[from..p] == [u[from]] + u[from + 1..p];
      p
  }

  /** The strings read from position `start` on: up to an empty string, or to one that is not terminated. */
  function StringsFrom(u: seq<Unit>, start: nat): seq<seq<Unit>>
    requires start <= |u|
    decreases |u| - start
  {
    var p := FirstNul(u, start);
    if p == |u| || p == start then [] else [u[start..p]] + StringsFrom(u, p + 1)
  }

  function Strings(bytes: seq<Byte>): seq<seq<Unit>> {
    StringsFrom(Units(bytes), 0)
  }

  method ParseMultiSz(bytes: seq<Byte>) returns (result: seq<seq<Unit>>)
    ensures result == Strings(bytes)
  {
    hide Units, NulFree;
    result := [];
    var chars := Units(bytes);
    var start, i := 0, 0;
    while i < |chars|
      invariant 0 <= start <= i <= |chars|
      invariant FirstNul(chars, start) == FirstNul(chars, i)
      invariant result + StringsFrom(chars, start) == StringsFrom(chars, 0)
    {
      if chars[i] == 0 {
        if i == start {
          break;
        }
        Assoc(result, [chars[start..i]], StringsFrom(chars, i + 1));
        result := result + [chars[start..i]];
        start := i + 1;
      }
      i := i + 1;
    }
    assert result + [] == result;
  }

  // ---------------------------------------------------------------- the encoding

  /** Every string followed by a NUL. */
  function Terminated(strings: seq<seq<Unit>>): seq<Unit> {
    if strings == [] then [] else strings[0] + [0] + Terminated(strings[1..])
  }

  /** The strings of a list, and one more NUL. */
  function Encoded(strings: seq<seq<Unit>>): seq<Unit> {
    Terminated(strings) + [0]
  }

  function ToBytes(u: seq<Unit>): (b: seq<Byte>)
    ensures |b| == 2 * |u|
  {
    seq(2 * |u|, i requires 0 <= i < 2 * |u| => if i % 2 == 0 then u[i / 2] % 0x100 else u[i / 2] / 0x100)
  }

  lemma UnitsOfBytes(u: seq<Unit>)
    ensures Units(ToBytes(u)) == u
  {
    var b := ToBytes(u);
    forall i | 0 <= i < |u|
      ensures UnitAt(b, i) == u[i]
    {
      assert b[2 * i] == u[i] % 0x100 && b[2 * i + 1] == u[i] / 0x100;
    }
  }

  lemma {:induction false} FirstNulIs(u: seq<Unit>, from: nat, p: nat)
    requires from <= p < |u| && u[p] == 0 && NulFree(u[from..p])
    ensures FirstNul(u, from) == p
    decreases p - from
  {
    if from < p {
      assert u[from] == u[from..p][0];
      assert u[from + 1..p] == u[from..p][1..];
      FirstNulIs(u, from + 1, p);
    }
  }

  /** A non-empty NUL-free string with its NUL is the next string read. */
  lemma NextString(u: seq<Unit>, start: nat, s: seq<Unit>)
    requires s != [] && NulFree(s) && start + |s| < |u| && u[start..start + |s|] == s && u[start + |s|] == 0
    ensures StringsFrom(u, start) == [s] + StringsFrom(u, start + |s| + 1)
  {
    FirstNulIs(u, start, start + |s|);
  }

  /** Whatever precedes, the strings of a terminated list are read, and reading goes on behind them. */
  lemma {:induction false} TerminatedReadBack(u: seq<Unit>, start: nat, strings: seq<seq<Unit>>)
    requires forall i | 0 <= i < |strings| :: strings[i] != [] && NulFree(strings[i])
    requires start + |Terminated(strings)| <= |u| && u[start..start + |Terminated(strings)|] == Terminated(strings)
    ensures StringsFrom(u, start) == strings + StringsFrom(u, start + |Terminated(strings)|)
    decreases |strings|
  {
    hide StringsFrom, NulFree;
    if strings != [] {
      var s, others := strings[0], strings[1..];
      var t := u[start..start + |Terminated(strings)|];
      assert t == s + [0] + Terminated(others);
      var next := start + |s| + 1;
      assert t[..|s|] == s && t[|s|] == 0 && t[|s| + 1..] == Terminated(others);
      assert t[..|s|] == u[start..start + |s|];
      assert t[|s| + 1..] == u[next..next + |Terminated(others)|];
      NextString(u, start, s);
      TerminatedReadBack(u, next, others);
      Assoc([s], others, StringsFrom(u, next + |Terminated(others)|));
      assert [s] + others == strings;
    } else {
      assert strings + StringsFrom(u, start) == StringsFrom(u, start);
    }
  }

  /** Reading inverts the double-NUL encoding of every list of non-empty NUL-free strings. */
  lemma ReadsWhatWasEncoded(strings: seq<seq<Unit>>)
    requires forall i | 0 <= i < |strings| :: strings[i] != [] && NulFree(strings[i])
    ensures Strings(ToBytes(Encoded(strings))) == strings
  {
    var u := Encoded(strings);
    UnitsOfBytes(u);
    assert u[0..|u| - 1] == Terminated(strings);
    TerminatedReadBack(u, 0, strings);
    FirstNulIs(u, |u| - 1, |u| - 1);
    assert strings + [] == strings;
  }

  /** What is read from any data: non-empty NUL-free strings that stand terminated at its start, up to a point where
      there is an empty string, or no further NUL. */
  lemma {:induction false} EveryInputIsRead(u: seq<Unit>, start: nat)
    requires start <= |u|
    ensures forall s | s in StringsFrom(u, start) :: s != [] && NulFree(s)
    ensures var stop := start + |Terminated(StringsFrom(u, start))|;
      stop <= |u| && u[start..stop] == Terminated(StringsFrom(u, start)) && (NulFree(u[stop..]) || u[stop] == 0)
    decreases |u| - start
  {
    hide NulFree, Terminated, StringsFrom;
    var p := FirstNul(u, start);
    StringsStep(u, start);
    if p != |u| && p != start {
      EveryInputIsRead(u, p + 1);
      var s, rest := u[start..p], StringsFrom(u, p + 1);
      TerminatedStep(s, rest);
      var stop := p + 1 + |Terminated(rest)|;
      SplitRange(u, start, p, stop);
      SplitRange(u, p, p + 1, stop);
      assert u[p..p + 1] == [0];
      Assoc(s, [0], Terminated(rest));
    }
  }

  lemma StringsStep(u: seq<Unit>, start: nat)
    requires start <= |u|
    ensures var p := FirstNul(u, start);
      if p == |u| || p == start then
        StringsFrom(u, start) == [] && Terminated([]) == [] && u[start..start] == [] &&
          (NulFree(u[start..]) || u[start] == 0)
      else StringsFrom(u, start) == [u[start..p]] + StringsFrom(u, p + 1)
  {
  }

  lemma TerminatedStep(s: seq<Unit>, rest: seq<seq<Unit>>)
    ensures Terminated([s] + rest) == s + [0] + Terminated(rest)
  {
    assert ([s] + rest)[1..] == rest;
  }

  /** Two strings as they stand in the registry, least significant byte first: "A" and "B" with a high byte, then the
      end. */
  lemma TwoStrings()
    ensures Strings([0x41, 0, 0, 0, 0x42, 0x01, 0x43, 0, 0, 0, 0, 0, 0x44]) == [[0x41], [0x142, 0x43]]
  {
    hide Units, FirstNul;
    TheirUnits();
    var u: seq<Unit> := [0x41, 0, 0x142, 0x43, 0, 0];
    NextString(u, 0, [0x41]);
    NextString(u, 2, [0x142, 0x43]);
    FirstNulIs(u, 5, 5);
  }

  lemma TheirUnits()
    ensures Units([0x41, 0, 0, 0, 0x42, 0x01, 0x43, 0, 0, 0, 0, 0, 0x44]) == [0x41, 0, 0x142, 0x43, 0, 0]
  {
  }
}
