/** Rounding, formatting and trimming of `src/imaging/PhysicalSize.cpp`, over the reals. */
module NumberFormat {
  import opened Common
  import opened Decimal

  const MAX_ROUND_PLACES: nat := 12
  const MAX_FORMAT_PLACES: nat := 6

  // ---------------------------------------------------------------- rounding

  /** `std::round`: to the nearest integer, halves away from zero. */
  function Round(x: real): int {
    if x >= 0.0 then (x + 0.5).Floor else -(-x + 0.5).Floor
  }

  function Min(a: nat, b: nat): nat {
    if a < b then a else b
  }

  function Scale(places: nat): (f: real)
    ensures f >= 1.0
  {
    Pow10(places) as real
  }

  /** The value in units of its last decimal place, rounded. */
  function Units(v: real, places: nat): int {
    Round(v * Scale(places))
  }

  function FromUnits(n: int, places: nat): real {
    n as real / Scale(places)
  }

  function RoundToDecimalPlaces(v: real, places: nat): real {
    FromUnits(Units(v, Min(places, MAX_ROUND_PLACES)), Min(places, MAX_ROUND_PLACES))
  }

  lemma RoundIsNearest(x: real)
    ensures -0.5 <= Round(x) as real - x <= 0.5
    ensures x == x.Floor as real ==> Round(x) == x.Floor
    ensures x >= 0.0 ==> Round(x) >= 0
  {
  }

  lemma RoundIsMonotone(x: real, y: real)
    requires x <= y
    ensures Round(x) <= Round(y)
  {
  }

  lemma UnitsOfUnits(n: int, places: nat)
    ensures FromUnits(n, places) * Scale(places) == n as real
    ensures Units(FromUnits(n, places), places) == n
  {
    var f := Scale(places);
    hide Scale;
    assert n as real / f * f == n as real;
    RoundIsNearest(n as real);
  }

  lemma RoundingIsIdempotent(v: real, places: nat)
    ensures RoundToDecimalPlaces(RoundToDecimalPlaces(v, places), places) == RoundToDecimalPlaces(v, places)
  {
    hide Units, FromUnits;
    UnitsOfUnits(Units(v, Min(places, MAX_ROUND_PLACES)), Min(places, MAX_ROUND_PLACES));
  }

  /** Within half of the smallest unit. */
  lemma RoundingIsClose(v: real, places: nat)
    ensures -0.5 <= (RoundToDecimalPlaces(v, places) - v) * Scale(Min(places, 12)) <= 0.5
  {
    hide Units, FromUnits, Scale;
    RoundingIsCloseAt(v, Min(places, MAX_ROUND_PLACES));
  }

  lemma RoundingIsCloseAt(v: real, p: nat)
    ensures -0.5 <= (FromUnits(Units(v, p), p) - v) * Scale(p) <= 0.5
  {
    hide *;
    UnitsOfUnits(Units(v, p), p);
    UnitsAreNearest(v, p);
    CloseInUnits(FromUnits(Units(v, p), p), v, Scale(p), Units(v, p));
  }

  lemma UnitsAreNearest(v: real, places: nat)
    ensures -0.5 <= Units(v, places) as real - v * Scale(places) <= 0.5
  {
    hide Scale;
    RoundIsNearest(v * Scale(places));
  }

  lemma CloseInUnits(r: real, v: real, f: real, n: int)
    requires r * f == n as real && -0.5 <= n as real - v * f <= 0.5
    ensures -0.5 <= (r - v) * f <= 0.5
  {
    assert (r - v) * f == r * f - v * f;
  }

  /** Halves go away from zero, in whole units and in units of any place. */
  lemma HalvesGoAwayFromZero(n: nat)
    ensures Round(n as real + 0.5) == n + 1 && Round(-(n as real + 0.5)) == -(n + 1)
  {
  }

  lemma HalfUnitsGoAwayFromZero(n: nat, places: nat)
    requires places <= 12
    ensures var half := (n as real + 0.5) / Scale(places);
      && RoundToDecimalPlaces(half, places) == FromUnits(n + 1, places)
      && RoundToDecimalPlaces(-half, places) == FromUnits(-(n + 1), places)
  {
    hide Scale, Round, FromUnits, Units;
    HalfTimesScale(n, Scale(places));
    HalfIsRounded((n as real + 0.5) / Scale(places), n, places);
    assert Min(places, MAX_ROUND_PLACES) == places;
  }

  lemma HalfIsRounded(half: real, n: nat, places: nat)
    requires half * Scale(places) == n as real + 0.5 && -half * Scale(places) == -(n as real + 0.5)
    ensures Units(half, places) == n + 1 && Units(-half, places) == -(n + 1)
  {
    hide Scale, Round;
    HalvesGoAwayFromZero(n);
  }

  lemma HalfTimesScale(n: nat, f: real)
    requires f >= 1.0
    ensures (n as real + 0.5) / f * f == n as real + 0.5
    ensures -((n as real + 0.5) / f) * f == -(n as real + 0.5)
  {
    var q := (n as real + 0.5) / f;
    assert q * f == n as real + 0.5;
    assert -q * f == -(q * f);
  }

  lemma RoundingIsMonotone(v: real, w: real, places: nat)
    requires v <= w
    ensures RoundToDecimalPlaces(v, places) <= RoundToDecimalPlaces(w, places)
  {
    hide Units, FromUnits;
    var p := Min(places, MAX_ROUND_PLACES);
    UnitsAreMonotone(v, w, p);
    FromUnitsIsMonotone(Units(v, p), Units(w, p), p);
  }

  lemma UnitsAreMonotone(v: real, w: real, places: nat)
    requires v <= w
    ensures Units(v, places) <= Units(w, places)
  {
    var f := Scale(places);
    TimesIsMonotone(v, w, f);
    RoundIsMonotone(v * f, w * f);
  }

  lemma TimesIsMonotone(a: real, b: real, factor: real)
    requires a <= b && factor > 0.0
    ensures a * factor <= b * factor
  {
    assert (b - a) * factor >= 0.0;
  }

  lemma FromUnitsIsMonotone(m: int, n: int, places: nat)
    requires m <= n
    ensures FromUnits(m, places) <= FromUnits(n, places)
  {
    var f := Scale(places);
    hide Scale;
    var x, y := m as real / f, n as real / f;
    assert x * f == m as real && y * f == n as real;
    assert (y - x) * f >= 0.0;
  }

  // ---------------------------------------------------------------- trimming

  predicate HoldsAt(s: string, i: nat, sep: string) {
    i + |sep| <= |s| && s[i..i + |sep|] == sep
  }

  predicate Contains(s: string, sep: string) {
    exists i | 0 <= i <= |s| :: HoldsAt(s, i, sep)
  }

  function DropZeros(s: string): (r: string)
    ensures r <= s
    ensures r != "" ==> Last(r) != '0'
  {
    if s != "" && Last(s) == '0' then DropZeros(ButLast(s)) else s
  }

  function DropSeparator(s: string, sep: string): string {
    if |s| >= |sep| && HoldsAt(s, |s| - |sep|, sep) then s[..|s| - |sep|] else s
  }

  function Trimmed(s: string, sep: string): string {
    if sep == "" || !Contains(s, sep) then s else DropSeparator(DropZeros(s), sep)
  }

  method TrimFormattedNumber(s: string, sep: string) returns (r: string)
    ensures r == Trimmed(s, sep)
  {
    if sep == "" {
      return s;
    }
    var found := false;
    for i := 0 to |s| + 1
      invariant found <==> exists k | 0 <= k < i :: HoldsAt(s, k, sep)
    {
      if i + |sep| <= |s| && s[i..i + |sep|] == sep {
        assert HoldsAt(s, i, sep);
        found := true;
      }
    }
    if !found {
      return s;
    }
    r := s;
    while r != "" && r[|r| - 1] == '0'
      invariant DropZeros(r) == DropZeros(s)
      decreases |r|
    {
      r := r[..|r| - 1];
    }
    if |r| >= |sep| && r[|r| - |sep|..] == sep {
      assert r[|r| - |sep|..] == r[|r| - |sep|..|r| - |sep| + |sep|];
      r := r[..|r| - |sep|];
    }
  }

  // ---------------------------------------------------------------- formatting

  /** A separator that cannot be mistaken for a part of a number. */
  predicate IsSeparator(sep: string) {
    sep != "" && forall i | 0 <= i < |sep| :: !IsDigit(sep[i])
  }

  /** `%.*f` of a value that is `n` units of the last place, with the locale's separator and no grouping. */
  function FixedText(n: nat, places: nat, sep: string): string {
    if places == 0 then NumberText(n) else NumberText(Without(n, places)) + sep + Padded(n, places)
  }

  function FormatCentimeters(v: real, maxPlaces: nat, trim: bool, sep: string): string
    requires v >= 0.0
  {
    var places := Min(maxPlaces, MAX_FORMAT_PLACES);
    PrintedUnits(v, places);
    var text := FixedText(Units(RoundToDecimalPlaces(v, places), places), places, sep);
    if trim then Trimmed(text, sep) else text
  }

  /** The printed digits are those of the rounded value. */
  lemma PrintedUnits(v: real, places: nat)
    requires v >= 0.0 && places <= MAX_FORMAT_PLACES
    ensures Units(RoundToDecimalPlaces(v, places), places) == Units(v, places) >= 0
    ensures RoundToDecimalPlaces(v, places) == FromUnits(Units(v, places), places)
  {
    UnitsOfUnits(Units(v, places), places);
    UnitsAreMonotone(0.0, v, places);
    RoundIsNearest(0.0);
  }

  function FormatPhysicalSizeCm(width: real, height: real, maxPlaces: nat, trim: bool, sep: string): string
    requires width >= 0.0 && height >= 0.0
  {
    FormatCentimeters(width, maxPlaces, trim, sep) + " x " + FormatCentimeters(height, maxPlaces, trim, sep) + " cm"
  }

  // ---------------------------------------------------------------- reading a number back

  /** The first place where the separator stands. */
  function Find(s: string, sep: string, from: nat): (p: Option<nat>)
    requires from <= |s|
    ensures p.Some? ==> from <= p.value <= |s| && HoldsAt(s, p.value, sep)
    ensures p.None? ==> forall k | from <= k <= |s| :: !HoldsAt(s, k, sep)
    ensures p.Some? ==> forall k | from <= k < p.value :: !HoldsAt(s, k, sep)
    decreases |s| - from
  {
    if HoldsAt(s, from, sep) then Some(from)
    else if from == |s| then None
    else Find(s, sep, from + 1)
  }

  function Fraction(digits: string): real
    requires AllDigits(digits)
  {
    ParseNat(digits) as real / Scale(|digits|)
  }

  /** A reader of decimal numbers that knows nothing of rounding or trimming. */
  function ParseNumber(s: string, sep: string): Option<real> {
    var p := Find(s, sep, 0);
    if p.None? then (if s != "" && AllDigits(s) then Some(ParseNat(s) as real) else None)
    else
      var whole, fraction := s[..p.value], s[p.value + |sep|..];
      if whole != "" && fraction != "" && AllDigits(whole) && AllDigits(fraction) then
        Some(ParseNat(whole) as real + Fraction(fraction))
      else None
  }

  lemma DigitIsNoSeparator(s: string, k: nat, sep: string)
    requires k < |s| && IsDigit(s[k]) && IsSeparator(sep)
    ensures !HoldsAt(s, k, sep)
  {
    if k + |sep| <= |s| {
      assert s[k..k + |sep|][0] == s[k];
    }
  }

  lemma SeparatorPlace(whole: string, sep: string, fraction: string)
    requires IsSeparator(sep) && AllDigits(whole)
    ensures Find(whole + sep + fraction, sep, 0) == Some(|whole|)
  {
    var s := whole + sep + fraction;
    assert HoldsAt(s, |whole|, sep);
    forall k | 0 <= k < |whole|
      ensures !HoldsAt(s, k, sep)
    {
      assert s[k] == whole[k] && IsDigit(whole[k]);
      DigitIsNoSeparator(s, k, sep);
    }
  }

  lemma NoSeparator(whole: string, sep: string)
    requires IsSeparator(sep) && AllDigits(whole)
    ensures Find(whole, sep, 0) == None && !Contains(whole, sep)
  {
    forall k | 0 <= k <= |whole|
      ensures !HoldsAt(whole, k, sep)
    {
      if k < |whole| {
        DigitIsNoSeparator(whole, k, sep);
      }
    }
  }

  lemma {:induction false} ZerosAddNothing(digits: string)
    requires AllDigits(digits)
    ensures AllDigits(DropZeros(digits)) && Fraction(DropZeros(digits)) == Fraction(digits)
  {
    if digits != "" && Last(digits) == '0' {
      var short := ButLast(digits);
      ZerosAddNothing(short);
      assert ParseNat(digits) == 10 * ParseNat(short);
      assert Scale(|digits|) == 10.0 * Scale(|short|);
      TenCancels(ParseNat(short) as real, Scale(|short|));
    }
  }

  lemma TenCancels(a: real, f: real)
    requires f > 0.0
    ensures 10.0 * a / (10.0 * f) == a / f
  {
    var x := a / f;
    assert x * f == a;
    assert x * (10.0 * f) == 10.0 * a;
  }

  lemma {:induction false} ZerosAtTheEnd(front: string, digits: string)
    requires front != "" && Last(front) != '0'
    ensures DropZeros(front + digits) == front + DropZeros(digits)
  {
    if digits == "" {
      assert front + digits == front;
    } else if Last(digits) == '0' {
      assert ButLast(front + digits) == front + ButLast(digits);
      ZerosAtTheEnd(front, ButLast(digits));
    }
  }

  lemma EndsInDigit(t: string, sep: string)
    requires t != "" && IsDigit(Last(t)) && IsSeparator(sep)
    ensures DropSeparator(t, sep) == t
  {
    if |t| >= |sep| {
      assert t[|t| - |sep|..|t| - |sep| + |sep|][|sep| - 1] == Last(t);
    }
  }

  /** Trimming a number with a fraction drops the zeros of the fraction, and the separator when nothing else is left of
      it. It never reaches the whole part. */
  lemma TrimShape(whole: string, sep: string, fraction: string)
    requires IsSeparator(sep) && AllDigits(whole) && AllDigits(fraction)
    ensures Trimmed(whole + sep + fraction, sep) ==
      if DropZeros(fraction) == "" then whole else whole + sep + DropZeros(fraction)
  {
    var s, kept := whole + sep + fraction, DropZeros(fraction);
    assert HoldsAt(s, |whole|, sep);
    assert !IsDigit(Last(whole + sep)) by {
      assert Last(whole + sep) == sep[|sep| - 1];
    }
    ZerosAtTheEnd(whole + sep, fraction);
    ZerosAddNothing(fraction);
    if kept == "" {
      assert whole + sep + kept == whole + sep;
      assert HoldsAt(whole + sep, |whole|, sep);
    } else {
      var t := whole + sep + kept;
      assert Last(t) == Last(kept) && IsDigit(Last(kept));
      EndsInDigit(t, sep);
    }
  }

  lemma FixedParts(n: nat, places: nat)
    ensures ParseNat(NumberText(Without(n, places))) as real + Fraction(Padded(n, places)) == FromUnits(n, places)
  {
    ParseNumberText(Without(n, places));
    SplitDigits(n, places);
    WholeAndRest(n, Pow10(places), Without(n, places), ParseNat(Padded(n, places)));
  }

  lemma WholeAndRest(n: nat, p: nat, q: nat, r: nat)
    requires p > 0 && n == q * p + r
    ensures q as real + r as real / p as real == n as real / p as real
  {
    var f := p as real;
    assert (q * p) as real == q as real * f;
    var x, y := r as real / f, n as real / f;
    assert x * f == r as real && y * f == n as real;
    assert (q as real + x) * f == q as real * f + x * f == y * f;
    assert (q as real + x - y) * f == 0.0;
  }

  /** Parsing a formatted length gives the rounded value exactly, trimmed or not. */
  lemma FormatThenParse(v: real, maxPlaces: nat, trim: bool, sep: string)
    requires v >= 0.0 && IsSeparator(sep)
    ensures ParseNumber(FormatCentimeters(v, maxPlaces, trim, sep), sep) ==
      Some(RoundToDecimalPlaces(v, Min(maxPlaces, MAX_FORMAT_PLACES)))
  {
    hide Trimmed, ParseNumber, FixedText, FromUnits, Units, RoundToDecimalPlaces;
    var places := Min(maxPlaces, MAX_FORMAT_PLACES);
    PrintedUnits(v, places);
    FixedTextParses(Units(v, places), places, trim, sep);
  }

  /** Without trimming, a length has a whole part and exactly the places asked for, at most six. Trimming starts from
      that text. */
  lemma UntrimmedHasAllPlaces(v: real, maxPlaces: nat, sep: string)
    requires v >= 0.0
    ensures exists whole, fraction ::
      && FormatCentimeters(v, maxPlaces, false, sep) == (if maxPlaces == 0 then whole else whole + sep + fraction)
      && whole != "" && AllDigits(whole) && AllDigits(fraction) && |fraction| == if maxPlaces > 6 then 6 else maxPlaces
    ensures FormatCentimeters(v, maxPlaces, true, sep) == Trimmed(FormatCentimeters(v, maxPlaces, false, sep), sep)
  {
    var k := Min(maxPlaces, MAX_FORMAT_PLACES);
    PrintedUnits(v, k);
    var n := Units(RoundToDecimalPlaces(v, k), k);
    var whole, fraction := NumberText(Without(n, k)), Padded(n, k);
    hide Units, RoundToDecimalPlaces, NumberText, Padded, Trimmed;
    assert FormatCentimeters(v, maxPlaces, false, sep) == if maxPlaces == 0 then whole else whole + sep + fraction;
  }

  lemma FixedTextParses(n: nat, places: nat, trim: bool, sep: string)
    requires IsSeparator(sep)
    ensures var text := FixedText(n, places, sep);
      ParseNumber(if trim then Trimmed(text, sep) else text, sep) == Some(FromUnits(n, places))
  {
    hide IsSeparator, Trimmed, NumberText, Padded, ParseNat, Without, Pow10, Find, Contains, AllDigits, ParseNumber;
    if places == 0 {
      WholeParses(NumberText(n), sep);
      ParseNumberText(n);
      UnitsOfOne(n);
    } else {
      var whole, fraction := NumberText(Without(n, places)), Padded(n, places);
      var kept := DropZeros(fraction);
      FixedParts(n, places);
      ZerosAddNothing(fraction);
      TrimShape(whole, sep, fraction);
      PartsParse(whole, sep, fraction);
      if kept == "" {
        WholeParses(whole, sep);
        NoFraction();
      } else {
        PartsParse(whole, sep, kept);
      }
    }
  }

  lemma UnitsOfOne(n: int)
    ensures FromUnits(n, 0) == n as real
  {
  }

  lemma NoFraction()
    ensures Fraction("") == 0.0
  {
  }

  lemma WholeParses(whole: string, sep: string)
    requires IsSeparator(sep) && AllDigits(whole) && whole != ""
    ensures ParseNumber(whole, sep) == Some(ParseNat(whole) as real)
    ensures Trimmed(whole, sep) == whole
  {
    NoSeparator(whole, sep);
  }

  lemma PartsParse(whole: string, sep: string, fraction: string)
    requires IsSeparator(sep) && AllDigits(whole) && AllDigits(fraction) && whole != "" && fraction != ""
    ensures ParseNumber(whole + sep + fraction, sep) == Some(ParseNat(whole) as real + Fraction(fraction))
  {
    var s := whole + sep + fraction;
    SeparatorPlace(whole, sep, fraction);
    assert s[..|whole|] == whole && s[|whole| + |sep|..] == fraction;
  }

  /** A trimmed length ends in no zero of a fraction and in no bare separator, and trimming it again changes nothing. */
  lemma TrimmedIsFinal(v: real, maxPlaces: nat, sep: string)
    requires v >= 0.0 && IsSeparator(sep)
    ensures var t := FormatCentimeters(v, maxPlaces, true, sep);
      && Trimmed(t, sep) == t
      && t != "" && IsDigit(Last(t))
      && (Contains(t, sep) ==> Last(t) != '0')
  {
    hide Units, RoundToDecimalPlaces, IsSeparator, Trimmed, NumberText, Padded, Without, Contains, AllDigits;
    var places := Min(maxPlaces, MAX_FORMAT_PLACES);
    PrintedUnits(v, places);
    var n := Units(v, places);
    if places == 0 {
      WholeIsFinal(NumberText(n), sep);
    } else {
      var whole, fraction := NumberText(Without(n, places)), Padded(n, places);
      TrimShape(whole, sep, fraction);
      WholeIsFinal(whole, sep);
      PartsAreFinal(whole, sep, fraction);
    }
  }

  lemma WholeIsFinal(whole: string, sep: string)
    requires IsSeparator(sep) && AllDigits(whole) && whole != ""
    ensures Trimmed(whole, sep) == whole && IsDigit(Last(whole)) && !Contains(whole, sep)
  {
    NoSeparator(whole, sep);
  }

  lemma PartsAreFinal(whole: string, sep: string, fraction: string)
    requires IsSeparator(sep) && AllDigits(whole) && AllDigits(fraction)
    ensures var kept := DropZeros(fraction);
      var t := whole + sep + kept;
      kept != "" ==> Trimmed(t, sep) == t && IsDigit(Last(t)) && Last(t) != '0'
  {
    hide Trimmed, IsSeparator;
    var kept := DropZeros(fraction);
    ZerosAddNothing(fraction);
    if kept != "" {
      TrimShape(whole, sep, kept);
      assert Last(whole + sep + kept) == Last(kept);
    }
  }
}
