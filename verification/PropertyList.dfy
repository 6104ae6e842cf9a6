/** `Add-ProjectPropertiesToList` of the installer: merging the project's properties into an Explorer property list. */
module PropertyList {
  import opened Common
  import opened PowerShell

  const PREFIX: string := "prop:"
  const SEPARATOR: char := ';'

  const PROJECT_PROPERTIES: seq<string> := [
    "ImagePhysicalSizeShell.PhysicalSizeCm",
    "ImagePhysicalSizeShell.PhysicalWidthCm",
    "ImagePhysicalSizeShell.PhysicalHeightCm",
    "ImagePhysicalSizeShell.EmbeddedDpiX",
    "ImagePhysicalSizeShell.EmbeddedDpiY",
    "ImagePhysicalSizeShell.DpiSource",
    "ImagePhysicalSizeShell.DpiStatus"
  ]

  /** A part names a property when it equals it up to leading stars and case. */
  predicate Names(part: string, property: string) {
    EqNoCase(TrimStart(part, '*'), property)
  }

  predicate Has(parts: seq<string>, property: string) {
    exists i | 0 <= i < |parts| :: Names(parts[i], property)
  }

  function BodyOf(existing: string): string {
    if PREFIX <= existing then existing[|PREFIX|..] else existing
  }

  /** The parts of a list that mean something. */
  function Parts(existing: string): seq<string> {
    NonEmpty(Split(BodyOf(existing), SEPARATOR))
  }

  function AddMissing(parts: seq<string>, properties: seq<string>): (r: seq<string>)
    ensures parts <= r
    decreases |properties|
  {
    if properties == [] then parts
    else AddMissing(if Has(parts, properties[0]) then parts else parts + [properties[0]], properties[1..])
  }

  function Merge(existing: string): string {
    PREFIX + Join(AddMissing(Parts(existing), PROJECT_PROPERTIES), SEPARATOR)
  }

  lemma BodyOfNothing()
    ensures BodyOf("") == BodyOf(PREFIX)
  {
  }

  method AddProjectPropertiesToList(existing: string) returns (r: string)
    ensures r == Merge(existing)
  {
    BodyOfNothing();
    var value := if existing != "" then existing else PREFIX;
    var body := BodyOf(value);
    hide PREFIX, PROJECT_PROPERTIES, AddMissing, Has, Split, Join, NonEmpty, BodyOf;
    var parts := NonEmpty(Split(body, SEPARATOR));
    var properties := PROJECT_PROPERTIES;
    var i := 0;
    assert properties[0..] == properties;
    while i < |properties|
      invariant 0 <= i <= |properties|
      invariant AddMissing(parts, properties[i..]) == AddMissing(Parts(existing), properties)
    {
      AddStep(parts, properties, i);
      var already := IsNamed(parts, properties[i]);
      if !already {
        parts := parts + [properties[i]];
      }
      i := i + 1;
    }
    assert properties[i..] == [];
    AddNothing(parts);
    r := PREFIX + Join(parts, SEPARATOR);
  }

  /** The inner loop: it leaves at the first part that names the property. */
  method IsNamed(parts: seq<string>, property: string) returns (already: bool)
    ensures already == Has(parts, property)
  {
    hide Names;
    for j := 0 to |parts|
      invariant forall k | 0 <= k < j :: !Names(parts[k], property)
    {
      if Names(parts[j], property) {
        return true;
      }
    }
    return false;
  }

  lemma AddStep(parts: seq<string>, properties: seq<string>, i: nat)
    requires i < |properties|
    ensures AddMissing(parts, properties[i..]) ==
      AddMissing(if Has(parts, properties[i]) then parts else parts + [properties[i]], properties[i + 1..])
  {
    assert properties[i..][1..] == properties[i + 1..];
  }

  lemma AddNothing(parts: seq<string>)
    ensures AddMissing(parts, []) == parts
  {
  }

  // ---------------------------------------------------------------- what is added

  /** The properties a list does not have, in their own order. */
  function Missing(parts: seq<string>, properties: seq<string>): (r: seq<string>)
    ensures forall p <- r :: p in properties && !Has(parts, p)
  {
    if properties == [] then []
    else (if Has(parts, properties[0]) then [] else [properties[0]]) + Missing(parts, properties[1..])
  }

  /** No two properties are one and the same name, and none starts with a star. */
  predicate Distinct(properties: seq<string>) {
    && (forall i | 0 <= i < |properties| :: TrimStart(properties[i], '*') == properties[i])
    && (forall i, j | 0 <= i < j < |properties| :: !EqNoCase(properties[i], properties[j]))
  }

  lemma Lengths(i: nat)
    requires i < 7
    ensures |PROJECT_PROPERTIES| == 7
    ensures |PROJECT_PROPERTIES[i]| == [37, 38, 39, 35, 35, 32, 32][i]
    ensures PROJECT_PROPERTIES[i][0] == 'I'
  {
  }

  lemma NoSeparator(i: nat)
    requires i < 7 && |PROJECT_PROPERTIES| == 7
    ensures SEPARATOR !in PROJECT_PROPERTIES[i]
  {
  }

  lemma LastLetters()
    ensures |PROJECT_PROPERTIES| == 7
    ensures |PROJECT_PROPERTIES[3]| == |PROJECT_PROPERTIES[4]| == 35 &&
      |PROJECT_PROPERTIES[5]| == |PROJECT_PROPERTIES[6]| == 32
    ensures PROJECT_PROPERTIES[3][34] == 'X' && PROJECT_PROPERTIES[4][34] == 'Y'
    ensures PROJECT_PROPERTIES[5][27] == 'o' && PROJECT_PROPERTIES[6][27] == 't'
  {
  }

  lemma ProjectPropertiesAreDistinct()
    ensures |PROJECT_PROPERTIES| == 7 && Distinct(PROJECT_PROPERTIES)
    ensures forall i | 0 <= i < |PROJECT_PROPERTIES| ::
      SEPARATOR !in PROJECT_PROPERTIES[i] && PROJECT_PROPERTIES[i] != ""
  {
    hide PROJECT_PROPERTIES, EqNoCase;
    var p := PROJECT_PROPERTIES;
    LastLetters();
    forall i | 0 <= i < 7
      ensures TrimStart(p[i], '*') == p[i] && SEPARATOR !in p[i] && p[i] != ""
    {
      Lengths(i);
      NoSeparator(i);
    }
    forall i, j | 0 <= i < j < 7
      ensures !EqNoCase(p[i], p[j])
    {
      Lengths(i);
      Lengths(j);
      Differ(p[i], p[j], if i == 3 then 34 else 27);
    }
  }

  lemma DistinctTail(properties: seq<string>)
    requires Distinct(properties) && properties != []
    ensures Distinct(properties[1..]) && TrimStart(properties[0], '*') == properties[0]
    ensures forall i | 0 <= i < |properties[1..]| :: !EqNoCase(properties[0], properties[1..][i])
  {
    hide TrimStart, EqNoCase;
  }

  lemma {:induction false} AddsExactlyMissing(parts: seq<string>, properties: seq<string>)
    requires Distinct(properties)
    ensures AddMissing(parts, properties) == parts + Missing(parts, properties)
    decreases |properties|
  {
    hide TrimStart, EqNoCase, Has, Distinct;
    if properties == [] {
      assert parts + [] == parts;
    } else {
      var first, rest := properties[0], properties[1..];
      DistinctTail(properties);
      if Has(parts, first) {
        AddsExactlyMissing(parts, rest);
        assert [] + Missing(parts, rest) == Missing(parts, rest);
      } else {
        AddsExactlyMissing(parts + [first], rest);
        AddingDoesNotHide(parts, first, rest);
        Assoc(parts, [first], Missing(parts, rest));
      }
    }
  }

  lemma {:induction false} AddingDoesNotHide(parts: seq<string>, added: string, rest: seq<string>)
    requires TrimStart(added, '*') == added
    requires forall i | 0 <= i < |rest| :: !EqNoCase(added, rest[i])
    ensures Missing(parts + [added], rest) == Missing(parts, rest)
  {
    hide TrimStart, EqNoCase;
    if rest != [] {
      AddingDoesNotHide(parts, added, rest[1..]);
      var all := parts + [added];
      if Has(parts, rest[0]) {
        var i :| 0 <= i < |parts| && Names(parts[i], rest[0]);
        assert Names(all[i], rest[0]);
      }
    }
  }

  lemma {:induction false} AddMissingHasAll(parts: seq<string>, properties: seq<string>, p: string)
    requires (p in properties && TrimStart(p, '*') == p) || Has(parts, p)
    ensures Has(AddMissing(parts, properties), p)
    decreases |properties|
  {
    hide TrimStart;
    if Has(parts, p) {
      var i :| 0 <= i < |parts| && Names(parts[i], p);
      assert AddMissing(parts, properties)[i] == parts[i];
    } else if p == properties[0] {
      var grown := parts + [p];
      assert Names(grown[|parts|], p);
      assert AddMissing(grown, properties[1..])[|parts|] == p;
    } else {
      AddMissingHasAll(if Has(parts, properties[0]) then parts else parts + [properties[0]], properties[1..], p);
    }
  }

  lemma {:induction false} NothingMissing(parts: seq<string>, properties: seq<string>)
    requires forall p <- properties :: Has(parts, p)
    ensures AddMissing(parts, properties) == parts
  {
    if properties != [] {
      assert properties[0] in properties;
      NothingMissing(parts, properties[1..]);
    }
  }

  /** Splitting the merged list gives back the existing parts, unchanged and in order, then exactly the missing
      properties; nothing is empty, and every project property is there. */
  lemma MergeKeepsAndCompletes(existing: string)
    ensures Split(BodyOf(Merge(existing)), SEPARATOR) == Parts(existing) + Missing(Parts(existing), PROJECT_PROPERTIES)
    ensures Parts(Merge(existing)) == Parts(existing) + Missing(Parts(existing), PROJECT_PROPERTIES)
    ensures forall p <- PROJECT_PROPERTIES :: Has(Parts(Merge(existing)), p)
  {
    hide PROJECT_PROPERTIES, AddMissing, Names, Has, Split, Join, TrimStart, NonEmpty, Fold;
    var parts, properties := Parts(existing), PROJECT_PROPERTIES;
    var out := AddMissing(parts, properties);
    ProjectPropertiesAreDistinct();
    AddsExactlyMissing(parts, properties);
    forall p | p in properties
      ensures Has(out, p)
    {
      AddMissingHasAll(parts, properties, p);
    }
    assert properties[0] in properties;
    OutIsClean(existing);
    assert Merge(existing)[|PREFIX|..] == Join(out, SEPARATOR);
    SplitJoin(out, SEPARATOR);
    AllNonEmpty(out);
  }

  /** No part of the merged list is empty or holds the separator, and there is at least one. */
  lemma OutIsClean(existing: string)
    ensures var out := AddMissing(Parts(existing), PROJECT_PROPERTIES);
      |out| >= 1 && forall i | 0 <= i < |out| :: SEPARATOR !in out[i] && out[i] != ""
  {
    hide PROJECT_PROPERTIES, AddMissing, Names, Has, TrimStart;
    var parts, properties := Parts(existing), PROJECT_PROPERTIES;
    ProjectPropertiesAreDistinct();
    AddsExactlyMissing(parts, properties);
    var missing := Missing(parts, properties);
    forall i | 0 <= i < |missing|
      ensures SEPARATOR !in missing[i] && missing[i] != ""
    {
      assert missing[i] in missing;
    }
    if parts == [] {
      assert properties[0] in properties;
      AddMissingHasAll(parts, properties, properties[0]);
      assert Has(parts + missing, properties[0]);
      SomePart(parts + missing, properties[0]);
    }
  }

  lemma SomePart(parts: seq<string>, p: string)
    requires Has(parts, p)
    ensures |parts| >= 1
  {
  }

  /** Merging again changes nothing, to the character. */
  lemma MergeIsIdempotent(existing: string)
    ensures Merge(Merge(existing)) == Merge(existing)
  {
    hide PROJECT_PROPERTIES, AddMissing, Names, Has, Split, Join, TrimStart, NonEmpty, Fold, Parts, Missing;
    var properties := PROJECT_PROPERTIES;
    ProjectPropertiesAreDistinct();
    MergeKeepsAndCompletes(existing);
    AddsExactlyMissing(Parts(existing), properties);
    NothingMissing(Parts(Merge(existing)), properties);
  }

  // ---------------------------------------------------------------- in plain words

  lemma {:induction false} MissingIsDistinct(parts: seq<string>, properties: seq<string>)
    requires Distinct(properties)
    ensures Distinct(Missing(parts, properties))
  {
    hide TrimStart, EqNoCase, Has;
    if properties != [] {
      assert Distinct(properties[1..]);
      MissingIsDistinct(parts, properties[1..]);
      var rest := Missing(parts, properties[1..]);
      forall j | 0 <= j < |rest|
        ensures !EqNoCase(properties[0], rest[j])
      {
        assert rest[j] in properties[1..];
      }
    }
  }

  /** Whether one of the parts is this property, up to leading stars and case. */
  predicate IsListed(parts: seq<string>, property: string) {
    exists i | 0 <= i < |parts| :: Fold(TrimStart(parts[i], '*')) == Fold(property)
  }

  /** The merged list has the prefix; its parts are the earlier non-empty parts, unchanged and in order, and then
      project properties that were not listed before; none is empty, and every project property is listed. */
  lemma MergeInPlainWords(existing: string)
    ensures "prop:" <= Merge(existing)
    ensures var body := if "prop:" <= existing then existing[5..] else existing;
      var before, after := NonEmpty(Split(body, ';')), Split(Merge(existing)[5..], ';');
      && before <= after && "" !in after
      && (forall p <- PROJECT_PROPERTIES :: IsListed(after, p))
      && (forall i | |before| <= i < |after| :: after[i] in PROJECT_PROPERTIES && !IsListed(after[..i], after[i]))
  {
    hide PROJECT_PROPERTIES, AddMissing, Split, Join, TrimStart, NonEmpty, Fold, Missing;
    var parts, properties := Parts(existing), PROJECT_PROPERTIES;
    var missing := Missing(parts, properties);
    var after := Split(Merge(existing)[5..], ';');
    ProjectPropertiesAreDistinct();
    MergeKeepsAndCompletes(existing);
    MergedStarts(existing);
    MissingIsDistinct(parts, properties);
    OutIsClean(existing);
    AddsExactlyMissing(parts, properties);
    forall p | p in PROJECT_PROPERTIES
      ensures IsListed(after, p)
    {
      assert Has(Parts(Merge(existing)), p);
    }
    forall i | |parts| <= i < |after|
      ensures after[i] in PROJECT_PROPERTIES && !IsListed(after[..i], after[i])
    {
      assert after[i] == missing[i - |parts|] && missing[i - |parts|] in missing;
      forall k | 0 <= k < i
        ensures Fold(TrimStart(after[..i][k], '*')) != Fold(after[i])
      {
        if k < |parts| {
          assert !Names(parts[k], after[i]);
        } else {
          assert after[k] == missing[k - |parts|];
        }
      }
    }
  }

  lemma {:induction false} NothingHasThem(properties: seq<string>)
    ensures Missing([], properties) == properties
  {
    hide Names;
    if properties != [] {
      NothingHasThem(properties[1..]);
    }
  }

  /** A list without any part becomes the seven properties, in this order. */
  lemma MergeOfNothing(existing: string)
    requires NonEmpty(Split(if "prop:" <= existing then existing[5..] else existing, ';')) == []
    ensures Split(Merge(existing)[5..], ';') == ["ImagePhysicalSizeShell.PhysicalSizeCm",
      "ImagePhysicalSizeShell.PhysicalWidthCm", "ImagePhysicalSizeShell.PhysicalHeightCm",
      "ImagePhysicalSizeShell.EmbeddedDpiX", "ImagePhysicalSizeShell.EmbeddedDpiY",
      "ImagePhysicalSizeShell.DpiSource", "ImagePhysicalSizeShell.DpiStatus"]
  {
    hide Split, NonEmpty, Merge, Missing;
    NothingHasThem(PROJECT_PROPERTIES);
    MergedStarts(existing);
    MergeKeepsAndCompletes(existing);
  }

  lemma MergedStarts(existing: string)
    ensures "prop:" <= Merge(existing) && BodyOf(Merge(existing)) == Merge(existing)[5..]
  {
    hide AddMissing, Parts, Join, PROJECT_PROPERTIES;
  }

  /** The installer compares the merged list with the old one without case; that is as good as comparing it to the
      character. */
  lemma MergedUpToCaseIsMerged(existing: string)
    requires EqNoCase(Merge(existing), existing)
    ensures Merge(existing) == existing
  {
    hide PROJECT_PROPERTIES, Split, NonEmpty, Missing, Merge, Fold, Parts;
    if "prop:" <= existing {
      FoldOfRest(Merge(existing), existing);
      SamePartsSameText(existing);
    } else {
      NeverWithoutPrefix(existing);
    }
  }

  lemma FoldOfRest(a: string, b: string)
    requires EqNoCase(a, b) && |a| >= 5
    ensures |a| == |b| && EqNoCase(a[5..], b[5..])
  {
    assert |a| == |Fold(a)| == |Fold(b)| == |b|;
    assert Fold(a[5..]) == Fold(a)[5..] && Fold(b[5..]) == Fold(b)[5..];
  }

  lemma NoEmptyPart(parts: seq<string>, others: seq<string>)
    requires |parts| == |others| && forall i | 0 <= i < |parts| :: EqNoCase(parts[i], others[i])
    requires forall i | 0 <= i < |parts| :: parts[i] != ""
    ensures forall i | 0 <= i < |others| :: others[i] != ""
  {
    forall i | 0 <= i < |others|
      ensures others[i] != ""
    {
      assert |Fold(parts[i])| == |Fold(others[i])|;
    }
  }

  lemma SemicolonHasNoCase()
    ensures forall c: char :: Lower(c) == ';' <==> c == ';'
  {
  }

  lemma SamePartsSameText(existing: string)
    requires "prop:" <= existing && |Merge(existing)| >= 5 && EqNoCase(Merge(existing)[5..], existing[5..])
    ensures Merge(existing) == existing
  {
    hide PROJECT_PROPERTIES, Has, Split, Join, NonEmpty, Missing, AddMissing, Fold;
    MergedStarts(existing);
    MergeKeepsAndCompletes(existing);
    OutIsClean(existing);
    ProjectPropertiesAreDistinct();
    AddsExactlyMissing(Parts(existing), PROJECT_PROPERTIES);
    SemicolonHasNoCase();
    SplitNoCase(Merge(existing)[5..], existing[5..], ';');
    NoEmptyPart(Split(Merge(existing)[5..], ';'), Split(existing[5..], ';'));
    AllNonEmpty(Split(existing[5..], ';'));
    assert Missing(Parts(existing), PROJECT_PROPERTIES) == [];
    assert Parts(existing) + [] == Parts(existing);
    JoinSplit(existing[5..], ';');
  }

  /** Without the prefix, the first part of the merged list is longer than the first part of the old one. */
  lemma NeverWithoutPrefix(existing: string)
    requires !("prop:" <= existing)
    ensures !EqNoCase(Merge(existing), existing)
  {
    hide PROJECT_PROPERTIES, Split, Join, NonEmpty, Missing, AddMissing, Merge, Fold, Has;
    SplitIfNoCase(Merge(existing), existing);
    FirstPartIsLonger(existing);
  }

  lemma SplitIfNoCase(merged: string, existing: string)
    ensures EqNoCase(merged, existing) ==>
      var news, olds := Split(merged, ';'), Split(existing, ';');
      && |news| == |olds| && |news[0]| == |olds[0]|
      && ((forall i | 0 <= i < |news| :: news[i] != "") ==> forall i | 0 <= i < |olds| :: olds[i] != "")
  {
    hide Split, Fold;
    if EqNoCase(merged, existing) {
      SemicolonHasNoCase();
      SplitNoCase(merged, existing, ';');
      var news, olds := Split(merged, ';'), Split(existing, ';');
      assert |Fold(news[0])| == |Fold(olds[0])|;
      if forall i | 0 <= i < |news| :: news[i] != "" {
        NoEmptyPart(news, olds);
      }
    }
  }

  lemma FirstPartIsLonger(existing: string)
    requires !("prop:" <= existing)
    ensures var news, olds := Split(Merge(existing), ';'), Split(existing, ';');
      && (forall i | 0 <= i < |news| :: news[i] != "")
      && (|news| == |olds| && (forall i | 0 <= i < |olds| :: olds[i] != "") ==> |news[0]| == 5 + |olds[0]|)
  {
    hide PROJECT_PROPERTIES, Split, Join, NonEmpty, Missing, AddMissing, Merge, Fold, Has;
    var news, olds := Split(Merge(existing), ';'), Split(existing, ';');
    MergedStarts(existing);
    SplitBehind("prop:", Merge(existing)[5..], ';');
    assert "prop:" + Merge(existing)[5..] == Merge(existing);
    MergeKeepsAndCompletes(existing);
    OutIsClean(existing);
    ProjectPropertiesAreDistinct();
    AddsExactlyMissing(Parts(existing), PROJECT_PROPERTIES);
    if forall i | 0 <= i < |olds| :: olds[i] != "" {
      AllNonEmpty(olds);
    }
  }
}
