/** `ValidatePropDesc` of `src/property_schema/RegisterSchema.cpp`: a fold over the nodes of an XML document. */
module Schema {
  import opened Common
  import opened Decimal
  import opened PowerShell

  const FORMAT_ID: string := "{7A4E8B66-6C8A-421D-9868-42F50F9312B4}"

  /** A node of the document; only elements are looked at. */
  datatype Node = OtherNode | Element(name: Option<string>, attributes: map<string, string>)

  datatype Kind = SchemaElement | ListElement | DescriptionElement | TypeElement | UnknownElement

  function KindOf(name: string): Kind {
    if EqNoCase(name, "schema") then SchemaElement
    else if EqNoCase(name, "propertyDescriptionList") then ListElement
    else if EqNoCase(name, "propertyDescription") then DescriptionElement
    else if EqNoCase(name, "typeInfo") then TypeElement
    else UnknownElement
  }

  const ULONG_MAX: nat := 0xFFFF_FFFF

  predicate IsSpace(c: char) {
    c == ' ' || '\t' <= c <= '\r'
  }

  function SkipSpaces(s: string): string {
    if s != "" && IsSpace(s[0]) then SkipSpaces(s[1..]) else s
  }

  function LeadingNumber(s: string, value: nat): nat {
    if s != "" && IsDigit(s[0]) then LeadingNumber(s[1..], 10 * value + DigitValue(s[0])) else value
  }

  /** `wcstoul` with base 10: spaces, a sign, digits; saturating, and negated modulo 2^32 behind a minus sign. */
  function Wcstoul(text: string): (v: nat)
    ensures v <= ULONG_MAX
  {
    var s := SkipSpaces(text);
    var signed := s != "" && (s[0] == '-' || s[0] == '+');
    var v := LeadingNumber(if signed then s[1..] else s, 0);
    if v > ULONG_MAX then ULONG_MAX
    else if signed && s[0] == '-' then (0x1_0000_0000 - v) % 0x1_0000_0000
    else v
  }

  predicate IsKnownType(t: string) {
    t == "Double" || t == "String"
  }

  // ---------------------------------------------------------------- the fold

  /** What the loop has seen. */
  datatype Seen = Seen(schema: bool, list: bool, names: set<string>, ids: set<nat>, count: nat)

  /** The property a description describes. */
  datatype Property = Property(name: string, id: nat)

  /** A description with a name, the project's format and an identifier in range. */
  function Described(attributes: map<string, string>): Option<Property> {
    var name, format, id := Get(attributes, "name"), Get(attributes, "formatID"), Get(attributes, "propID");
    if name.None? || name.value == "" || format.None? || !EqNoCase(format.value, FORMAT_ID) || id.None? ||
      id.value == "" then None
    else if Wcstoul(id.value) < 2 || Wcstoul(id.value) > 8 then None
    else Some(Property(name.value, Wcstoul(id.value)))
  }

  /** One node; None when the document is rejected there. */
  function Visit(seen: Seen, n: Node): Option<Seen> {
    if n.OtherNode? then Some(seen)
    else if n.name.None? then None
    else
      match KindOf(n.name.value)
      case SchemaElement =>
        if Get(n.attributes, "schemaVersion") == Some("1.0") then Some(seen.(schema := true)) else None
      case ListElement => Some(seen.(list := true))
      case DescriptionElement =>
        var p := Described(n.attributes);
        if p.None? || p.value.name in seen.names || p.value.id in seen.ids then None
        else Some(seen.(names := seen.names + {p.value.name}, ids := seen.ids + {p.value.id}, count := seen.count + 1))
      case TypeElement =>
        var t := Get(n.attributes, "type");
        if t.Some? && !IsKnownType(t.value) then None else Some(seen)
      case UnknownElement => Some(seen)
  }

  const NOTHING_SEEN := Seen(false, false, {}, {}, 0)

  function VisitAll(nodes: seq<Node>): Option<Seen> {
    if nodes == [] then Some(NOTHING_SEEN)
    else
      var before := VisitAll(ButLast(nodes));
      if before.None? then None else Visit(before.value, Last(nodes))
  }

  /** `wellFormed` is false when the XML reader fails after these nodes. */
  predicate Accepts(nodes: seq<Node>, wellFormed: bool) {
    var seen := VisitAll(nodes);
    seen.Some? && wellFormed && seen.value.schema && seen.value.list && seen.value.count == 7
  }

  method ValidatePropDesc(nodes: seq<Node>, wellFormed: bool) returns (ok: bool, propertyCount: nat)
    ensures ok == Accepts(nodes, wellFormed)
    ensures ok ==> propertyCount == 7
  {
    hide KindOf, Described, IsKnownType;
    var sawSchema, sawPropertyList := false, false;
    var names: set<string>, propIds: set<nat> := {}, {};
    propertyCount := 0;
    for i := 0 to |nodes|
      invariant VisitAll(nodes[..i]) == Some(Seen(sawSchema, sawPropertyList, names, propIds, propertyCount))
    {
      var n := nodes[i];
      VisitNext(nodes, i);
      if n.OtherNode? {
        continue;
      }
      if n.name.None? {
        return false, propertyCount;
      }
      match KindOf(n.name.value)
      case SchemaElement =>
        if Get(n.attributes, "schemaVersion") != Some("1.0") {
          return false, propertyCount;
        }
        sawSchema := true;
      case ListElement => sawPropertyList := true;
      case DescriptionElement =>
        var p := Described(n.attributes);
        if p.None? {
          return false, propertyCount;
        }
        if p.value.name in names || p.value.id in propIds {
          return false, propertyCount;
        }
        names := names + {p.value.name};
        propIds := propIds + {p.value.id};
        propertyCount := propertyCount + 1;
      case TypeElement =>
        var t := Get(n.attributes, "type");
        if t.Some? && !IsKnownType(t.value) {
          return false, propertyCount;
        }
      case UnknownElement =>
    }
    assert nodes[..|nodes|] == nodes;
    ok := wellFormed && sawSchema && sawPropertyList && propertyCount == 7;
  }

  /** A rejection at one node rejects the document. */
  lemma VisitNext(nodes: seq<Node>, i: nat)
    requires i < |nodes|
    ensures var before := VisitAll(nodes[..i]);
      VisitAll(nodes[..i + 1]) == if before.None? then None else Visit(before.value, nodes[i])
    ensures VisitAll(nodes[..i + 1]).None? ==> VisitAll(nodes).None?
  {
    hide Visit;
    assert ButLast(nodes[..i + 1]) == nodes[..i];
    RejectionStays(nodes, i + 1, |nodes|);
    assert nodes[..|nodes|] == nodes;
  }

  lemma {:induction false} RejectionStays(nodes: seq<Node>, i: nat, j: nat)
    requires i <= j <= |nodes|
    ensures VisitAll(nodes[..i]).None? ==> VisitAll(nodes[..j]).None?
    decreases j - i
  {
    hide Visit;
    if i < j {
      RejectionStays(nodes, i, j - 1);
      assert ButLast(nodes[..j]) == nodes[..j - 1];
    }
  }

  // ---------------------------------------------------------------- what is accepted

  /** A node that is no reason to reject, whatever surrounds it. */
  predicate NodeOk(n: Node) {
    n.Element? ==>
      && n.name.Some?
      && match KindOf(n.name.value)
        case SchemaElement => Get(n.attributes, "schemaVersion") == Some("1.0")
        case DescriptionElement => Described(n.attributes).Some?
        case TypeElement => Get(n.attributes, "type").Some? ==> IsKnownType(Get(n.attributes, "type").value)
        case _ => true
  }

  predicate IsKind(n: Node, k: Kind) {
    n.Element? && n.name.Some? && KindOf(n.name.value) == k
  }

  /** The properties a document describes, in order, wherever they stand. */
  function Properties(nodes: seq<Node>): seq<Property> {
    if nodes == [] then []
    else
      Properties(ButLast(nodes)) +
      (if IsKind(Last(nodes), DescriptionElement) && Described(Last(nodes).attributes).Some? then
        [Described(Last(nodes).attributes).value] else [])
  }

  predicate Distinct(ps: seq<Property>) {
    forall i, j | 0 <= i < j < |ps| :: ps[i].name != ps[j].name && ps[i].id != ps[j].id
  }

  predicate SomeKind(nodes: seq<Node>, k: Kind) {
    exists i | 0 <= i < |nodes| :: IsKind(nodes[i], k)
  }

  predicate AllOk(nodes: seq<Node>) {
    forall i | 0 <= i < |nodes| :: NodeOk(nodes[i])
  }

  function Names(ps: seq<Property>): set<string> {
    set i | 0 <= i < |ps| :: ps[i].name
  }

  function Ids(ps: seq<Property>): set<nat> {
    set i | 0 <= i < |ps| :: ps[i].id
  }

  lemma DistinctExtend(ps: seq<Property>, p: Property)
    ensures Distinct(ps + [p]) <==> Distinct(ps) && p.name !in Names(ps) && p.id !in Ids(ps)
    ensures Names(ps + [p]) == Names(ps) + {p.name} && Ids(ps + [p]) == Ids(ps) + {p.id}
  {
    var all := ps + [p];
    assert forall i | 0 <= i < |ps| :: all[i] == ps[i];
    assert all[|ps|] == p;
    if Distinct(all) {
      forall i, j | 0 <= i < j < |ps|
        ensures ps[i].name != ps[j].name && ps[i].id != ps[j].id
      {
        assert all[i].name != all[j].name && all[i].id != all[j].id;
      }
    }
  }

  function WhatIsThere(nodes: seq<Node>): Seen {
    var ps := Properties(nodes);
    Seen(SomeKind(nodes, SchemaElement), SomeKind(nodes, ListElement), Names(ps), Ids(ps), |ps|)
  }

  /** What the loop has seen is what the nodes say, in any order and interleaving. */
  lemma {:induction false} VisitMeans(nodes: seq<Node>)
    ensures VisitAll(nodes).Some? <==> AllOk(nodes) && Distinct(Properties(nodes))
    ensures VisitAll(nodes).Some? ==> VisitAll(nodes).value == WhatIsThere(nodes)
  {
    hide KindOf, Described, IsKnownType;
    if nodes != [] {
      var before, n := ButLast(nodes), Last(nodes);
      VisitMeans(before);
      assert nodes == before + [n];
      SplitLast(nodes);
      if IsKind(n, DescriptionElement) && Described(n.attributes).Some? {
        DistinctExtend(Properties(before), Described(n.attributes).value);
      } else {
        assert Properties(nodes) == Properties(before);
      }
    }
  }

  lemma SplitLast(nodes: seq<Node>)
    requires nodes != []
    ensures AllOk(nodes) <==> AllOk(ButLast(nodes)) && NodeOk(Last(nodes))
    ensures SomeKind(nodes, SchemaElement) <==>
      SomeKind(ButLast(nodes), SchemaElement) || IsKind(Last(nodes), SchemaElement)
    ensures SomeKind(nodes, ListElement) <==> SomeKind(ButLast(nodes), ListElement) || IsKind(Last(nodes), ListElement)
  {
    hide NodeOk, IsKind;
    assert forall i | 0 <= i < |nodes| - 1 :: nodes[i] == ButLast(nodes)[i];
  }

  // ---------------------------------------------------------------- seven properties in seven places

  lemma {:induction false} DistinctCount(ps: seq<Property>)
    requires Distinct(ps)
    ensures |Ids(ps)| == |ps| && |Names(ps)| == |ps|
  {
    if ps == [] {
    } else {
      var before, p := ButLast(ps), Last(ps);
      assert ps == before + [p];
      DistinctExtend(before, p);
      DistinctCount(before);
    }
  }

  lemma {:induction false} FullSubset(a: set<nat>, b: set<nat>)
    requires a <= b && |a| == |b|
    ensures a == b
  {
    if x :| x in b && x !in a {
      SubsetSize(a, b - {x});
    }
  }

  lemma {:induction false} SubsetSize(a: set<nat>, b: set<nat>)
    requires a <= b
    ensures |a| <= |b|
  {
    if x :| x in a {
      SubsetSize(a - {x}, b - {x});
    }
  }

  lemma {:induction false} IdsInRange(nodes: seq<Node>, i: nat)
    requires i < |Properties(nodes)|
    ensures 2 <= Properties(nodes)[i].id <= 8
  {
    hide KindOf, EqNoCase, Wcstoul;
    if i < |Properties(ButLast(nodes))| {
      IdsInRange(ButLast(nodes), i);
    }
  }

  /** A document is accepted exactly when it is well-formed, every node is acceptable by itself, a schema and a list
      element are there, and it describes seven properties with distinct names and identifiers; then the identifiers are
      exactly 2 to 8. */
  lemma AcceptsExactly(nodes: seq<Node>, wellFormed: bool)
    ensures var ps := Properties(nodes);
      && (Accepts(nodes, wellFormed) <==>
          wellFormed && AllOk(nodes) && SomeKind(nodes, SchemaElement) && SomeKind(nodes, ListElement) &&
            Distinct(ps) && |ps| == 7)
      && (Accepts(nodes, wellFormed) ==> Ids(ps) == {2, 3, 4, 5, 6, 7, 8} && |Names(ps)| == 7)
  {
    hide AllOk, SomeKind, Properties, Distinct, Names, Ids;
    VisitMeans(nodes);
    if Accepts(nodes, wellFormed) {
      var ps := Properties(nodes);
      DistinctCount(ps);
      SevenIds(nodes);
    }
  }

  /** Seven places for seven distinct identifiers: each is taken. */
  lemma SevenIds(nodes: seq<Node>)
    requires Distinct(Properties(nodes)) && |Properties(nodes)| == 7
    ensures Ids(Properties(nodes)) == {2, 3, 4, 5, 6, 7, 8}
  {
    hide *;
    var ps := Properties(nodes);
    DistinctCount(ps);
    forall i | 0 <= i < |ps|
      ensures 2 <= ps[i].id <= 8
    {
      IdsInRange(nodes, i);
    }
    IdsWithin(ps);
    FullSubset(Ids(ps), {2, 3, 4, 5, 6, 7, 8});
  }

  lemma IdsWithin(ps: seq<Property>)
    requires forall i | 0 <= i < |ps| :: 2 <= ps[i].id <= 8
    ensures Ids(ps) <= {2, 3, 4, 5, 6, 7, 8}
  {
  }

  /** In an accepted document, each identifier from 2 to 8 belongs to one name, and each name to one identifier. */
  lemma AcceptedIsBijection(nodes: seq<Node>, wellFormed: bool, id: nat)
    requires Accepts(nodes, wellFormed) && 2 <= id <= 8
    ensures exists i | 0 <= i < 7 && i < |Properties(nodes)| :: Properties(nodes)[i].id == id
    ensures forall i, j | 0 <= i < |Properties(nodes)| && 0 <= j < |Properties(nodes)| ::
      Properties(nodes)[i].id == Properties(nodes)[j].id <==> Properties(nodes)[i].name == Properties(nodes)[j].name
  {
    hide Properties;
    AcceptsExactly(nodes, wellFormed);
    var ps := Properties(nodes);
    assert id in Ids(ps);
    forall i, j | 0 <= i < |ps| && 0 <= j < |ps|
      ensures ps[i].id == ps[j].id <==> ps[i].name == ps[j].name
    {
      if i < j {
        assert ps[i].name != ps[j].name;
      } else if j < i {
        assert ps[j].name != ps[i].name;
      }
    }
  }

  // ---------------------------------------------------------------- in plain words

  /** Whether a node is an element of this name, up to case. */
  predicate Is(n: Node, tag: string) {
    n.Element? && n.name.Some? && Fold(n.name.value) == Fold(tag)
  }

  lemma KindIsName(n: Node)
    ensures IsKind(n, SchemaElement) <==> Is(n, "schema")
    ensures IsKind(n, ListElement) <==> Is(n, "propertyDescriptionList")
    ensures IsKind(n, DescriptionElement) <==> Is(n, "propertyDescription")
    ensures IsKind(n, TypeElement) <==> Is(n, "typeInfo")
  {
    hide Fold;
    NamesHaveLengths();
  }

  lemma NamesHaveLengths()
    ensures |Fold("schema")| == 6 && |Fold("propertyDescriptionList")| == 23
    ensures |Fold("propertyDescription")| == 19 && |Fold("typeInfo")| == 8
  {
  }

  /** A description the project knows: a name, the project's format, and an identifier from 2 to 8. */
  predicate IsDescription(attributes: map<string, string>) {
    && "name" in attributes && attributes["name"] != ""
    && "formatID" in attributes && Fold(attributes["formatID"]) == Fold("{7A4E8B66-6C8A-421D-9868-42F50F9312B4}")
    && "propID" in attributes && attributes["propID"] != "" && 2 <= Wcstoul(attributes["propID"]) <= 8
  }

  /** What is asked of an element by itself. */
  predicate IsFine(n: Node) {
    && (n.Element? ==> n.name.Some?)
    && (Is(n, "schema") ==> "schemaVersion" in n.attributes && n.attributes["schemaVersion"] == "1.0")
    && (Is(n, "propertyDescription") ==> IsDescription(n.attributes))
    && (Is(n, "typeInfo") && "type" in n.attributes ==>
        n.attributes["type"] == "Double" || n.attributes["type"] == "String")
  }

  function NameOf(n: Node): string {
    if n.Element? && "name" in n.attributes then n.attributes["name"] else ""
  }

  function IdOf(n: Node): nat {
    if n.Element? && "propID" in n.attributes then Wcstoul(n.attributes["propID"]) else 0
  }

  lemma FineIsOk(n: Node)
    ensures NodeOk(n) <==> IsFine(n)
    ensures Is(n, "propertyDescription") && IsFine(n) ==> Described(n.attributes) == Some(Property(NameOf(n), IdOf(n)))
  {
    KindIsName(n);
    hide Fold, Wcstoul, KindOf;
    if n.Element? {
      SameDescription(n.attributes);
    }
  }

  lemma SameDescription(attributes: map<string, string>)
    ensures Described(attributes).Some? <==> IsDescription(attributes)
    ensures IsDescription(attributes) ==>
      Described(attributes) == Some(Property(attributes["name"], Wcstoul(attributes["propID"])))
  {
    hide Fold, Wcstoul;
  }

  function CountOf(nodes: seq<Node>, tag: string): nat {
    if nodes == [] then 0 else CountOf(ButLast(nodes), tag) + (if Is(Last(nodes), tag) then 1 else 0)
  }

  /** No two descriptions share a name or an identifier. */
  predicate DescriptionsDiffer(nodes: seq<Node>) {
    forall i, j | 0 <= i < j < |nodes| && Is(nodes[i], "propertyDescription") && Is(nodes[j], "propertyDescription") ::
      NameOf(nodes[i]) != NameOf(nodes[j]) && IdOf(nodes[i]) != IdOf(nodes[j])
  }

  predicate SomeNamed(nodes: seq<Node>, name: string) {
    exists i | 0 <= i < |nodes| :: Is(nodes[i], "propertyDescription") && NameOf(nodes[i]) == name
  }

  predicate SomeNumbered(nodes: seq<Node>, id: nat) {
    exists i | 0 <= i < |nodes| :: Is(nodes[i], "propertyDescription") && IdOf(nodes[i]) == id
  }

  lemma DescriptionsSplit(nodes: seq<Node>, name: string, id: nat)
    requires nodes != []
    ensures var before, n := ButLast(nodes), Last(nodes);
      && (SomeNamed(nodes, name) <==> SomeNamed(before, name) || (Is(n, "propertyDescription") && NameOf(n) == name))
      && (SomeNumbered(nodes, id) <==> SomeNumbered(before, id) || (Is(n, "propertyDescription") && IdOf(n) == id))
      && (DescriptionsDiffer(nodes) <==>
          && DescriptionsDiffer(before)
          && (Is(n, "propertyDescription") ==> !SomeNamed(before, NameOf(n)) && !SomeNumbered(before, IdOf(n))))
  {
    hide Is, NameOf, IdOf;
    assert forall i | 0 <= i < |nodes| - 1 :: ButLast(nodes)[i] == nodes[i];
  }

  lemma {:induction false} PropertiesAreDescriptions(nodes: seq<Node>, name: string, id: nat)
    requires forall i | 0 <= i < |nodes| :: IsFine(nodes[i])
    ensures |Properties(nodes)| == CountOf(nodes, "propertyDescription")
    ensures name in Names(Properties(nodes)) <==> SomeNamed(nodes, name)
    ensures id in Ids(Properties(nodes)) <==> SomeNumbered(nodes, id)
    ensures Distinct(Properties(nodes)) <==> DescriptionsDiffer(nodes)
    decreases |nodes|
  {
    hide Is, IsFine, KindOf, Described, Distinct, Names, Ids, SomeNamed, SomeNumbered, DescriptionsDiffer, NameOf, IdOf;
    if nodes == [] {
      NothingDescribed(name, id);
    } else {
      var before, n := ButLast(nodes), Last(nodes);
      assert forall i | 0 <= i < |before| :: before[i] == nodes[i];
      PropertiesAreDescriptions(before, name, id);
      PropertiesAreDescriptions(before, NameOf(n), IdOf(n));
      DescriptionsSplit(nodes, name, id);
      FineIsOk(n);
      KindIsName(n);
      if Is(n, "propertyDescription") {
        DistinctExtend(Properties(before), Property(NameOf(n), IdOf(n)));
      } else {
        assert Properties(nodes) == Properties(before);
      }
    }
  }

  lemma NothingDescribed(name: string, id: nat)
    ensures Names([]) == {} && Ids([]) == {} && Distinct([]) && DescriptionsDiffer([])
    ensures !SomeNamed([], name) && !SomeNumbered([], id)
  {
  }

  /** The whole of what is accepted, in terms of the document: well-formed, every element named and fine by itself, a
      schema and a list element, and exactly seven descriptions with distinct names and identifiers. */
  lemma AcceptsInPlainWords(nodes: seq<Node>, wellFormed: bool)
    ensures Accepts(nodes, wellFormed) <==>
      && wellFormed && (forall i | 0 <= i < |nodes| :: IsFine(nodes[i]))
      && (exists i | 0 <= i < |nodes| :: Is(nodes[i], "schema"))
      && (exists i | 0 <= i < |nodes| :: Is(nodes[i], "propertyDescriptionList"))
      && CountOf(nodes, "propertyDescription") == 7 && DescriptionsDiffer(nodes)
  {
    hide Accepts, Properties, Distinct, Names, Ids, Is, IsFine, NodeOk, KindOf, IsKind;
    AcceptsExactly(nodes, wellFormed);
    forall i | 0 <= i < |nodes|
      ensures NodeOk(nodes[i]) <==> IsFine(nodes[i])
      ensures IsKind(nodes[i], SchemaElement) <==> Is(nodes[i], "schema")
      ensures IsKind(nodes[i], ListElement) <==> Is(nodes[i], "propertyDescriptionList")
    {
      FineIsOk(nodes[i]);
      KindIsName(nodes[i]);
    }
    if forall i | 0 <= i < |nodes| :: IsFine(nodes[i]) {
      PropertiesAreDescriptions(nodes, "", 0);
    }
  }

  // ---------------------------------------------------------------- numbers

  function Accumulated(digits: string, value: nat): nat
    requires AllDigits(digits)
  {
    if digits == "" then value else Accumulated(digits[1..], 10 * value + DigitValue(digits[0]))
  }

  lemma {:induction false} LeadingIsAccumulated(digits: string, rest: string, value: nat)
    requires AllDigits(digits) && (rest == "" || !IsDigit(rest[0]))
    ensures LeadingNumber(digits + rest, value) == Accumulated(digits, value)
    decreases |digits|
  {
    if digits == "" {
      assert digits + rest == rest;
    } else {
      assert (digits + rest)[1..] == digits[1..] + rest;
      LeadingIsAccumulated(digits[1..], rest, 10 * value + DigitValue(digits[0]));
    }
  }

  lemma {:induction false} AccumulatedBehind(digits: string, c: char, value: nat)
    requires AllDigits(digits) && IsDigit(c)
    ensures AllDigits(digits + [c]) &&
      Accumulated(digits + [c], value) == 10 * Accumulated(digits, value) + DigitValue(c)
    decreases |digits|
  {
    if digits != "" {
      assert (digits + [c])[1..] == digits[1..] + [c];
      AccumulatedBehind(digits[1..], c, 10 * value + DigitValue(digits[0]));
    } else {
      assert digits + [c] == [c];
    }
  }

  lemma {:induction false} AccumulatedIsParsed(digits: string)
    requires AllDigits(digits)
    ensures Accumulated(digits, 0) == ParseNat(digits)
  {
    if digits != "" {
      AccumulatedIsParsed(ButLast(digits));
      AccumulatedBehind(ButLast(digits), Last(digits), 0);
      assert ButLast(digits) + [Last(digits)] == digits;
    }
  }

  lemma {:induction false} SpacesAreSkipped(spaces: string, s: string)
    requires (forall i | 0 <= i < |spaces| :: IsSpace(spaces[i])) && s != "" && !IsSpace(s[0])
    ensures SkipSpaces(spaces + s) == s
  {
    if spaces == "" {
      assert spaces + s == s;
    } else {
      assert (spaces + s)[1..] == spaces[1..] + s;
      SpacesAreSkipped(spaces[1..], s);
    }
  }

  /** A printed number is read as itself, as far as it fits; whatever is no digit ends it, and a minus sign negates it
      modulo 2^32. */
  lemma NumberIsRead(spaces: string, n: nat, rest: string)
    requires forall i | 0 <= i < |spaces| :: spaces[i] == ' ' || 9 <= spaces[i] as int <= 13
    requires rest == "" || !IsDigit(rest[0])
    ensures Wcstoul(spaces + (NumberText(n) + rest)) == if n > 4294967295 then 4294967295 else n
    ensures Wcstoul(spaces + ("+" + (NumberText(n) + rest))) == if n > 4294967295 then 4294967295 else n
    ensures Wcstoul(spaces + ("-" + (NumberText(n) + rest))) ==
      if n > 4294967295 then 4294967295 else if n == 0 then 0 else 4294967296 - n
  {
    hide NumberText, ParseNat, LeadingNumber, SkipSpaces;
    var digits := NumberText(n);
    SpacesAreSkipped(spaces, digits + rest);
    SpacesAreSkipped(spaces, "+" + (digits + rest));
    SpacesAreSkipped(spaces, "-" + (digits + rest));
    LeadingIsAccumulated(digits, rest, 0);
    AccumulatedIsParsed(digits);
    ParseNumberText(n);
    assert ("+" + (digits + rest))[1..] == digits + rest == ("-" + (digits + rest))[1..];
  }
}
