/** The registry audit of `src/common/RegistryAudit.cpp` as JSON: what is printed, and that it can be read back. Wide
    strings stand for their UTF-8 text. */
module RegistryAudit {
  import opened Common
  import opened Decimal
  import opened JsonText
  import opened JsonWriter

  const REG_NONE: nat := 0
  const REG_SZ: nat := 1
  const REG_EXPAND_SZ: nat := 2
  const REG_BINARY: nat := 3
  const REG_DWORD: nat := 4
  const REG_MULTI_SZ: nat := 7
  const REG_QWORD: nat := 11

  datatype Snapshot = Snapshot(
    hive: string, path: string, name: string, present: bool, kind: nat,
    text: string, strings: seq<string>, bytes: seq<Byte>)

  datatype ExtensionAudit = ExtensionAudit(
    extension: string,
    hklmPropertyHandler: Snapshot, hkcuPropertyHandler: Snapshot, hkcrDefaultProgId: Snapshot,
    hkcrContentType: Snapshot, hkcrPerceivedType: Snapshot, hkcrShellExPropertyHandler: Snapshot,
    extensionPropertyLists: seq<Snapshot>, progIdPropertyLists: seq<Snapshot>, imagePropertyLists: seq<Snapshot>)

  predicate IsText(kind: nat) {
    kind == REG_SZ || kind == REG_EXPAND_SZ
  }

  function TypeName(kind: nat): string {
    if kind == REG_NONE then "REG_NONE"
    else if kind == REG_SZ then "REG_SZ"
    else if kind == REG_EXPAND_SZ then "REG_EXPAND_SZ"
    else if kind == REG_BINARY then "REG_BINARY"
    else if kind == REG_DWORD then "REG_DWORD"
    else if kind == REG_MULTI_SZ then "REG_MULTI_SZ"
    else if kind == REG_QWORD then "REG_QWORD"
    else "REG_TYPE_" + NumberText(kind)
  }

  function ShownName(name: string): string {
    if name == "" then "(Default)" else name
  }

  // ---------------------------------------------------------------- what is printed

  function HexText(bytes: seq<Byte>): string {
    if bytes == [] then "" else [HexDigit(bytes[0] / 16), HexDigit(bytes[0] % 16)] + HexText(bytes[1..])
  }

  function Strings(texts: seq<string>): (items: seq<Json>)
    ensures |items| == |texts|
  {
    seq(|texts|, i requires 0 <= i < |texts| => Json.String(texts[i]))
  }

  function DataMember(v: Snapshot): Member {
    if !v.present then Member("data", Null)
    else if IsText(v.kind) then Member("data", Json.String(v.text))
    else if v.kind == REG_MULTI_SZ then Member("data", Array(Strings(v.strings)))
    else Member("dataHex", Json.String(HexText(v.bytes)))
  }

  function ValueMembers(v: Snapshot): seq<Member> {
    [Member("hive", Json.String(v.hive)), Member("path", Json.String(v.path)),
      Member("name", Json.String(ShownName(v.name))),
     Member("exists", Json.Bool(v.present)), Member("type", Json.Number(v.kind)),
       Member("typeName", Json.String(TypeName(v.kind))),
     DataMember(v)]
  }

  function ValueJson(v: Snapshot): Json {
    Object(ValueMembers(v))
  }

  function Values(vs: seq<Snapshot>): (items: seq<Json>)
    ensures |items| == |vs|
  {
    seq(|vs|, i requires 0 <= i < |vs| => ValueJson(vs[i]))
  }

  function ExtensionMembers(a: ExtensionAudit): seq<Member> {
    [Member("extension", Json.String(a.extension)),
     Member("hklmPropertyHandler", ValueJson(a.hklmPropertyHandler)),
     Member("hkcuPropertyHandler", ValueJson(a.hkcuPropertyHandler)),
     Member("hkcrDefaultProgId", ValueJson(a.hkcrDefaultProgId)),
     Member("hkcrContentType", ValueJson(a.hkcrContentType)),
     Member("hkcrPerceivedType", ValueJson(a.hkcrPerceivedType)),
     Member("hkcrShellExPropertyHandler", ValueJson(a.hkcrShellExPropertyHandler)),
     Member("extensionPropertyLists", Array(Values(a.extensionPropertyLists))),
     Member("progIdPropertyLists", Array(Values(a.progIdPropertyLists))),
     Member("imagePropertyLists", Array(Values(a.imagePropertyLists)))]
  }

  function Extensions(audits: seq<ExtensionAudit>): (items: seq<Json>)
    ensures |items| == |audits|
  {
    seq(|audits|, i requires 0 <= i < |audits| => Object(ExtensionMembers(audits[i])))
  }

  function Names(audits: seq<ExtensionAudit>): (names: seq<string>)
    ensures |names| == |audits|
  {
    seq(|audits|, i requires 0 <= i < |audits| => audits[i].extension)
  }

  function AuditMembers(audits: seq<ExtensionAudit>): seq<Member> {
    [Member("schemaVersion", Json.Number(1)), Member("phase", Json.String("safe-readonly")),
     Member("supportedExtensions", Array(Strings(Names(audits)))), Member("extensions", Array(Extensions(audits)))]
  }

  function AuditJson(audits: seq<ExtensionAudit>): Json {
    Object(AuditMembers(audits))
  }

  // ---------------------------------------------------------------- the printers

  lemma ObjectText(members: seq<Member>)
    ensures "{" + Joined(Texts(members)) + "}" == Print(Object(members))
  {
    hide Joined, PrintMembers;
    JoinedIsPrinted(members);
  }

  lemma {:induction false} HexIsPlain(bytes: seq<Byte>)
    ensures IsPlain(HexText(bytes))
  {
    if bytes != [] {
      HexIsPlain(bytes[1..]);
    }
  }

  method HexOf(bytes: seq<Byte>) returns (hex: string)
    ensures hex == HexText(bytes)
  {
    hex := "";
    for i := 0 to |bytes|
      invariant hex + HexText(bytes[i..]) == HexText(bytes)
    {
      var d := [HexDigit(bytes[i] / 16), HexDigit(bytes[i] % 16)];
      assert bytes[i..][1..] == bytes[i + 1..];
      Assoc(hex, d, HexText(bytes[i + 1..]));
      hex := hex + d;
    }
    assert hex + "" == hex;
  }

  lemma ItemsPrefixGrows(items: seq<Json>, i: nat)
    requires i < |items|
    ensures PrintItems(items[..i + 1]) == PrintItems(items[..i]) + (if i == 0 then "" else ",") + Print(items[i])
  {
    hide PrintItems, Print;
    assert items[..i + 1] == items[..i] + [items[i]];
    ItemsGrow(items[..i], items[i]);
  }

  method StringArray(texts: seq<string>) returns (arr: string)
    ensures arr == Print(Array(Strings(texts)))
  {
    hide Escape;
    ghost var items := Strings(texts);
    arr := "[";
    for i := 0 to |texts|
      invariant arr == "[" + PrintItems(items[..i])
    {
      ItemsPrefixGrows(items, i);
      if i > 0 {
        arr := arr + ",";
      }
      var escaped := JsonEscape(texts[i]);
      arr := arr + ("\"" + escaped + "\"");
    }
    assert items[..|texts|] == items;
    arr := arr + "]";
  }

  lemma ValueTexts(v: Snapshot)
    ensures Texts(ValueMembers(v)) ==
      [PrintMember(Member("hive", Json.String(v.hive)))] + [PrintMember(Member("path", Json.String(v.path)))] +
      [PrintMember(Member("name", Json.String(ShownName(v.name))))] +
        [PrintMember(Member("exists", Json.Bool(v.present)))] +
      [PrintMember(Member("type", Json.Number(v.kind)))] +
        [PrintMember(Member("typeName", Json.String(TypeName(v.kind))))] +
      [PrintMember(DataMember(v))]
  {
    hide PrintMember, ShownName, TypeName, DataMember;
  }

  lemma DataText(v: Snapshot)
    ensures PrintMember(DataMember(v)) ==
      if !v.present then Quoted("data") + ":" + "null"
      else if IsText(v.kind) then PrintMember(Member("data", Json.String(v.text)))
      else if v.kind == REG_MULTI_SZ then Quoted("data") + ":" + Print(Array(Strings(v.strings)))
      else Quoted("dataHex") + ":" + ("\"" + HexText(v.bytes) + "\"")
  {
    hide Escape, HexText;
    HexIsPlain(v.bytes);
    PlainStays(HexText(v.bytes));
  }

  method AppendRegistryValueJson(out: OutputStream, value: Snapshot)
    modifies out
    ensures out.text == old(out.text) + Print(ValueJson(value))
  {
    hide Quoted, Print, PrintMember, DataMember, ValueMembers, TypeName, ShownName, Joined, Texts;
    var obj := new JsonObjectWriter(out);
    obj.String("hive", value.hive);
    obj.String("path", value.path);
    obj.String("name", ShownName(value.name));
    obj.Bool("exists", value.present);
    obj.Number("type", value.kind);
    obj.String("typeName", TypeName(value.kind));
    AppendData(obj, value);
    ValueTexts(value);
    assert obj.members == Texts(ValueMembers(value));
    obj.Close();
    ObjectText(ValueMembers(value));
  }

  /** The last member, whose name depends on the kind. */
  method AppendData(obj: JsonObjectWriter, value: Snapshot)
    requires obj.Valid()
    modifies obj, obj.out
    ensures obj.Valid() && obj.members == old(obj.members) + [PrintMember(DataMember(value))]
  {
    hide Quoted, Print, PrintMember, DataMember, IsText, HexText, Strings, Joined;
    if !value.present {
      obj.Raw("data", "null");
    } else if IsText(value.kind) {
      obj.String("data", value.text);
    } else if value.kind == REG_MULTI_SZ {
      var arr := StringArray(value.strings);
      obj.Raw("data", arr);
    } else {
      var hex := HexOf(value.bytes);
      obj.Raw("dataHex", "\"" + hex + "\"");
    }
    DataText(value);
  }

  method AppendRegistryValueArray(out: OutputStream, values: seq<Snapshot>)
    modifies out
    ensures out.text == old(out.text) + Print(Array(Values(values)))
  {
    hide ValueJson, PrintItems;
    ghost var was, items := out.text, Values(values);
    EmptyPrints();
    assert items[..0] == [];
    out.Write("[");
    for i := 0 to |values|
      invariant out.text == was + ("[" + PrintItems(items[..i]))
    {
      ghost var part, comma, v := PrintItems(items[..i]), if i > 0 then "," else "", Print(items[i]);
      ItemsPrefixGrows(items, i);
      if i > 0 {
        out.Write(",");
      }
      AppendRegistryValueJson(out, values[i]);
      Appended(was, "[" + part, comma, v);
      Appended("[", part, comma, v);
    }
    assert items[..|values|] == items;
    Assoc(was, "[" + PrintItems(items), "]");
    out.Write("]");
  }

  lemma Appended(a: string, b: string, c: string, d: string)
    ensures a + b + c + d == a + (b + c + d)
  {
  }

  /** The text of one value, from a stream of its own. */
  method ValueText(value: Snapshot) returns (text: string)
    ensures text == Print(ValueJson(value))
  {
    hide Print, ValueJson;
    var s := new OutputStream();
    AppendRegistryValueJson(s, value);
    text := s.text;
    assert "" + Print(ValueJson(value)) == Print(ValueJson(value));
  }

  method ArrayText(values: seq<Snapshot>) returns (text: string)
    ensures text == Print(Array(Values(values)))
  {
    hide Print, Values;
    var s := new OutputStream();
    AppendRegistryValueArray(s, values);
    text := s.text;
    assert "" + Print(Array(Values(values))) == Print(Array(Values(values)));
  }

  lemma RawText(name: string, v: Json)
    ensures Quoted(name) + ":" + Print(v) == PrintMember(Member(name, v))
  {
  }

  method AppendValue(obj: JsonObjectWriter, name: string, value: Snapshot)
    requires obj.Valid()
    modifies obj, obj.out
    ensures obj.Valid() && obj.members == old(obj.members) + [PrintMember(Member(name, ValueJson(value)))]
  {
    hide *;
    var text := ValueText(value);
    RawText(name, ValueJson(value));
    obj.Raw(name, text);
  }

  method AppendArray(obj: JsonObjectWriter, name: string, values: seq<Snapshot>)
    requires obj.Valid()
    modifies obj, obj.out
    ensures obj.Valid() && obj.members == old(obj.members) + [PrintMember(Member(name, Array(Values(values))))]
  {
    hide *;
    var text := ArrayText(values);
    RawText(name, Array(Values(values)));
    obj.Raw(name, text);
  }

  function HandlerTexts(a: ExtensionAudit): seq<string> {
    [PrintMember(Member("extension", Json.String(a.extension)))] +
    [PrintMember(Member("hklmPropertyHandler", ValueJson(a.hklmPropertyHandler)))] +
    [PrintMember(Member("hkcuPropertyHandler", ValueJson(a.hkcuPropertyHandler)))] +
    [PrintMember(Member("hkcrDefaultProgId", ValueJson(a.hkcrDefaultProgId)))] +
    [PrintMember(Member("hkcrContentType", ValueJson(a.hkcrContentType)))] +
    [PrintMember(Member("hkcrPerceivedType", ValueJson(a.hkcrPerceivedType)))] +
    [PrintMember(Member("hkcrShellExPropertyHandler", ValueJson(a.hkcrShellExPropertyHandler)))]
  }

  function ListTexts(a: ExtensionAudit): seq<string> {
    [PrintMember(Member("extensionPropertyLists", Array(Values(a.extensionPropertyLists))))] +
    [PrintMember(Member("progIdPropertyLists", Array(Values(a.progIdPropertyLists))))] +
    [PrintMember(Member("imagePropertyLists", Array(Values(a.imagePropertyLists))))]
  }

  lemma ExtensionTexts(a: ExtensionAudit)
    ensures Texts(ExtensionMembers(a)) == HandlerTexts(a) + ListTexts(a)
  {
    hide PrintMember, ValueJson, Values;
  }

  /** The values of an extension, each from a stream of its own. */
  method AppendHandlers(obj: JsonObjectWriter, audit: ExtensionAudit)
    requires obj.Valid() && obj.members == []
    modifies obj, obj.out
    ensures obj.Valid() && obj.members == HandlerTexts(audit)
  {
    hide PrintMember, ValueJson, Joined;
    obj.String("extension", audit.extension);
    AppendValue(obj, "hklmPropertyHandler", audit.hklmPropertyHandler);
    AppendValue(obj, "hkcuPropertyHandler", audit.hkcuPropertyHandler);
    AppendValue(obj, "hkcrDefaultProgId", audit.hkcrDefaultProgId);
    AppendValue(obj, "hkcrContentType", audit.hkcrContentType);
    AppendValue(obj, "hkcrPerceivedType", audit.hkcrPerceivedType);
    AppendValue(obj, "hkcrShellExPropertyHandler", audit.hkcrShellExPropertyHandler);
  }

  method AppendLists(obj: JsonObjectWriter, audit: ExtensionAudit)
    requires obj.Valid()
    modifies obj, obj.out
    ensures obj.Valid() && obj.members == old(obj.members) + ListTexts(audit)
  {
    hide PrintMember, Values, Joined;
    AppendArray(obj, "extensionPropertyLists", audit.extensionPropertyLists);
    AppendArray(obj, "progIdPropertyLists", audit.progIdPropertyLists);
    AppendArray(obj, "imagePropertyLists", audit.imagePropertyLists);
  }

  method AppendExtension(out: OutputStream, audit: ExtensionAudit)
    modifies out
    ensures out.text == old(out.text) + Print(Object(ExtensionMembers(audit)))
  {
    hide Print, HandlerTexts, ListTexts, ExtensionMembers, Texts, Joined;
    var obj := new JsonObjectWriter(out);
    AppendHandlers(obj, audit);
    AppendLists(obj, audit);
    ExtensionTexts(audit);
    obj.Close();
    ObjectText(ExtensionMembers(audit));
  }

  method AppendExtensions(out: OutputStream, audits: seq<ExtensionAudit>)
    modifies out
    ensures out.text == old(out.text) + PrintItems(Extensions(audits))
  {
    hide ExtensionMembers, PrintItems, Print;
    ghost var was, items := out.text, Extensions(audits);
    EmptyPrints();
    assert items[..0] == [];
    assert was + "" == was;
    for i := 0 to |audits|
      invariant out.text == was + PrintItems(items[..i])
    {
      ghost var part, comma, v := PrintItems(items[..i]), if i > 0 then "," else "", Print(items[i]);
      ItemsPrefixGrows(items, i);
      if i > 0 {
        out.Write(",");
      }
      AppendExtension(out, audits[i]);
      Appended(was, part, comma, v);
    }
    assert items[..|audits|] == items;
  }

  lemma FourMembers(a: Member, b: Member, c: Member, d: Member)
    ensures Print(Object([a, b, c, d])) ==
      "{" + (PrintMember(a) + "," + (PrintMember(b) + "," + (PrintMember(c) + "," + PrintMember(d)))) + "}"
  {
    hide PrintMember, PrintMembers;
    MembersCons(a, [b, c, d]);
    MembersCons(b, [c, d]);
    MembersCons(c, [d]);
    MembersCons(d, []);
    assert [a] + [b, c, d] == [a, b, c, d] && [b] + [c, d] == [b, c, d] && [c] + [d] == [c, d] && [d] + [] == [d];
    CommaFirst(PrintMember(a), PrintMembers([b, c, d]));
    CommaFirst(PrintMember(b), PrintMembers([c, d]));
    CommaFirst(PrintMember(c), PrintMembers([d]));
    assert PrintMember(d) + "" == PrintMember(d);
  }

  lemma CommaFirst(s: string, t: string)
    ensures s + ("," + t) == s + "," + t
  {
  }

  lemma PlainMember(name: string, v: Json)
    requires IsPlain(name)
    ensures PrintMember(Member(name, v)) == "\"" + name + "\"" + ":" + Print(v)
  {
    hide Escape, Print;
    PlainStays(name);
  }

  /** The names and the values that the source writes out by hand are what escaping would give. */
  lemma VersionText()
    ensures PrintMember(Member("schemaVersion", Json.Number(1))) + "," == "\"schemaVersion\":1,"
  {
    hide PrintMember;
    PlainMember("schemaVersion", Json.Number(1));
  }

  lemma PhaseText()
    ensures PrintMember(Member("phase", Json.String("safe-readonly"))) + "," == "\"phase\":\"safe-readonly\","
  {
    hide PrintMember, Escape;
    PlainMember("phase", Json.String("safe-readonly"));
    PlainStays("safe-readonly");
    assert "\"" + "phase" + "\"" + ":" == "\"phase\":";
    assert "\"" + "safe-readonly" + "\"" == "\"safe-readonly\"";
  }

  lemma SupportedText(names: Json)
    ensures PrintMember(Member("supportedExtensions", names)) == "\"supportedExtensions\":" + Print(names)
  {
    hide PrintMember, Print;
    PlainMember("supportedExtensions", names);
    assert "\"" + "supportedExtensions" + "\"" + ":" == "\"supportedExtensions\":";
  }

  lemma ExtensionsText(items: seq<Json>)
    ensures PrintMember(Member("extensions", Array(items))) == "\"extensions\":[" + PrintItems(items) + "]"
  {
    hide PrintMember, PrintItems;
    PlainMember("extensions", Array(items));
    assert "\"" + "extensions" + "\"" + ":" == "\"extensions\":";
    Bracket("\"extensions\":", PrintItems(items));
    assert "\"extensions\":" + "[" == "\"extensions\":[";
  }

  lemma Bracket(a: string, b: string)
    ensures a + ("[" + b + "]") == (a + "[") + b + "]"
  {
  }

  lemma Regroup(o: string, a: string, b: string, c: string, n: string, k: string, d: string, e: string, r: string,
      f: string)
    ensures o + a + b + c + n + k + d + e + (r + f) == o + (a + (b + (c + n + k + (d + e + r)))) + f
  {
    var p, x := o + a + b, c + n + k;
    Assoc(p, c, n);
    Assoc(p, c + n, k);
    Assoc(p, x, d);
    Assoc(p, x + d, e);
    var y := x + d + e;
    Assoc(p + y, r, f);
    Assoc(p, y, r);
    Assoc(x, d, e);
    Assoc(x, d + e, r);
    var z := x + (d + e + r);
    Assoc(o + a, b, z);
    Assoc(o, a, b + z);
  }

  lemma AuditText(audits: seq<ExtensionAudit>)
    ensures Print(AuditJson(audits)) ==
      "{" + "\"schemaVersion\":1," + "\"phase\":\"safe-readonly\"," + "\"supportedExtensions\":" +
        Print(Array(Strings(Names(audits)))) + "," +
      "\"extensions\":[" + PrintItems(Extensions(audits)) + "]}"
  {
    hide Print, PrintMember, PrintItems, Strings, Names, Extensions;
    var m := AuditMembers(audits);
    FourMembers(m[0], m[1], m[2], m[3]);
    VersionText();
    PhaseText();
    SupportedText(Array(Strings(Names(audits))));
    ExtensionsText(Extensions(audits));
    Regroup("{", PrintMember(m[0]) + ",", PrintMember(m[1]) + ",", "\"supportedExtensions\":",
      Print(Array(Strings(Names(audits)))), ",",
      "\"extensions\":[", PrintItems(Extensions(audits)), "]", "}");
  }

  method RegistryAuditToJson(audits: seq<ExtensionAudit>) returns (text: string)
    ensures text == Print(AuditJson(audits))
  {
    hide *;
    var out := new OutputStream();
    out.Write("{");
    out.Write("\"schemaVersion\":1,");
    out.Write("\"phase\":\"safe-readonly\",");
    out.Write("\"supportedExtensions\":");
    var names := StringArray(Names(audits));
    out.Write(names);
    out.Write(",");
    out.Write("\"extensions\":[");
    AppendExtensions(out, audits);
    out.Write("]}");
    text := out.text;
    assert "" + "{" == "{";
    AuditText(audits);
  }

  // ---------------------------------------------------------------- reading it back

  /** The value of the first member with this name. */
  function Field(members: seq<Member>, name: string): Option<Json> {
    if members == [] then None
    else if members[0].name == name then Some(members[0].value)
    else Field(members[1..], name)
  }

  lemma {:induction false} FieldAt(members: seq<Member>, i: nat)
    requires i < |members| && forall k | 0 <= k < i :: members[k].name != members[i].name
    ensures Field(members, members[i].name) == Some(members[i].value)
  {
    if i > 0 {
      FieldAt(members[1..], i - 1);
    }
  }

  function FromHex(s: string): Option<seq<Byte>> {
    if s == "" then Some([])
    else if |s| == 1 || !IsHex(s[0]) || !IsHex(s[1]) then None
    else
      var others := FromHex(s[2..]);
      if others.None? then None else Some([16 * HexValue(s[0]) + HexValue(s[1])] + others.value)
  }

  lemma {:induction false} HexReads(bytes: seq<Byte>)
    ensures FromHex(HexText(bytes)) == Some(bytes)
  {
    if bytes != [] {
      var s := HexText(bytes);
      assert s[2..] == HexText(bytes[1..]);
      HexReads(bytes[1..]);
      assert [bytes[0]] + bytes[1..] == bytes;
    }
  }

  /** The texts of an array of strings. */
  function TextsOf(items: seq<Json>): Option<seq<string>> {
    if items == [] then Some([])
    else
      var others := TextsOf(items[1..]);
      if !items[0].String? || others.None? then None else Some([items[0].text] + others.value)
  }

  lemma {:induction false} StringsRead(texts: seq<string>)
    ensures TextsOf(Strings(texts)) == Some(texts)
  {
    if texts != [] {
      StringsRead(texts[1..]);
      assert Strings(texts)[1..] == Strings(texts[1..]);
      assert [texts[0]] + texts[1..] == texts;
    }
  }

  /** What printing keeps of a value: the data of its kind, and the name up to the empty one. */
  function Kept(v: Snapshot): Snapshot {
    v.(name := ShownName(v.name),
       text := if v.present && IsText(v.kind) then v.text else "",
       strings := if v.present && v.kind == REG_MULTI_SZ then v.strings else [],
       bytes := if v.present && !IsText(v.kind) && v.kind != REG_MULTI_SZ then v.bytes else [])
  }

  function ReadData(members: seq<Member>, v: Snapshot): Option<Snapshot> {
    if !v.present then Some(v)
    else if IsText(v.kind) then
      match Field(members, "data")
      case Some(String(t)) => Some(v.(text := t))
      case _ => None
    else if v.kind == REG_MULTI_SZ then
      match Field(members, "data")
      case Some(Array(items)) => if TextsOf(items).None? then None else Some(v.(strings := TextsOf(items).value))
      case _ => None
    else
      match Field(members, "dataHex")
      case Some(String(t)) => if FromHex(t).None? then None else Some(v.(bytes := FromHex(t).value))
      case _ => None
  }

  /** A value from its JSON, looking members up by name. */
  function ReadValue(j: Json): Option<Snapshot> {
    if !j.Object? then None
    else
      match (Field(j.members, "hive"), Field(j.members, "path"), Field(j.members, "name"), Field(j.members, "exists"),
        Field(j.members, "type"))
      case (Some(String(hive)), Some(String(path)), Some(String(name)), Some(Bool(present)), Some(Number(kind))) =>
        ReadData(j.members, Snapshot(hive, path, name, present, kind, "", [], []))
      case _ => None
  }

  lemma ValueFields(v: Snapshot)
    ensures var m := ValueMembers(v);
      && Field(m, "hive") == Some(Json.String(v.hive)) && Field(m, "path") == Some(Json.String(v.path))
      && Field(m, "name") == Some(Json.String(ShownName(v.name))) && Field(m, "exists") == Some(Json.Bool(v.present))
      && Field(m, "type") == Some(Json.Number(v.kind)) && Field(m, DataMember(v).name) == Some(DataMember(v).value)
  {
    hide Field, ShownName, TypeName, HexText, Strings;
    var m := ValueMembers(v);
    assert m[0].name == "hive" && m[1].name == "path" && m[2].name == "name" && m[3].name == "exists" &&
      m[4].name == "type";
    assert m[5].name == "typeName" && (m[6].name == "data" || m[6].name == "dataHex");
    assert |m[6].name| == 4 || |m[6].name| == 7;
    FieldAt(m, 0);
    FieldAt(m, 1);
    FieldAt(m, 2);
    FieldAt(m, 3);
    FieldAt(m, 4);
    FieldAt(m, 6);
  }

  lemma ValueReads(v: Snapshot)
    ensures ReadValue(ValueJson(v)) == Some(Kept(v))
  {
    hide Field, FromHex, TextsOf, HexText, Strings, ValueMembers, ShownName;
    ValueFields(v);
    HexReads(v.bytes);
    StringsRead(v.strings);
  }

  function KeptAll(vs: seq<Snapshot>): (r: seq<Snapshot>)
    ensures |r| == |vs|
  {
    seq(|vs|, i requires 0 <= i < |vs| => Kept(vs[i]))
  }

  function ReadValues(items: seq<Json>): Option<seq<Snapshot>> {
    if items == [] then Some([])
    else
      var first, others := ReadValue(items[0]), ReadValues(items[1..]);
      if first.None? || others.None? then None else Some([first.value] + others.value)
  }

  lemma {:induction false} ValuesRead(vs: seq<Snapshot>)
    ensures ReadValues(Values(vs)) == Some(KeptAll(vs))
  {
    hide ReadValue, ValueJson, Kept;
    if vs != [] {
      ValueReads(vs[0]);
      ValuesRead(vs[1..]);
      assert Values(vs)[1..] == Values(vs[1..]);
      assert [Kept(vs[0])] + KeptAll(vs[1..]) == KeptAll(vs);
    } else {
      assert KeptAll(vs) == [];
    }
  }

  function KeptAudit(a: ExtensionAudit): ExtensionAudit {
    ExtensionAudit(a.extension, Kept(a.hklmPropertyHandler), Kept(a.hkcuPropertyHandler), Kept(a.hkcrDefaultProgId),
      Kept(a.hkcrContentType), Kept(a.hkcrPerceivedType), Kept(a.hkcrShellExPropertyHandler),
      KeptAll(a.extensionPropertyLists), KeptAll(a.progIdPropertyLists), KeptAll(a.imagePropertyLists))
  }

  function ValueField(members: seq<Member>, name: string): Option<Snapshot> {
    var f := Field(members, name);
    if f.None? then None else ReadValue(f.value)
  }

  function ListField(members: seq<Member>, name: string): Option<seq<Snapshot>> {
    match Field(members, name)
    case Some(Array(items)) => ReadValues(items)
    case _ => None
  }

  function ReadExtension(j: Json): Option<ExtensionAudit> {
    if !j.Object? then None
    else
      var m := j.members;
      match (Field(m, "extension"),
             ValueField(m, "hklmPropertyHandler"), ValueField(m, "hkcuPropertyHandler"),
               ValueField(m, "hkcrDefaultProgId"),
             ValueField(m, "hkcrContentType"), ValueField(m, "hkcrPerceivedType"),
               ValueField(m, "hkcrShellExPropertyHandler"),
             ListField(m, "extensionPropertyLists"), ListField(m, "progIdPropertyLists"),
               ListField(m, "imagePropertyLists"))
      case (Some(String(e)), Some(a), Some(b), Some(c), Some(d), Some(f), Some(g), Some(x), Some(y), Some(z)) =>
        Some(ExtensionAudit(e, a, b, c, d, f, g, x, y, z))
      case _ => None
  }

  predicate NamesDiffer(members: seq<Member>) {
    forall i, j | 0 <= i < j < |members| :: members[i].name != members[j].name
  }

  lemma FieldOf(members: seq<Member>, i: nat)
    requires NamesDiffer(members) && i < |members|
    ensures Field(members, members[i].name) == Some(members[i].value)
  {
    FieldAt(members, i);
  }

  lemma ExtensionNamesDiffer(a: ExtensionAudit)
    ensures NamesDiffer(ExtensionMembers(a))
  {
    hide ValueJson, Values;
    var m := ExtensionMembers(a);
    assert |m[0].name| == 9 && |m[1].name| == 19 && |m[2].name| == 19 && |m[3].name| == 17 && |m[4].name| == 15;
    assert |m[5].name| == 17 && |m[6].name| == 26 && |m[7].name| == 22 && |m[8].name| == 19 && |m[9].name| == 18;
    assert m[1].name[2] == 'l' && m[2].name[2] == 'c' && m[8].name[2] == 'o';
    assert m[3].name[4] == 'D' && m[5].name[4] == 'P';
  }

  lemma ValueFieldOf(members: seq<Member>, i: nat, v: Snapshot)
    requires NamesDiffer(members) && i < |members| && members[i].value == ValueJson(v)
    ensures ValueField(members, members[i].name) == Some(Kept(v))
  {
    hide Field, ReadValue, ValueJson, Kept;
    FieldOf(members, i);
    ValueReads(v);
  }

  lemma ListFieldOf(members: seq<Member>, i: nat, vs: seq<Snapshot>)
    requires NamesDiffer(members) && i < |members| && members[i].value == Array(Values(vs))
    ensures ListField(members, members[i].name) == Some(KeptAll(vs))
  {
    hide Field, ReadValues, Values, KeptAll;
    FieldOf(members, i);
    ValuesRead(vs);
  }

  lemma ExtensionReads(a: ExtensionAudit)
    ensures ReadExtension(Object(ExtensionMembers(a))) == Some(KeptAudit(a))
  {
    hide NamesDiffer, Field, ValueField, ListField, ValueJson, Values, Kept, KeptAll;
    ExtensionNamesDiffer(a);
    var m := ExtensionMembers(a);
    FieldOf(m, 0);
    ValueFieldOf(m, 1, a.hklmPropertyHandler);
    ValueFieldOf(m, 2, a.hkcuPropertyHandler);
    ValueFieldOf(m, 3, a.hkcrDefaultProgId);
    ValueFieldOf(m, 4, a.hkcrContentType);
    ValueFieldOf(m, 5, a.hkcrPerceivedType);
    ValueFieldOf(m, 6, a.hkcrShellExPropertyHandler);
    ListFieldOf(m, 7, a.extensionPropertyLists);
    ListFieldOf(m, 8, a.progIdPropertyLists);
    ListFieldOf(m, 9, a.imagePropertyLists);
  }

  function KeptAudits(audits: seq<ExtensionAudit>): (r: seq<ExtensionAudit>)
    ensures |r| == |audits|
  {
    seq(|audits|, i requires 0 <= i < |audits| => KeptAudit(audits[i]))
  }

  function ReadExtensions(items: seq<Json>): Option<seq<ExtensionAudit>> {
    if items == [] then Some([])
    else
      var first, others := ReadExtension(items[0]), ReadExtensions(items[1..]);
      if first.None? || others.None? then None else Some([first.value] + others.value)
  }

  lemma {:induction false} ExtensionsRead(audits: seq<ExtensionAudit>)
    ensures ReadExtensions(Extensions(audits)) == Some(KeptAudits(audits))
  {
    hide ReadExtension, ExtensionMembers, KeptAudit;
    if audits != [] {
      ExtensionReads(audits[0]);
      ExtensionsRead(audits[1..]);
      assert Extensions(audits)[1..] == Extensions(audits[1..]);
      assert [KeptAudit(audits[0])] + KeptAudits(audits[1..]) == KeptAudits(audits);
    } else {
      assert KeptAudits(audits) == [];
    }
  }

  /** An audit from its text. */
  function ReadAudit(text: string): Option<seq<ExtensionAudit>> {
    var j := ParseText(text);
    if j.None? || !j.value.Object? then None
    else
      match Field(j.value.members, "extensions")
      case Some(Array(items)) => ReadExtensions(items)
      case _ => None
  }

  /** The text of every audit is well-formed, and reads back as the audit, up to what printing does not keep. */
  lemma AuditReads(audits: seq<ExtensionAudit>)
    ensures ReadAudit(Print(AuditJson(audits))) == Some(KeptAudits(audits))
  {
    hide Field, ParseText, Print, ReadExtensions, KeptAudits, Extensions, Strings, Names;
    ParsesWhatWasPrinted(AuditJson(audits));
    var m := AuditMembers(audits);
    assert |m[0].name| == 13 && |m[1].name| == 5 && |m[2].name| == 19 && |m[3].name| == 10;
    FieldAt(m, 3);
    ExtensionsRead(audits);
  }

  /** The other members: a version, a phase, and the extensions in order. */
  lemma HeadReads(audits: seq<ExtensionAudit>)
    ensures var j := ParseText(Print(AuditJson(audits)));
      && j.Some? && j.value.Object?
      && Field(j.value.members, "schemaVersion") == Some(Json.Number(1))
      && Field(j.value.members, "phase") == Some(Json.String("safe-readonly"))
      && Field(j.value.members, "supportedExtensions") == Some(Array(Strings(Names(audits))))
  {
    hide Field, ParseText, Print, Extensions, Strings, Names;
    ParsesWhatWasPrinted(AuditJson(audits));
    var m := AuditMembers(audits);
    assert |m[0].name| == 13 && |m[1].name| == 5 && |m[2].name| == 19 && |m[3].name| == 10;
    FieldAt(m, 0);
    FieldAt(m, 1);
    FieldAt(m, 2);
  }

  /** The type of a value stands there by its name too. */
  lemma TypeNameReads(v: Snapshot)
    ensures Field(ValueMembers(v), "typeName") == Some(Json.String(TypeName(v.kind)))
    ensures TypeName(0) == "REG_NONE" && TypeName(1) == "REG_SZ" && TypeName(2) == "REG_EXPAND_SZ" &&
      TypeName(3) == "REG_BINARY"
    ensures TypeName(4) == "REG_DWORD" && TypeName(7) == "REG_MULTI_SZ" && TypeName(11) == "REG_QWORD"
    ensures v.kind !in {0, 1, 2, 3, 4, 7, 11} ==> TypeName(v.kind) == "REG_TYPE_" + NumberText(v.kind)
  {
    hide Field, HexText, Strings, ShownName, NumberText, DataMember;
    var m := ValueMembers(v);
    assert m[5].name == "typeName" && |m[0].name| == 4 && |m[1].name| == 4 && |m[2].name| == 4 && |m[3].name| == 6 &&
      |m[4].name| == 4;
    FieldAt(m, 5);
  }

  /** Bytes print as two digits each, in lower case, the high one first. */
  lemma HexIsLowerCase()
    ensures HexText([0x0A, 0xBF, 0x90]) == "0abf90"
  {
    assert HexText([0x90]) == "90" by {
      assert [0x90][1..] == [];
    }
    assert [0xBF, 0x90][1..] == [0x90] && [0x0A, 0xBF, 0x90][1..] == [0xBF, 0x90];
    assert HexText([0xBF, 0x90]) == "bf90";
  }

  // ---------------------------------------------------------------- exactly that much is kept

  lemma KeptPrintsTheSame(v: Snapshot)
    ensures ValueJson(Kept(v)) == ValueJson(v)
  {
    hide TypeName, HexText, Strings;
  }

  lemma KeptAllPrintTheSame(vs: seq<Snapshot>)
    ensures Values(KeptAll(vs)) == Values(vs)
  {
    hide ValueJson, Kept;
    forall i | 0 <= i < |vs|
      ensures Values(KeptAll(vs))[i] == Values(vs)[i]
    {
      KeptPrintsTheSame(vs[i]);
    }
  }

  lemma KeptAuditPrintsTheSame(a: ExtensionAudit)
    ensures ExtensionMembers(KeptAudit(a)) == ExtensionMembers(a)
  {
    hide ValueJson, Kept, Values, KeptAll;
    KeptPrintsTheSame(a.hklmPropertyHandler);
    KeptPrintsTheSame(a.hkcuPropertyHandler);
    KeptPrintsTheSame(a.hkcrDefaultProgId);
    KeptPrintsTheSame(a.hkcrContentType);
    KeptPrintsTheSame(a.hkcrPerceivedType);
    KeptPrintsTheSame(a.hkcrShellExPropertyHandler);
    KeptAllPrintTheSame(a.extensionPropertyLists);
    KeptAllPrintTheSame(a.progIdPropertyLists);
    KeptAllPrintTheSame(a.imagePropertyLists);
  }

  lemma KeptAuditsPrintTheSame(audits: seq<ExtensionAudit>)
    ensures AuditJson(KeptAudits(audits)) == AuditJson(audits)
  {
    hide KeptAudit, ExtensionMembers, Strings;
    forall i | 0 <= i < |audits|
      ensures Extensions(KeptAudits(audits))[i] == Extensions(audits)[i] &&
        Names(KeptAudits(audits))[i] == Names(audits)[i]
    {
      KeptAuditPrintsTheSame(audits[i]);
      SameExtension(audits[i]);
    }
    assert Extensions(KeptAudits(audits)) == Extensions(audits);
    assert Names(KeptAudits(audits)) == Names(audits);
  }

  lemma SameExtension(a: ExtensionAudit)
    ensures KeptAudit(a).extension == a.extension
  {
  }

  /** Two audits have the same text exactly when they agree on all that is kept: names up to the empty one, and the data
      of each kind. */
  lemma SameTextExactly(a: seq<ExtensionAudit>, b: seq<ExtensionAudit>)
    ensures Print(AuditJson(a)) == Print(AuditJson(b)) <==> KeptAudits(a) == KeptAudits(b)
  {
    hide *;
    AuditReads(a);
    AuditReads(b);
    KeptAuditsPrintTheSame(a);
    KeptAuditsPrintTheSame(b);
  }

  /** Whether two values show the same: a missing name shows as "(Default)", and of the data only what the type
      calls for. */
  predicate ShowTheSame(v: Snapshot, w: Snapshot) {
    && v.hive == w.hive && v.path == w.path && v.present == w.present && v.kind == w.kind
    && (v.name == w.name || (v.name in {"", "(Default)"} && w.name in {"", "(Default)"}))
    && (v.present && v.kind in {1, 2} ==> v.text == w.text)
    && (v.present && v.kind == 7 ==> v.strings == w.strings)
    && (v.present && v.kind !in {1, 2, 7} ==> v.bytes == w.bytes)
  }

  predicate AllShowTheSame(vs: seq<Snapshot>, ws: seq<Snapshot>) {
    |vs| == |ws| && forall i | 0 <= i < |vs| :: ShowTheSame(vs[i], ws[i])
  }

  predicate ExtensionsShowTheSame(a: ExtensionAudit, b: ExtensionAudit) {
    && a.extension == b.extension
    && ShowTheSame(a.hklmPropertyHandler, b.hklmPropertyHandler)
    && ShowTheSame(a.hkcuPropertyHandler, b.hkcuPropertyHandler)
    && ShowTheSame(a.hkcrDefaultProgId, b.hkcrDefaultProgId)
    && ShowTheSame(a.hkcrContentType, b.hkcrContentType)
    && ShowTheSame(a.hkcrPerceivedType, b.hkcrPerceivedType)
    && ShowTheSame(a.hkcrShellExPropertyHandler, b.hkcrShellExPropertyHandler)
    && AllShowTheSame(a.extensionPropertyLists, b.extensionPropertyLists)
    && AllShowTheSame(a.progIdPropertyLists, b.progIdPropertyLists)
    && AllShowTheSame(a.imagePropertyLists, b.imagePropertyLists)
  }

  lemma KeptShows(v: Snapshot, w: Snapshot)
    ensures Kept(v) == Kept(w) <==> ShowTheSame(v, w)
  {
  }

  lemma KeptAllShow(vs: seq<Snapshot>, ws: seq<Snapshot>)
    ensures KeptAll(vs) == KeptAll(ws) <==> AllShowTheSame(vs, ws)
  {
    hide Kept, ShowTheSame;
    forall i | 0 <= i < |vs| && i < |ws|
      ensures KeptAll(vs)[i] == KeptAll(ws)[i] <==> ShowTheSame(vs[i], ws[i])
    {
      KeptShows(vs[i], ws[i]);
    }
  }

  lemma KeptAuditShows(a: ExtensionAudit, b: ExtensionAudit)
    ensures KeptAudit(a) == KeptAudit(b) <==> ExtensionsShowTheSame(a, b)
  {
    hide Kept, KeptAll, ShowTheSame, AllShowTheSame;
    KeptShows(a.hklmPropertyHandler, b.hklmPropertyHandler);
    KeptShows(a.hkcuPropertyHandler, b.hkcuPropertyHandler);
    KeptShows(a.hkcrDefaultProgId, b.hkcrDefaultProgId);
    KeptShows(a.hkcrContentType, b.hkcrContentType);
    KeptShows(a.hkcrPerceivedType, b.hkcrPerceivedType);
    KeptShows(a.hkcrShellExPropertyHandler, b.hkcrShellExPropertyHandler);
    KeptAllShow(a.extensionPropertyLists, b.extensionPropertyLists);
    KeptAllShow(a.progIdPropertyLists, b.progIdPropertyLists);
    KeptAllShow(a.imagePropertyLists, b.imagePropertyLists);
  }

  /** The same, value by value. */
  lemma SameTextInPlainWords(a: seq<ExtensionAudit>, b: seq<ExtensionAudit>)
    ensures Print(AuditJson(a)) == Print(AuditJson(b)) <==>
      |a| == |b| && forall i | 0 <= i < |a| :: ExtensionsShowTheSame(a[i], b[i])
  {
    hide Print, AuditJson, KeptAudit, ExtensionsShowTheSame;
    SameTextExactly(a, b);
    forall i | 0 <= i < |a| && i < |b|
      ensures KeptAudits(a)[i] == KeptAudits(b)[i] <==> ExtensionsShowTheSame(a[i], b[i])
    {
      KeptAuditShows(a[i], b[i]);
    }
  }
}
