/** Registry locations and values as the installer sees them. Keys and names that the installer uses are constructors;
    `KeyPaths` shows that the paths they stand for differ, whatever the case of their letters. */
module Registry {
  import opened Common
  import opened PowerShell
  import opened Decimal

  const PROJECT_CLSID: string := "{D75F9AC7-4664-46F3-A1D4-881140DF6CBE}"

  lemma ProjectClsid()
    ensures PROJECT_CLSID == "{D75F9AC7-4664-46F3-A1D4-881140DF6CBE}"
  {
  }

  datatype Hive = HKLM | HKCU | HKCR

  /** The supported extensions. */
  datatype Ext = Png | Jpg | Jpeg | Tif | Tiff

  /** The extension the handler looks a file of this extension up under: it sees bytes, not names. */
  function Canonical(e: Ext): Ext {
    match e
    case Jpeg => Jpg
    case Tiff => Tif
    case other => other
  }

  datatype ListName = FullDetails | PreviewDetails | PreviewTitle | InfoTip | TileInfo | ExtendedTileInfo

  datatype KeyPath =
    | ProjectClass               // SOFTWARE\Classes\CLSID\{project}
    | InprocServer               // its InprocServer32 subkey
    | ProjectClassOther(sub: string)
    | OriginalHandler(ext: Ext)  // SOFTWARE\ImagePhysicalSizeShell\OriginalHandlers\<ext>
    | ProjectOther(sub: string)  // any other key under SOFTWARE\ImagePhysicalSizeShell, itself included
    | PropertyHandler(ext: Ext)  // ...\PropertySystem\PropertyHandlers\<ext>
    | FileAssociation(ext: Ext)  // SystemFileAssociations\<ext>
    | OtherKey(path: string)

  datatype ValueName = DefaultValue | ThreadingModel | OriginalClsid | ListValue(list: ListName)
    | OtherValue(name: string)

  datatype Loc = Loc(hive: Hive, path: KeyPath, name: ValueName)

  /** The keys that rollback removes with everything under them. */
  predicate InProjectTree(l: Loc) {
    && l.hive == HKLM
    && (l.path.ProjectClass? || l.path.InprocServer? || l.path.ProjectClassOther? || l.path.OriginalHandler? ||
        l.path.ProjectOther?)
  }

  // ---------------------------------------------------------------- values

  /** Values by type. `NoneKind` and `UnknownKind` are read as bytes: REG_NONE, and REG_DWORD_BIG_ENDIAN, for which .NET
      has no kind. Types that .NET does not decode, such as links and resource lists, are not among them. */
  datatype RegValue =
    | Sz(text: string)
    | ExpandSz(text: string)
    | Dword(number: nat)
    | Qword(number: nat)
    | MultiSz(lines: seq<string>)
    | Binary(blob: seq<Byte>)
    | NoneKind(blob: seq<Byte>)
    | UnknownKind(blob: seq<Byte>)

  datatype Kind = StringKind | ExpandStringKind | DwordKind | QwordKind | MultiStringKind | BinaryKind | NoneValueKind
    | UnknownValueKind

  /** A value as PowerShell holds it. */
  datatype Data = Text(text: string) | Number(number: nat) | Lines(lines: seq<string>) | Blob(blob: seq<Byte>)

  function KindOf(v: RegValue): Kind {
    match v
    case Sz(_) => StringKind
    case ExpandSz(_) => ExpandStringKind
    case Dword(_) => DwordKind
    case Qword(_) => QwordKind
    case MultiSz(_) => MultiStringKind
    case Binary(_) => BinaryKind
    case NoneKind(_) => NoneValueKind
    case UnknownKind(_) => UnknownValueKind
  }

  function DataOf(v: RegValue): Data {
    match v
    case Sz(t) => Text(t)
    case ExpandSz(t) => Text(t)
    case Dword(n) => Number(n)
    case Qword(n) => Number(n)
    case MultiSz(ls) => Lines(ls)
    case Binary(b) => Blob(b)
    case NoneKind(b) => Blob(b)
    case UnknownKind(b) => Blob(b)
  }

  /** `[string]$data`. */
  function PsString(d: Data): string {
    match d
    case Text(t) => t
    case Number(n) => NumberText(n)
    case Lines(ls) => Join(ls, ' ')
    case Blob(b) => Join(seq(|b|, i requires 0 <= i < |b| => NumberText(b[i])), ' ')
  }

  /** `[string]$null` is the empty string. */
  function PsText(d: Option<Data>): string {
    if d.None? then "" else PsString(d.value)
  }

  /** `if ($data)`. */
  predicate Truthy(d: Option<Data>) {
    d.Some? &&
    match d.value
    case Text(t) => t != ""
    case Number(n) => n != 0
    case Lines(ls) => |ls| > 1 || (|ls| == 1 && ls[0] != "")
    case Blob(b) => |b| > 1 || (|b| == 1 && b[0] != 0)
  }

  /** A number is true when it is not zero; an array when it has two elements, whatever they are, or one that is
      true. */
  lemma TruthOfData(n: nat, lines: seq<string>, blob: seq<Byte>)
    ensures Truthy(Some(Number(n))) <==> n > 0
    ensures Truthy(Some(Lines(lines))) <==> lines != [] && lines != [""]
    ensures Truthy(Some(Blob(blob))) <==> blob != [] && blob != [0]
  {
  }

  /** The text `RegistryKey.SetValue` stores for string kinds: `ToString()` of the object. */
  function ObjectText(d: Data): string {
    match d
    case Text(t) => t
    case Number(n) => NumberText(n)
    case Lines(_) => "System.String[]"
    case Blob(_) => "System.Byte[]"
  }

  /** A number is stored as its decimal digits; an array only as the name of its .NET type. */
  lemma StoredTexts(d: Data)
    ensures d.Number? ==> AllDigits(ObjectText(d)) && ParseNat(ObjectText(d)) == d.number
    ensures d.Lines? ==> ObjectText(d) == "System.String[]"
    ensures d.Blob? ==> ObjectText(d) == "System.Byte[]"
  {
    if d.Number? {
      ParseNumberText(d.number);
    }
  }

  /** What a write of `d` with kind `k` stores; None when the write throws. Kinds outside the six that
      `ConvertTo-RegistryValueKind` knows are written as strings. */
  function StoredValue(k: Kind, d: Data): Option<RegValue> {
    match k
    case ExpandStringKind => Some(ExpandSz(ObjectText(d)))
    case DwordKind => if d.Number? then Some(Dword(d.number)) else None
    case QwordKind => if d.Number? then Some(Qword(d.number)) else None
    case MultiStringKind => if d.Lines? then Some(MultiSz(d.lines)) else None
    case BinaryKind => if d.Blob? then Some(Binary(d.blob)) else None
    case _ => Some(Sz(ObjectText(d)))
  }

  predicate Restorable(v: RegValue) {
    !v.NoneKind? && !v.UnknownKind?
  }

  /** Writing a value back as it was read restores it exactly for the six known kinds, and never for another. */
  lemma WriteBackRestores(v: RegValue)
    ensures StoredValue(KindOf(v), DataOf(v)).Some?
    ensures StoredValue(KindOf(v), DataOf(v)) == Some(v) <==> Restorable(v)
  {
  }
}
