/** The key paths, value names and file names that the installer writes, as text: no two operations of a plan collide,
    even for an operating system that ignores the case of names. */
module KeyPaths {
  import opened Common
  import opened PowerShell
  import opened Registry
  import opened InstallPlan

  const CLASSES: string := "SOFTWARE\\Classes\\CLSID\\"
  const ORIGINALS: string := "SOFTWARE\\" + "ImagePhysicalSizeShell\\" + "OriginalHandlers\\"
  const HANDLERS: string := "SOFTWARE\\" + "Microsoft\\Windows\\" + "CurrentVersion\\" + "PropertySystem\\" +
    "PropertyHandlers\\"
  const ASSOCIATIONS: string := "SystemFileAssociations\\"

  function ExtText(e: Ext): string {
    match e
    case Png => ".png"
    case Jpg => ".jpg"
    case Jpeg => ".jpeg"
    case Tif => ".tif"
    case Tiff => ".tiff"
  }

  /** The keys a plan writes to. */
  predicate Written(p: KeyPath) {
    p.ProjectClass? || p.InprocServer? || p.OriginalHandler? || p.PropertyHandler? || p.FileAssociation?
  }

  function PathText(p: KeyPath): string
    requires Written(p)
  {
    match p
    case ProjectClass => CLASSES + PROJECT_CLSID
    case InprocServer => CLASSES + PROJECT_CLSID + "\\InprocServer32"
    case OriginalHandler(e) => ORIGINALS + ExtText(e)
    case PropertyHandler(e) => HANDLERS + ExtText(e)
    case FileAssociation(e) => ASSOCIATIONS + ExtText(e)
  }

  predicate WrittenName(n: ValueName) {
    !n.OtherValue?
  }

  function NameText(n: ValueName): string
    requires WrittenName(n)
  {
    match n
    case DefaultValue => ""
    case ThreadingModel => "ThreadingModel"
    case OriginalClsid => "OriginalClsid"
    case ListValue(FullDetails) => "FullDetails"
    case ListValue(PreviewDetails) => "PreviewDetails"
    case ListValue(PreviewTitle) => "PreviewTitle"
    case ListValue(InfoTip) => "InfoTip"
    case ListValue(TileInfo) => "TileInfo"
    case ListValue(ExtendedTileInfo) => "ExtendedTileInfo"
  }

  lemma ExtTextShape(e: Ext)
    ensures |ExtText(e)| == (if e.Jpeg? || e.Tiff? then 5 else 4)
    ensures Lower(ExtText(e)[1]) == (if e.Png? then 'p' else if e.Jpg? || e.Jpeg? then 'j' else 't')
  {
  }

  /** Behind a common prefix, different extensions stay different. */
  lemma ExtensionsDiffer(prefix: string, a: Ext, b: Ext)
    requires a != b
    ensures !EqNoCase(prefix + ExtText(a), prefix + ExtText(b))
  {
    ExtTextShape(a);
    ExtTextShape(b);
    hide ExtText, EqNoCase;
    assert (prefix + ExtText(a))[|prefix| + 1] == ExtText(a)[1] && (prefix + ExtText(b))[|prefix| + 1] == ExtText(b)[1];
    Differ(prefix + ExtText(a), prefix + ExtText(b), |prefix| + 1);
  }

  lemma PrefixLetters()
    ensures |CLASSES| > 9 && CLASSES[1] == 'O' && CLASSES[9] == 'C'
    ensures |ASSOCIATIONS| > 9 && ASSOCIATIONS[1] == 'y'
  {
  }

  lemma OriginalsLetters()
    ensures |ORIGINALS| > 9 && ORIGINALS[1] == 'O' && ORIGINALS[9] == 'I'
  {
  }

  lemma HandlersLetters()
    ensures |HANDLERS| > 9 && HANDLERS[1] == 'O' && HANDLERS[9] == 'M'
  {
  }

  /** The letters that tell the families of keys apart: the second one, and the tenth. */
  lemma FamilyLetters(p: KeyPath)
    requires Written(p)
    ensures |PathText(p)| > 9
    ensures Lower(PathText(p)[1]) == if p.FileAssociation? then 'y' else 'o'
    ensures !p.FileAssociation? ==>
      Lower(PathText(p)[9]) == if p.OriginalHandler? then 'i' else if p.PropertyHandler? then 'm' else 'c'
  {
    hide ExtText, CLASSES, ORIGINALS, HANDLERS, ASSOCIATIONS, PROJECT_CLSID;
    PrefixLetters();
    OriginalsLetters();
    HandlersLetters();
    match p
    case ProjectClass => assert PathText(p)[1] == CLASSES[1] && PathText(p)[9] == CLASSES[9];
    case InprocServer => assert PathText(p)[1] == CLASSES[1] && PathText(p)[9] == CLASSES[9];
    case OriginalHandler(e) => assert PathText(p)[1] == ORIGINALS[1] && PathText(p)[9] == ORIGINALS[9];
    case PropertyHandler(e) => assert PathText(p)[1] == HANDLERS[1] && PathText(p)[9] == HANDLERS[9];
    case FileAssociation(e) => assert PathText(p)[1] == ASSOCIATIONS[1];
  }

  lemma PathsDiffer(p: KeyPath, q: KeyPath)
    requires Written(p) && Written(q) && p != q
    ensures !EqNoCase(PathText(p), PathText(q))
  {
    FamilyLetters(p);
    FamilyLetters(q);
    hide EqNoCase, ExtText, CLASSES, ORIGINALS, HANDLERS, ASSOCIATIONS, PROJECT_CLSID;
    if p.OriginalHandler? && q.OriginalHandler? {
      ExtensionsDiffer(ORIGINALS, p.ext, q.ext);
    } else if p.PropertyHandler? && q.PropertyHandler? {
      ExtensionsDiffer(HANDLERS, p.ext, q.ext);
    } else if p.FileAssociation? && q.FileAssociation? {
      ExtensionsDiffer(ASSOCIATIONS, p.ext, q.ext);
    } else {
      hide PathText;
      ServerIsLonger();
      Differ(PathText(p), PathText(q), if p.FileAssociation? || q.FileAssociation? then 1 else 9);
    }
  }

  lemma ServerIsLonger()
    ensures |PathText(InprocServer)| > |PathText(ProjectClass)|
  {
  }

  lemma NamesDiffer(m: ValueName, n: ValueName)
    requires WrittenName(m) && WrittenName(n) && m != n
    ensures !EqNoCase(NameText(m), NameText(n))
  {
    NameShape(m);
    NameShape(n);
    hide NameText, EqNoCase;
    Differ(NameText(m), NameText(n), 0);
  }

  /** Length and first letter tell the value names apart. */
  lemma NameShape(n: ValueName)
    requires WrittenName(n)
    ensures |NameText(n)| == NameLength(n)
    ensures NameText(n) != "" ==>
      Lower(NameText(n)[0]) == if n.ThreadingModel? then 't' else if n.ListValue? && n.list.PreviewDetails? then 'p'
      else Lower(NameText(n)[0])
  {
  }

  function NameLength(n: ValueName): nat {
    match n
    case DefaultValue => 0
    case ThreadingModel => 14
    case OriginalClsid => 13
    case ListValue(FullDetails) => 11
    case ListValue(PreviewDetails) => 14
    case ListValue(PreviewTitle) => 12
    case ListValue(InfoTip) => 7
    case ListValue(TileInfo) => 8
    case ListValue(ExtendedTileInfo) => 16
    case OtherValue(_) => 0
  }

  lemma LeafShape(l: Leaf)
    ensures |LeafText(l)| == (
      match l
      case Dll(tag) => if tag.Some? then 27 + |tag.value| else 26
      case IpsDiag => 11
      case IpsConfigUi => 15
      case RegisterSchemaExe => 18
      case PropDesc => 26
      case Helper(IpsConfigScript) => 13
      case Helper(RollbackScript) => 12
      case Helper(UninstallScript) => 13
      case Helper(RepairScript) => 10
      case Helper(StatusScript) => 10
      case Helper(ShortcutsScript) => 21
      case Helper(EmergencyScript) => 22)
  {
  }

  lemma LeafLetters()
    ensures LeafText(Dll(None))[17] == 'S' && LeafText(PropDesc)[17] == '.'
    ensures LeafText(Helper(IpsConfigScript))[0] == 'i' && LeafText(Helper(UninstallScript))[0] == 'u'
    ensures LeafText(Helper(RepairScript))[0] == 'r' && LeafText(Helper(StatusScript))[0] == 's'
  {
  }

  /** Files with names of different length, or one of the three equally long pairs. A plan holds one DLL. */
  lemma LeavesDiffer(a: Leaf, b: Leaf)
    requires a != b && !(a.Dll? && b.Dll?)
    ensures !EqNoCase(LeafText(a), LeafText(b))
  {
    LeafShape(a);
    LeafShape(b);
    LeafLetters();
    hide LeafText, EqNoCase;
    Differ(LeafText(a), LeafText(b), if a.PropDesc? || b.PropDesc? then 17 else 0);
  }

  // ---------------------------------------------------------------- whole plans

  /** What an operation writes, as the operating system names it, without case. */
  datatype Name = ValueNamed(hive: Hive, path: string, name: string) | FileNamed(leaf: string)

  predicate Nameable(t: Target) {
    match t
    case RegTarget(l) => Written(l.path) && WrittenName(l.name)
    case FileTarget(p) => p.InstalledFile?
  }

  function NameOf(t: Target): Name
    requires Nameable(t)
  {
    match t
    case RegTarget(l) => ValueNamed(l.hive, Fold(PathText(l.path)), Fold(NameText(l.name)))
    case FileTarget(p) => FileNamed(Fold(LeafText(p.leaf)))
  }

  lemma NamesOfTargetsDiffer(t: Target, u: Target)
    requires Nameable(t) && Nameable(u) && t != u
    requires !(t.FileTarget? && u.FileTarget? && t.path.leaf.Dll? && u.path.leaf.Dll?)
    ensures NameOf(t) != NameOf(u)
  {
    hide PathText, NameText, LeafText, Fold;
    if t.FileTarget? && u.FileTarget? {
      LeavesDiffer(t.path.leaf, u.path.leaf);
    } else if t.RegTarget? && u.RegTarget? {
      if t.loc.path != u.loc.path {
        PathsDiffer(t.loc.path, u.loc.path);
      } else if t.loc.name != u.loc.name {
        NamesDiffer(t.loc.name, u.loc.name);
      }
    }
  }

  lemma {:induction false} ListOpsNameable(s: State, e: Ext, lists: seq<ListSnapshot>)
    requires WellFormedLists(e, lists) && forall i | 0 <= i < |lists| :: lists[i].loc.name.ListValue?
    ensures forall i | 0 <= i < |ListOps(s, e, lists)| ::
      Nameable(TargetOf(ListOps(s, e, lists)[i])) && TargetOf(ListOps(s, e, lists)[i]).RegTarget?
  {
    ListOpsTargets(s, e, lists);
    var ops := ListOps(s, e, lists);
    forall i | 0 <= i < |ops|
      ensures Nameable(TargetOf(ops[i])) && TargetOf(ops[i]).RegTarget?
    {
      assert IsListTarget(TargetOf(ops[i]), lists);
      var k :| 0 <= k < |lists| && lists[k].loc == TargetOf(ops[i]).loc;
    }
  }

  lemma {:induction false} BlocksNameable(s: State, audit: seq<ExtAudit>, shared: map<Ext, Data>)
    requires WellFormedAudit(audit)
    requires forall i | 0 <= i < |audit| :: forall k | 0 <= k < |audit[i].lists| ::
      audit[i].lists[k].loc.name.ListValue?
    ensures forall i | 0 <= i < |Blocks(s, audit, shared)| ::
      Nameable(TargetOf(Blocks(s, audit, shared)[i])) && TargetOf(Blocks(s, audit, shared)[i]).RegTarget?
  {
    hide ListOps, OriginalOf, WellFormedLists;
    if audit != [] {
      BlocksNameable(s, ButLast(audit), shared);
      var a := Last(audit);
      assert a == audit[|audit| - 1];
      ListOpsNameable(s, a.ext, a.lists);
    }
  }

  lemma BaseNameable(s: State, digits: string)
    ensures forall i | 0 <= i < |Base(s, digits)| ::
      && Nameable(TargetOf(Base(s, digits)[i]))
      && (i > 0 ==> !(TargetOf(Base(s, digits)[i]).FileTarget? && TargetOf(Base(s, digits)[i]).path.leaf.Dll?))
  {
    hide DllPath, DllTag;
    assert forall i | 0 <= i < |LEAVES_AFTER_DLL| :: !LEAVES_AFTER_DLL[i].Dll?;
  }

  /** No two operations of the plan for an audited machine write the same value or file, case ignored. */
  lemma NoTwoOperationsCollide(s: State, shared: map<Ext, Data>, digits: string, i: nat, j: nat)
    requires i < j < |Plan(s, FullAudit(s), shared, digits)|
    ensures var ops := Plan(s, FullAudit(s), shared, digits);
      && Nameable(TargetOf(ops[i])) && Nameable(TargetOf(ops[j]))
      && NameOf(TargetOf(ops[i])) != NameOf(TargetOf(ops[j]))
  {
    hide Base, Blocks, WellFormedAudit, FullAudit, NameOf, Nameable, TargetOf;
    var ops, audit := Plan(s, FullAudit(s), shared, digits), FullAudit(s);
    var base, blocks := Base(s, digits), Blocks(s, audit, shared);
    FullAuditIsWellFormed(s);
    PlanTargetsAreDistinct(s, audit, shared, digits);
    BaseNameable(s, digits);
    forall i | 0 <= i < |audit|
      ensures forall k | 0 <= k < |audit[i].lists| :: audit[i].lists[k].loc.name.ListValue?
    {
      AuditNames(s, i);
    }
    BlocksNameable(s, audit, shared);
    assert forall k | 0 <= k < |base| :: ops[k] == base[k];
    assert forall k | |base| <= k < |ops| :: ops[k] == blocks[k - |base|];
    assert TargetOf(ops[i]) != TargetOf(ops[j]);
    NamesOfTargetsDiffer(TargetOf(ops[i]), TargetOf(ops[j]));
  }

  lemma AuditNames(s: State, i: nat)
    requires i < |FullAudit(s)|
    ensures forall k | 0 <= k < |FullAudit(s)[i].lists| :: FullAudit(s)[i].lists[k].loc.name.ListValue?
  {
    assert FullAudit(s)[i] == AuditOf(s, EXTENSIONS[i]);
  }
}
