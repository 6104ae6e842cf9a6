/** `New-InstallPlan` and `Test-InstallPreconditions` of `installer/ImagePhysicalSizeShell.Installation.psm1`. */
module InstallPlan {
  import opened Common
  import opened PowerShell
  import opened Registry
  import PropertyList

  /** File contents stand for their SHA-256 hashes. */
  type Content = seq<Byte>

  datatype Script = IpsConfigScript | RollbackScript | UninstallScript | RepairScript | StatusScript | ShortcutsScript
    | EmergencyScript

  /** A file of the installation directory; the DLL carries the first twelve digits of its hash when it was built. */
  datatype Leaf = Dll(tag: Option<string>) | IpsDiag | IpsConfigUi | RegisterSchemaExe | PropDesc
    | Helper(script: Script)

  datatype FilePath = InstalledFile(leaf: Leaf) | SourceFile(leaf: Leaf) | OtherFile(path: string)

  /** What an installation can change: registry values, files, the backups it makes, the schema registration. */
  datatype State = State(reg: map<Loc, RegValue>, files: map<FilePath, Content>, backups: map<nat, Content>,
    schema: bool)

  datatype Reason = FriendlyName | ServerPath | Threading | SaveOriginal(ext: Ext) | RegisterProxy(ext: Ext)
    | AppendProperties(ext: Ext)

  datatype Op =
    | SetValue(loc: Loc, kind: Kind, data: Option<Data>, regBefore: Option<RegValue>, reason: Reason)
    | CopyFile(source: FilePath, dest: FilePath, planned: Option<Content>, fileBefore: Option<Content>,
      backup: Option<nat>)

  datatype ListSnapshot = ListSnapshot(loc: Loc, value: Option<RegValue>)

  datatype ExtAudit = ExtAudit(ext: Ext, handler: Option<RegValue>, saved: Option<RegValue>, lists: seq<ListSnapshot>)

  // ---------------------------------------------------------------- locations

  const CLASS_NAME := Loc(HKLM, ProjectClass, DefaultValue)
  const SERVER_PATH := Loc(HKLM, InprocServer, DefaultValue)
  const THREADING := Loc(HKLM, InprocServer, ThreadingModel)

  function SavedAt(e: Ext): Loc { Loc(HKLM, OriginalHandler(e), OriginalClsid) }

  function HandlerAt(e: Ext): Loc { Loc(HKLM, PropertyHandler(e), DefaultValue) }

  function ListAt(e: Ext, n: ListName): Loc { Loc(HKCR, FileAssociation(e), ListValue(n)) }

  const INSTALL_DIR: string := "C:\\Program Files\\ImagePhysicalSizeShell\\"

  function LeafText(l: Leaf): string {
    match l
    case Dll(tag) => "ImagePhysicalSizeShell." + (if tag.Some? then tag.value + ".dll" else "dll")
    case IpsDiag => "ipsdiag.exe"
    case IpsConfigUi => "ipsconfigui.exe"
    case RegisterSchemaExe => "RegisterSchema.exe"
    case PropDesc => "ImagePhysicalSize.propdesc"
    case Helper(IpsConfigScript) => "ipsconfig.ps1"
    case Helper(RollbackScript) => "rollback.ps1"
    case Helper(UninstallScript) => "uninstall.ps1"
    case Helper(RepairScript) => "repair.ps1"
    case Helper(StatusScript) => "status.ps1"
    case Helper(ShortcutsScript) => "install-shortcuts.ps1"
    case Helper(EmergencyScript) => "rollback-emergency.cmd"
  }

  /** The text `InprocServer32` gets for a DLL. */
  function DllPath(tag: Option<string>): string {
    INSTALL_DIR + LeafText(Dll(tag))
  }

  // ---------------------------------------------------------------- the audit

  const EXTENSIONS: seq<Ext> := [Png, Jpg, Jpeg, Tif, Tiff]
  const LIST_NAMES: seq<ListName> := [FullDetails, PreviewDetails, PreviewTitle, InfoTip, TileInfo, ExtendedTileInfo]

  function AuditOf(s: State, e: Ext): ExtAudit {
    ExtAudit(e, Get(s.reg, HandlerAt(e)), Get(s.reg, SavedAt(e)),
      seq(|LIST_NAMES|, i requires 0 <= i < |LIST_NAMES| => ListSnapshot(ListAt(e, LIST_NAMES[i]),
        Get(s.reg, ListAt(e, LIST_NAMES[i])))))
  }

  function FullAudit(s: State): (audit: seq<ExtAudit>)
    ensures |audit| == |EXTENSIONS|
  {
    seq(|EXTENSIONS|, i requires 0 <= i < |EXTENSIONS| => AuditOf(s, EXTENSIONS[i]))
  }

  function HandlerData(a: ExtAudit): Option<Data> {
    if a.handler.Some? then Some(DataOf(a.handler.value)) else None
  }

  // ---------------------------------------------------------------- the plan

  const LEAVES_AFTER_DLL: seq<Leaf> := [IpsDiag, IpsConfigUi, RegisterSchemaExe, PropDesc,
    Helper(IpsConfigScript), Helper(RollbackScript), Helper(UninstallScript), Helper(RepairScript),
      Helper(StatusScript),
    Helper(ShortcutsScript), Helper(EmergencyScript)]

  function SourceOf(leaf: Leaf): FilePath {
    SourceFile(if leaf.Dll? then Dll(None) else leaf)
  }

  function CopyOf(s: State, leaf: Leaf): Op {
    CopyFile(SourceOf(leaf), InstalledFile(leaf), Get(s.files, SourceOf(leaf)), Get(s.files, InstalledFile(leaf)), None)
  }

  function PlannedSet(s: State, loc: Loc, kind: Kind, data: Option<Data>, reason: Reason): Op {
    SetValue(loc, kind, data, Get(s.reg, loc), reason)
  }

  /** The first digits of the DLL's hash, if the DLL was built. */
  function DllTag(s: State, digits: string): Option<string> {
    if SourceFile(Dll(None)) in s.files then Some(digits) else None
  }

  function Copies(s: State, tag: Option<string>): seq<Op> {
    var leaves := [Dll(tag)] + LEAVES_AFTER_DLL;
    seq(|leaves|, i requires 0 <= i < |leaves| => CopyOf(s, leaves[i]))
  }

  function ClassOps(s: State, tag: Option<string>): seq<Op> {
    [ PlannedSet(s, CLASS_NAME, StringKind, Some(Text("ImagePhysicalSizeShell Property Handler")), FriendlyName),
      PlannedSet(s, SERVER_PATH, StringKind, Some(Text(DllPath(tag))), ServerPath),
      PlannedSet(s, THREADING, StringKind, Some(Text("Both")), Threading) ]
  }

  /** The handler to save: the mapped one, unless that is the project's own and an earlier original is known. */
  function OriginalOf(a: ExtAudit, shared: map<Ext, Data>): Option<Data> {
    var mapped := HandlerData(a);
    if !EqNoCase(PsText(mapped), PROJECT_CLSID) then mapped
    else if a.saved.Some? && Truthy(Some(DataOf(a.saved.value))) then Some(DataOf(a.saved.value))
    else if Truthy(Get(shared, a.ext)) then Get(shared, a.ext)
    else mapped
  }

  function ListOp(s: State, e: Ext, l: ListSnapshot): Option<Op> {
    if l.value.Some? && (l.value.value.Sz? || l.value.value.ExpandSz?) then
      var merged := PropertyList.Merge(l.value.value.text);
      if !EqNoCase(merged, l.value.value.text) then
        Some(PlannedSet(s, l.loc, KindOf(l.value.value), Some(Text(merged)), AppendProperties(e)))
      else None
    else None
  }

  function ListOps(s: State, e: Ext, lists: seq<ListSnapshot>): seq<Op> {
    if lists == [] then []
    else
      var op := ListOp(s, e, Last(lists));
      ListOps(s, e, ButLast(lists)) + (if op.Some? then [op.value] else [])
  }

  function Block(s: State, a: ExtAudit, shared: map<Ext, Data>): seq<Op> {
    [ PlannedSet(s, SavedAt(a.ext), StringKind, OriginalOf(a, shared), SaveOriginal(a.ext)),
      PlannedSet(s, HandlerAt(a.ext), StringKind, Some(Text(PROJECT_CLSID)), RegisterProxy(a.ext)) ]
    + ListOps(s, a.ext, a.lists)
  }

  function Blocks(s: State, audit: seq<ExtAudit>, shared: map<Ext, Data>): seq<Op> {
    if audit == [] then [] else Blocks(s, ButLast(audit), shared) + Block(s, Last(audit), shared)
  }

  function Base(s: State, digits: string): seq<Op> {
    Copies(s, DllTag(s, digits)) + ClassOps(s, DllTag(s, digits))
  }

  function Plan(s: State, audit: seq<ExtAudit>, shared: map<Ext, Data>, digits: string): seq<Op> {
    Base(s, digits) + Blocks(s, audit, shared)
  }

  // ---------------------------------------------------------------- preconditions

  datatype Environment = Environment(is64Bit: bool, elevated: bool)

  datatype AliasCheck = AliasCheck(a: Option<Data>, b: Option<Data>) {
    predicate Ok() {
      Truthy(a) && Truthy(b) && EqNoCase(PsText(a), PsText(b))
    }
  }

  /** The audit entry of an extension; the last one wins, as in the hash table of the source. */
  function Entry(audit: seq<ExtAudit>, e: Ext): Option<ExtAudit> {
    if audit == [] then None else if Last(audit).ext == e then Some(Last(audit)) else Entry(ButLast(audit), e)
  }

  function MappedIn(audit: seq<ExtAudit>, e: Ext): Option<Data> {
    var a := Entry(audit, e);
    if a.None? then None else HandlerData(a.value)
  }

  function AliasChecks(audit: seq<ExtAudit>): seq<AliasCheck> {
    [AliasCheck(MappedIn(audit, Jpg), MappedIn(audit, Jpeg)), AliasCheck(MappedIn(audit, Tif), MappedIn(audit, Tiff))]
  }

  const ARTIFACTS: seq<Leaf> := [Dll(None), IpsDiag, IpsConfigUi, RegisterSchemaExe]

  predicate SavesUsableOriginal(op: Op) {
    op.SetValue? && op.reason.SaveOriginal? ==> !EqNoCase(PsText(op.data), PROJECT_CLSID) && Truthy(op.data)
  }

  predicate PreconditionsHold(s: State, audit: seq<ExtAudit>, ops: seq<Op>, env: Environment) {
    && env.is64Bit && env.elevated
    && (forall i | 0 <= i < |ARTIFACTS| :: SourceFile(ARTIFACTS[i]) in s.files)
    && (forall i | 0 <= i < |AliasChecks(audit)| :: AliasChecks(audit)[i].Ok())
    && (forall i | 0 <= i < |ops| :: SavesUsableOriginal(ops[i]))
  }

  // ---------------------------------------------------------------- targets

  datatype Target = RegTarget(loc: Loc) | FileTarget(path: FilePath)

  function TargetOf(op: Op): Target {
    match op
    case SetValue(loc, _, _, _, _) => RegTarget(loc)
    case CopyFile(_, dest, _, _, _) => FileTarget(dest)
  }

  predicate DistinctTargets(ops: seq<Op>) {
    forall i, j | 0 <= i < j < |ops| :: TargetOf(ops[i]) != TargetOf(ops[j])
  }

  /** An audit over distinct extensions whose lists have distinct names. */
  predicate WellFormedAudit(audit: seq<ExtAudit>) {
    && (forall i, j | 0 <= i < j < |audit| :: audit[i].ext != audit[j].ext)
    && (forall i | 0 <= i < |audit| :: WellFormedLists(audit[i].ext, audit[i].lists))
  }

  predicate WellFormedLists(e: Ext, lists: seq<ListSnapshot>) {
    && (forall i | 0 <= i < |lists| :: lists[i].loc.hive == HKCR && lists[i].loc.path == FileAssociation(e))
    && (forall i, j | 0 <= i < j < |lists| :: lists[i].loc != lists[j].loc)
  }

  /** The extension a location belongs to. */
  function ExtOf(t: Target): Option<Ext> {
    match t
    case RegTarget(l) =>
      (match l.path
       case OriginalHandler(e) => Some(e)
       case PropertyHandler(e) => Some(e)
       case FileAssociation(e) => Some(e)
       case _ => None)
    case FileTarget(_) => None
  }

  lemma DistinctConcat(xs: seq<Op>, ys: seq<Op>)
    requires DistinctTargets(xs) && DistinctTargets(ys)
    requires forall i, j | 0 <= i < |xs| && 0 <= j < |ys| :: TargetOf(xs[i]) != TargetOf(ys[j])
    ensures DistinctTargets(xs + ys)
  {
  }

  /** The place of one of the audited lists. */
  predicate IsListTarget(t: Target, lists: seq<ListSnapshot>) {
    t.RegTarget? && exists k | 0 <= k < |lists| :: lists[k].loc == t.loc
  }

  lemma {:induction false} ListOpsTargets(s: State, e: Ext, lists: seq<ListSnapshot>)
    requires WellFormedLists(e, lists)
    ensures DistinctTargets(ListOps(s, e, lists))
    ensures forall i | 0 <= i < |ListOps(s, e, lists)| :: IsListTarget(TargetOf(ListOps(s, e, lists)[i]), lists)
  {
    hide PropertyList.Merge, EqNoCase;
    if lists != [] {
      var before, op := ListOps(s, e, ButLast(lists)), ListOp(s, e, Last(lists));
      ListOpsTargets(s, e, ButLast(lists));
      var ops := ListOps(s, e, lists);
      forall i | 0 <= i < |ops|
        ensures IsListTarget(TargetOf(ops[i]), lists)
      {
        if i < |before| {
          assert IsListTarget(TargetOf(before[i]), ButLast(lists));
          var k :| 0 <= k < |ButLast(lists)| && ButLast(lists)[k].loc == TargetOf(before[i]).loc;
          assert lists[k].loc == TargetOf(ops[i]).loc;
        } else {
          assert lists[|lists| - 1].loc == TargetOf(ops[i]).loc;
        }
      }
      if op.Some? {
        forall i | 0 <= i < |before|
          ensures TargetOf(before[i]) != TargetOf(op.value)
        {
          assert IsListTarget(TargetOf(before[i]), ButLast(lists));
          var k :| 0 <= k < |ButLast(lists)| && ButLast(lists)[k].loc == TargetOf(before[i]).loc;
          assert lists[k].loc != lists[|lists| - 1].loc;
        }
        DistinctConcat(before, [op.value]);
      }
    }
  }

  lemma BlockTargets(s: State, a: ExtAudit, shared: map<Ext, Data>)
    requires WellFormedLists(a.ext, a.lists)
    ensures DistinctTargets(Block(s, a, shared))
    ensures forall i | 0 <= i < |Block(s, a, shared)| :: ExtOf(TargetOf(Block(s, a, shared)[i])) == Some(a.ext)
  {
    hide ListOps, OriginalOf;
    ListOpsTargets(s, a.ext, a.lists);
    var block, lists := Block(s, a, shared), ListOps(s, a.ext, a.lists);
    forall i | 0 <= i < |lists|
      ensures ExtOf(TargetOf(lists[i])) == Some(a.ext) && TargetOf(lists[i]).loc.hive == HKCR
    {
      assert IsListTarget(TargetOf(lists[i]), a.lists);
      var k :| 0 <= k < |a.lists| && a.lists[k].loc == TargetOf(lists[i]).loc;
    }
    var head := block[..2];
    assert block == head + lists && block[0] == head[0] && block[1] == head[1];
    DistinctConcat(head, lists);
  }

  lemma {:induction false} BlocksTargets(s: State, audit: seq<ExtAudit>, shared: map<Ext, Data>)
    requires WellFormedAudit(audit)
    ensures DistinctTargets(Blocks(s, audit, shared))
    ensures forall i | 0 <= i < |Blocks(s, audit, shared)| ::
      exists k | 0 <= k < |audit| :: ExtOf(TargetOf(Blocks(s, audit, shared)[i])) == Some(audit[k].ext)
  {
    hide Block, ExtOf, TargetOf, WellFormedLists;
    if audit != [] {
      var before, block := Blocks(s, ButLast(audit), shared), Block(s, Last(audit), shared);
      BlocksTargets(s, ButLast(audit), shared);
      BlockTargets(s, Last(audit), shared);
      forall i, j | 0 <= i < |before| && 0 <= j < |block|
        ensures TargetOf(before[i]) != TargetOf(block[j])
      {
        var k :| 0 <= k < |ButLast(audit)| && ExtOf(TargetOf(before[i])) == Some(ButLast(audit)[k].ext);
        assert audit[k].ext != Last(audit).ext;
      }
      DistinctConcat(before, block);
      var ops := before + block;
      forall i | 0 <= i < |ops|
        ensures exists k | 0 <= k < |audit| :: ExtOf(TargetOf(ops[i])) == Some(audit[k].ext)
      {
        if i < |before| {
          var k :| 0 <= k < |ButLast(audit)| && ExtOf(TargetOf(before[i])) == Some(ButLast(audit)[k].ext);
          assert ExtOf(TargetOf(ops[i])) == Some(audit[k].ext);
        } else {
          assert ExtOf(TargetOf(ops[i])) == Some(audit[|audit| - 1].ext);
        }
      }
    }
  }

  lemma BaseTargets(s: State, digits: string)
    ensures DistinctTargets(Base(s, digits))
    ensures forall i | 0 <= i < |Base(s, digits)| :: ExtOf(TargetOf(Base(s, digits)[i])) == None
  {
    hide DllPath, DllTag;
    var tag := DllTag(s, digits);
    var leaves := [Dll(tag)] + LEAVES_AFTER_DLL;
    assert forall i, j | 0 <= i < j < |leaves| :: leaves[i] != leaves[j];
    DistinctConcat(Copies(s, tag), ClassOps(s, tag));
  }

  /** No two operations of a plan write the same place. */
  lemma PlanTargetsAreDistinct(s: State, audit: seq<ExtAudit>, shared: map<Ext, Data>, digits: string)
    requires WellFormedAudit(audit)
    ensures DistinctTargets(Plan(s, audit, shared, digits))
  {
    hide Base, Blocks, ExtOf, TargetOf, WellFormedAudit;
    var base, blocks := Base(s, digits), Blocks(s, audit, shared);
    BaseTargets(s, digits);
    BlocksTargets(s, audit, shared);
    forall i, j | 0 <= i < |base| && 0 <= j < |blocks|
      ensures TargetOf(base[i]) != TargetOf(blocks[j])
    {
      assert ExtOf(TargetOf(base[i])) == None;
      var k :| 0 <= k < |audit| && ExtOf(TargetOf(blocks[j])) == Some(audit[k].ext);
    }
    DistinctConcat(base, blocks);
  }

  lemma FullAuditIsWellFormed(s: State)
    ensures WellFormedAudit(FullAudit(s))
  {
    var audit := FullAudit(s);
    assert forall i, j | 0 <= i < j < |EXTENSIONS| :: EXTENSIONS[i] != EXTENSIONS[j];
    assert forall i, j | 0 <= i < j < |LIST_NAMES| :: LIST_NAMES[i] != LIST_NAMES[j];
    forall i | 0 <= i < |audit|
      ensures WellFormedLists(audit[i].ext, audit[i].lists)
    {
      assert audit[i] == AuditOf(s, EXTENSIONS[i]);
    }
  }
}
