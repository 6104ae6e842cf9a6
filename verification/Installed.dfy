/** What stands on a machine after a completed installation, place by place, with no mention of the plan. */
module Installed {
  import opened Common
  import opened PowerShell
  import opened Registry
  import opened InstallPlan
  import opened Rollback
  import opened Install
  import PropertyList

  // ---------------------------------------------------------------- what is in a plan

  lemma {:induction false} BlocksAre(s: State, audit: seq<ExtAudit>, shared: map<Ext, Data>, op: Op)
    ensures op in Blocks(s, audit, shared) <==> exists m | 0 <= m < |audit| :: op in Block(s, audit[m], shared)
  {
    hide Block;
    if audit != [] {
      BlocksAre(s, ButLast(audit), shared, op);
      assert forall m | 0 <= m < |audit| - 1 :: ButLast(audit)[m] == audit[m];
      assert op in Blocks(s, audit, shared) <==>
        op in Blocks(s, ButLast(audit), shared) || op in Block(s, Last(audit), shared);
    }
  }

  lemma {:induction false} ListOpsAre(s: State, e: Ext, lists: seq<ListSnapshot>, op: Op)
    ensures op in ListOps(s, e, lists) <==> exists k | 0 <= k < |lists| :: ListOp(s, e, lists[k]) == Some(op)
  {
    hide ListOp;
    if lists != [] {
      ListOpsAre(s, e, ButLast(lists), op);
      assert forall k | 0 <= k < |lists| - 1 :: ButLast(lists)[k] == lists[k];
    }
  }

  function SaveOp(s: State, e: Ext, shared: map<Ext, Data>): Op {
    PlannedSet(s, SavedAt(e), StringKind, OriginalOf(AuditOf(s, e), shared), SaveOriginal(e))
  }

  function MapOp(s: State, e: Ext): Op {
    PlannedSet(s, HandlerAt(e), StringKind, Some(Text(PROJECT_CLSID)), RegisterProxy(e))
  }

  /** The operation for one property list of an extension, if there is one. */
  function OpOfList(s: State, e: Ext, n: ListName): Option<Op> {
    ListOp(s, e, ListSnapshot(ListAt(e, n), Get(s.reg, ListAt(e, n))))
  }

  lemma BlockIs(s: State, e: Ext, shared: map<Ext, Data>, op: Op)
    ensures op in Block(s, AuditOf(s, e), shared) <==>
      op == SaveOp(s, e, shared) || op == MapOp(s, e) || exists n: ListName :: OpOfList(s, e, n) == Some(op)
  {
    hide ListOp, OriginalOf, ListOps, PROJECT_CLSID;
    var lists := AuditOf(s, e).lists;
    ListOpsAre(s, e, lists, op);
    EveryListIsAudited(s, e);
    if n: ListName :| OpOfList(s, e, n) == Some(op) {
      var l := ListSnapshot(ListAt(e, n), Get(s.reg, ListAt(e, n)));
      assert l in lists;
      var k :| 0 <= k < |lists| && lists[k] == l;
      assert ListOp(s, e, lists[k]) == Some(op);
    }
    if op in ListOps(s, e, lists) {
      var k :| 0 <= k < |lists| && ListOp(s, e, lists[k]) == Some(op);
      assert OpOfList(s, e, LIST_NAMES[k]) == Some(op);
    }
  }

  lemma EveryListIsAudited(s: State, e: Ext)
    ensures |AuditOf(s, e).lists| == |LIST_NAMES|
    ensures forall n: ListName :: ListSnapshot(ListAt(e, n), Get(s.reg, ListAt(e, n))) in AuditOf(s, e).lists
    ensures forall k | 0 <= k < |LIST_NAMES| ::
      AuditOf(s, e).lists[k] == ListSnapshot(ListAt(e, LIST_NAMES[k]), Get(s.reg, ListAt(e, LIST_NAMES[k])))
  {
    forall n: ListName
      ensures ListSnapshot(ListAt(e, n), Get(s.reg, ListAt(e, n))) in AuditOf(s, e).lists
    {
      var k := match n
        case FullDetails => 0
        case PreviewDetails => 1
        case PreviewTitle => 2
        case InfoTip => 3
        case TileInfo => 4
        case ExtendedTileInfo => 5;
      assert AuditOf(s, e).lists[k] == ListSnapshot(ListAt(e, n), Get(s.reg, ListAt(e, n)));
    }
  }

  /** The operations of a plan, in no order. */
  lemma PlanIs(s: State, shared: map<Ext, Data>, digits: string, op: Op)
    ensures op in Plan(s, FullAudit(s), shared, digits) <==>
      || op in Copies(s, DllTag(s, digits)) || op in ClassOps(s, DllTag(s, digits))
      || exists e: Ext :: op in Block(s, AuditOf(s, e), shared)
  {
    hide Copies, ClassOps, Block, Blocks, AuditOf;
    BlocksAre(s, FullAudit(s), shared, op);
    EveryExtensionHasItsAudit(s);
    if e: Ext :| op in Block(s, AuditOf(s, e), shared) {
      assert AuditOf(s, e) in FullAudit(s);
      var m :| 0 <= m < |FullAudit(s)| && FullAudit(s)[m] == AuditOf(s, e);
    }
  }

  lemma EveryExtensionHasItsAudit(s: State)
    ensures forall e: Ext :: AuditOf(s, e) in FullAudit(s)
    ensures forall m | 0 <= m < |FullAudit(s)| :: FullAudit(s)[m] == AuditOf(s, EXTENSIONS[m])
  {
    hide AuditOf;
    forall e: Ext
      ensures AuditOf(s, e) in FullAudit(s)
    {
      var m := match e case Png => 0 case Jpg => 1 case Jpeg => 2 case Tif => 3 case Tiff => 4;
      assert FullAudit(s)[m] == AuditOf(s, e);
    }
  }

  // ---------------------------------------------------------------- after the run

  /** A machine, an installation of it that completes, and the machine afterwards. */
  ghost predicate Completes(s: State, shared: map<Ext, Data>, digits: string, after: State) {
    exists env, f, works :: var o := RealInstall(s, shared, digits, env, f, works); o.Completed? && o.state == after
  }

  lemma OpInEffect(s: State, shared: map<Ext, Data>, digits: string, after: State, op: Op)
    requires Completes(s, shared, digits, after) && op in Plan(s, FullAudit(s), shared, digits)
    ensures At(after, TargetOf(op)) == InstalledCell(op)
    ensures op.SetValue? ==> op.data.Some?
    ensures op.CopyFile? ==> op.planned.Some?
  {
    hide Plan, FullAudit, Run, InstalledCell, PreconditionsHold, PlannedOn;
    var env, f, works :| RealInstall(s, shared, digits, env, f, works).Completed? &&
      RealInstall(s, shared, digits, env, f, works).state == after;
    var ops := Plan(s, FullAudit(s), shared, digits);
    var i :| 0 <= i < |ops| && ops[i] == op;
    PlanIsPlanned(s, shared, digits);
    RunInPlace(s, ops, |ops|, f, i);
    AppliedWhileOk(s, ops, |ops|, f);
    assert At(after, TargetOf(op)) == At(Run(s, ops, |ops|, f).state, TargetOf(op));
  }

  lemma NothingElsewhere(s: State, shared: map<Ext, Data>, digits: string, after: State, t: Target)
    requires Completes(s, shared, digits, after)
    requires forall op | op in Plan(s, FullAudit(s), shared, digits) :: TargetOf(op) != t
    ensures At(after, t) == At(s, t)
  {
    hide Plan, FullAudit, Run, PreconditionsHold, PlannedOn;
    var env, f, works :| RealInstall(s, shared, digits, env, f, works).Completed? &&
      RealInstall(s, shared, digits, env, f, works).state == after;
    var ops := Plan(s, FullAudit(s), shared, digits);
    PlanIsPlanned(s, shared, digits);
    RunElsewhere(s, ops, |ops|, f, t);
    assert At(after, t) == At(Run(s, ops, |ops|, f).state, t);
  }

  /** Every extension is mapped to the project. */
  lemma MappingsAfterInstall(s: State, shared: map<Ext, Data>, digits: string, after: State, e: Ext)
    requires Completes(s, shared, digits, after)
    ensures Get(after.reg, HandlerAt(e)) == Some(Sz("{D75F9AC7-4664-46F3-A1D4-881140DF6CBE}"))
  {
    hide Block, AuditOf, Plan, FullAudit, PROJECT_CLSID;
    BlockIs(s, e, shared, MapOp(s, e));
    PlanIs(s, shared, digits, MapOp(s, e));
    OpInEffect(s, shared, digits, after, MapOp(s, e));
    assert PROJECT_CLSID == "{D75F9AC7-4664-46F3-A1D4-881140DF6CBE}" by {
      ProjectClsid();
    }
  }

  /** The original that is saved: the mapped handler, unless that is the project's own; then the one saved before, if
      any, and else the one of the earlier manifest, if any. There is one, and it is not the project's own. */
  lemma OriginalsAfterInstall(s: State, shared: map<Ext, Data>, digits: string, after: State, e: Ext)
    requires Completes(s, shared, digits, after)
    ensures exists d: Data ::
      && Get(after.reg, SavedAt(e)) == Some(Sz(ObjectText(d)))
      && (HandlerAt(e) in s.reg && Fold(PsString(DataOf(s.reg[HandlerAt(e)]))) != Fold(PROJECT_CLSID) ==>
          d == DataOf(s.reg[HandlerAt(e)]))
      && (HandlerAt(e) in s.reg && Fold(PsString(DataOf(s.reg[HandlerAt(e)]))) == Fold(PROJECT_CLSID) ==>
          if SavedAt(e) in s.reg && Truthy(Some(DataOf(s.reg[SavedAt(e)]))) then d == DataOf(s.reg[SavedAt(e)])
          else e in shared && d == shared[e])
  {
    hide Block, Plan, FullAudit, PROJECT_CLSID, PsString, Fold, Truthy, ObjectText;
    var op := SaveOp(s, e, shared);
    BlockIs(s, e, shared, op);
    PlanIs(s, shared, digits, op);
    OpInEffect(s, shared, digits, after, op);
    UsableOriginal(s, shared, digits, after, op);
    assert Get(after.reg, SavedAt(e)) == Some(Sz(ObjectText(op.data.value)));
  }

  lemma UsableOriginal(s: State, shared: map<Ext, Data>, digits: string, after: State, op: Op)
    requires Completes(s, shared, digits, after) && op in Plan(s, FullAudit(s), shared, digits)
    requires op.SetValue? && op.reason.SaveOriginal?
    ensures op.data.Some? && Truthy(op.data) && Fold(PsString(op.data.value)) != Fold(PROJECT_CLSID)
  {
    hide Plan, FullAudit, Run, Fold, PsString;
    var env, f, works :| RealInstall(s, shared, digits, env, f, works).Completed? &&
      RealInstall(s, shared, digits, env, f, works).state == after;
    var ops := Plan(s, FullAudit(s), shared, digits);
    var i :| 0 <= i < |ops| && ops[i] == op;
    assert SavesUsableOriginal(ops[i]);
  }

  // ---------------------------------------------------------------- property lists

  /** Whether no operation of a plan concerns a property list. */
  lemma ListTargets(s: State, shared: map<Ext, Data>, digits: string, e: Ext, n: ListName, op: Op)
    requires op in Plan(s, FullAudit(s), shared, digits) && TargetOf(op) == RegTarget(ListAt(e, n))
    ensures OpOfList(s, e, n) == Some(op)
  {
    hide AuditOf, Block, ListOp, PROJECT_CLSID, OriginalOf;
    PlanIs(s, shared, digits, op);
    CopiesAreFiles(s, digits);
    assert op !in ClassOps(s, DllTag(s, digits));
    var x: Ext :| op in Block(s, AuditOf(s, x), shared);
    BlockIs(s, x, shared, op);
    assert op != SaveOp(s, x, shared) && op != MapOp(s, x);
    var m: ListName :| OpOfList(s, x, m) == Some(op);
    ListOpTarget(s, x, m);
  }

  lemma CopiesAreFiles(s: State, digits: string)
    ensures forall op <- Copies(s, DllTag(s, digits)) :: op.CopyFile?
  {
  }

  lemma ListOpTarget(s: State, e: Ext, n: ListName)
    ensures OpOfList(s, e, n).Some? ==> TargetOf(OpOfList(s, e, n).value) == RegTarget(ListAt(e, n))
  {
    hide PropertyList.Merge, EqNoCase;
  }

  /** A list that was text is the merged text afterwards, of the same kind; any other one, or none, is as before. */
  lemma ListsAfterInstall(s: State, shared: map<Ext, Data>, digits: string, after: State, e: Ext, n: ListName)
    requires Completes(s, shared, digits, after)
    ensures var before, now := Get(s.reg, ListAt(e, n)), Get(after.reg, ListAt(e, n));
      if before.Some? && before.value.Sz? then now == Some(Sz(PropertyList.Merge(before.value.text)))
      else if before.Some? && before.value.ExpandSz? then now == Some(ExpandSz(PropertyList.Merge(before.value.text)))
      else now == before
  {
    hide Plan, FullAudit, PropertyList.Merge, EqNoCase, AuditOf, Block, Completes;
    var before, loc := Get(s.reg, ListAt(e, n)), ListAt(e, n);
    if OpOfList(s, e, n).Some? {
      var op := OpOfList(s, e, n).value;
      BlockIs(s, e, shared, op);
      PlanIs(s, shared, digits, op);
      OpInEffect(s, shared, digits, after, op);
    } else {
      forall op | op in Plan(s, FullAudit(s), shared, digits)
        ensures TargetOf(op) != RegTarget(loc)
      {
        if TargetOf(op) == RegTarget(loc) {
          ListTargets(s, shared, digits, e, n, op);
        }
      }
      NothingElsewhere(s, shared, digits, after, RegTarget(loc));
      if before.Some? && (before.value.Sz? || before.value.ExpandSz?) {
        PropertyList.MergedUpToCaseIsMerged(before.value.text);
      }
    }
  }

  /** A plan has an operation for a property list exactly when the list is text that merging changes. */
  lemma ListsAreTouchedExactly(s: State, shared: map<Ext, Data>, digits: string, e: Ext, n: ListName)
    ensures var now := Get(s.reg, ListAt(e, n));
      (exists op: Op :: op in Plan(s, FullAudit(s), shared, digits) && TargetOf(op) == RegTarget(ListAt(e, n))) <==>
        now.Some? && (now.value.Sz? || now.value.ExpandSz?) && PropertyList.Merge(now.value.text) != now.value.text
  {
    hide Plan, FullAudit, Block, AuditOf, PropertyList.Merge, ListAt, Fold;
    var now := Get(s.reg, ListAt(e, n));
    if now.Some? && (now.value.Sz? || now.value.ExpandSz?) {
      if EqNoCase(PropertyList.Merge(now.value.text), now.value.text) {
        PropertyList.MergedUpToCaseIsMerged(now.value.text);
      }
    }
    if OpOfList(s, e, n).Some? {
      var op := OpOfList(s, e, n).value;
      BlockIs(s, e, shared, op);
      PlanIs(s, shared, digits, op);
      ListOpTarget(s, e, n);
    }
    if op: Op :| op in Plan(s, FullAudit(s), shared, digits) && TargetOf(op) == RegTarget(ListAt(e, n)) {
      ListTargets(s, shared, digits, e, n, op);
    }
  }

  /** So after an installation, every list that was text has the prefix, starts with its earlier non-empty parts, and
      lists every project property; it keeps its kind. */
  lemma ListsAreCompleted(s: State, shared: map<Ext, Data>, digits: string, after: State, e: Ext, n: ListName,
      t: string)
    requires Completes(s, shared, digits, after)
    requires ListAt(e, n) in s.reg && (s.reg[ListAt(e, n)] == Sz(t) || s.reg[ListAt(e, n)] == ExpandSz(t))
    ensures exists t': string ::
      && Get(after.reg, ListAt(e, n)) == Some(if s.reg[ListAt(e, n)].Sz? then Sz(t') else ExpandSz(t')) && "prop:" <= t'
      && NonEmpty(Split(if "prop:" <= t then t[5..] else t, ';')) <= Split(t'[5..], ';')
      && forall p <- PropertyList.PROJECT_PROPERTIES :: PropertyList.IsListed(Split(t'[5..], ';'), p)
  {
    hide Completes, PropertyList.Merge, PropertyList.PROJECT_PROPERTIES, PropertyList.IsListed, Split, NonEmpty;
    ListsAfterInstall(s, shared, digits, after, e, n);
    PropertyList.MergeInPlainWords(t);
    var t' := PropertyList.Merge(t);
    assert Get(after.reg, ListAt(e, n)) == Some(if s.reg[ListAt(e, n)].Sz? then Sz(t') else ExpandSz(t'));
  }

  // ---------------------------------------------------------------- class and files

  /** The project's class names the DLL that carries the first digits of its hash. */
  lemma ClassAfterInstall(s: State, shared: map<Ext, Data>, digits: string, after: State)
    requires Completes(s, shared, digits, after)
    ensures Get(after.reg, Loc(HKLM, ProjectClass, DefaultValue)) == Some(Sz("ImagePhysicalSizeShell Property Handler"))
    ensures Get(after.reg, Loc(HKLM, InprocServer, DefaultValue)) ==
      Some(Sz("C:\\Program Files\\ImagePhysicalSizeShell\\" + ("ImagePhysicalSizeShell." + (digits + ".dll"))))
    ensures Get(after.reg, Loc(HKLM, InprocServer, ThreadingModel)) == Some(Sz("Both"))
  {
    hide Plan, FullAudit, Completes, Copies, INSTALL_DIR;
    var tag := DllTag(s, digits);
    FilesAfterInstall(s, shared, digits, after, Dll(tag));
    forall op | op in ClassOps(s, tag)
      ensures At(after, TargetOf(op)) == InstalledCell(op)
    {
      PlanIs(s, shared, digits, op);
      OpInEffect(s, shared, digits, after, op);
    }
    var ops := ClassOps(s, tag);
    assert ops[0] in ops && ops[1] in ops && ops[2] in ops;
    assert tag == Some(digits);
    InstallDir();
  }

  /** The first operation of a plan copies the DLL, under a name with its digits if it was built. */
  lemma DllIsCopied(s: State, shared: map<Ext, Data>, digits: string)
    ensures var ops := Plan(s, FullAudit(s), shared, digits);
      && |ops| > 0 && ops[0].CopyFile? && ops[0].source == SourceFile(Dll(None))
      && ops[0].dest == InstalledFile(Dll(if SourceFile(Dll(None)) in s.files then Some(digits) else None))
  {
    hide Blocks, FullAudit;
  }

  /** The names of the files. */
  lemma FileNames(digits: string)
    ensures LeafText(Dll(None)) == "ImagePhysicalSizeShell.dll"
    ensures LeafText(Dll(Some(digits))) == "ImagePhysicalSizeShell." + (digits + ".dll")
    ensures LeafText(IpsDiag) == "ipsdiag.exe" && LeafText(IpsConfigUi) == "ipsconfigui.exe" &&
      LeafText(RegisterSchemaExe) == "RegisterSchema.exe" && LeafText(PropDesc) == "ImagePhysicalSize.propdesc"
    ensures LeafText(Helper(IpsConfigScript)) == "ipsconfig.ps1" &&
      LeafText(Helper(RollbackScript)) == "rollback.ps1" &&
      LeafText(Helper(UninstallScript)) == "uninstall.ps1" && LeafText(Helper(RepairScript)) == "repair.ps1" &&
      LeafText(Helper(StatusScript)) == "status.ps1" && LeafText(Helper(ShortcutsScript)) == "install-shortcuts.ps1" &&
      LeafText(Helper(EmergencyScript)) == "rollback-emergency.cmd"
  {
    assert "ImagePhysicalSizeShell." + "dll" == "ImagePhysicalSizeShell.dll";
  }

  lemma InstallDir()
    ensures INSTALL_DIR == "C:\\Program Files\\ImagePhysicalSizeShell\\"
  {
  }

  /** The files of the program, with the DLL under the name it gets. */
  predicate IsProgramFile(leaf: Leaf, tag: Option<string>) {
    leaf == Dll(tag) || !leaf.Dll?
  }

  lemma ProgramFilesAreCopied(s: State, leaf: Leaf, tag: Option<string>)
    ensures IsProgramFile(leaf, tag) <==> CopyOf(s, leaf) in Copies(s, tag)
    ensures forall op <- Copies(s, tag) :: exists l: Leaf :: IsProgramFile(l, tag) && op == CopyOf(s, l)
  {
    var leaves := [Dll(tag)] + LEAVES_AFTER_DLL;
    if IsProgramFile(leaf, tag) {
      var k := match leaf
        case Dll(_) => 0
        case IpsDiag => 1
        case IpsConfigUi => 2
        case RegisterSchemaExe => 3
        case PropDesc => 4
        case Helper(IpsConfigScript) => 5
        case Helper(RollbackScript) => 6
        case Helper(UninstallScript) => 7
        case Helper(RepairScript) => 8
        case Helper(StatusScript) => 9
        case Helper(ShortcutsScript) => 10
        case Helper(EmergencyScript) => 11;
      assert leaves[k] == leaf;
      assert Copies(s, tag)[k] == CopyOf(s, leaf);
    }
    forall op | op in Copies(s, tag)
      ensures exists l: Leaf :: IsProgramFile(l, tag) && op == CopyOf(s, l)
    {
      var k :| 0 <= k < |Copies(s, tag)| && Copies(s, tag)[k] == op;
      assert op == CopyOf(s, leaves[k]) && IsProgramFile(leaves[k], tag);
    }
  }

  /** Every file of the program stands in the installation directory with the content of its source; the DLL was
      built. */
  lemma FilesAfterInstall(s: State, shared: map<Ext, Data>, digits: string, after: State, leaf: Leaf)
    requires Completes(s, shared, digits, after) && IsProgramFile(leaf, DllTag(s, digits))
    ensures SourceOf(leaf) in s.files && Get(after.files, InstalledFile(leaf)) == Some(s.files[SourceOf(leaf)])
    ensures leaf.Dll? ==> leaf == Dll(Some(digits))
  {
    hide Plan, FullAudit, Completes, Copies;
    var op := CopyOf(s, leaf);
    ProgramFilesAreCopied(s, leaf, DllTag(s, digits));
    PlanIs(s, shared, digits, op);
    OpInEffect(s, shared, digits, after, op);
  }

  // ---------------------------------------------------------------- everything else

  /** The places an installation may change. */
  predicate IsInstallPlace(t: Target, tag: Option<string>) {
    match t
    case FileTarget(p) => p.InstalledFile? && IsProgramFile(p.leaf, tag)
    case RegTarget(l) =>
      || l == CLASS_NAME || l == SERVER_PATH || l == THREADING
      || exists e: Ext :: l == SavedAt(e) || l == HandlerAt(e) || exists n: ListName :: l == ListAt(e, n)
  }

  /** Nothing else changes, and the schema is registered. */
  lemma ElsewhereAfterInstall(s: State, shared: map<Ext, Data>, digits: string, after: State, t: Target)
    requires Completes(s, shared, digits, after)
    ensures !IsInstallPlace(t, DllTag(s, digits)) ==> At(after, t) == At(s, t)
    ensures after.schema
  {
    hide Plan, FullAudit, AuditOf, Block, Copies;
    if !IsInstallPlace(t, DllTag(s, digits)) {
      forall op | op in Plan(s, FullAudit(s), shared, digits)
        ensures TargetOf(op) != t
      {
        PlacesOfPlan(s, shared, digits, op);
      }
      NothingElsewhere(s, shared, digits, after, t);
    }
  }

  lemma PlacesOfPlan(s: State, shared: map<Ext, Data>, digits: string, op: Op)
    requires op in Plan(s, FullAudit(s), shared, digits)
    ensures IsInstallPlace(TargetOf(op), DllTag(s, digits))
  {
    hide Plan, FullAudit, AuditOf, Block, Copies, ListOp, OriginalOf, PROJECT_CLSID;
    PlanIs(s, shared, digits, op);
    if op in Copies(s, DllTag(s, digits)) {
      ProgramFilesAreCopied(s, PropDesc, DllTag(s, digits));
    } else if op !in ClassOps(s, DllTag(s, digits)) {
      var e: Ext :| op in Block(s, AuditOf(s, e), shared);
      BlockIs(s, e, shared, op);
      if n: ListName :| OpOfList(s, e, n) == Some(op) {
        ListOpTarget(s, e, n);
      }
    }
  }

  // ---------------------------------------------------------------- installing again

  /** A second installation keeps the originals that the first one saved. */
  lemma ReinstallKeepsOriginals(s: State, shared: map<Ext, Data>, digits: string, first: State,
      shared': map<Ext, Data>, digits': string, updated: map<FilePath, Content>, second: State, e: Ext)
    requires Completes(s, shared, digits, first)
    requires Completes(first.(files := updated), shared', digits', second)
    ensures Get(second.reg, SavedAt(e)) == Get(first.reg, SavedAt(e)) && Get(first.reg, SavedAt(e)).Some?
  {
    hide Completes, PROJECT_CLSID, Fold, Truthy;
    MappingsAfterInstall(s, shared, digits, first, e);
    OriginalsAfterInstall(s, shared, digits, first, e);
    OriginalsAfterInstall(first.(files := updated), shared', digits', second, e);
    ProjectClsid();
    SavedTextIsThere(s, shared, digits, first, e);
  }

  /** What is saved is never the empty text. */
  lemma SavedTextIsThere(s: State, shared: map<Ext, Data>, digits: string, after: State, e: Ext)
    requires Completes(s, shared, digits, after)
    ensures exists t: string :: t != "" && Get(after.reg, SavedAt(e)) == Some(Sz(t)) && Truthy(Some(Text(t)))
  {
    hide Block, Plan, FullAudit, PROJECT_CLSID, Fold, Completes;
    var op := SaveOp(s, e, shared);
    BlockIs(s, e, shared, op);
    PlanIs(s, shared, digits, op);
    OpInEffect(s, shared, digits, after, op);
    UsableOriginal(s, shared, digits, after, op);
    var t := ObjectText(op.data.value);
    assert Get(after.reg, SavedAt(e)) == Some(Sz(t));
  }
}
