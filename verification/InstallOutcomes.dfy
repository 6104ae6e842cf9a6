/** When an installation is allowed and goes through, stated on the machine alone; when a failed one leaves no trace in
    the registry, at every point of failure; and concrete machines on which something is lost. */
module InstallOutcomes {
  import opened Common
  import opened PowerShell
  import opened Registry
  import opened InstallPlan
  import opened Rollback
  import opened Install
  import opened InstallSafety
  import opened OrderSafety
  import opened AliasCorrectness
  import opened OriginalHandler

  // ---------------------------------------------------------------- when it is allowed

  /** An original handler that may be saved: there is one, and it is not the project's own. */
  predicate IsUsableOriginal(d: Option<Data>) {
    Truthy(d) && Fold(PsText(d)) != Fold("{D75F9AC7-4664-46F3-A1D4-881140DF6CBE}")
  }

  lemma UsableMeans(d: Option<Data>)
    ensures IsUsableOriginal(d) <==> Truthy(d) && !EqNoCase(PsText(d), PROJECT_CLSID)
  {
    hide Truthy, PsText, Fold, PROJECT_CLSID;
    ProjectClsid();
  }

  predicate ArtifactsBuilt(s: State) {
    forall i | 0 <= i < |ARTIFACTS| :: SourceFile(ARTIFACTS[i]) in s.files
  }

  /** The mapped handlers of a pair of extensions that the proxy cannot tell apart. */
  predicate PairAgrees(s: State, a: Ext, b: Ext) {
    var x, y := HandlerData(AuditOf(s, a)), HandlerData(AuditOf(s, b));
    Truthy(x) && Truthy(y) && Fold(PsText(x)) == Fold(PsText(y))
  }

  lemma PairMeans(s: State, a: Ext, b: Ext)
    ensures PairAgrees(s, a, b) <==> AliasCheck(HandlerData(AuditOf(s, a)), HandlerData(AuditOf(s, b))).Ok()
  {
    hide AuditOf, HandlerData, Truthy, PsText, Fold;
  }

  /** An installation is blocked exactly when it is not allowed, and then nothing has happened. */
  lemma BlockedExactly(s: State, shared: map<Ext, Data>, digits: string, env: Environment, f: FailPoint, works: bool)
    ensures RealInstall(s, shared, digits, env, f, works).Blocked? <==>
      !(&& env.is64Bit && env.elevated && ArtifactsBuilt(s) && PairAgrees(s, Jpg, Jpeg) && PairAgrees(s, Tif, Tiff)
        && forall e: Ext :: IsUsableOriginal(OriginalOf(AuditOf(s, e), shared)))
    ensures RealInstall(s, shared, digits, env, f, works).Blocked? ==>
      RealInstall(s, shared, digits, env, f, works).state == s
  {
    hide Plan, FullAudit, Run, RollBack, PreconditionsHold, ArtifactsBuilt, PairAgrees, IsUsableOriginal;
    AllowedExactly(s, shared, digits, env);
  }

  /** The originals that may be saved, case by case: the mapped handler, or when that is the project's own, the one
      saved before, and only without that one the one of the earlier manifest. */
  lemma OriginalByCase(s: State, e: Ext, shared: map<Ext, Data>)
    ensures var d := OriginalOf(AuditOf(s, e), shared);
      var mapped, saved := Get(s.reg, HandlerAt(e)), Get(s.reg, SavedAt(e));
      if mapped.None? then d == None
      else if Fold(PsString(DataOf(mapped.value))) != Fold("{D75F9AC7-4664-46F3-A1D4-881140DF6CBE}") then
        d == Some(DataOf(mapped.value))
      else if saved.Some? && Truthy(Some(DataOf(saved.value))) then d == Some(DataOf(saved.value))
      else if e in shared && Truthy(Some(shared[e])) then d == Some(shared[e])
      else d == Some(DataOf(mapped.value))
  {
    hide Truthy, PsString, PROJECT_CLSID;
    ProjectClsid();
    NothingIsFalse();
    if Get(s.reg, HandlerAt(e)).None? {
      assert |Fold("")| != |Fold(PROJECT_CLSID)|;
    }
  }

  lemma NothingIsFalse()
    ensures !Truthy(None)
  {
  }

  lemma {:induction false} SavesComeFromAudits(s: State, audit: seq<ExtAudit>, shared: map<Ext, Data>, i: nat)
    requires WellFormedAudit(audit) && i < |Blocks(s, audit, shared)|
    requires Blocks(s, audit, shared)[i].SetValue? && Blocks(s, audit, shared)[i].reason.SaveOriginal?
    ensures exists m | 0 <= m < |audit| :: Blocks(s, audit, shared)[i].data == OriginalOf(audit[m], shared)
  {
    hide OriginalOf, ListOps, WellFormedLists;
    var before, block := Blocks(s, ButLast(audit), shared), Block(s, Last(audit), shared);
    if i < |before| {
      SavesComeFromAudits(s, ButLast(audit), shared, i);
      var m :| 0 <= m < |audit| - 1 && before[i].data == OriginalOf(ButLast(audit)[m], shared);
      assert ButLast(audit)[m] == audit[m];
    } else {
      assert Blocks(s, audit, shared)[i] == block[i - |before|];
      ListOpsAppend(s, Last(audit).ext, Last(audit).lists);
      assert i == |before|;
      assert audit[|audit| - 1] == Last(audit);
    }
  }

  lemma {:induction false} ListOpsAppend(s: State, e: Ext, lists: seq<ListSnapshot>)
    ensures forall op <- ListOps(s, e, lists) ::
      op.SetValue? && op.reason == AppendProperties(e) && op.data.Some? && op.kind in {StringKind, ExpandStringKind}
  {
    hide PropertyList.Merge, EqNoCase;
    if lists != [] {
      ListOpsAppend(s, e, ButLast(lists));
    }
  }

  lemma BaseSavesNothing(s: State, digits: string)
    ensures forall op <- Base(s, digits) :: op.SetValue? ==>
      !op.reason.SaveOriginal? && op.kind == StringKind && op.data.Some?
  {
  }

  /** The preconditions, read off the machine: environment, artifacts, agreeing pairs, and a usable original for every
      extension. */
  lemma AllowedExactly(s: State, shared: map<Ext, Data>, digits: string, env: Environment)
    ensures PreconditionsHold(s, FullAudit(s), Plan(s, FullAudit(s), shared, digits), env) <==>
      && env.is64Bit && env.elevated && ArtifactsBuilt(s) && PairAgrees(s, Jpg, Jpeg) && PairAgrees(s, Tif, Tiff)
      && forall e: Ext :: IsUsableOriginal(OriginalOf(AuditOf(s, e), shared))
  {
    hide Plan, FullAudit, AuditOf, OriginalOf, Truthy, EqNoCase, HandlerData, Entry, PROJECT_CLSID, PairAgrees,
      IsUsableOriginal, SavesUsableOriginal;
    var ops := Plan(s, FullAudit(s), shared, digits);
    EntryOfFullAudit(s, Jpg);
    EntryOfFullAudit(s, Jpeg);
    EntryOfFullAudit(s, Tif);
    EntryOfFullAudit(s, Tiff);
    var checks := AliasChecks(FullAudit(s));
    assert checks[0] == AliasCheck(HandlerData(AuditOf(s, Jpg)), HandlerData(AuditOf(s, Jpeg)));
    assert checks[1] == AliasCheck(HandlerData(AuditOf(s, Tif)), HandlerData(AuditOf(s, Tiff)));
    PairMeans(s, Jpg, Jpeg);
    PairMeans(s, Tif, Tiff);
    assert (forall i | 0 <= i < |checks| :: checks[i].Ok()) <==> PairAgrees(s, Jpg, Jpeg) && PairAgrees(s, Tif, Tiff);
    if forall e: Ext :: IsUsableOriginal(OriginalOf(AuditOf(s, e), shared)) {
      SavedAreUsable(s, shared, digits);
    }
    if forall i | 0 <= i < |ops| :: SavesUsableOriginal(ops[i]) {
      forall e: Ext
        ensures IsUsableOriginal(OriginalOf(AuditOf(s, e), shared))
      {
        SaveIsPlanned(s, shared, digits, e);
        var op := PlannedSet(s, SavedAt(e), StringKind, OriginalOf(AuditOf(s, e), shared), SaveOriginal(e));
        assert SavesUsableOriginal(op);
        SaveIsUsable(op);
      }
    }
  }

  lemma SavedAreUsable(s: State, shared: map<Ext, Data>, digits: string)
    requires forall e: Ext :: IsUsableOriginal(OriginalOf(AuditOf(s, e), shared))
    ensures var ops := Plan(s, FullAudit(s), shared, digits); forall i | 0 <= i < |ops| :: SavesUsableOriginal(ops[i])
  {
    hide Base, Blocks, FullAudit, AuditOf, OriginalOf, IsUsableOriginal, WellFormedAudit, SavesUsableOriginal;
    var base, blocks, ops := Base(s, digits), Blocks(s, FullAudit(s), shared), Plan(s, FullAudit(s), shared, digits);
    FullAuditIsWellFormed(s);
    BaseSavesNothing(s, digits);
    forall i | 0 <= i < |ops|
      ensures SavesUsableOriginal(ops[i])
    {
      if i < |base| {
        assert ops[i] == base[i] && base[i] in base;
        NoSaveIsUsable(ops[i]);
      } else {
        assert ops[i] == blocks[i - |base|];
        if ops[i].SetValue? && ops[i].reason.SaveOriginal? {
          SavesComeFromAudits(s, FullAudit(s), shared, i - |base|);
          var m :| 0 <= m < |FullAudit(s)| && ops[i].data == OriginalOf(FullAudit(s)[m], shared);
          AuditIsFaithful(s, m);
          assert IsUsableOriginal(OriginalOf(AuditOf(s, EXTENSIONS[m]), shared));
          UsableIsUsable(ops[i]);
        } else {
          NoSaveIsUsable(ops[i]);
        }
      }
    }
  }

  lemma NoSaveIsUsable(op: Op)
    requires !(op.SetValue? && op.reason.SaveOriginal?)
    ensures SavesUsableOriginal(op)
  {
  }

  lemma UsableIsUsable(op: Op)
    requires op.SetValue? && IsUsableOriginal(op.data)
    ensures SavesUsableOriginal(op)
  {
    UsableMeans(op.data);
  }

  lemma SaveIsUsable(op: Op)
    requires op.SetValue? && op.reason.SaveOriginal? && SavesUsableOriginal(op)
    ensures IsUsableOriginal(op.data)
  {
    UsableMeans(op.data);
  }

  // ---------------------------------------------------------------- when it goes through

  /** All files that are to be copied are there. */
  predicate SourcesPresent(s: State) {
    SourceFile(Dll(None)) in s.files && forall i | 0 <= i < |LEAVES_AFTER_DLL| ::
      SourceFile(LEAVES_AFTER_DLL[i]) in s.files
  }

  /** An operation that nothing of its own can stop. */
  predicate IsDoable(op: Op) {
    match op
    case CopyFile(_, _, planned, _, _) => planned.Some?
    case SetValue(_, kind, data, _, _) => data.Some? && (kind == StringKind || kind == ExpandStringKind)
  }

  predicate AllDoable(ops: seq<Op>) {
    forall i | 0 <= i < |ops| :: IsDoable(ops[i])
  }

  /** Whether a run fails for reasons of its own only. */
  predicate IsOutsideRun(f: FailPoint) {
    f == NoFailure || f == Registering || f == AfterRegistering
  }

  /** A copy over a file with the planned content: nothing is left to do. */
  predicate IsUpToDate(op: Op) {
    op.CopyFile? && op.planned.Some? && op.fileBefore == op.planned
  }

  /** Whether a failure point stops a run within its first operations: a failure behind the backup of a file does not
      arise where no backup is made. */
  predicate StopsWithin(ops: seq<Op>, f: FailPoint, k: nat)
    requires k <= |ops|
  {
    match f
    case NoFailure => false
    case Exporting => true
    case InOperation(i, afterBackup) => i < k && !(afterBackup && IsUpToDate(ops[i]))
    case Recording(i) => i < k
    case Registering => false
    case AfterRegistering => false
  }

  lemma StepUnderFault(s: State, op: Op, now: State, id: nat, fault: Fault)
    requires PlannedOn(s, op) && IsDoable(op) && At(now, TargetOf(op)) == At(s, TargetOf(op))
    requires op.CopyFile? ==> Get(now.files, op.source) == Get(s.files, op.source)
    ensures InstallStep(now, op, id, fault).ok <==>
      fault == NoFault || (fault == AfterBackup && IsUpToDate(op))
  {
  }

  /** Whether a run of doable operations goes through, and how many operations have taken effect. */
  lemma {:induction false} RunStopsExactly(s: State, ops: seq<Op>, k: nat, f: FailPoint)
    requires k <= |ops| && AllPlannedOn(s, ops) && DistinctTargets(ops) && AllDoable(ops)
    ensures Run(s, ops, k, f).ok <==> !StopsWithin(ops, f, k)
    ensures Run(s, ops, k, f).applied ==
      if !StopsWithin(ops, f, k) then k
      else match f case InOperation(i, _) => i case Recording(i) => i + 1 case _ => 0
  {
    hide PlannedOn, IsDoable, At, InstalledCell, InstallStep, IsUpToDate;
    if k > 0 {
      RunStopsExactly(s, ops, k - 1, f);
      if Run(s, ops, k - 1, f).ok {
        AppliedWhileOk(s, ops, k - 1, f);
        RunInPlace(s, ops, k - 1, f, k - 1);
        var p, op := Run(s, ops, k - 1, f), ops[k - 1];
        assert PlannedOn(s, op) && IsDoable(op);
        if op.CopyFile? {
          SourceIsSource(s, op);
          SourcesStay(s, ops, k - 1, f, op.source.leaf);
        }
        StepUnderFault(s, op, p.state, k - 1, FaultAt(f, k - 1));
      }
    }
  }

  lemma {:induction false} BlocksAreDoable(s: State, audit: seq<ExtAudit>, shared: map<Ext, Data>)
    requires forall m | 0 <= m < |audit| :: OriginalOf(audit[m], shared).Some?
    ensures AllDoable(Blocks(s, audit, shared))
  {
    hide OriginalOf, ListOps;
    if audit != [] {
      var before, block, ops := Blocks(s, ButLast(audit), shared), Block(s, Last(audit), shared),
        Blocks(s, audit, shared);
      BlocksAreDoable(s, ButLast(audit), shared);
      ListOpsAppend(s, Last(audit).ext, Last(audit).lists);
      forall i | 0 <= i < |ops|
        ensures IsDoable(ops[i])
      {
        if i < |before| {
          assert ops[i] == before[i];
        } else {
          assert ops[i] == block[i - |before|];
          assert audit[|audit| - 1] == Last(audit);
        }
      }
    }
  }

  lemma CopiesAreDoable(s: State, digits: string)
    requires SourcesPresent(s)
    ensures AllDoable(Base(s, digits))
  {
    var copies, base := Copies(s, DllTag(s, digits)), Base(s, digits);
    forall i | 0 <= i < |base|
      ensures IsDoable(base[i])
    {
      if i == 0 {
      } else if i < 12 {
        assert base[i] == CopyOf(s, LEAVES_AFTER_DLL[i - 1]);
      }
    }
  }

  lemma JoinedAreDoable(xs: seq<Op>, ys: seq<Op>)
    requires AllDoable(xs) && AllDoable(ys)
    ensures AllDoable(xs + ys)
  {
    hide IsDoable;
  }

  lemma OriginalsAreThere(s: State, shared: map<Ext, Data>)
    requires forall e: Ext :: IsUsableOriginal(OriginalOf(AuditOf(s, e), shared))
    ensures forall m | 0 <= m < |FullAudit(s)| :: OriginalOf(FullAudit(s)[m], shared).Some?
  {
    hide FullAudit, AuditOf, OriginalOf;
    forall m | 0 <= m < |FullAudit(s)|
      ensures OriginalOf(FullAudit(s)[m], shared).Some?
    {
      AuditIsFaithful(s, m);
      assert IsUsableOriginal(OriginalOf(AuditOf(s, EXTENSIONS[m]), shared));
    }
  }

  lemma PlanIsDoable(s: State, shared: map<Ext, Data>, digits: string, env: Environment)
    requires PreconditionsHold(s, FullAudit(s), Plan(s, FullAudit(s), shared, digits), env) && SourcesPresent(s)
    ensures AllDoable(Plan(s, FullAudit(s), shared, digits))
  {
    hide *;
    AllowedExactly(s, shared, digits, env);
    OriginalsAreThere(s, shared);
    CopiesAreDoable(s, digits);
    BlocksAreDoable(s, FullAudit(s), shared);
    JoinedAreDoable(Base(s, digits), Blocks(s, FullAudit(s), shared));
    PlanParts(s, shared, digits);
  }

  lemma PlanParts(s: State, shared: map<Ext, Data>, digits: string)
    ensures Plan(s, FullAudit(s), shared, digits) == Base(s, digits) + Blocks(s, FullAudit(s), shared)
  {
  }

  /** An allowed installation with all its files goes through to the registration of the schema. */
  lemma GoesThrough(s: State, shared: map<Ext, Data>, digits: string, env: Environment, f: FailPoint)
    requires PreconditionsHold(s, FullAudit(s), Plan(s, FullAudit(s), shared, digits), env) && SourcesPresent(s) &&
      IsOutsideRun(f)
    ensures var ops := Plan(s, FullAudit(s), shared, digits);
      var p := Run(s, ops, |ops|, f);
      p.ok && p.applied == |ops| && CanRegister(p.state)
  {
    hide Plan, FullAudit, Run, PreconditionsHold, PlannedOn, AllDoable, SourcesPresent;
    var ops := Plan(s, FullAudit(s), shared, digits);
    PlanIsPlanned(s, shared, digits);
    PlanIsDoable(s, shared, digits, env);
    RunStopsExactly(s, ops, |ops|, f);
    AppliedWhileOk(s, ops, |ops|, f);
    WhereSchemaFilesAre(s, shared, digits);
    RunInPlace(s, ops, |ops|, f, 3);
    RunInPlace(s, ops, |ops|, f, 4);
    var p := Run(s, ops, |ops|, f);
    assert At(p.state, TargetOf(ops[3])) == InstalledCell(ops[3]) &&
      At(p.state, TargetOf(ops[4])) == InstalledCell(ops[4]);
  }

  /** What becomes of an allowed installation with all its files, for every point of failure: it completes exactly when
      the failure is outside the run, and is undone after exactly the operations in front of it otherwise. */
  lemma OutcomeExactly(s: State, shared: map<Ext, Data>, digits: string, env: Environment, f: FailPoint, works: bool)
    requires PreconditionsHold(s, FullAudit(s), Plan(s, FullAudit(s), shared, digits), env) && SourcesPresent(s)
    ensures var ops, o := Plan(s, FullAudit(s), shared, digits), RealInstall(s, shared, digits, env, f, works);
      match f
      case NoFailure => o.Completed?
      case Exporting => o.Undone? && o.applied == 0 && !o.registered
      case InOperation(i, afterBackup) =>
        if i < |ops| && !(afterBackup && IsUpToDate(ops[i])) then o.Undone? && o.applied == i && !o.registered
        else o.Completed?
      case Recording(i) => if i < |ops| then o.Undone? && o.applied == i + 1 && !o.registered else o.Completed?
      case Registering => o.Undone? && o.applied == |ops| && !o.registered
      case AfterRegistering => o.Undone? && o.applied == |ops| && o.registered
  {
    hide Plan, FullAudit, Run, PreconditionsHold, PlannedOn, AllDoable, SourcesPresent, IsUpToDate, RollBack;
    var ops := Plan(s, FullAudit(s), shared, digits);
    PlanIsPlanned(s, shared, digits);
    PlanIsDoable(s, shared, digits, env);
    RunStopsExactly(s, ops, |ops|, f);
    AppliedWhileOk(s, ops, |ops|, f);
    WhereSchemaFilesAre(s, shared, digits);
    RunInPlace(s, ops, |ops|, f, 3);
    RunInPlace(s, ops, |ops|, f, 4);
    var p := Run(s, ops, |ops|, f);
    if p.ok {
      assert At(p.state, TargetOf(ops[3])) == InstalledCell(ops[3]) &&
        At(p.state, TargetOf(ops[4])) == InstalledCell(ops[4]);
    }
  }

  lemma WhereSchemaFilesAre(s: State, shared: map<Ext, Data>, digits: string)
    ensures var ops := Plan(s, FullAudit(s), shared, digits);
      |ops| > 12 && ops[3] == CopyOf(s, RegisterSchemaExe) && ops[4] == CopyOf(s, PropDesc)
  {
    hide Blocks, FullAudit;
  }

  // ---------------------------------------------------------------- when no failure leaves a trace

  /** Every mapped handler is of one of the six kinds that can be written back. */
  predicate HandlersRestorable(s: State) {
    forall e: Ext :: HandlerAt(e) in s.reg ==> Restorable(s.reg[HandlerAt(e)])
  }

  lemma {:induction false} ProxiesAreMappings(s: State, audit: seq<ExtAudit>, shared: map<Ext, Data>)
    ensures forall op <- Blocks(s, audit, shared) ::
      op.SetValue? && (op.reason.RegisterProxy? ==> op.loc == HandlerAt(op.reason.ext))
  {
    hide OriginalOf, ListOps;
    if audit != [] {
      ProxiesAreMappings(s, ButLast(audit), shared);
      ListOpsAppend(s, Last(audit).ext, Last(audit).lists);
    }
  }

  lemma BaseMapsNothing(s: State, digits: string)
    ensures forall op <- Base(s, digits) :: op.SetValue? ==> !op.reason.RegisterProxy?
  {
  }

  /** Only handler mappings can be overwritten without coming back. */
  lemma OnlyMappingsAreUnrestorable(s: State, shared: map<Ext, Data>, digits: string, op: Op)
    requires op in Plan(s, FullAudit(s), shared, digits) && Unrestorable(op) && !InTree(TargetOf(op))
    ensures exists e: Ext :: HandlerAt(e) in s.reg && !Restorable(s.reg[HandlerAt(e)])
  {
    hide Base, Blocks, FullAudit, Restorable;
    PlanIsPlanned(s, shared, digits);
    var ops := Plan(s, FullAudit(s), shared, digits);
    var i :| 0 <= i < |ops| && ops[i] == op;
    assert PlannedOn(s, ops[i]);
    BaseMapsNothing(s, digits);
    ProxiesAreMappings(s, FullAudit(s), shared);
    assert op in Base(s, digits) || op in Blocks(s, FullAudit(s), shared);
    assert op.loc == HandlerAt(op.reason.ext);
  }

  /** An unrestorable mapping is overwritten by every run that goes through. */
  lemma UnrestorableIsOverwritten(s: State, shared: map<Ext, Data>, digits: string, e: Ext)
    requires HandlerAt(e) in s.reg && !Restorable(s.reg[HandlerAt(e)])
    ensures var ops := Plan(s, FullAudit(s), shared, digits); !NothingUnrestorable(ops, |ops|)
  {
    hide Plan, FullAudit, Restorable;
    var ops := Plan(s, FullAudit(s), shared, digits);
    PlanIsPlanned(s, shared, digits);
    PlanOrder(s, shared, digits, e);
    var i :| 0 <= i < |ops| && IsMapping(ops[i], e);
    assert PlannedOn(s, ops[i]);
    PlannedMapping(s, ops[i], e);
    assert Unrestorable(ops[i]);
  }

  /** Without one of its files, an installation fails before it writes to the registry. */
  lemma MissingSourceStops(s: State, shared: map<Ext, Data>, digits: string, f: FailPoint)
    requires !SourcesPresent(s)
    ensures var ops := Plan(s, FullAudit(s), shared, digits); Run(s, ops, |ops|, f).applied < 12 <= |ops|
    ensures var ops := Plan(s, FullAudit(s), shared, digits); NothingUnrestorable(ops, Run(s, ops, |ops|, f).applied)
  {
    hide Plan, FullAudit, Run, At, InstalledCell, PlannedOn;
    var ops := Plan(s, FullAudit(s), shared, digits);
    PlanIsPlanned(s, shared, digits);
    CopiesComeFirst(s, shared, digits);
    var i :| 0 <= i < 12 && ops[i].CopyFile? && ops[i].planned.None?;
    RunInPlace(s, ops, |ops|, f, i);
  }

  lemma CopiesComeFirst(s: State, shared: map<Ext, Data>, digits: string)
    ensures var ops := Plan(s, FullAudit(s), shared, digits);
      && |ops| >= 12 && (forall i | 0 <= i < 12 :: ops[i].CopyFile?)
      && (!SourcesPresent(s) ==> exists i | 0 <= i < 12 :: ops[i].CopyFile? && ops[i].planned.None?)
  {
    hide Blocks, FullAudit;
    var tag, ops := DllTag(s, digits), Plan(s, FullAudit(s), shared, digits);
    assert forall i | 1 <= i < 12 :: ops[i] == CopyOf(s, LEAVES_AFTER_DLL[i - 1]);
    assert ops[0] == CopyOf(s, Dll(tag));
    if !SourcesPresent(s) && SourceFile(Dll(None)) in s.files {
      var k :| 0 <= k < |LEAVES_AFTER_DLL| && SourceFile(LEAVES_AFTER_DLL[k]) !in s.files;
      assert ops[k + 1].planned.None?;
    }
  }

  /** Whether the registry comes back at every point at which an installation can fail. */
  ghost predicate ComesBackAlways(s: State, shared: map<Ext, Data>, digits: string, env: Environment, works: bool) {
    forall f :: var o := RealInstall(s, shared, digits, env, f, works); o.Undone? ==> o.state.reg == s.reg
  }

  /** An allowed installation leaves no trace in the registry, wherever it fails, exactly when the machine has no
      project keys and its mapped handlers can be written back; or when a file is missing, so that it never gets as far
      as the registry. */
  lemma RegistryComesBackExactly(s: State, shared: map<Ext, Data>, digits: string, env: Environment, works: bool)
    requires PreconditionsHold(s, FullAudit(s), Plan(s, FullAudit(s), shared, digits), env)
    ensures ComesBackAlways(s, shared, digits, env, works) <==>
      NoProjectKeys(s) && (HandlersRestorable(s) || !SourcesPresent(s))
  {
    hide *;
    hide ComesBackAlways;
    if ComesBackAlways(s, shared, digits, env, works) {
      ComesBackOnlyIf(s, shared, digits, env, works);
    }
    if NoProjectKeys(s) && (HandlersRestorable(s) || !SourcesPresent(s)) {
      ComesBackIf(s, shared, digits, env, works);
    }
  }

  lemma ComesBackIf(s: State, shared: map<Ext, Data>, digits: string, env: Environment, works: bool)
    requires NoProjectKeys(s) && (HandlersRestorable(s) || !SourcesPresent(s))
    ensures ComesBackAlways(s, shared, digits, env, works)
  {
    hide RealInstall, Plan, FullAudit, NoProjectKeys, SourcesPresent, Unrestorable, InTree;
    var ops := Plan(s, FullAudit(s), shared, digits);
    forall f
      ensures var o := RealInstall(s, shared, digits, env, f, works); o.Undone? ==> o.state.reg == s.reg
    {
      FailedInstallIsNoop(s, shared, digits, env, f, works);
      AppliedAsRun(s, shared, digits, env, f, works);
      if !SourcesPresent(s) {
        MissingSourceStops(s, shared, digits, f);
      } else {
        forall op | op in ops && Unrestorable(op) && !InTree(TargetOf(op))
          ensures false
        {
          OnlyMappingsAreUnrestorable(s, shared, digits, op);
        }
      }
    }
  }

  lemma AppliedAsRun(s: State, shared: map<Ext, Data>, digits: string, env: Environment, f: FailPoint, works: bool)
    ensures var ops := Plan(s, FullAudit(s), shared, digits);
      var o := RealInstall(s, shared, digits, env, f, works);
      o.Undone? ==> o.applied == Run(s, ops, |ops|, f).applied
  {
    hide Plan, FullAudit, Run, RollBack, PreconditionsHold;
  }

  lemma ComesBackOnlyIf(s: State, shared: map<Ext, Data>, digits: string, env: Environment, works: bool)
    requires PreconditionsHold(s, FullAudit(s), Plan(s, FullAudit(s), shared, digits), env)
    requires ComesBackAlways(s, shared, digits, env, works)
    ensures NoProjectKeys(s) && (HandlersRestorable(s) || !SourcesPresent(s))
  {
    hide Plan, FullAudit, RealInstall, PreconditionsHold, NoProjectKeys, SourcesPresent, NothingUnrestorable,
      Restorable;
    FailedInstallIsNoop(s, shared, digits, env, Exporting, works);
    ExportingFails(s, shared, digits, env, works);
    if SourcesPresent(s) && !HandlersRestorable(s) {
      var e: Ext :| HandlerAt(e) in s.reg && !Restorable(s.reg[HandlerAt(e)]);
      UnrestorableIsOverwritten(s, shared, digits, e);
      FailedInstallIsNoop(s, shared, digits, env, Registering, works);
      RegisteringFails(s, shared, digits, env, works);
    }
  }

  lemma ExportingFails(s: State, shared: map<Ext, Data>, digits: string, env: Environment, works: bool)
    requires PreconditionsHold(s, FullAudit(s), Plan(s, FullAudit(s), shared, digits), env)
    ensures RealInstall(s, shared, digits, env, Exporting, works).Undone?
  {
    hide Plan, FullAudit, Run, RollBack, PreconditionsHold;
    FailingRunIsNotOk(s, Plan(s, FullAudit(s), shared, digits), Exporting);
  }

  /** A failure to register the schema comes after all operations. */
  lemma RegisteringFails(s: State, shared: map<Ext, Data>, digits: string, env: Environment, works: bool)
    requires PreconditionsHold(s, FullAudit(s), Plan(s, FullAudit(s), shared, digits), env) && SourcesPresent(s)
    ensures var o := RealInstall(s, shared, digits, env, Registering, works);
      o.Undone? && o.applied == |Plan(s, FullAudit(s), shared, digits)|
  {
    hide Plan, FullAudit, Run, RollBack, PreconditionsHold, SourcesPresent, CanRegister;
    GoesThrough(s, shared, digits, env, Registering);
  }

  lemma LateFailureUnregisters(s: State, shared: map<Ext, Data>, digits: string, env: Environment, works: bool)
    requires PreconditionsHold(s, FullAudit(s), Plan(s, FullAudit(s), shared, digits), env) && SourcesPresent(s)
    ensures var o := RealInstall(s, shared, digits, env, AfterRegistering, works);
      o.Undone? && o.registered && (o.state.schema == s.schema <==> works != s.schema)
  {
    hide Plan, FullAudit, Run, RollBack, PreconditionsHold, SourcesPresent, CanRegister, NothingUnrestorable,
      NoProjectKeys;
    GoesThrough(s, shared, digits, env, AfterRegistering);
    FailedInstallIsNoop(s, shared, digits, env, AfterRegistering, works);
  }

  /** Whether the schema registration comes back at every point at which an installation can fail. */
  ghost predicate SchemaComesBackAlways(s: State, shared: map<Ext, Data>, digits: string, env: Environment,
      works: bool) {
    forall f :: var o := RealInstall(s, shared, digits, env, f, works); o.Undone? ==> o.state.schema == s.schema
  }

  /** It does exactly when unregistering works on a machine without a registration, or fails on one that has it; or when
      a file is missing, so that the schema is never registered. */
  lemma SchemaComesBackExactly(s: State, shared: map<Ext, Data>, digits: string, env: Environment, works: bool)
    requires PreconditionsHold(s, FullAudit(s), Plan(s, FullAudit(s), shared, digits), env)
    ensures SchemaComesBackAlways(s, shared, digits, env, works) <==> works != s.schema || !SourcesPresent(s)
  {
    hide Plan, FullAudit, RealInstall, PreconditionsHold, NoProjectKeys, SourcesPresent, NothingUnrestorable;
    if works != s.schema || !SourcesPresent(s) {
      forall f
        ensures var o := RealInstall(s, shared, digits, env, f, works); o.Undone? ==> o.state.schema == s.schema
      {
        FailedInstallIsNoop(s, shared, digits, env, f, works);
        AppliedAsRun(s, shared, digits, env, f, works);
        if !SourcesPresent(s) {
          MissingSourceStops(s, shared, digits, f);
        }
      }
    } else {
      LateFailureUnregisters(s, shared, digits, env, works);
    }
  }

  lemma Completes(s: State, shared: map<Ext, Data>, digits: string, env: Environment, works: bool)
    requires PreconditionsHold(s, FullAudit(s), Plan(s, FullAudit(s), shared, digits), env) && SourcesPresent(s)
    ensures RealInstall(s, shared, digits, env, NoFailure, works).Completed?
  {
    hide Plan, FullAudit, Run, RollBack, PreconditionsHold, SourcesPresent, CanRegister;
    GoesThrough(s, shared, digits, env, NoFailure);
  }

  // ---------------------------------------------------------------- machines on which something is lost

  const WINDOWS_HANDLER: string := "{A38B883C-1682-497E-97B0-0A3A9E801682}"
  const ELEVATED := Environment(true, true)

  /** A machine with all the program's files, one handler for all extensions, and perhaps other values. */
  function Machine(handler: RegValue, other: map<Loc, RegValue>, schema: bool): State {
    State(
      other[HandlerAt(Png) := handler][HandlerAt(Jpg) := handler][HandlerAt(Jpeg) := handler]
        [HandlerAt(Tif) := handler][HandlerAt(Tiff) := handler],
      map l: Leaf | l in [Dll(None)] + LEAVES_AFTER_DLL :: SourceFile(l) := [1],
      map[], schema)
  }

  lemma MachineMaps(handler: RegValue, other: map<Loc, RegValue>, schema: bool, e: Ext)
    ensures Get(Machine(handler, other, schema).reg, HandlerAt(e)) == Some(handler)
  {
    match e
    case Png =>
    case Jpg =>
    case Jpeg =>
    case Tif =>
    case Tiff =>
  }

  lemma MachineHasFiles(handler: RegValue, other: map<Loc, RegValue>, schema: bool)
    ensures SourcesPresent(Machine(handler, other, schema)) && ArtifactsBuilt(Machine(handler, other, schema))
  {
    assert forall i | 0 <= i < |LEAVES_AFTER_DLL| :: ([Dll(None)] + LEAVES_AFTER_DLL)[i + 1] == LEAVES_AFTER_DLL[i];
    assert ([Dll(None)] + LEAVES_AFTER_DLL)[0] == Dll(None);
    assert ARTIFACTS[0] == Dll(None) && forall i | 1 <= i < |ARTIFACTS| :: ARTIFACTS[i] == LEAVES_AFTER_DLL[i - 1];
  }

  lemma MachineHas(handler: RegValue, other: map<Loc, RegValue>, schema: bool)
    ensures var s := Machine(handler, other, schema);
      && SourcesPresent(s) && ArtifactsBuilt(s) && s.schema == schema
      && (forall e: Ext :: HandlerData(AuditOf(s, e)) == Some(DataOf(handler)))
      && (forall l | l in s.reg :: l in other || exists e: Ext :: l == HandlerAt(e))
      && (forall l | l in other && !l.path.PropertyHandler? :: l in s.reg)
  {
    hide SourcesPresent, ArtifactsBuilt, DataOf;
    var s := Machine(handler, other, schema);
    MachineHasFiles(handler, other, schema);
    forall e: Ext
      ensures HandlerData(AuditOf(s, e)) == Some(DataOf(handler))
    {
      MachineMaps(handler, other, schema, e);
    }
  }

  lemma NothingOfTheProject(handler: RegValue, schema: bool)
    ensures NoProjectKeys(Machine(handler, map[], schema))
  {
    hide Machine, AuditOf, HandlerData, SourcesPresent, ArtifactsBuilt;
    MachineHas(handler, map[], schema);
  }

  lemma ForeignIsOriginal(a: ExtAudit, handler: RegValue)
    requires HandlerData(a) == Some(DataOf(handler)) && !EqNoCase(PsString(DataOf(handler)), PROJECT_CLSID)
    ensures OriginalOf(a, map[]) == Some(DataOf(handler))
  {
    hide EqNoCase, PROJECT_CLSID, PsString, HandlerData;
  }

  lemma MachineIsAllowed(handler: RegValue, other: map<Loc, RegValue>, schema: bool)
    requires Truthy(Some(DataOf(handler))) && !EqNoCase(PsString(DataOf(handler)), PROJECT_CLSID)
    ensures var s := Machine(handler, other, schema);
      PreconditionsHold(s, FullAudit(s), Plan(s, FullAudit(s), map[], ""), ELEVATED)
  {
    hide Machine, Plan, FullAudit, AuditOf, HandlerData, Truthy, PsString, PROJECT_CLSID, ArtifactsBuilt,
      SourcesPresent, PreconditionsHold, PairAgrees, IsUsableOriginal, OriginalOf;
    var s := Machine(handler, other, schema);
    MachineHas(handler, other, schema);
    PairMeans(s, Jpg, Jpeg);
    PairMeans(s, Tif, Tiff);
    UsableMeans(Some(DataOf(handler)));
    forall e: Ext
      ensures IsUsableOriginal(OriginalOf(AuditOf(s, e), map[]))
    {
      ForeignIsOriginal(AuditOf(s, e), handler);
    }
    AllowedExactly(s, map[], "", ELEVATED);
  }

  const FOREIGN_KEY := Loc(HKLM, ProjectOther("SOFTWARE\\ImagePhysicalSizeShell"), OtherValue("Note"))

  lemma WindowsHandlerIsForeign()
    ensures !EqNoCase(WINDOWS_HANDLER, PROJECT_CLSID) && WINDOWS_HANDLER != ""
  {
    Differ(WINDOWS_HANDLER, PROJECT_CLSID, 1);
  }

  /** A value under the project keys is lost by an installation that changed nothing before it failed. */
  lemma ProjectValueIsLost()
    ensures var s := Machine(Sz(WINDOWS_HANDLER), map[FOREIGN_KEY := Sz("kept")], false);
      var o := RealInstall(s, map[], "", ELEVATED, Exporting, true);
      && FOREIGN_KEY in s.reg && o.Undone? && o.applied == 0 && FOREIGN_KEY !in o.state.reg
  {
    hide Machine, Plan, FullAudit, PreconditionsHold, RealInstall, SourcesPresent, ArtifactsBuilt, AuditOf, HandlerData,
      WINDOWS_HANDLER, EqNoCase;
    var other := map[FOREIGN_KEY := Sz("kept")];
    var s := Machine(Sz(WINDOWS_HANDLER), other, false);
    WindowsHandlerIsForeign();
    MachineIsAllowed(Sz(WINDOWS_HANDLER), other, false);
    MachineHas(Sz(WINDOWS_HANDLER), other, false);
    assert FOREIGN_KEY in other;
    ExportingFails(s, map[], "", ELEVATED, true);
    NothingAppliedYet(s, map[], "", ELEVATED, true);
  }

  lemma NothingAppliedYet(s: State, shared: map<Ext, Data>, digits: string, env: Environment, works: bool)
    ensures var o := RealInstall(s, shared, digits, env, Exporting, works);
      o.Undone? ==> o.applied == 0 && forall l | l in o.state.reg :: !InProjectTree(l)
  {
    hide Plan, FullAudit, PreconditionsHold, Execute, RollbackPlan, Run;
    var ops := Plan(s, FullAudit(s), shared, digits);
    FailedFromTheStart(s, ops, |ops|);
  }

  lemma {:induction false} FailedFromTheStart(s: State, ops: seq<Op>, k: nat)
    requires k <= |ops|
    ensures Run(s, ops, k, Exporting).applied == 0 && !Run(s, ops, k, Exporting).ok
  {
    if k > 0 {
      FailedFromTheStart(s, ops, k - 1);
    }
  }

  /** A handler mapping of kind REG_NONE passes the preconditions and does not come back. */
  lemma NoneMappingIsLost()
    ensures var s := Machine(NoneKind([1]), map[], false);
      var o := RealInstall(s, map[], "", ELEVATED, Registering, true);
      NoProjectKeys(s) && o.Undone? && o.state.reg != s.reg
  {
    hide Machine, Plan, FullAudit, PreconditionsHold, RealInstall, SourcesPresent, ArtifactsBuilt, NothingUnrestorable,
      NoProjectKeys, AuditOf,
      HandlerData, EqNoCase, PsString;
    var s := Machine(NoneKind([1]), map[], false);
    BlobIsNotTheProject([1]);
    MachineIsAllowed(NoneKind([1]), map[], false);
    MachineHas(NoneKind([1]), map[], false);
    MachineMaps(NoneKind([1]), map[], false, Png);
    NothingOfTheProject(NoneKind([1]), false);
    UnrestorableIsOverwritten(s, map[], "", Png);
    RegisteringFails(s, map[], "", ELEVATED, true);
    FailedInstallIsNoop(s, map[], "", ELEVATED, Registering, true);
  }

  /** A schema that was registered before is unregistered by a failure after its registration; a schema that was not
      stays registered when unregistering fails. */
  lemma SchemaRegistrationIsLost(registeredBefore: bool)
    ensures var s := Machine(Sz(WINDOWS_HANDLER), map[], registeredBefore);
      var o := RealInstall(s, map[], "", ELEVATED, AfterRegistering, registeredBefore);
      o.Undone? && o.state.schema != registeredBefore
  {
    hide Machine, Plan, FullAudit, PreconditionsHold, RealInstall, SourcesPresent, ArtifactsBuilt, AuditOf, HandlerData,
      WINDOWS_HANDLER, EqNoCase;
    var s := Machine(Sz(WINDOWS_HANDLER), map[], registeredBefore);
    WindowsHandlerIsForeign();
    MachineIsAllowed(Sz(WINDOWS_HANDLER), map[], registeredBefore);
    MachineHas(Sz(WINDOWS_HANDLER), map[], registeredBefore);
    LateFailureUnregisters(s, map[], "", ELEVATED, registeredBefore);
  }

  lemma ListedMachine()
    ensures var s := Machine(MultiSz([WINDOWS_HANDLER]), map[], false);
      && PreconditionsHold(s, FullAudit(s), Plan(s, FullAudit(s), map[], ""), ELEVATED) && SourcesPresent(s) && Fresh(s)
      && MappedText(s, Png) == WINDOWS_HANDLER && HandlerData(AuditOf(s, Png)) == Some(Lines([WINDOWS_HANDLER]))
  {
    hide Machine, Plan, FullAudit, PreconditionsHold, EqNoCase, SourcesPresent, AuditOf, HandlerData, PsString, Truthy;
    var h := MultiSz([WINDOWS_HANDLER]);
    var s := Machine(h, map[], false);
    OneLine();
    WindowsHandlerIsForeign();
    MachineIsAllowed(h, map[], false);
    MachineHas(h, map[], false);
    forall e: Ext
      ensures !IsProxy(Get(s.reg, HandlerAt(e)))
    {
      MachineMaps(h, map[], false, e);
    }
  }

  lemma OneLine()
    ensures PsString(Lines([WINDOWS_HANDLER])) == WINDOWS_HANDLER && Truthy(Some(Lines([WINDOWS_HANDLER])))
  {
    assert [WINDOWS_HANDLER][0] == WINDOWS_HANDLER && |WINDOWS_HANDLER| == 38;
  }

  lemma WindowsHandlerIsClsid()
    ensures ParseClsid(WINDOWS_HANDLER) == Some(Fold(WINDOWS_HANDLER))
  {
    hide Fold;
  }

  /** A multi-string mapping that spells a handler is installed over without complaint; then no handler is found. */
  lemma ListedMappingIsLost()
    ensures var s := Machine(MultiSz([WINDOWS_HANDLER]), map[], false);
      var o := RealInstall(s, map[], "", ELEVATED, NoFailure, true);
      && o.Completed? && ParseClsid(MappedText(s, Png)) == Some(Fold(WINDOWS_HANDLER))
      && ChooseOriginal(o.state.reg, FormatOf(Png)) == (ErrorNotFound, None)
  {
    hide Machine, Plan, FullAudit, AuditOf, HandlerData, MappedText, PreconditionsHold, RealInstall, SourcesPresent,
      Fresh, ParseClsid, ChooseOriginal, Fold;
    var s := Machine(MultiSz([WINDOWS_HANDLER]), map[], false);
    ListedMachine();
    WindowsHandlerIsClsid();
    Completes(s, map[], "", ELEVATED, true);
    DelegatesToOwnHandler(s, map[], "", ELEVATED, NoFailure, true, Png);
  }

  /** What a third party mapped an extension to after a completed installation, and what rollback makes of it, when that
      is the project's CLSID as an expandable string or in another case. */
  lemma LookalikeIsOverwritten(foreign: RegValue)
    requires foreign == ExpandSz(PROJECT_CLSID) || foreign == Sz(Fold(PROJECT_CLSID))
    ensures var s := Machine(Sz(WINDOWS_HANDLER), map[], false);
      var ops := Plan(s, FullAudit(s), map[], "");
      var p := Run(s, ops, |ops|, NoFailure);
      var now := p.state.(reg := p.state.reg[HandlerAt(Png) := foreign]);
      && p.ok && Get(p.state.reg, HandlerAt(Png)) != Some(foreign)
      && Get(RollBack(now, p.ops, true, true, {}).reg, HandlerAt(Png)) == Some(Sz(WINDOWS_HANDLER))
  {
    hide Machine, Plan, FullAudit, PreconditionsHold, SourcesPresent, ArtifactsBuilt, AuditOf, HandlerData,
      WINDOWS_HANDLER, EqNoCase, Run, RollBack,
      Fold, PROJECT_CLSID;
    var s := Machine(Sz(WINDOWS_HANDLER), map[], false);
    WindowsHandlerIsForeign();
    MachineIsAllowed(Sz(WINDOWS_HANDLER), map[], false);
    MachineHas(Sz(WINDOWS_HANDLER), map[], false);
    MachineMaps(Sz(WINDOWS_HANDLER), map[], false, Png);
    FoldIsLookalike();
    GoesThrough(s, map[], "", ELEVATED, NoFailure);
    LookalikeMappingIsLost(s, map[], "", NoFailure, Png, foreign, true, true);
    InstalledMapping(s, map[], "", NoFailure, Png);
  }

  const OTHER_HANDLER: string := "{B38B883C-1682-497E-97B0-0A3A9E801682}"

  lemma OtherHandlerIsForeign()
    ensures Fold(OTHER_HANDLER) != Fold(PROJECT_CLSID)
  {
    Differ(OTHER_HANDLER, PROJECT_CLSID, 1);
  }

  /** The mapping of a third party to a handler of its own survives the rollback, on a machine where there was another
      mapping before. */
  lemma OtherMappingSurvives(works: bool)
    ensures var s := Machine(Sz(WINDOWS_HANDLER), map[], false);
      var ops := Plan(s, FullAudit(s), map[], "");
      var p := Run(s, ops, |ops|, NoFailure);
      var now := p.state.(reg := p.state.reg[HandlerAt(Png) := Sz(OTHER_HANDLER)]);
      p.ok && Get(RollBack(now, p.ops, true, works, {}).reg, HandlerAt(Png)) == Some(Sz(OTHER_HANDLER))
  {
    hide Machine, Plan, FullAudit, PreconditionsHold, SourcesPresent, ArtifactsBuilt, AuditOf, HandlerData, EqNoCase,
      Run, RollBack, Fold,
      PROJECT_CLSID, WINDOWS_HANDLER, OTHER_HANDLER, PlannedOn;
    var s := Machine(Sz(WINDOWS_HANDLER), map[], false);
    var ops := Plan(s, FullAudit(s), map[], "");
    var p := Run(s, ops, |ops|, NoFailure);
    var now := p.state.(reg := p.state.reg[HandlerAt(Png) := Sz(OTHER_HANDLER)]);
    WindowsHandlerIsForeign();
    MachineIsAllowed(Sz(WINDOWS_HANDLER), map[], false);
    MachineHas(Sz(WINDOWS_HANDLER), map[], false);
    GoesThrough(s, map[], "", ELEVATED, NoFailure);
    PlanIsPlanned(s, map[], "");
    PlanOrder(s, map[], "", Png);
    MappingsWriteTheProject(s, map[], "");
    var i :| 0 <= i < |ops| && IsMapping(ops[i], Png);
    assert PlannedOn(s, ops[i]);
    PlannedMapping(s, ops[i], Png);
    OtherHandlerIsForeign();
    assert IsForeign(s, ops[i], now);
    ForeignPlacesAreLeft(s, map[], "", NoFailure, now, true, works, {}, i);
  }

  lemma FoldIsLookalike()
    ensures EqNoCase(PROJECT_CLSID, PROJECT_CLSID) && EqNoCase(Fold(PROJECT_CLSID), PROJECT_CLSID) &&
      Fold(PROJECT_CLSID) != PROJECT_CLSID
  {
    assert PROJECT_CLSID[1] == 'D' && Fold(PROJECT_CLSID)[1] == 'd';
  }

  lemma InstalledMapping(s: State, shared: map<Ext, Data>, digits: string, f: FailPoint, e: Ext)
    requires var ops := Plan(s, FullAudit(s), shared, digits); Run(s, ops, |ops|, f).ok
    ensures var ops := Plan(s, FullAudit(s), shared, digits);
      Get(Run(s, ops, |ops|, f).state.reg, HandlerAt(e)) == Some(Sz(PROJECT_CLSID))
  {
    hide Plan, FullAudit, Run, PlannedOn, PROJECT_CLSID;
    var ops := Plan(s, FullAudit(s), shared, digits);
    PlanIsPlanned(s, shared, digits);
    PlanOrder(s, shared, digits, e);
    MappingsWriteTheProject(s, shared, digits);
    AppliedWhileOk(s, ops, |ops|, f);
    var i :| 0 <= i < |ops| && IsMapping(ops[i], e);
    RunInPlace(s, ops, |ops|, f, i);
    CellAt(Run(s, ops, |ops|, f).state, e);
  }
}
