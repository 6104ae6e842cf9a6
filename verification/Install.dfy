/** `Invoke-RealInstall` of `installer/ImagePhysicalSizeShell.Installation.psm1` as a run that may fail anywhere, and
    what has become of every operation of the plan at any point of a run. */
module Install {
  import opened Common
  import opened PowerShell
  import opened Registry
  import opened InstallPlan
  import opened Rollback

  // ---------------------------------------------------------------- the run

  /** Where a run fails for a reason outside the model: while exporting the registry before anything is changed, in an
      operation, while recording an operation in the manifest, while registering the schema, or after that. */
  datatype FailPoint =
    | NoFailure
    | Exporting
    | InOperation(index: nat, afterBackup: bool)
    | Recording(index: nat)
    | Registering
    | AfterRegistering

  function FaultAt(f: FailPoint, i: nat): Fault {
    if f.InOperation? && f.index == i then (if f.afterBackup then AfterBackup else BeforeAnything) else NoFault
  }

  /** The machine, the plan with the backups it noted, how many operations took effect, and whether nothing has
      failed. */
  datatype Progress = Progress(state: State, ops: seq<Op>, applied: nat, ok: bool)

  function Advance(p: Progress, i: nat, f: FailPoint): Progress
    requires i < |p.ops|
  {
    if !p.ok then p
    else
      var step := InstallStep(p.state, p.ops[i], i, FaultAt(f, i));
      Progress(step.state, p.ops[i := step.op], if step.ok then i + 1 else i, step.ok && f != Recording(i))
  }

  function Run(s: State, ops: seq<Op>, k: nat, f: FailPoint): (p: Progress)
    requires k <= |ops|
    ensures |p.ops| == |ops| && p.applied <= k
  {
    if k == 0 then Progress(s, ops, 0, f != Exporting)
    else Advance(Run(s, ops, k - 1, f), k - 1, f)
  }

  datatype Outcome =
    | Blocked(state: State)
    | Completed(state: State, ops: seq<Op>)
    | Undone(state: State, reached: State, ops: seq<Op>, applied: nat, registered: bool)

  predicate CanRegister(s: State) {
    InstalledFile(RegisterSchemaExe) in s.files && InstalledFile(PropDesc) in s.files
  }

  /** `Invoke-RealInstall`: `shared` and `digits` stand for the earlier manifest and the DLL's hash, `works` for whether
      the helper program manages to unregister the schema. Rollback's own writes succeed. */
  function RealInstall(s: State, shared: map<Ext, Data>, digits: string, env: Environment, f: FailPoint,
      works: bool): Outcome {
    var audit := FullAudit(s);
    var ops := Plan(s, audit, shared, digits);
    if !PreconditionsHold(s, audit, ops, env) then Blocked(s)
    else
      var p := Run(s, ops, |ops|, f);
      if !p.ok || f == Registering || !CanRegister(p.state) then
        Undone(RollBack(p.state, p.ops, false, works, {}), p.state, p.ops, p.applied, false)
      else
        var done := p.state.(schema := true);
        if f == AfterRegistering then Undone(RollBack(done, p.ops, true, works, {}), done, p.ops, p.applied, true)
        else Completed(done, p.ops)
  }

  // ---------------------------------------------------------------- what a plan looks like

  /** A write of text with a string kind: it reads back as it was planned. */
  predicate IsTextWrite(op: Op) {
    op.SetValue? && (op.kind == StringKind || op.kind == ExpandStringKind) && op.data.Some? && op.data.value.Text?
  }

  /** An operation read off the machine it is about to change. */
  predicate PlannedOn(s: State, op: Op) {
    match op
    case CopyFile(source, dest, planned, before, backup) =>
      source.SourceFile? && dest.InstalledFile? && planned == Get(s.files, source) && before == Get(s.files, dest) &&
        backup.None?
    case SetValue(loc, kind, data, before, reason) =>
      && before == Get(s.reg, loc)
      && (!InProjectTree(loc) ==> IsTextWrite(op))
      && (!InProjectTree(loc) && before.Some? && !Restorable(before.value) ==>
          reason.RegisterProxy? && data == Some(Text(PROJECT_CLSID)))
  }

  predicate AllPlannedOn(s: State, ops: seq<Op>) {
    forall i | 0 <= i < |ops| :: PlannedOn(s, ops[i])
  }

  lemma {:induction false} ListOpsPlanned(s: State, e: Ext, lists: seq<ListSnapshot>)
    requires WellFormedLists(e, lists)
    requires forall i | 0 <= i < |lists| :: lists[i].value == Get(s.reg, lists[i].loc)
    ensures AllPlannedOn(s, ListOps(s, e, lists))
  {
    hide PropertyList.Merge, EqNoCase;
    if lists != [] {
      ListOpsPlanned(s, e, ButLast(lists));
      assert Last(lists) == lists[|lists| - 1];
    }
  }

  lemma AuditIsFaithful(s: State, i: nat)
    requires i < |FullAudit(s)|
    ensures FullAudit(s)[i] == AuditOf(s, EXTENSIONS[i])
    ensures forall k | 0 <= k < |FullAudit(s)[i].lists| ::
      FullAudit(s)[i].lists[k].value == Get(s.reg, FullAudit(s)[i].lists[k].loc)
  {
  }

  lemma {:induction false} BlocksPlanned(s: State, audit: seq<ExtAudit>, shared: map<Ext, Data>)
    requires WellFormedAudit(audit)
    requires forall i | 0 <= i < |audit| :: forall k | 0 <= k < |audit[i].lists| ::
      audit[i].lists[k].value == Get(s.reg, audit[i].lists[k].loc)
    ensures AllPlannedOn(s, Blocks(s, audit, shared))
  {
    hide ListOps, OriginalOf, WellFormedLists;
    if audit != [] {
      BlocksPlanned(s, ButLast(audit), shared);
      var a := Last(audit);
      assert a == audit[|audit| - 1];
      ListOpsPlanned(s, a.ext, a.lists);
    }
  }

  lemma PlanIsPlanned(s: State, shared: map<Ext, Data>, digits: string)
    ensures AllPlannedOn(s, Plan(s, FullAudit(s), shared, digits)) &&
      DistinctTargets(Plan(s, FullAudit(s), shared, digits))
  {
    hide Blocks, WellFormedAudit, FullAudit, DllPath, DistinctTargets;
    FullAuditIsWellFormed(s);
    forall i | 0 <= i < |FullAudit(s)|
      ensures forall k | 0 <= k < |FullAudit(s)[i].lists| ::
        FullAudit(s)[i].lists[k].value == Get(s.reg, FullAudit(s)[i].lists[k].loc)
    {
      AuditIsFaithful(s, i);
    }
    BlocksPlanned(s, FullAudit(s), shared);
    PlanTargetsAreDistinct(s, FullAudit(s), shared, digits);
  }

  // ---------------------------------------------------------------- what a run leaves in each place

  /** What an operation that took effect leaves in its place. */
  function InstalledCell(op: Op): Cell {
    match op
    case CopyFile(_, _, planned, _, _) => FileCell(planned)
    case SetValue(_, kind, data, _, _) => RegCell(if data.None? then None else StoredValue(kind, data.value))
  }

  /** What the run so far has made of operation `i`. */
  predicate InPlace(s: State, op: Op, i: nat, p: Progress)
    requires i < |p.ops|
  {
    var t, now := TargetOf(op), p.ops[i];
    && (now == op || (op.CopyFile? && now == op.(backup := Some(i))))
    && At(p.state, t) == (if i < p.applied then InstalledCell(op) else At(s, t))
    && (op.SetValue? && i < p.applied ==> op.data.Some?)
    && (op.CopyFile? ==>
        && (now.backup.Some? ==> i in p.state.backups && FileCell(Some(p.state.backups[i])) == At(s, t))
        && (i < p.applied && op.fileBefore.Some? && op.fileBefore != op.planned ==> now.backup.Some?)
        && (i < p.applied ==> op.planned.Some?))
  }

  lemma {:induction false} RunElsewhere(s: State, ops: seq<Op>, k: nat, f: FailPoint, t: Target)
    requires k <= |ops| && AllPlannedOn(s, ops)
    requires forall i | 0 <= i < |ops| :: TargetOf(ops[i]) != t
    ensures At(Run(s, ops, k, f).state, t) == At(s, t) && Run(s, ops, k, f).state.schema == s.schema
    ensures forall i | k <= i < |ops| :: Run(s, ops, k, f).ops[i] == ops[i]
    ensures forall i | 0 <= i < |ops| :: TargetOf(Run(s, ops, k, f).ops[i]) == TargetOf(ops[i])
  {
    hide PlannedOn, InstallStep, At;
    if k > 0 {
      RunElsewhere(s, ops, k - 1, f, t);
      var p := Run(s, ops, k - 1, f);
      StepTouchesOne(p.state, p.ops[k - 1], k - 1, FaultAt(f, k - 1), t);
    }
  }

  lemma StepTouchesOne(s: State, op: Op, id: nat, fault: Fault, t: Target)
    ensures var step := InstallStep(s, op, id, fault);
      && step.state.schema == s.schema && TargetOf(step.op) == TargetOf(op)
      && (t != TargetOf(op) ==> At(step.state, t) == At(s, t))
      && (forall b | b in s.backups && b != id :: b in step.state.backups && step.state.backups[b] == s.backups[b])
  {
    hide StoredValue;
  }

  /** Sources are never written. */
  lemma SourcesStay(s: State, ops: seq<Op>, k: nat, f: FailPoint, leaf: Leaf)
    requires k <= |ops| && AllPlannedOn(s, ops)
    ensures Get(Run(s, ops, k, f).state.files, SourceFile(leaf)) == Get(s.files, SourceFile(leaf))
  {
    var t := FileTarget(SourceFile(leaf));
    forall i | 0 <= i < |ops|
      ensures TargetOf(ops[i]) != t
    {
      assert PlannedOn(s, ops[i]);
    }
    RunElsewhere(s, ops, k, f, t);
    assert At(Run(s, ops, k, f).state, t) == At(s, t);
  }

  /** The step that takes an operation on. */
  lemma StepPutsInPlace(s: State, op: Op, i: nat, now: State, fault: Fault)
    requires PlannedOn(s, op) && At(now, TargetOf(op)) == At(s, TargetOf(op))
    requires op.CopyFile? ==> Get(now.files, op.source) == Get(s.files, op.source)
    ensures var step := InstallStep(now, op, i, fault);
      && (step.op == op || (op.CopyFile? && step.op == op.(backup := Some(i))))
      && At(step.state, TargetOf(op)) == (if step.ok then InstalledCell(op) else At(s, TargetOf(op)))
      && (op.SetValue? && step.ok ==> op.data.Some?)
      && (op.CopyFile? ==>
          && (step.op.backup.Some? ==>
              i in step.state.backups && FileCell(Some(step.state.backups[i])) == At(s, TargetOf(op)))
          && (step.ok && op.fileBefore.Some? && op.fileBefore != op.planned ==> step.op.backup.Some?)
          && (step.ok ==> op.planned.Some?))
  {
    hide StoredValue, IsTextWrite, InProjectTree;
  }

  /** Taking operation `j` on leaves every other operation as it was. */
  lemma OthersStayInPlace(s: State, op: Op, i: nat, p: Progress, j: nat, f: FailPoint)
    requires i < |p.ops| && j < |p.ops| && i != j && TargetOf(op) != TargetOf(p.ops[j])
    requires InPlace(s, op, i, p) && (p.ok ==> p.applied == j)
    ensures InPlace(s, op, i, Advance(p, j, f)) && Advance(p, j, f).ops[i] == p.ops[i]
  {
    hide InstalledCell, At, InstallStep;
    StepTouchesOne(p.state, p.ops[j], j, FaultAt(f, j), TargetOf(op));
  }

  lemma NextIsInPlace(s: State, op: Op, i: nat, p: Progress, f: FailPoint)
    requires i < |p.ops| && p.ops[i] == op && PlannedOn(s, op) && (p.ok ==> p.applied == i)
    requires InPlace(s, op, i, p) && p.applied <= i
    requires op.CopyFile? ==> Get(p.state.files, op.source) == Get(s.files, op.source)
    ensures InPlace(s, op, i, Advance(p, i, f))
  {
    hide InstalledCell, At, InstallStep, PlannedOn;
    if p.ok {
      StepPutsInPlace(s, op, i, p.state, FaultAt(f, i));
    }
  }

  lemma {:induction false} RunInPlace(s: State, ops: seq<Op>, k: nat, f: FailPoint, i: nat)
    requires k <= |ops| && i < |ops| && AllPlannedOn(s, ops) && DistinctTargets(ops)
    ensures InPlace(s, ops[i], i, Run(s, ops, k, f))
    ensures i >= k ==> Run(s, ops, k, f).ops[i] == ops[i]
  {
    hide InPlace, Advance, PlannedOn;
    if k == 0 {
      assert PlannedOn(s, ops[i]);
      NothingDone(s, ops, f, i);
    } else {
      var p := Run(s, ops, k - 1, f);
      RunInPlace(s, ops, k - 1, f, i);
      AppliedWhileOk(s, ops, k - 1, f);
      if i == k - 1 {
        if ops[i].CopyFile? {
          SourceIsSource(s, ops[i]);
          SourcesStay(s, ops, k - 1, f, ops[i].source.leaf);
        }
        NextIsInPlace(s, ops[i], i, p, f);
      } else {
        RunInPlace(s, ops, k - 1, f, k - 1);
        assert TargetOf(ops[k - 1]) != TargetOf(ops[i]) by {
          if i < k - 1 {
            assert TargetOf(ops[i]) != TargetOf(ops[k - 1]);
          }
        }
        OthersStayInPlace(s, ops[i], i, p, k - 1, f);
      }
    }
  }

  lemma NothingDone(s: State, ops: seq<Op>, f: FailPoint, i: nat)
    requires i < |ops| && PlannedOn(s, ops[i])
    ensures InPlace(s, ops[i], i, Run(s, ops, 0, f))
  {
  }

  lemma SourceIsSource(s: State, op: Op)
    requires PlannedOn(s, op) && op.CopyFile?
    ensures op.source.SourceFile?
  {
  }

  lemma {:induction false} AppliedWhileOk(s: State, ops: seq<Op>, k: nat, f: FailPoint)
    requires k <= |ops|
    ensures Run(s, ops, k, f).ok ==> Run(s, ops, k, f).applied == k
  {
    if k > 0 {
      AppliedWhileOk(s, ops, k - 1, f);
    }
  }
}
