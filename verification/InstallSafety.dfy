/** What every installation run and every rollback guarantees. */
module InstallSafety {
  import opened Common
  import opened PowerShell
  import opened Decimal
  import opened Registry
  import opened InstallPlan
  import opened Rollback
  import opened Install

  // ---------------------------------------------------------------- one operation there and back

  /** The text of a binary value starts with a digit, so it is not a CLSID. */
  lemma BlobIsNotTheProject(b: seq<Byte>)
    ensures !EqNoCase(PsString(Blob(b)), PROJECT_CLSID)
  {
    var texts := seq(|b|, i requires 0 <= i < |b| => NumberText(b[i]));
    var text := Join(texts, ' ');
    if b != [] {
      assert texts[0] == NumberText(b[0]);
      assert text[0] == texts[0][0];
      assert Fold(text)[0] == Lower(text[0]) && Fold(PROJECT_CLSID)[0] == Lower('{');
    }
  }

  /** An unknown kind in the way of a plan's text write would be restored as a string. */
  predicate Unrestorable(op: Op) {
    op.SetValue? && op.regBefore.Some? && !Restorable(op.regBefore.value)
  }

  /** Rolling an operation back on a run's machine, wherever the run stopped, gives what stood there before the run;
      the one exception is a place outside the project keys that was overwritten and held a value of no known kind. */
  lemma RolledBackIsBefore(s: State, op: Op, i: nat, p: Progress)
    requires i < |p.ops| && PlannedOn(s, op) && InPlace(s, op, i, p) && !InTree(TargetOf(op))
    requires Unrestorable(op) ==> i >= p.applied
    ensures RolledBack(p.state, p.ops[i]) == At(s, TargetOf(op))
  {
    hide PsString, EqNoCase, Restorable, PROJECT_CLSID;
    if op.SetValue? {
      RegistryRolledBack(s, op, i, p);
    } else {
      assert At(p.state, TargetOf(op)) == FileCell(Get(p.state.files, op.dest));
    }
  }

  lemma RegistryRolledBack(s: State, op: Op, i: nat, p: Progress)
    requires i < |p.ops| && PlannedOn(s, op) && InPlace(s, op, i, p) && !InTree(TargetOf(op)) && op.SetValue?
    requires Unrestorable(op) ==> i >= p.applied
    ensures RolledBack(p.state, p.ops[i]) == At(s, TargetOf(op))
  {
    hide EqNoCase, PROJECT_CLSID, Join;
    var now := Get(p.state.reg, op.loc);
    assert At(p.state, TargetOf(op)) == RegCell(now);
    if op.regBefore.Some? {
      WriteBackRestores(op.regBefore.value);
      if !Restorable(op.regBefore.value) {
        BlobIsNotTheProject(op.regBefore.value.blob);
      }
    }
    TextReadsBack(op);
  }

  lemma TextReadsBack(op: Op)
    requires IsTextWrite(op)
    ensures StoredValue(op.kind, op.data.value).Some? && MatchesPlanned(StoredValue(op.kind, op.data.value), op.data)
  {
  }

  /** The exception is real: such a value does not come back. */
  lemma UnknownKindIsLost(s: State, op: Op, i: nat, p: Progress)
    requires i < |p.ops| && PlannedOn(s, op) && InPlace(s, op, i, p) && !InTree(TargetOf(op))
    requires Unrestorable(op) && i < p.applied
    ensures RolledBack(p.state, p.ops[i]) != At(s, TargetOf(op))
  {
    hide EqNoCase, PROJECT_CLSID, PsString;
    assert At(p.state, TargetOf(op)) == RegCell(Get(p.state.reg, op.loc));
    WriteBackRestores(op.regBefore.value);
    TextReadsBack(op);
  }

  // ---------------------------------------------------------------- a failed installation

  predicate NoProjectKeys(s: State) {
    forall l | l in s.reg :: !InProjectTree(l)
  }

  /** No operation outside the project keys that took effect had overwritten a value of no known kind. */
  predicate NothingUnrestorable(ops: seq<Op>, applied: nat)
    requires applied <= |ops|
  {
    forall i | 0 <= i < applied :: !InTree(TargetOf(ops[i])) ==> !Unrestorable(ops[i])
  }

  /** The machine in which rollback starts, as far as rollback looks at it. */
  predicate Reached(s: State, p: Progress, from: State) {
    from.reg == p.state.reg && from.files == p.state.files && from.backups == p.state.backups
  }

  lemma UndoneAtPlanned(s: State, ops: seq<Op>, f: FailPoint, from: State, registered: bool, works: bool, i: nat)
    requires AllPlannedOn(s, ops) && DistinctTargets(ops) && i < |ops|
    requires Reached(s, Run(s, ops, |ops|, f), from)
    ensures var p, t := Run(s, ops, |ops|, f), TargetOf(ops[i]);
      var after := At(RollBack(from, p.ops, registered, works, {}), t);
      && (InTree(t) ==> after == RegCell(None))
      && (!InTree(t) && (Unrestorable(ops[i]) ==> i >= p.applied) ==> after == At(s, t))
      && (!InTree(t) && Unrestorable(ops[i]) && i < p.applied ==> after != At(s, t))
  {
    hide RollBack, RolledBack, InPlace, Run, At, Unrestorable, InTree, PlannedOn;
    var p, t := Run(s, ops, |ops|, f), TargetOf(ops[i]);
    RunInPlace(s, ops, |ops|, f, i);
    RunKeepsTargets(s, ops, f);
    RollBackAtPlanned(from, p.ops, registered, works, {}, i);
    SameRolledBack(from, p.state, p.ops[i]);
    assert PlannedOn(s, ops[i]);
    if !InTree(t) {
      if Unrestorable(ops[i]) && i < p.applied {
        UnknownKindIsLost(s, ops[i], i, p);
      } else {
        RolledBackIsBefore(s, ops[i], i, p);
      }
    }
  }

  lemma SameRolledBack(a: State, b: State, op: Op)
    requires a.reg == b.reg && a.files == b.files && a.backups == b.backups
    ensures RolledBack(a, op) == RolledBack(b, op)
  {
  }

  lemma RunKeepsTargets(s: State, ops: seq<Op>, f: FailPoint)
    requires AllPlannedOn(s, ops) && DistinctTargets(ops)
    ensures var p := Run(s, ops, |ops|, f);
      DistinctTargets(p.ops) && forall i | 0 <= i < |ops| :: TargetOf(p.ops[i]) == TargetOf(ops[i])
  {
    hide Run, At, PlannedOn, InstalledCell;
    var p := Run(s, ops, |ops|, f);
    forall i | 0 <= i < |ops|
      ensures TargetOf(p.ops[i]) == TargetOf(ops[i])
    {
      RunInPlace(s, ops, |ops|, f, i);
    }
  }

  lemma UndoneElsewhere(s: State, ops: seq<Op>, f: FailPoint, from: State, registered: bool, works: bool, t: Target)
    requires AllPlannedOn(s, ops) && DistinctTargets(ops)
    requires Reached(s, Run(s, ops, |ops|, f), from)
    requires forall i | 0 <= i < |ops| :: TargetOf(ops[i]) != t
    ensures At(RollBack(from, Run(s, ops, |ops|, f).ops, registered, works, {}), t) == if InTree(t) then RegCell(None)
      else At(s, t)
  {
    hide RollBack, Run, InTree, PlannedOn;
    var p := Run(s, ops, |ops|, f);
    RunKeepsTargets(s, ops, f);
    RunElsewhere(s, ops, |ops|, f, t);
    RollBackElsewhere(from, p.ops, registered, works, {}, t);
  }

  /** The registry and the files after any run and its rollback: the files are as before; the registry is as before
      exactly when it held nothing under the project keys and nothing of no known kind was overwritten. */
  lemma UndoneIsNoop(s: State, ops: seq<Op>, f: FailPoint, from: State, registered: bool, works: bool)
    requires AllPlannedOn(s, ops) && DistinctTargets(ops)
    requires Reached(s, Run(s, ops, |ops|, f), from)
    ensures var p := Run(s, ops, |ops|, f);
      var after := RollBack(from, p.ops, registered, works, {});
      && after.files == s.files
      && (forall l | !InProjectTree(l) && NothingUnrestorable(ops, p.applied) :: Get(after.reg, l) == Get(s.reg, l))
      && (forall l | InProjectTree(l) :: l !in after.reg)
      && (after.reg == s.reg <==> NoProjectKeys(s) && NothingUnrestorable(ops, p.applied))
  {
    hide RollBack, Run, Unrestorable, PlannedOn, InProjectTree;
    var p := Run(s, ops, |ops|, f);
    var after := RollBack(from, p.ops, registered, works, {});
    forall t
      ensures InTree(t) ==> At(after, t) == RegCell(None)
      ensures !InTree(t) && (t.FileTarget? || NothingUnrestorable(ops, p.applied)) ==> At(after, t) == At(s, t)
    {
      if i :| 0 <= i < |ops| && TargetOf(ops[i]) == t {
        UndoneAtPlanned(s, ops, f, from, registered, works, i);
        FilesAreRestorable(ops[i]);
      } else {
        UndoneElsewhere(s, ops, f, from, registered, works, t);
      }
    }
    FilesAsBefore(after, s);
    forall l | InProjectTree(l)
      ensures l !in after.reg
    {
      assert InTree(RegTarget(l));
      assert At(after, RegTarget(l)) == RegCell(Get(after.reg, l));
    }
    forall l | !InProjectTree(l) && NothingUnrestorable(ops, p.applied)
      ensures Get(after.reg, l) == Get(s.reg, l)
    {
      assert !InTree(RegTarget(l));
      assert At(after, RegTarget(l)) == At(s, RegTarget(l));
    }
    if NoProjectKeys(s) && NothingUnrestorable(ops, p.applied) {
      RegistryAsBefore(after, s);
    } else if !NothingUnrestorable(ops, p.applied) {
      var i :| 0 <= i < p.applied && !InTree(TargetOf(ops[i])) && Unrestorable(ops[i]);
      UndoneAtPlanned(s, ops, f, from, registered, works, i);
      FilesAreRestorable(ops[i]);
    }
  }

  lemma FilesAreRestorable(op: Op)
    ensures TargetOf(op).FileTarget? ==> !Unrestorable(op)
  {
  }

  lemma FilesAsBefore(a: State, b: State)
    requires forall t: Target | t.FileTarget? && !InTree(t) :: At(a, t) == At(b, t)
    ensures a.files == b.files
  {
    forall p: FilePath
      ensures Get(a.files, p) == Get(b.files, p)
    {
      assert At(a, FileTarget(p)) == At(b, FileTarget(p));
    }
    MapsAgree(a.files, b.files);
  }

  lemma RegistryAsBefore(a: State, b: State)
    requires forall l :: if InProjectTree(l) then l !in a.reg && l !in b.reg else Get(a.reg, l) == Get(b.reg, l)
    ensures a.reg == b.reg
  {
    forall l
      ensures Get(a.reg, l) == Get(b.reg, l)
    {
    }
    MapsAgree(a.reg, b.reg);
  }

  /** A failed installation is a no-op: for every machine, every environment and every point of failure. Files come back
      always; the registry exactly under the condition above; the schema registration comes back too, unless this run
      registered it and then either unregistered one that was there before, or could not unregister its own. */
  lemma FailedInstallIsNoop(s: State, shared: map<Ext, Data>, digits: string, env: Environment, f: FailPoint,
      works: bool)
    ensures var ops := Plan(s, FullAudit(s), shared, digits);
      match RealInstall(s, shared, digits, env, f, works)
      case Blocked(after) => after == s
      case Completed(_, _) => f == NoFailure || f.InOperation? || f.Recording?
      case Undone(after, _, _, applied, registered) =>
        && applied <= |ops|
        && after.files == s.files
        && (after.reg == s.reg <==> NoProjectKeys(s) && NothingUnrestorable(ops, applied))
        && (registered ==> applied == |ops| && f == AfterRegistering)
        && (after.schema == s.schema <==> !registered || works != s.schema)
  {
    hide Plan, FullAudit, RollBack, Run, PreconditionsHold, NothingUnrestorable, DistinctTargets;
    var ops := Plan(s, FullAudit(s), shared, digits);
    PlanIsPlanned(s, shared, digits);
    var p := Run(s, ops, |ops|, f);
    SchemaUntouched(s, ops, |ops|, f);
    AppliedWhileOk(s, ops, |ops|, f);
    FailingRunIsNotOk(s, ops, f);
    var done := p.state.(schema := true);
    UndoneIsNoop(s, ops, f, p.state, false, works);
    UndoneIsNoop(s, ops, f, done, true, works);
    RollBackKeepsBackups(p.state, p.ops, false, works, {});
    RollBackKeepsBackups(done, p.ops, true, works, {});
  }

  lemma {:induction false} SchemaUntouched(s: State, ops: seq<Op>, k: nat, f: FailPoint)
    requires k <= |ops|
    ensures Run(s, ops, k, f).state.schema == s.schema
  {
    if k > 0 {
      SchemaUntouched(s, ops, k - 1, f);
      var p := Run(s, ops, k - 1, f);
      StepTouchesOne(p.state, p.ops[k - 1], k - 1, FaultAt(f, k - 1), TargetOf(p.ops[k - 1]));
      hide InstallStep;
    }
  }

  lemma {:induction false} FailingRunIsNotOk(s: State, ops: seq<Op>, f: FailPoint)
    ensures f == Exporting ==> !Run(s, ops, |ops|, f).ok
  {
    StaysFailed(s, ops, |ops|, f);
  }

  lemma {:induction false} StaysFailed(s: State, ops: seq<Op>, k: nat, f: FailPoint)
    requires k <= |ops|
    ensures f == Exporting ==> !Run(s, ops, k, f).ok
  {
    if k > 0 {
      StaysFailed(s, ops, k - 1, f);
    }
  }
}
