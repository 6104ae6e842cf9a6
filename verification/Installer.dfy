/** The installer as it runs: methods that change the machine step by step, each tied to the function on states that the
    safety proofs are about. */
module Installer {
  import opened Common
  import opened PowerShell
  import opened Registry
  import opened InstallPlan
  import opened Rollback
  import opened Install
  import PropertyList

  class Machine {
    var reg: map<Loc, RegValue>
    var files: map<FilePath, Content>
    var backups: map<nat, Content>
    var schema: bool

    ghost function View(): State
      reads this
    {
      State(reg, files, backups, schema)
    }

    constructor (reg: map<Loc, RegValue>, files: map<FilePath, Content>, backups: map<nat, Content>, schema: bool)
      ensures View() == State(reg, files, backups, schema)
    {
      this.reg := reg;
      this.files := files;
      this.backups := backups;
      this.schema := schema;
    }

    /** The snapshot loops over property lists. */
    method GetExtensionAudit(e: Ext) returns (a: ExtAudit)
      ensures a == AuditOf(View(), e)
    {
      var lists: seq<ListSnapshot> := [];
      for i := 0 to |LIST_NAMES|
        invariant |lists| == i
        invariant forall k | 0 <= k < i ::
          lists[k] == ListSnapshot(ListAt(e, LIST_NAMES[k]), Get(reg, ListAt(e, LIST_NAMES[k])))
      {
        lists := lists + [ListSnapshot(ListAt(e, LIST_NAMES[i]), Get(reg, ListAt(e, LIST_NAMES[i])))];
      }
      a := ExtAudit(e, Get(reg, HandlerAt(e)), Get(reg, SavedAt(e)), lists);
    }

    method GetFullAudit() returns (items: seq<ExtAudit>)
      ensures items == FullAudit(View())
    {
      items := [];
      for i := 0 to |EXTENSIONS|
        invariant |items| == i && forall k | 0 <= k < i :: items[k] == AuditOf(View(), EXTENSIONS[k])
      {
        var a := GetExtensionAudit(EXTENSIONS[i]);
        items := items + [a];
      }
    }

    /** The inner loop of the plan: one append operation for each text list that lacks a property. */
    method PlanListOps(e: Ext, lists: seq<ListSnapshot>) returns (ops: seq<Op>)
      ensures ops == ListOps(View(), e, lists)
    {
      hide EqNoCase, PropertyList.Merge;
      ops := [];
      for i := 0 to |lists|
        invariant ops == ListOps(View(), e, lists[..i])
      {
        assert lists[..i + 1] == lists[..i] + [lists[i]];
        assert ButLast(lists[..i + 1]) == lists[..i] && Last(lists[..i + 1]) == lists[i];
        var value := lists[i].value;
        if value.Some? && (value.value.Sz? || value.value.ExpandSz?) {
          var merged := PropertyList.AddProjectPropertiesToList(value.value.text);
          if !EqNoCase(merged, value.value.text) {
            ops := ops + [SetValue(lists[i].loc, KindOf(value.value), Some(Text(merged)), Get(reg, lists[i].loc),
              AppendProperties(e))];
          }
        }
      }
      assert lists[..|lists|] == lists;
    }

    /** Files first, then the COM class. */
    method PlanBase(digits: string) returns (ops: seq<Op>)
      ensures ops == Base(View(), digits)
    {
      hide DllPath;
      ghost var s := View();
      var tag := if SourceFile(Dll(None)) in files then Some(digits) else None;
      var leaves := [Dll(tag)] + LEAVES_AFTER_DLL;
      ops := [];
      for i := 0 to |leaves|
        invariant |ops| == i && forall k | 0 <= k < i :: ops[k] == CopyOf(s, leaves[k])
      {
        ops := ops + [CopyFile(SourceOf(leaves[i]), InstalledFile(leaves[i]), Get(files, SourceOf(leaves[i])),
          Get(files, InstalledFile(leaves[i])), None)];
      }
      assert ops == Copies(s, tag);
      ops := ops + [
        SetValue(CLASS_NAME, StringKind, Some(Text("ImagePhysicalSizeShell Property Handler")), Get(reg, CLASS_NAME),
          FriendlyName),
        SetValue(SERVER_PATH, StringKind, Some(Text(DllPath(tag))), Get(reg, SERVER_PATH), ServerPath),
        SetValue(THREADING, StringKind, Some(Text("Both")), Get(reg, THREADING), Threading)];
    }

    /** One extension: save its handler, map it to the proxy, extend its property lists. */
    method PlanBlock(a: ExtAudit, shared: map<Ext, Data>) returns (block: seq<Op>)
      ensures block == Block(View(), a, shared)
    {
      hide ListOps, OriginalOf, PROJECT_CLSID;
      var lists := PlanListOps(a.ext, a.lists);
      block := [
        SetValue(SavedAt(a.ext), StringKind, OriginalOf(a, shared), Get(reg, SavedAt(a.ext)), SaveOriginal(a.ext)),
        SetValue(HandlerAt(a.ext), StringKind, Some(Text(PROJECT_CLSID)), Get(reg, HandlerAt(a.ext)),
          RegisterProxy(a.ext))] + lists;
    }

    method NewInstallPlan(audit: seq<ExtAudit>, shared: map<Ext, Data>, digits: string) returns (ops: seq<Op>)
      ensures ops == Plan(View(), audit, shared, digits)
    {
      hide Block;
      ghost var s := View();
      ops := PlanBase(digits);
      hide Base;
      for i := 0 to |audit|
        invariant ops == Base(s, digits) + Blocks(s, audit[..i], shared)
      {
        var a := audit[i];
        assert ButLast(audit[..i + 1]) == audit[..i] && Last(audit[..i + 1]) == a;
        var block := PlanBlock(a, shared);
        ops := ops + block;
      }
      assert audit[..|audit|] == audit;
    }

    /** One operation; `ok` is false when the source throws. */
    method InvokeInstallOperation(op: Op, id: nat, fault: Fault) returns (noted: Op, ok: bool)
      modifies this
      ensures Step(View(), noted, ok) == InstallStep(old(View()), op, id, fault)
    {
      noted := op;
      if fault == BeforeAnything {
        return noted, false;
      }
      match op
      case CopyFile(source, dest, planned, before, _) =>
        if planned.None? {
          return noted, false;
        }
        if dest in files && files[dest] == planned.value {
          return noted, true;
        }
        if before.Some? {
          if dest !in files {
            return noted, false;
          }
          backups := backups[id := files[dest]];
          noted := op.(backup := Some(id));
        }
        if fault == AfterBackup || source !in files {
          return noted, false;
        }
        files := files[dest := files[source]];
        ok := true;
      case SetValue(loc, kind, data, _, _) =>
        if fault == AfterBackup || data.None? {
          return noted, false;
        }
        var stored := StoredValue(kind, data.value);
        if stored.None? {
          return noted, false;
        }
        reg := reg[loc := stored.value];
        ok := true;
    }

    /** One rollback operation that is not a conflict; `ok` is false when the source throws. */
    method InvokeRollbackOperation(r: RollbackOp, broken: set<Target>) returns (ok: bool)
      requires !IsConflict(r)
      modifies this
      ensures View() == ExecuteOne(old(View()), r, broken)
      ensures !ok ==> View() == old(View())
    {
      if RollbackTarget(r) in broken {
        return false;
      }
      ok := true;
      match r
      case RestoreValue(l, v) =>
        var stored := StoredValue(KindOf(v), DataOf(v));
        if stored.None? {
          return false;
        }
        reg := reg[l := stored.value];
      case DeleteValue(l) => reg := reg - {l};
      case SkipValue(_) =>
      case RestoreFile(p, b) =>
        if b.None? || b.value !in backups {
          return false;
        }
        files := files[p := backups[b.value]];
      case DeleteFile(p) => files := files - {p};
      case SkipFile(_, _) =>
    }

    /** All places are read before any is written, in reverse order of the plan. */
    method NewRollbackPlanFromManifest(ops: seq<Op>) returns (plan: seq<RollbackOp>)
      ensures plan == RollbackPlan(View(), ops)
    {
      hide Classify;
      ghost var s := View();
      plan := [];
      var i := |ops|;
      while i > 0
        invariant 0 <= i <= |ops| && |plan| == |ops| - i
        invariant forall j | 0 <= j < |plan| :: plan[j] == Classify(s, ops[|ops| - 1 - j])
      {
        i := i - 1;
        var r := ClassifyOne(ops[i]);
        plan := plan + [r];
      }
    }

    /** Nothing is deleted that was there before, and nothing foreign is written over: that is a conflict, or a file
        that is gone. */
    method ClassifyOne(op: Op) returns (r: RollbackOp)
      ensures r == Classify(View(), op)
      ensures RollbackTarget(r) == TargetOf(op)
      ensures IsConflict(r) <==>
        if op.SetValue? then !MatchesPlanned(Get(reg, op.loc), op.data)
          else op.dest in files && op.planned != Some(files[op.dest])
      ensures r.RestoreValue? ==> op.regBefore == Some(r.value)
      ensures r.RestoreFile? ==> op.fileBefore.Some? && Get(files, r.dest) == op.planned
      ensures r.DeleteValue? ==> op.regBefore.None?
      ensures r.DeleteFile? ==> op.fileBefore.None? && Get(files, r.dest) == op.planned
    {
      hide EqNoCase, PsString, PsText;
      match op
      case SetValue(loc, _, data, before, _) =>
        if loc !in reg || !EqNoCase(PsString(DataOf(reg[loc])), PsText(data)) {
          r := SkipValue(loc);
        } else if before.Some? {
          r := RestoreValue(loc, before.value);
        } else {
          r := DeleteValue(loc);
        }
      case CopyFile(_, dest, planned, before, backup) =>
        var present := dest in files;
        if present && planned.Some? && files[dest] == planned.value {
          r := if before.Some? then RestoreFile(dest, backup) else DeleteFile(dest);
        } else {
          r := SkipFile(dest, present);
        }
    }

    method RemoveProjectRegistryKeys()
      modifies this
      ensures View() == RemoveProjectTrees(old(View()))
    {
      hide WithoutRoots, Below, ROOTS, RemoveProjectTrees;
      ghost var before := View();
      NoRootsYet(before);
      for i := 0 to |ROOTS|
        invariant View() == before.(reg := WithoutRoots(before.reg, i))
      {
        OneMoreRoot(before.reg, i);
        reg := map l | l in reg && !Below(ROOTS[i], l) :: reg[l];
      }
      WithoutAllRoots(before);
    }

    /** The whole rollback: a conflict is skipped, and an operation that throws does not stop the ones after it. */
    method InvokeRollbackFromManifest(ops: seq<Op>, registered: bool, unregisterWorks: bool, broken: set<Target>)
      modifies this
      ensures View() == RollBack(old(View()), ops, registered, unregisterWorks, broken)
    {
      hide ExecuteOne, Classify;
      if registered {
        var unregistered := InvokeRegisterSchema(false, unregisterWorks);
      }
      ghost var s1 := View();
      var plan := NewRollbackPlanFromManifest(ops);
      for j := 0 to |plan|
        invariant View() == Execute(s1, plan, j, broken)
      {
        if IsConflict(plan[j]) {
          ConflictsAreSkipped(View(), plan[j], broken);
        } else {
          var ok := InvokeRollbackOperation(plan[j], broken);
        }
      }
      RemoveProjectRegistryKeys();
    }

    /** Both directions need the helper program and the schema file. */
    method InvokeRegisterSchema(register: bool, works: bool) returns (ok: bool)
      modifies this
      ensures ok <==> works && CanRegister(old(View()))
      ensures View() == if ok then old(View()).(schema := register) else old(View())
    {
      ok := InstalledFile(RegisterSchemaExe) in files && InstalledFile(PropDesc) in files && works;
      if ok {
        schema := register;
      }
    }

    method TestInstallPreconditions(audit: seq<ExtAudit>, ops: seq<Op>, env: Environment) returns (ok: bool)
      ensures ok == PreconditionsHold(View(), audit, ops, env)
    {
      hide SavesUsableOriginal;
      ok := env.is64Bit && env.elevated;
      for i := 0 to |ARTIFACTS|
        invariant ok == (env.is64Bit && env.elevated && forall k | 0 <= k < i :: SourceFile(ARTIFACTS[k]) in files)
      {
        ok := ok && SourceFile(ARTIFACTS[i]) in files;
      }
      var checks := AliasChecks(audit);
      ok := ok && forall i | 0 <= i < |checks| :: checks[i].Ok();
      ghost var soFar := ok;
      for i := 0 to |ops|
        invariant ok == (soFar && forall k | 0 <= k < i :: SavesUsableOriginal(ops[k]))
      {
        ok := ok && SavesUsableOriginal(ops[i]);
      }
    }

    /** The loop over the plan; nothing more is done once an operation has thrown. */
    method ApplyPlan(plan: seq<Op>, f: FailPoint) returns (ops: seq<Op>, ok: bool, ghost applied: nat)
      modifies this
      ensures Progress(View(), ops, applied, ok) == Run(old(View()), plan, |plan|, f)
    {
      hide InstallStep;
      ghost var s := View();
      ops, ok, applied := plan, f != Exporting, 0;
      for i := 0 to |plan|
        invariant |ops| == |plan|
        invariant Progress(View(), ops, applied, ok) == Run(s, plan, i, f)
      {
        if ok {
          var noted, done := InvokeInstallOperation(ops[i], i, FaultAt(f, i));
          ops := ops[i := noted];
          applied := if done then i + 1 else i;
          ok := done && f != Recording(i);
        }
      }
    }

    /** The installation, with its catch block. */
    method InvokeRealInstall(shared: map<Ext, Data>, digits: string, env: Environment, f: FailPoint,
        unregisterWorks: bool)
      returns (completed: bool)
      modifies this
      ensures View() == RealInstall(old(View()), shared, digits, env, f, unregisterWorks).state
      ensures completed == RealInstall(old(View()), shared, digits, env, f, unregisterWorks).Completed?
    {
      hide Plan, FullAudit, Run, RollBack, PreconditionsHold;
      ghost var s := View();
      var audit := GetFullAudit();
      var plan := NewInstallPlan(audit, shared, digits);
      var allowed := TestInstallPreconditions(audit, plan, env);
      if !allowed {
        return false;
      }
      var ops, ok, applied := ApplyPlan(plan, f);
      var registered := false;
      if ok {
        registered := InvokeRegisterSchema(true, f != Registering);
      }
      if !registered || f == AfterRegistering {
        InvokeRollbackFromManifest(ops, registered, unregisterWorks, {});
        return false;
      }
      return true;
    }
  }

  lemma ConflictsAreSkipped(s: State, r: RollbackOp, broken: set<Target>)
    requires IsConflict(r)
    ensures ExecuteOne(s, r, broken) == s
  {
  }
}
