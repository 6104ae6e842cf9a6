/** The install and rollback steps of `installer/ImagePhysicalSizeShell.Installation.psm1`, as functions on the machine
    state, and what rollback does to each location. */
module Rollback {
  import opened Common
  import opened PowerShell
  import opened Registry
  import opened InstallPlan

  // ---------------------------------------------------------------- reading a place

  /** What stands in a registry location or a file. */
  datatype Cell = RegCell(value: Option<RegValue>) | FileCell(content: Option<Content>)

  function At(s: State, t: Target): Cell {
    match t
    case RegTarget(l) => RegCell(Get(s.reg, l))
    case FileTarget(p) => FileCell(Get(s.files, p))
  }

  lemma SameEverywhere(a: State, b: State)
    requires forall t :: At(a, t) == At(b, t)
    ensures a.reg == b.reg && a.files == b.files
  {
    forall l: Loc
      ensures Get(a.reg, l) == Get(b.reg, l)
    {
      assert At(a, RegTarget(l)) == At(b, RegTarget(l));
    }
    forall p: FilePath
      ensures Get(a.files, p) == Get(b.files, p)
    {
      assert At(a, FileTarget(p)) == At(b, FileTarget(p));
    }
    MapsAgree(a.reg, b.reg);
    MapsAgree(a.files, b.files);
  }

  // ---------------------------------------------------------------- one install operation

  /** Where an operation may be interrupted by something outside the model. */
  datatype Fault = NoFault | BeforeAnything | AfterBackup

  datatype Step = Step(state: State, op: Op, ok: bool)

  function InstallStep(s: State, op: Op, id: nat, fault: Fault): Step {
    if fault == BeforeAnything then Step(s, op, false)
    else
      match op
      case CopyFile(source, dest, planned, before, _) =>
        if planned.None? then Step(s, op, false)
        else if Get(s.files, dest) == planned then Step(s, op, true)
        else if before.Some? && dest !in s.files then Step(s, op, false)
        else
          var s1 := if before.Some? then s.(backups := s.backups[id := s.files[dest]]) else s;
          var op1 := if before.Some? then op.(backup := Some(id)) else op;
          if fault == AfterBackup || source !in s.files then Step(s1, op1, false)
          else Step(s1.(files := s1.files[dest := s.files[source]]), op1, true)
      case SetValue(loc, kind, data, _, _) =>
        if fault == AfterBackup || data.None? || StoredValue(kind, data.value).None? then Step(s, op, false)
        else Step(s.(reg := s.reg[loc := StoredValue(kind, data.value).value]), op, true)
  }

  // ---------------------------------------------------------------- one rollback operation

  datatype RollbackOp =
    | RestoreValue(loc: Loc, value: RegValue)
    | DeleteValue(loc: Loc)
    | SkipValue(loc: Loc)
    | RestoreFile(dest: FilePath, backup: Option<nat>)
    | DeleteFile(dest: FilePath)
    | SkipFile(dest: FilePath, conflict: bool)

  function RollbackTarget(r: RollbackOp): Target {
    match r
    case RestoreValue(l, _) => RegTarget(l)
    case DeleteValue(l) => RegTarget(l)
    case SkipValue(l) => RegTarget(l)
    case RestoreFile(p, _) => FileTarget(p)
    case DeleteFile(p) => FileTarget(p)
    case SkipFile(p, _) => FileTarget(p)
  }

  /** Whether a registry value is the one the plan wrote: only the text is compared, and without case. */
  predicate MatchesPlanned(current: Option<RegValue>, data: Option<Data>) {
    current.Some? && EqNoCase(PsString(DataOf(current.value)), PsText(data))
  }

  function Classify(s: State, op: Op): RollbackOp {
    match op
    case SetValue(loc, _, data, before, _) =>
      if !MatchesPlanned(Get(s.reg, loc), data) then SkipValue(loc)
      else if before.Some? then RestoreValue(loc, before.value)
      else DeleteValue(loc)
    case CopyFile(_, dest, planned, before, backup) =>
      var current := Get(s.files, dest);
      if current.Some? && planned.Some? && current == planned then
        if before.Some? then RestoreFile(dest, backup) else DeleteFile(dest)
      else SkipFile(dest, current.Some?)
  }

  predicate IsConflict(r: RollbackOp) {
    r.SkipValue? || (r.SkipFile? && r.conflict)
  }

  /** The conflicts: a value that is gone or has another text, a file that is there with another content. A file that
      is gone is none. */
  lemma ConflictsExactly(s: State, op: Op)
    ensures IsConflict(Classify(s, op)) <==>
      match op
      case SetValue(loc, _, data, _, _) =>
        loc !in s.reg || Fold(PsString(DataOf(s.reg[loc]))) != Fold(PsText(data))
      case CopyFile(_, dest, planned, _, _) => dest in s.files && Some(s.files[dest]) != planned
  {
    hide PsString, PsText, Fold;
  }

  /** One rollback operation; a write that throws is logged and leaves its place as it is. */
  function ExecuteOne(s: State, r: RollbackOp, broken: set<Target>): State {
    if IsConflict(r) || RollbackTarget(r) in broken then s
    else
      match r
      case RestoreValue(l, v) =>
        var w := StoredValue(KindOf(v), DataOf(v));
        if w.None? then s else s.(reg := s.reg[l := w.value])
      case DeleteValue(l) => s.(reg := s.reg - {l})
      case SkipValue(_) => s
      case RestoreFile(p, b) =>
        if b.None? || b.value !in s.backups then s else s.(files := s.files[p := s.backups[b.value]])
      case DeleteFile(p) => s.(files := s.files - {p})
      case SkipFile(_, _) => s
  }

  // ---------------------------------------------------------------- whole rollbacks

  /** All current values are read first, last operation first. */
  function RollbackPlan(s: State, ops: seq<Op>): (r: seq<RollbackOp>)
    ensures |r| == |ops|
  {
    seq(|ops|, j requires 0 <= j < |ops| => Classify(s, ops[|ops| - 1 - j]))
  }

  /** The state after the first `j` operations of a rollback plan; writes to the places in `broken` fail. */
  function Execute(s: State, plan: seq<RollbackOp>, j: nat, broken: set<Target>): State
    requires j <= |plan|
  {
    if j == 0 then s else ExecuteOne(Execute(s, plan, j - 1, broken), plan[j - 1], broken)
  }

  /** The project keys go with everything under them; nothing tests whether they are empty. */
  function RemoveProjectTrees(s: State): State {
    s.(reg := map l | l in s.reg && !InProjectTree(l) :: s.reg[l])
  }

  /** The registry keys removed at the end of a rollback, in order. */
  datatype Root = OriginalHandlerKey(ext: Ext) | OriginalHandlersKey | ClassKey | ProjectRootKey

  const ROOTS: seq<Root> := [OriginalHandlerKey(Png), OriginalHandlerKey(Jpg), OriginalHandlerKey(Jpeg),
    OriginalHandlerKey(Tif),
    OriginalHandlerKey(Tiff), OriginalHandlersKey, ClassKey, ProjectRootKey]

  /** Whether a location lies in the tree below a key. */
  predicate Below(r: Root, l: Loc) {
    && l.hive == HKLM
    && match r
      case OriginalHandlerKey(e) => l.path == OriginalHandler(e)
      case OriginalHandlersKey => l.path.OriginalHandler?
      case ClassKey => l.path.ProjectClass? || l.path.InprocServer? || l.path.ProjectClassOther?
      case ProjectRootKey => l.path.OriginalHandler? || l.path.ProjectOther?
  }

  /** What is left of a registry when the first `n` roots are gone. */
  function WithoutRoots(reg: map<Loc, RegValue>, n: nat): map<Loc, RegValue>
    requires n <= |ROOTS|
  {
    map l | l in reg && (forall k | 0 <= k < n :: !Below(ROOTS[k], l)) :: reg[l]
  }

  lemma RootsAreTheProjectTree(l: Loc)
    ensures InProjectTree(l) <==> exists k | 0 <= k < |ROOTS| :: Below(ROOTS[k], l)
  {
    assert Below(ROOTS[6], l) || Below(ROOTS[7], l) ==> exists k | 0 <= k < |ROOTS| :: Below(ROOTS[k], l);
  }

  lemma WithoutAllRoots(s: State)
    ensures s.(reg := WithoutRoots(s.reg, |ROOTS|)) == RemoveProjectTrees(s)
  {
    hide Below, InProjectTree, ROOTS;
    forall l
      ensures InProjectTree(l) <==> exists k | 0 <= k < |ROOTS| :: Below(ROOTS[k], l)
    {
      RootsAreTheProjectTree(l);
    }
  }

  lemma NoRootsYet(s: State)
    ensures s.(reg := WithoutRoots(s.reg, 0)) == s
  {
  }

  /** Removing one more root. */
  lemma OneMoreRoot(reg: map<Loc, RegValue>, n: nat)
    requires n < |ROOTS|
    ensures WithoutRoots(reg, n + 1) == map l | l in WithoutRoots(reg, n) && !Below(ROOTS[n], l) ::
      WithoutRoots(reg, n)[l]
  {
    hide Below, ROOTS;
  }

  /** Unregistering needs the helper program and the schema file, and may fail for reasons of its own. */
  function Unregister(s: State, registered: bool, works: bool): State {
    if registered && works && InstalledFile(RegisterSchemaExe) in s.files && InstalledFile(PropDesc) in s.files then
      s.(schema := false)
    else s
  }

  function RollBack(s: State, ops: seq<Op>, registered: bool, unregisterWorks: bool, broken: set<Target>): State {
    var s1 := Unregister(s, registered, unregisterWorks);
    var plan := RollbackPlan(s1, ops);
    RemoveProjectTrees(Execute(s1, plan, |plan|, broken))
  }

  // ---------------------------------------------------------------- what rollback leaves in each place

  /** The value a write-back leaves. */
  function WrittenBack(v: RegValue): RegValue {
    WriteBackRestores(v);
    StoredValue(KindOf(v), DataOf(v)).value
  }

  /** What rolling one operation back leaves in its place, given what it finds there. */
  function RolledBack(s: State, op: Op): Cell {
    match op
    case SetValue(loc, _, data, before, _) =>
      var current := Get(s.reg, loc);
      if !MatchesPlanned(current, data) then RegCell(current)
      else if before.Some? then RegCell(Some(WrittenBack(before.value)))
      else RegCell(None)
    case CopyFile(_, dest, planned, before, backup) =>
      var current := Get(s.files, dest);
      if current.None? || current != planned then FileCell(current)
      else if before.None? then FileCell(None)
      else if backup.Some? && backup.value in s.backups then FileCell(Some(s.backups[backup.value]))
      else FileCell(current)
  }

  lemma OneTouchesOne(s: State, r: RollbackOp, broken: set<Target>, t: Target)
    ensures var after := ExecuteOne(s, r, broken);
      && after.backups == s.backups && after.schema == s.schema
      && (t != RollbackTarget(r) || t in broken ==> At(after, t) == At(s, t))
  {
  }

  /** An operation classified in `s` and executed in any state that agrees with `s` on its place and its backups. */
  lemma OneRollsBack(s: State, now: State, op: Op, broken: set<Target>)
    requires TargetOf(op) !in broken && At(now, TargetOf(op)) == At(s, TargetOf(op)) && now.backups == s.backups
    ensures At(ExecuteOne(now, Classify(s, op), broken), TargetOf(op)) == RolledBack(s, op)
  {
    hide EqNoCase, PsString;
    if op.SetValue? && op.regBefore.Some? {
      WriteBackRestores(op.regBefore.value);
    }
  }

  lemma TargetsAgree(s: State, op: Op)
    ensures RollbackTarget(Classify(s, op)) == TargetOf(op)
  {
  }

  /** After `j` steps exactly the last `j` operations are rolled back, whatever else stands on the machine. */
  lemma {:induction false} ExecuteAt(s: State, ops: seq<Op>, j: nat, broken: set<Target>, i: nat)
    requires DistinctTargets(ops) && j <= |ops| && i < |ops|
    ensures var now := Execute(s, RollbackPlan(s, ops), j, broken);
      && now.backups == s.backups && now.schema == s.schema
      && At(now, TargetOf(ops[i])) ==
        if |ops| - j <= i && TargetOf(ops[i]) !in broken then RolledBack(s, ops[i]) else At(s, TargetOf(ops[i]))
  {
    hide Classify, ExecuteOne, RolledBack, At;
    if j > 0 {
      var plan := RollbackPlan(s, ops);
      var last := ops[|ops| - j];
      var t := TargetOf(ops[i]);
      ExecuteAt(s, ops, j - 1, broken, i);
      TargetsAgree(s, last);
      var before := Execute(s, plan, j - 1, broken);
      OneTouchesOne(before, plan[j - 1], broken, t);
      if i == |ops| - j {
        if t !in broken {
          OneRollsBack(s, before, last, broken);
        }
      } else if i < |ops| - j {
        assert TargetOf(ops[i]) != TargetOf(last);
      } else {
        assert TargetOf(last) != TargetOf(ops[i]);
      }
    }
  }

  lemma {:induction false} ExecuteElsewhere(s: State, ops: seq<Op>, j: nat, broken: set<Target>, t: Target)
    requires j <= |ops| && forall i | 0 <= i < |ops| :: TargetOf(ops[i]) != t
    ensures var now := Execute(s, RollbackPlan(s, ops), j, broken);
      now.backups == s.backups && now.schema == s.schema && At(now, t) == At(s, t)
  {
    hide Classify, ExecuteOne, At;
    if j > 0 {
      ExecuteElsewhere(s, ops, j - 1, broken, t);
      TargetsAgree(s, ops[|ops| - j]);
      OneTouchesOne(Execute(s, RollbackPlan(s, ops), j - 1, broken), RollbackPlan(s, ops)[j - 1], broken, t);
    }
  }

  predicate InTree(t: Target) {
    t.RegTarget? && InProjectTree(t.loc)
  }

  lemma RemovalAt(s: State, t: Target)
    ensures At(RemoveProjectTrees(s), t) == if InTree(t) then RegCell(None) else At(s, t)
  {
  }

  lemma UnregisterAt(s: State, registered: bool, works: bool)
    ensures var s1 := Unregister(s, registered, works);
      s1.reg == s.reg && s1.files == s.files && s1.backups == s.backups && (s1.schema ==> s.schema)
  {
  }

  /** RolledBack reads only the place and the backups. */
  lemma RolledBackIsLocal(a: State, b: State, op: Op)
    requires At(a, TargetOf(op)) == At(b, TargetOf(op)) && a.backups == b.backups
    ensures RolledBack(a, op) == RolledBack(b, op)
  {
  }

  /** What a whole rollback leaves anywhere: nothing under the project keys; the rolled-back value where the plan wrote
      and the write works; everything else as found. */
  lemma RollBackAtPlanned(s: State, ops: seq<Op>, registered: bool, works: bool, broken: set<Target>, i: nat)
    requires DistinctTargets(ops) && i < |ops|
    ensures var t := TargetOf(ops[i]);
      At(RollBack(s, ops, registered, works, broken), t) ==
        if InTree(t) then RegCell(None) else if t in broken then At(s, t) else RolledBack(s, ops[i])
  {
    hide Classify, ExecuteOne, RolledBack, InTree, Execute;
    var s1 := Unregister(s, registered, works);
    UnregisterAt(s, registered, works);
    assert forall t :: At(s1, t) == At(s, t);
    ExecuteAt(s1, ops, |ops|, broken, i);
    RolledBackIsLocal(s1, s, ops[i]);
    RemovalAt(Execute(s1, RollbackPlan(s1, ops), |ops|, broken), TargetOf(ops[i]));
  }

  lemma RollBackElsewhere(s: State, ops: seq<Op>, registered: bool, works: bool, broken: set<Target>, t: Target)
    requires forall i | 0 <= i < |ops| :: TargetOf(ops[i]) != t
    ensures At(RollBack(s, ops, registered, works, broken), t) == if InTree(t) then RegCell(None) else At(s, t)
  {
    hide Classify, ExecuteOne, InTree, Execute;
    var s1 := Unregister(s, registered, works);
    UnregisterAt(s, registered, works);
    ExecuteElsewhere(s1, ops, |ops|, broken, t);
    RemovalAt(Execute(s1, RollbackPlan(s1, ops), |ops|, broken), t);
  }

  lemma {:induction false} ExecuteKeeps(s: State, plan: seq<RollbackOp>, j: nat, broken: set<Target>)
    requires j <= |plan|
    ensures Execute(s, plan, j, broken).backups == s.backups && Execute(s, plan, j, broken).schema == s.schema
  {
    hide ExecuteOne, At;
    if j > 0 {
      ExecuteKeeps(s, plan, j - 1, broken);
      OneTouchesOne(Execute(s, plan, j - 1, broken), plan[j - 1], broken, RollbackTarget(plan[j - 1]));
    }
  }

  // ---------------------------------------------------------------- twice is once

  /** Rolling back what was just rolled back changes nothing. */
  lemma RolledBackTwice(s: State, again: State, op: Op)
    requires At(again, TargetOf(op)) == RolledBack(s, op) && again.backups == s.backups
    ensures RolledBack(again, op) == RolledBack(s, op)
  {
    hide EqNoCase, PsString, WrittenBack;
  }

  /** Rollback never creates a file that was not there. */
  lemma NoFileAppears(s: State, ops: seq<Op>, registered: bool, works: bool, broken: set<Target>, p: FilePath)
    requires DistinctTargets(ops) && p !in s.files
    ensures p !in RollBack(s, ops, registered, works, broken).files
  {
    hide RollBack;
    var t := FileTarget(p);
    assert At(s, t) == FileCell(None);
    if i :| 0 <= i < |ops| && TargetOf(ops[i]) == t {
      RollBackAtPlanned(s, ops, registered, works, broken, i);
    } else {
      RollBackElsewhere(s, ops, registered, works, broken, t);
    }
    assert At(RollBack(s, ops, registered, works, broken), t) == FileCell(None);
  }

  lemma SchemaTwice(s: State, ops: seq<Op>, registered: bool, works: bool, broken: set<Target>)
    requires DistinctTargets(ops)
    ensures var once := RollBack(s, ops, registered, works, broken);
      Unregister(once, registered, works).schema == once.schema
  {
    hide RollBack;
    RollBackKeepsBackups(s, ops, registered, works, broken);
    if InstalledFile(RegisterSchemaExe) !in s.files {
      NoFileAppears(s, ops, registered, works, broken, InstalledFile(RegisterSchemaExe));
    }
    if InstalledFile(PropDesc) !in s.files {
      NoFileAppears(s, ops, registered, works, broken, InstalledFile(PropDesc));
    }
  }

  /** Running the rollback of one manifest twice gives the state that running it once gives. */
  lemma RollBackIsIdempotent(s: State, ops: seq<Op>, registered: bool, works: bool, broken: set<Target>)
    requires DistinctTargets(ops)
    ensures var once := RollBack(s, ops, registered, works, broken);
      RollBack(once, ops, registered, works, broken) == once
  {
    var once := RollBack(s, ops, registered, works, broken);
    var twice := RollBack(once, ops, registered, works, broken);
    RollBackKeepsBackups(s, ops, registered, works, broken);
    RollBackKeepsBackups(once, ops, registered, works, broken);
    hide RollBack, At, RolledBack, TargetOf, InTree;
    forall t
      ensures At(twice, t) == At(once, t)
    {
      if i :| 0 <= i < |ops| && TargetOf(ops[i]) == t {
        RollBackAtPlanned(s, ops, registered, works, broken, i);
        RollBackAtPlanned(once, ops, registered, works, broken, i);
        if !InTree(t) && t !in broken {
          RolledBackTwice(s, once, ops[i]);
        }
      } else {
        RollBackElsewhere(s, ops, registered, works, broken, t);
        RollBackElsewhere(once, ops, registered, works, broken, t);
      }
    }
    SameEverywhere(twice, once);
    SchemaTwice(s, ops, registered, works, broken);
  }

  lemma RollBackKeepsBackups(s: State, ops: seq<Op>, registered: bool, works: bool, broken: set<Target>)
    ensures var after := RollBack(s, ops, registered, works, broken);
      after.backups == s.backups && after.schema == Unregister(s, registered, works).schema
  {
    var s1 := Unregister(s, registered, works);
    ExecuteKeeps(s1, RollbackPlan(s1, ops), |ops|, broken);
  }

  /** Rollback takes the schema away exactly when this run registered it, its helper program and the schema file are
      there, and the program does its work; it never registers it. */
  lemma SchemaAfterRollback(s: State, ops: seq<Op>, registered: bool, works: bool, broken: set<Target>)
    ensures RollBack(s, ops, registered, works, broken).schema <==>
      s.schema && !(registered && works && InstalledFile(RegisterSchemaExe) in s.files &&
        InstalledFile(PropDesc) in s.files)
  {
    hide RollBack;
    RollBackKeepsBackups(s, ops, registered, works, broken);
  }
}
