/** The order of the plan, and its reversal in rollback, keep one thing true in every state of every run: an extension
    that is mapped to the proxy has what the proxy needs. */
module OrderSafety {
  import opened Common
  import opened PowerShell
  import opened Registry
  import opened InstallPlan
  import opened Rollback
  import opened Install
  import opened InstallSafety

  predicate IsProxy(v: Option<RegValue>) {
    v.Some? && EqNoCase(PsString(DataOf(v.value)), PROJECT_CLSID)
  }

  /** A saved original the handler can use: text, not empty, not the project's own. */
  predicate HasOriginal(s: State, e: Ext) {
    var v := Get(s.reg, SavedAt(e));
    v.Some? && v.value.Sz? && v.value.text != "" && !EqNoCase(v.value.text, PROJECT_CLSID)
  }

  /** The registered server names a DLL that is there. */
  ghost predicate HasServer(s: State) {
    exists tag :: InstalledFile(Dll(tag)) in s.files && Get(s.reg, SERVER_PATH) == Some(Sz(DllPath(tag)))
  }

  ghost predicate ProxySafe(s: State) {
    forall e: Ext :: IsProxy(Get(s.reg, HandlerAt(e))) ==> HasOriginal(s, Canonical(e)) && HasServer(s)
  }

  /** No extension is mapped to the proxy yet. */
  ghost predicate Fresh(s: State) {
    forall e: Ext :: !IsProxy(Get(s.reg, HandlerAt(e)))
  }

  // ---------------------------------------------------------------- the order of the plan

  predicate IsSave(op: Op, e: Ext) {
    op.SetValue? && op.loc == SavedAt(e) && op.kind == StringKind && op.reason == SaveOriginal(e)
  }

  predicate IsMapping(op: Op, e: Ext) {
    TargetOf(op) == RegTarget(HandlerAt(e))
  }

  /** The original of its canonical extension is saved before position `j`. */
  predicate SavedBefore(ops: seq<Op>, j: nat, e: Ext)
    requires j <= |ops|
  {
    exists i | 0 <= i < j :: IsSave(ops[i], Canonical(e))
  }

  predicate Audited(audit: seq<ExtAudit>, e: Ext) {
    exists m | 0 <= m < |audit| :: audit[m].ext == e
  }

  /** In the audit, a canonical extension comes no later than its aliases. */
  predicate CanonicalFirst(audit: seq<ExtAudit>) {
    audit != [] ==> CanonicalFirst(ButLast(audit)) && Audited(audit, Canonical(Last(audit).ext))
  }

  lemma {:induction false} ListOpsAreNoMappings(s: State, e: Ext, lists: seq<ListSnapshot>)
    requires WellFormedLists(e, lists)
    ensures forall j, x | 0 <= j < |ListOps(s, e, lists)| :: !IsMapping(ListOps(s, e, lists)[j], x)
  {
    ListOpsTargets(s, e, lists);
    var ops := ListOps(s, e, lists);
    forall j, x | 0 <= j < |ops|
      ensures !IsMapping(ops[j], x)
    {
      assert IsListTarget(TargetOf(ops[j]), lists);
      var k :| 0 <= k < |lists| && lists[k].loc == TargetOf(ops[j]).loc;
    }
  }

  lemma BlockShape(s: State, a: ExtAudit, shared: map<Ext, Data>)
    requires WellFormedLists(a.ext, a.lists)
    ensures |Block(s, a, shared)| >= 2 && IsSave(Block(s, a, shared)[0], a.ext) &&
      IsMapping(Block(s, a, shared)[1], a.ext)
    ensures forall j, x | 0 <= j < |Block(s, a, shared)| && IsMapping(Block(s, a, shared)[j], x) :: j == 1 && x == a.ext
  {
    hide ListOps, OriginalOf;
    ListOpsAreNoMappings(s, a.ext, a.lists);
    var block, lists := Block(s, a, shared), ListOps(s, a.ext, a.lists);
    assert forall k | 2 <= k < |block| :: block[k] == lists[k - 2];
  }

  lemma {:induction false} BlocksHave(s: State, audit: seq<ExtAudit>, shared: map<Ext, Data>, e: Ext)
    requires WellFormedAudit(audit) && Audited(audit, e)
    ensures exists i | 0 <= i < |Blocks(s, audit, shared)| :: IsSave(Blocks(s, audit, shared)[i], e)
    ensures exists i | 0 <= i < |Blocks(s, audit, shared)| :: IsMapping(Blocks(s, audit, shared)[i], e)
  {
    hide Block, IsSave, IsMapping, WellFormedLists;
    var before, block, ops := Blocks(s, ButLast(audit), shared), Block(s, Last(audit), shared),
      Blocks(s, audit, shared);
    if Last(audit).ext == e {
      BlockShape(s, Last(audit), shared);
      assert ops[|before|] == block[0] && ops[|before| + 1] == block[1];
    } else {
      AuditedEarlier(audit, e);
      BlocksHave(s, ButLast(audit), shared, e);
      var i :| 0 <= i < |before| && IsSave(before[i], e);
      var k :| 0 <= k < |before| && IsMapping(before[k], e);
      assert ops[i] == before[i] && ops[k] == before[k];
    }
  }

  lemma AuditedEarlier(audit: seq<ExtAudit>, e: Ext)
    requires Audited(audit, e) && Last(audit).ext != e
    ensures Audited(ButLast(audit), e)
  {
    var m :| 0 <= m < |audit| && audit[m].ext == e;
    assert ButLast(audit)[m] == audit[m];
  }

  /** Every mapping comes after the save for its canonical extension. */
  lemma {:induction false} MappingsAreGuarded(s: State, audit: seq<ExtAudit>, shared: map<Ext, Data>, j: nat, e: Ext)
    requires WellFormedAudit(audit) && CanonicalFirst(audit)
    requires j < |Blocks(s, audit, shared)| && IsMapping(Blocks(s, audit, shared)[j], e)
    ensures SavedBefore(Blocks(s, audit, shared), j, e)
  {
    hide Block, IsSave, IsMapping, WellFormedLists, SavedBefore, Audited;
    var before, block := Blocks(s, ButLast(audit), shared), Block(s, Last(audit), shared);
    if j < |before| {
      assert (before + block)[j] == before[j];
      MappingsAreGuarded(s, ButLast(audit), shared, j, e);
      SavedStays(before, block, j, e);
    } else {
      assert (before + block)[j] == block[j - |before|];
      BlockShape(s, Last(audit), shared);
      LastIsSaved(s, audit, shared, e);
    }
  }

  lemma SavedStays(before: seq<Op>, after: seq<Op>, j: nat, e: Ext)
    requires j <= |before| && SavedBefore(before, j, e)
    ensures SavedBefore(before + after, j, e)
  {
    var i :| 0 <= i < j && IsSave(before[i], Canonical(e));
    assert (before + after)[i] == before[i];
  }

  /** The mapping of the last extension of an audit is saved for: by its own block, or by an earlier one. */
  lemma LastIsSaved(s: State, audit: seq<ExtAudit>, shared: map<Ext, Data>, e: Ext)
    requires audit != [] && WellFormedAudit(audit) && CanonicalFirst(audit) && Last(audit).ext == e
    ensures |Blocks(s, ButLast(audit), shared)| + 1 <= |Blocks(s, audit, shared)|
    ensures SavedBefore(Blocks(s, audit, shared), |Blocks(s, ButLast(audit), shared)| + 1, e)
  {
    hide Block, IsSave, IsMapping, WellFormedLists, Audited;
    var before, block := Blocks(s, ButLast(audit), shared), Block(s, Last(audit), shared);
    BlockShape(s, Last(audit), shared);
    if Canonical(e) == e {
      assert (before + block)[|before|] == block[0];
    } else {
      AuditedEarlier(audit, Canonical(e));
      BlocksHave(s, ButLast(audit), shared, Canonical(e));
      var i :| 0 <= i < |before| && IsSave(before[i], Canonical(e));
      assert (before + block)[i] == before[i];
    }
  }

  lemma {:induction false} AuditPrefixIsCanonicalFirst(s: State, n: nat)
    requires n <= |EXTENSIONS|
    ensures CanonicalFirst(FullAudit(s)[..n])
  {
    if n > 0 {
      var audit := FullAudit(s)[..n];
      AuditPrefixIsCanonicalFirst(s, n - 1);
      assert ButLast(audit) == FullAudit(s)[..n - 1];
      var m := if n == 3 then 1 else if n == 5 then 3 else n - 1;
      assert audit[m].ext == EXTENSIONS[m] == Canonical(EXTENSIONS[n - 1]);
    }
  }

  lemma FullAuditIsCanonicalFirst(s: State)
    ensures CanonicalFirst(FullAudit(s))
  {
    AuditPrefixIsCanonicalFirst(s, |EXTENSIONS|);
    assert FullAudit(s)[..|EXTENSIONS|] == FullAudit(s);
  }

  /** The DLL is copied first, its path is registered before any block, and every block saves before it maps. */
  lemma PlanOrder(s: State, shared: map<Ext, Data>, digits: string, e: Ext)
    ensures var ops, tag := Plan(s, FullAudit(s), shared, digits), DllTag(s, digits);
      && |ops| > 13
      && ops[0] == CopyOf(s, Dll(tag)) &&
          ops[13] == PlannedSet(s, SERVER_PATH, StringKind, Some(Text(DllPath(tag))), ServerPath)
      && (exists j | 0 <= j < |ops| :: IsMapping(ops[j], e))
      && (forall j | 0 <= j < |ops| && IsMapping(ops[j], e) :: 13 < j && SavedBefore(ops, j, e))
  {
    hide Blocks, IsSave, IsMapping, SavedBefore, FullAudit, DllPath, WellFormedAudit, CanonicalFirst, PlannedSet,
      CopyOf, Base;
    var ops, audit := Plan(s, FullAudit(s), shared, digits), FullAudit(s);
    var base, blocks := Base(s, digits), Blocks(s, audit, shared);
    BaseShape(s, digits);
    FullAuditIsWellFormed(s);
    FullAuditIsCanonicalFirst(s);
    assert forall j | 0 <= j < |base| :: ops[j] == base[j];
    EveryExtensionIsAudited(s, e);
    BlocksHave(s, audit, shared, e);
    var h :| 0 <= h < |blocks| && IsMapping(blocks[h], e);
    assert ops[|base| + h] == blocks[h];
    forall j | 0 <= j < |ops| && IsMapping(ops[j], e)
      ensures 13 < j && SavedBefore(ops, j, e)
    {
      assert ops[j] == blocks[j - |base|];
      MappingsAreGuarded(s, audit, shared, j - |base|, e);
      SavedBeforeAfterBase(base, blocks, j - |base|, e);
    }
  }

  lemma SavedBeforeAfterBase(base: seq<Op>, blocks: seq<Op>, j: nat, e: Ext)
    requires j <= |blocks| && SavedBefore(blocks, j, e)
    ensures SavedBefore(base + blocks, |base| + j, e)
  {
    var i :| 0 <= i < j && IsSave(blocks[i], Canonical(e));
    assert (base + blocks)[|base| + i] == blocks[i];
  }

  lemma BaseShape(s: State, digits: string)
    ensures var base, tag := Base(s, digits), DllTag(s, digits);
      && |base| == 15 && base[0] == CopyOf(s, Dll(tag))
      && base[13] == PlannedSet(s, SERVER_PATH, StringKind, Some(Text(DllPath(tag))), ServerPath)
      && forall j, e | 0 <= j < 15 :: !IsMapping(base[j], e)
  {
    hide DllPath, DllTag;
    BaseTargets(s, digits);
  }

  lemma EveryExtensionIsAudited(s: State, e: Ext)
    ensures Audited(FullAudit(s), e)
  {
    var m := match e case Png => 0 case Jpg => 1 case Jpeg => 2 case Tif => 3 case Tiff => 4;
    assert FullAudit(s)[m].ext == EXTENSIONS[m] == e;
  }

  // ---------------------------------------------------------------- states that look like a prefix of the plan

  /** The first `m` operations are in effect, and no later mapping is. */
  ghost predicate LooksLikePrefix(ops: seq<Op>, now: State, m: nat) {
    && m <= |ops|
    && (forall i | 0 <= i < m ::
        At(now, TargetOf(ops[i])) == InstalledCell(ops[i]) && (ops[i].CopyFile? ==> ops[i].planned.Some?))
    && (forall i, e | m <= i < |ops| && IsMapping(ops[i], e) :: !IsProxy(Get(now.reg, HandlerAt(e))))
  }

  lemma SavedIsUsable(op: Op, e: Ext, now: State)
    requires IsSave(op, e) && SavesUsableOriginal(op) && At(now, TargetOf(op)) == InstalledCell(op)
    ensures HasOriginal(now, e)
  {
    hide PROJECT_CLSID;
    assert At(now, TargetOf(op)) == RegCell(Get(now.reg, SavedAt(e)));
    UsableText(op.data.value);
  }

  lemma UsableText(d: Data)
    requires !EqNoCase(PsString(d), PROJECT_CLSID) && Truthy(Some(d))
    ensures ObjectText(d) != "" && !EqNoCase(ObjectText(d), PROJECT_CLSID)
  {
    if !d.Text? && !d.Number? {
      assert |ObjectText(d)| < 20 && |PROJECT_CLSID| == 38;
    }
  }

  lemma PrefixIsSafe(s: State, shared: map<Ext, Data>, digits: string, now: State, m: nat)
    requires var ops := Plan(s, FullAudit(s), shared, digits);
      LooksLikePrefix(ops, now, m) && forall i | 0 <= i < |ops| :: SavesUsableOriginal(ops[i])
    ensures ProxySafe(now)
  {
    hide Plan, FullAudit, IsProxy, SavesUsableOriginal, IsSave, HasOriginal, DllPath, At, CopyOf, PlannedSet,
      InstalledCell;
    var ops, tag := Plan(s, FullAudit(s), shared, digits), DllTag(s, digits);
    forall e: Ext | IsProxy(Get(now.reg, HandlerAt(e)))
      ensures HasOriginal(now, Canonical(e)) && HasServer(now)
    {
      PlanOrder(s, shared, digits, e);
      var j :| 0 <= j < |ops| && IsMapping(ops[j], e);
      assert j < m;
      var i :| 0 <= i < j && IsSave(ops[i], Canonical(e));
      SavedIsUsable(ops[i], Canonical(e), now);
      ServerInPlace(s, now, tag, ops[0], ops[13]);
    }
  }

  lemma ServerInPlace(s: State, now: State, tag: Option<string>, copy: Op, server: Op)
    requires copy == CopyOf(s, Dll(tag)) && (copy.CopyFile? ==> copy.planned.Some?) &&
      At(now, TargetOf(copy)) == InstalledCell(copy)
    requires server == PlannedSet(s, SERVER_PATH, StringKind, Some(Text(DllPath(tag))), ServerPath)
    requires At(now, TargetOf(server)) == InstalledCell(server)
    ensures HasServer(now)
  {
    hide DllPath;
    assert At(now, TargetOf(copy)) == FileCell(Get(now.files, InstalledFile(Dll(tag))));
    assert At(now, TargetOf(server)) == RegCell(Get(now.reg, SERVER_PATH));
  }

  // ---------------------------------------------------------------- every state of a run and of its rollback

  /** What an unmapped extension holds after a rollback step is still not the proxy. */
  lemma RolledBackIsNoProxy(s: State, op: Op, e: Ext, i: nat, p: Progress)
    requires i < |p.ops| && PlannedOn(s, op) && InPlace(s, op, i, p) && IsMapping(op, e) &&
      !IsProxy(Get(s.reg, HandlerAt(e)))
    requires i >= p.applied || op.data == Some(Text(PROJECT_CLSID))
    ensures RolledBack(p.state, p.ops[i]).RegCell? && !IsProxy(RolledBack(p.state, p.ops[i]).value)
  {
    hide EqNoCase, PsString, PROJECT_CLSID, StoredValue;
    assert At(s, TargetOf(op)) == RegCell(Get(s.reg, HandlerAt(e)));
    assert At(p.state, TargetOf(op)) == RegCell(Get(p.state.reg, HandlerAt(e)));
    if op.regBefore.Some? {
      WrittenBackIsNoProxy(op.regBefore.value);
    }
    if i < p.applied {
      TextReadsBack(op);
    }
  }

  lemma WrittenBackIsNoProxy(v: RegValue)
    requires !IsProxy(Some(v))
    ensures !IsProxy(Some(WrittenBack(v)))
  {
    WriteBackRestores(v);
    if !Restorable(v) {
      assert |ObjectText(DataOf(v))| == 13 && |PROJECT_CLSID| == 38;
    }
  }

  lemma MappingsWriteTheProject(s: State, shared: map<Ext, Data>, digits: string)
    ensures var ops := Plan(s, FullAudit(s), shared, digits);
      forall i, e | 0 <= i < |ops| && IsMapping(ops[i], e) ::
        ops[i].SetValue? && ops[i].data == Some(Text(PROJECT_CLSID)) && ops[i].kind == StringKind
  {
    hide Blocks, FullAudit, WellFormedAudit, PROJECT_CLSID, Base;
    var base, blocks, ops := Base(s, digits), Blocks(s, FullAudit(s), shared), Plan(s, FullAudit(s), shared, digits);
    BaseShape(s, digits);
    FullAuditIsWellFormed(s);
    BlocksMapTheProject(s, FullAudit(s), shared);
    assert forall i | 0 <= i < |base| :: ops[i] == base[i];
    assert forall i | |base| <= i < |ops| :: ops[i] == blocks[i - |base|];
  }

  lemma {:induction false} BlocksMapTheProject(s: State, audit: seq<ExtAudit>, shared: map<Ext, Data>)
    requires WellFormedAudit(audit)
    ensures forall i, e | 0 <= i < |Blocks(s, audit, shared)| && IsMapping(Blocks(s, audit, shared)[i], e) ::
      Blocks(s, audit, shared)[i].data == Some(Text(PROJECT_CLSID)) && Blocks(s, audit, shared)[i].kind == StringKind
  {
    hide IsMapping, WellFormedLists, PROJECT_CLSID, ListOps;
    if audit != [] {
      BlocksMapTheProject(s, ButLast(audit), shared);
      BlockShape(s, Last(audit), shared);
    }
  }

  /** The machine after any part of any installation run, failed or not. */
  lemma EveryInstallStateIsSafe(s: State, shared: map<Ext, Data>, digits: string, env: Environment, k: nat,
      f: FailPoint)
    requires var ops := Plan(s, FullAudit(s), shared, digits);
      k <= |ops| && PreconditionsHold(s, FullAudit(s), ops, env)
    requires Fresh(s)
    ensures ProxySafe(Run(s, Plan(s, FullAudit(s), shared, digits), k, f).state)
  {
    hide Plan, FullAudit, Run, ProxySafe, InstalledCell, At, IsProxy;
    var ops := Plan(s, FullAudit(s), shared, digits);
    var p := Run(s, ops, k, f);
    PlanIsPlanned(s, shared, digits);
    forall i | 0 <= i < |ops|
      ensures InPlace(s, ops[i], i, p)
    {
      RunInPlace(s, ops, k, f, i);
    }
    forall i, e | p.applied <= i < |ops| && IsMapping(ops[i], e)
      ensures !IsProxy(Get(p.state.reg, HandlerAt(e)))
    {
      CellAt(p.state, e);
      CellAt(s, e);
    }
    PrefixIsSafe(s, shared, digits, p.state, p.applied);
  }

  lemma CellAt(s: State, e: Ext)
    ensures At(s, RegTarget(HandlerAt(e))) == RegCell(Get(s.reg, HandlerAt(e)))
  {
  }

  /** The machine after any number of rollback steps and then of key removals, wherever the installation stopped. */
  lemma EveryRollbackStateIsSafe(s: State, shared: map<Ext, Data>, digits: string, env: Environment, f: FailPoint,
      from: State, j: nat, n: nat)
    requires var ops := Plan(s, FullAudit(s), shared, digits);
      && j <= |ops| && PreconditionsHold(s, FullAudit(s), ops, env)
      && Reached(s, Run(s, ops, |ops|, f), from)
      && n <= |ROOTS| && (n > 0 ==> j == |ops|)
    requires Fresh(s)
    ensures var p := Run(s, Plan(s, FullAudit(s), shared, digits), |Plan(s, FullAudit(s), shared, digits)|, f);
      var now := Execute(from, RollbackPlan(from, p.ops), j, {});
      ProxySafe(now.(reg := WithoutRoots(now.reg, n)))
  {
    hide Plan, FullAudit, Run, ProxySafe, IsProxy, Execute, PreconditionsHold, WithoutRoots, ROOTS;
    var p := Run(s, Plan(s, FullAudit(s), shared, digits), |Plan(s, FullAudit(s), shared, digits)|, f);
    var now := Execute(from, RollbackPlan(from, p.ops), j, {});
    if n == 0 {
      NoRootsYet(now);
      EveryRollbackStepIsSafe(s, shared, digits, env, f, from, j);
    } else {
      AllStepsLeaveNoProxy(s, shared, digits, f, from);
      RemovalMapsNothing(now, n);
      FreshIsSafe(now.(reg := WithoutRoots(now.reg, n)));
    }
  }

  lemma RemovalMapsNothing(s: State, n: nat)
    requires Fresh(s) && n <= |ROOTS|
    ensures Fresh(s.(reg := WithoutRoots(s.reg, n)))
  {
    hide IsProxy, ROOTS;
    forall e: Ext
      ensures Get(WithoutRoots(s.reg, n), HandlerAt(e)) == Get(s.reg, HandlerAt(e))
    {
      assert forall k | 0 <= k < n :: !Below(ROOTS[k], HandlerAt(e));
    }
  }

  lemma FreshIsSafe(s: State)
    requires Fresh(s)
    ensures ProxySafe(s)
  {
    hide IsProxy;
  }

  lemma EveryRollbackStepIsSafe(s: State, shared: map<Ext, Data>, digits: string, env: Environment, f: FailPoint,
      from: State, j: nat)
    requires var ops := Plan(s, FullAudit(s), shared, digits);
      && j <= |ops| && PreconditionsHold(s, FullAudit(s), ops, env)
      && Reached(s, Run(s, ops, |ops|, f), from)
    requires Fresh(s)
    ensures var p := Run(s, Plan(s, FullAudit(s), shared, digits), |Plan(s, FullAudit(s), shared, digits)|, f);
      ProxySafe(Execute(from, RollbackPlan(from, p.ops), j, {}))
  {
    hide Plan, FullAudit, Run, ProxySafe, InstalledCell, At, IsProxy, Execute, RolledBack, PlannedOn;
    var ops := Plan(s, FullAudit(s), shared, digits);
    var p := Run(s, ops, |ops|, f);
    var now := Execute(from, RollbackPlan(from, p.ops), j, {});
    var m := if p.applied < |ops| - j then p.applied else |ops| - j;
    PlanIsPlanned(s, shared, digits);
    RunKeepsTargets(s, ops, f);
    MappingsWriteTheProject(s, shared, digits);
    forall i | 0 <= i < |ops|
      ensures InPlace(s, ops[i], i, p)
      ensures At(now, TargetOf(ops[i])) == if |ops| - j <= i then RolledBack(p.state, p.ops[i])
        else At(p.state, TargetOf(ops[i]))
    {
      RunInPlace(s, ops, |ops|, f, i);
      ExecuteAt(from, p.ops, j, {}, i);
      SameRolledBack(from, p.state, p.ops[i]);
      SameAt(from, p.state, TargetOf(ops[i]));
    }
    forall i, e | m <= i < |ops| && IsMapping(ops[i], e)
      ensures !IsProxy(Get(now.reg, HandlerAt(e)))
    {
      CellAt(now, e);
      CellAt(s, e);
      if |ops| - j <= i {
        assert PlannedOn(s, ops[i]);
        RolledBackIsNoProxy(s, ops[i], e, i, p);
      }
    }
    PrefixIsSafe(s, shared, digits, now, m);
  }

  lemma SameAt(a: State, b: State, t: Target)
    requires a.reg == b.reg && a.files == b.files
    ensures At(a, t) == At(b, t)
  {
  }

  /** When all steps are done, no extension is mapped to the proxy. */
  lemma AllStepsLeaveNoProxy(s: State, shared: map<Ext, Data>, digits: string, f: FailPoint, from: State)
    requires var ops := Plan(s, FullAudit(s), shared, digits); Reached(s, Run(s, ops, |ops|, f), from)
    requires Fresh(s)
    ensures var p := Run(s, Plan(s, FullAudit(s), shared, digits), |Plan(s, FullAudit(s), shared, digits)|, f);
      Fresh(Execute(from, RollbackPlan(from, p.ops), |p.ops|, {}))
  {
    hide Plan, FullAudit, Run, At, IsProxy, RolledBack, Execute, PlannedOn, InPlace;
    var ops := Plan(s, FullAudit(s), shared, digits);
    var p := Run(s, ops, |ops|, f);
    var after := Execute(from, RollbackPlan(from, p.ops), |p.ops|, {});
    PlanIsPlanned(s, shared, digits);
    RunKeepsTargets(s, ops, f);
    MappingsWriteTheProject(s, shared, digits);
    forall e: Ext
      ensures !IsProxy(Get(after.reg, HandlerAt(e)))
    {
      PlanOrder(s, shared, digits, e);
      var i :| 0 <= i < |ops| && IsMapping(ops[i], e);
      RunInPlace(s, ops, |ops|, f, i);
      assert PlannedOn(s, ops[i]);
      ExecuteAt(from, p.ops, |p.ops|, {}, i);
      SameRolledBack(from, p.state, p.ops[i]);
      RolledBackIsNoProxy(s, ops[i], e, i, p);
      CellAt(after, e);
    }
  }

  /** When rollback is through, no extension is mapped to the proxy. */
  lemma AfterRollbackNothingIsMapped(s: State, shared: map<Ext, Data>, digits: string, f: FailPoint, from: State,
      registered: bool, works: bool)
    requires var ops := Plan(s, FullAudit(s), shared, digits); Reached(s, Run(s, ops, |ops|, f), from)
    requires Fresh(s)
    ensures var p := Run(s, Plan(s, FullAudit(s), shared, digits), |Plan(s, FullAudit(s), shared, digits)|, f);
      Fresh(RollBack(from, p.ops, registered, works, {}))
  {
    hide Plan, FullAudit, Run, Execute, IsProxy, RemoveProjectTrees, WithoutRoots;
    var p := Run(s, Plan(s, FullAudit(s), shared, digits), |Plan(s, FullAudit(s), shared, digits)|, f);
    var from1 := Unregister(from, registered, works);
    AllStepsLeaveNoProxy(s, shared, digits, f, from1);
    var after := Execute(from1, RollbackPlan(from1, p.ops), |p.ops|, {});
    WithoutAllRoots(after);
    RemovalMapsNothing(after, |ROOTS|);
  }

  // ---------------------------------------------------------------- rollback under interference

  /** A place still holds what the plan put there, as far as rollback can tell. */
  predicate StillInstalled(now: State, op: Op) {
    match op
    case SetValue(loc, _, data, _, _) => MatchesPlanned(Get(now.reg, loc), data)
    case CopyFile(_, dest, planned, _, _) => planned.Some? && Get(now.files, dest) == planned
  }

  /** What rollback writes where it finds a value or file of its own: what stood there before, as far as it can be
      written back. */
  function BroughtBack(s: State, op: Op): Cell {
    if op.SetValue? && op.regBefore.Some? then RegCell(Some(WrittenBack(op.regBefore.value))) else At(s, TargetOf(op))
  }

  /** After a run whose operations all took effect, third parties rewrote or deleted whatever they liked but the
      backups. Rollback brings back every place of the plan, outside the project keys, that still looks installed and
      can be written, and leaves all others as found. What it brings back is what stood there before, except for values
      of no known kind. */
  lemma RollbackUnderInterference(s: State, shared: map<Ext, Data>, digits: string, f: FailPoint, now: State,
      registered: bool, works: bool, broken: set<Target>)
    requires var ops := Plan(s, FullAudit(s), shared, digits);
      var p := Run(s, ops, |ops|, f);
      p.ok && now.backups == p.state.backups
    ensures var ops := Plan(s, FullAudit(s), shared, digits);
      var after := RollBack(now, Run(s, ops, |ops|, f).ops, registered, works, broken);
      && (forall i | 0 <= i < |ops| && !InTree(TargetOf(ops[i])) ::
          At(after, TargetOf(ops[i])) ==
            if StillInstalled(now, ops[i]) && TargetOf(ops[i]) !in broken then BroughtBack(s, ops[i])
              else At(now, TargetOf(ops[i])))
      && (forall i | 0 <= i < |ops| && !InTree(TargetOf(ops[i])) ::
          BroughtBack(s, ops[i]) == At(s, TargetOf(ops[i])) <==> !Unrestorable(ops[i]))
      && (forall t | !InTree(t) && (forall i | 0 <= i < |ops| :: TargetOf(ops[i]) != t) :: At(after, t) == At(now, t))
  {
    hide Plan, FullAudit, Run, At, RolledBack, RollBack, PlannedOn, InPlace, InTree, StillInstalled, Unrestorable,
      BroughtBack;
    var ops := Plan(s, FullAudit(s), shared, digits);
    var p := Run(s, ops, |ops|, f);
    var after := RollBack(now, p.ops, registered, works, broken);
    PlanIsPlanned(s, shared, digits);
    RunKeepsTargets(s, ops, f);
    AppliedWhileOk(s, ops, |ops|, f);
    forall i | 0 <= i < |ops| && !InTree(TargetOf(ops[i]))
      ensures At(after, TargetOf(ops[i])) ==
        if StillInstalled(now, ops[i]) && TargetOf(ops[i]) !in broken then BroughtBack(s, ops[i])
          else At(now, TargetOf(ops[i]))
      ensures BroughtBack(s, ops[i]) == At(s, TargetOf(ops[i])) <==> !Unrestorable(ops[i])
    {
      RunInPlace(s, ops, |ops|, f, i);
      assert PlannedOn(s, ops[i]);
      RollBackAtPlanned(now, p.ops, registered, works, broken, i);
      BroughtBackIsBefore(s, ops[i]);
      if StillInstalled(now, ops[i]) {
        OwnIsBroughtBack(s, ops[i], i, p, now);
      } else {
        ForeignIsKept(s, ops[i], i, p, now);
      }
    }
    forall t | !InTree(t) && (forall i | 0 <= i < |ops| :: TargetOf(ops[i]) != t)
      ensures At(after, t) == At(now, t)
    {
      RollBackElsewhere(now, p.ops, registered, works, broken, t);
    }
  }

  lemma BroughtBackIsBefore(s: State, op: Op)
    requires PlannedOn(s, op)
    ensures BroughtBack(s, op) == At(s, TargetOf(op)) <==> !Unrestorable(op)
  {
    if op.SetValue? && op.regBefore.Some? {
      WriteBackRestores(op.regBefore.value);
    }
  }

  lemma OwnIsBroughtBack(s: State, op: Op, i: nat, p: Progress, now: State)
    requires i < |p.ops| && i < p.applied && InPlace(s, op, i, p) && PlannedOn(s, op) && !InTree(TargetOf(op))
    requires StillInstalled(now, op) && now.backups == p.state.backups
    ensures RolledBack(now, p.ops[i]) == BroughtBack(s, op)
  {
    hide EqNoCase, PsString, WrittenBack;
  }

  /** What a third party left at a writable place of the plan, outside the project keys, survives exactly when it does
      not look installed, or when it is what rollback writes there anyway. */
  lemma ForeignSurvivesExactly(s: State, shared: map<Ext, Data>, digits: string, f: FailPoint, now: State,
      registered: bool, works: bool, broken: set<Target>, i: nat)
    requires var ops := Plan(s, FullAudit(s), shared, digits);
      var p := Run(s, ops, |ops|, f);
      p.ok && now.backups == p.state.backups && i < |ops| && !InTree(TargetOf(ops[i])) && TargetOf(ops[i]) !in broken
    ensures var ops := Plan(s, FullAudit(s), shared, digits);
      var after := RollBack(now, Run(s, ops, |ops|, f).ops, registered, works, broken);
      At(after, TargetOf(ops[i])) == At(now, TargetOf(ops[i])) <==>
        !StillInstalled(now, ops[i]) || At(now, TargetOf(ops[i])) == BroughtBack(s, ops[i])
  {
    hide *;
    RollbackUnderInterference(s, shared, digits, f, now, registered, works, broken);
  }

  /** Whether a place of the plan for `s` is not as the plan leaves it: no value there or one with another text, no file
      there or one with another content than its source. */
  predicate IsForeign(s: State, op: Op, now: State) {
    match op
    case SetValue(loc, _, data, _, _) =>
      loc !in now.reg || Fold(PsString(DataOf(now.reg[loc]))) != Fold(if data.Some? then PsString(data.value) else "")
    case CopyFile(source, dest, _, _, _) =>
      dest !in now.files || source !in s.files || now.files[dest] != s.files[source]
  }

  /** Rollback leaves every such place as it finds it, outside the project keys, wherever the installation stopped and
      whichever writes fail. */
  lemma ForeignPlacesAreLeft(s: State, shared: map<Ext, Data>, digits: string, f: FailPoint, now: State,
      registered: bool, works: bool, broken: set<Target>, i: nat)
    requires var ops := Plan(s, FullAudit(s), shared, digits);
      i < |ops| && !InTree(TargetOf(ops[i])) && IsForeign(s, ops[i], now)
    ensures var ops := Plan(s, FullAudit(s), shared, digits);
      At(RollBack(now, Run(s, ops, |ops|, f).ops, registered, works, broken), TargetOf(ops[i])) ==
        At(now, TargetOf(ops[i]))
  {
    hide Plan, FullAudit, Run, At, RolledBack, RollBack, InPlace, InTree, EqNoCase, Fold;
    var ops := Plan(s, FullAudit(s), shared, digits);
    var p := Run(s, ops, |ops|, f);
    PlanIsPlanned(s, shared, digits);
    RunKeepsTargets(s, ops, f);
    RunInPlace(s, ops, |ops|, f, i);
    assert PlannedOn(s, ops[i]);
    RollBackAtPlanned(now, p.ops, registered, works, broken, i);
    ForeignIsRecognised(s, ops[i], now);
    ForeignIsKept(s, ops[i], i, p, now);
  }

  lemma ForeignIsRecognised(s: State, op: Op, now: State)
    requires PlannedOn(s, op)
    ensures IsForeign(s, op, now) <==> !StillInstalled(now, op)
  {
    hide PsString, Fold;
  }

  /** And it brings every other writable place back to what stood there before the installation, unless that was of no
      known kind. */
  lemma OwnPlacesComeBack(s: State, shared: map<Ext, Data>, digits: string, f: FailPoint, now: State, registered: bool,
      works: bool, broken: set<Target>, i: nat)
    requires var ops := Plan(s, FullAudit(s), shared, digits);
      var p := Run(s, ops, |ops|, f);
      && p.ok && now.backups == p.state.backups
      && i < |ops| && !InTree(TargetOf(ops[i])) && !IsForeign(s, ops[i], now) && TargetOf(ops[i]) !in broken &&
          !Unrestorable(ops[i])
    ensures var ops := Plan(s, FullAudit(s), shared, digits);
      At(RollBack(now, Run(s, ops, |ops|, f).ops, registered, works, broken), TargetOf(ops[i])) ==
        At(s, TargetOf(ops[i]))
  {
    hide Plan, FullAudit, Run, At, RollBack, InTree, Unrestorable, PlannedOn, StillInstalled, IsForeign, BroughtBack;
    var ops := Plan(s, FullAudit(s), shared, digits);
    PlanIsPlanned(s, shared, digits);
    assert PlannedOn(s, ops[i]);
    ForeignIsRecognised(s, ops[i], now);
    RollbackUnderInterference(s, shared, digits, f, now, registered, works, broken);
  }

  /** The handler mapping a third party wrote, in another case or as an expandable string: rollback takes it for the
      project's. */
  lemma LookalikeMappingIsLost(s: State, shared: map<Ext, Data>, digits: string, f: FailPoint, e: Ext,
      foreign: RegValue, registered: bool, works: bool)
    requires var ops := Plan(s, FullAudit(s), shared, digits); Run(s, ops, |ops|, f).ok
    requires IsProxy(Some(foreign))
    ensures var ops := Plan(s, FullAudit(s), shared, digits);
      var p := Run(s, ops, |ops|, f);
      var now := p.state.(reg := p.state.reg[HandlerAt(e) := foreign]);
      var before := Get(s.reg, HandlerAt(e));
      Get(RollBack(now, p.ops, registered, works, {}).reg, HandlerAt(e)) == if before.Some? then
        Some(WrittenBack(before.value)) else None
  {
    hide Plan, FullAudit, Run, RollBack, PlannedOn, WrittenBack, EqNoCase, PROJECT_CLSID;
    var ops := Plan(s, FullAudit(s), shared, digits);
    var p := Run(s, ops, |ops|, f);
    var now := p.state.(reg := p.state.reg[HandlerAt(e) := foreign]);
    PlanIsPlanned(s, shared, digits);
    PlanOrder(s, shared, digits, e);
    MappingsWriteTheProject(s, shared, digits);
    var i :| 0 <= i < |ops| && IsMapping(ops[i], e);
    assert PlannedOn(s, ops[i]);
    PlannedMapping(s, ops[i], e);
    assert StillInstalled(now, ops[i]);
    RollbackUnderInterference(s, shared, digits, f, now, registered, works, {});
    assert At(RollBack(now, p.ops, registered, works, {}), TargetOf(ops[i])) == BroughtBack(s, ops[i]);
  }

  lemma PlannedMapping(s: State, op: Op, e: Ext)
    requires PlannedOn(s, op) && IsMapping(op, e)
    ensures op.SetValue? && op.loc == HandlerAt(e) && op.regBefore == Get(s.reg, HandlerAt(e)) && !InTree(TargetOf(op))
  {
  }

  lemma ForeignIsKept(s: State, op: Op, i: nat, p: Progress, now: State)
    requires i < |p.ops| && InPlace(s, op, i, p) && PlannedOn(s, op) && !StillInstalled(now, op)
    ensures RolledBack(now, p.ops[i]) == At(now, TargetOf(op))
  {
    hide EqNoCase, PsString;
  }
}
