/** From installation to use: a file is delegated to the handler its own extension had before, although the proxy sees
    only its bytes and looks up one extension for each format. */
module AliasCorrectness {
  import opened Common
  import opened PowerShell
  import opened Decimal
  import opened Registry
  import opened InstallPlan
  import opened Rollback
  import opened Install
  import opened OrderSafety
  import opened OriginalHandler
  import opened PropertyHandler
  import MetadataParser

  /** The format of the files an extension is for. */
  function FormatOf(e: Ext): MetadataParser.Format {
    match e
    case Png => MetadataParser.PngContainer
    case Jpg => MetadataParser.JpegContainer
    case Jpeg => MetadataParser.JpegContainer
    case Tif => MetadataParser.TiffContainer
    case Tiff => MetadataParser.TiffContainer
  }

  /** The handler an extension is mapped to, as text. */
  function MappedText(s: State, e: Ext): string {
    PsText(HandlerData(AuditOf(s, e)))
  }

  // ---------------------------------------------------------------- what was saved

  lemma {:induction false} BlocksSave(s: State, audit: seq<ExtAudit>, shared: map<Ext, Data>, m: nat)
    requires WellFormedAudit(audit) && m < |audit|
    ensures PlannedSet(s, SavedAt(audit[m].ext), StringKind, OriginalOf(audit[m], shared),
      SaveOriginal(audit[m].ext)) in Blocks(s, audit, shared)
  {
    hide OriginalOf, WellFormedLists, PlannedSet, ListOps;
    var before, block := Blocks(s, ButLast(audit), shared), Block(s, Last(audit), shared);
    if m == |audit| - 1 {
      assert block[0] ==
        PlannedSet(s, SavedAt(audit[m].ext), StringKind, OriginalOf(audit[m], shared), SaveOriginal(audit[m].ext));
    } else {
      BlocksSave(s, ButLast(audit), shared, m);
    }
  }

  lemma SaveIsPlanned(s: State, shared: map<Ext, Data>, digits: string, e: Ext)
    ensures PlannedSet(s, SavedAt(e), StringKind, OriginalOf(AuditOf(s, e), shared), SaveOriginal(e)) in Plan(s,
      FullAudit(s), shared, digits)
  {
    hide Blocks, Base, OriginalOf, PlannedSet, WellFormedAudit, AuditOf;
    FullAuditIsWellFormed(s);
    var m := match e case Png => 0 case Jpg => 1 case Jpeg => 2 case Tif => 3 case Tiff => 4;
    assert FullAudit(s)[m] == AuditOf(s, e);
    AuditExt(s, e);
    BlocksSave(s, FullAudit(s), shared, m);
  }

  lemma AuditExt(s: State, e: Ext)
    ensures AuditOf(s, e).ext == e
  {
  }

  /** After a completed installation of a fresh machine, the saved value is the text of the mapped handler. */
  lemma SavedAfterInstall(s: State, shared: map<Ext, Data>, digits: string, env: Environment, f: FailPoint, works: bool,
      e: Ext)
    requires RealInstall(s, shared, digits, env, f, works).Completed? && Fresh(s)
    ensures var data := HandlerData(AuditOf(s, e));
      data.Some? && Get(RealInstall(s, shared, digits, env, f, works).state.reg, SavedAt(e)) ==
        Some(Sz(ObjectText(data.value)))
  {
    hide Plan, FullAudit, Run, AuditOf, PreconditionsHold, InPlace, PlannedOn, OriginalOf;
    var ops := Plan(s, FullAudit(s), shared, digits);
    var p := Run(s, ops, |ops|, f);
    var op := PlannedSet(s, SavedAt(e), StringKind, OriginalOf(AuditOf(s, e), shared), SaveOriginal(e));
    PlanIsPlanned(s, shared, digits);
    SaveIsPlanned(s, shared, digits, e);
    var i :| 0 <= i < |ops| && ops[i] == op;
    RunInPlace(s, ops, |ops|, f, i);
    AppliedWhileOk(s, ops, |ops|, f);
    FreshOriginal(s, shared, e);
    SaveInPlace(s, op, i, p, e);
  }

  lemma FreshOriginal(s: State, shared: map<Ext, Data>, e: Ext)
    requires Fresh(s)
    ensures OriginalOf(AuditOf(s, e), shared) == HandlerData(AuditOf(s, e))
  {
    hide PsString;
    assert !IsProxy(Get(s.reg, HandlerAt(e)));
    if Get(s.reg, HandlerAt(e)).None? {
      assert |Fold("")| != |Fold(PROJECT_CLSID)|;
    }
  }

  lemma SaveInPlace(s: State, op: Op, i: nat, p: Progress, e: Ext)
    requires i < |p.ops| && InPlace(s, op, i, p) && i < p.applied
    requires op.SetValue? && op.loc == SavedAt(e) && op.kind == StringKind
    ensures op.data.Some? && Get(p.state.reg, SavedAt(e)) == Some(Sz(ObjectText(op.data.value)))
  {
    assert At(p.state, TargetOf(op)) == RegCell(Get(p.state.reg, SavedAt(e)));
  }

  // ---------------------------------------------------------------- aliases

  lemma EntryOfFullAudit(s: State, e: Ext)
    ensures Entry(FullAudit(s), e) == Some(AuditOf(s, e))
  {
    FullAuditIsWellFormed(s);
    hide AuditOf, WellFormedLists;
    var m := match e case Png => 0 case Jpg => 1 case Jpeg => 2 case Tif => 3 case Tiff => 4;
    var audit := FullAudit(s);
    assert audit[m] == AuditOf(s, e);
    AuditExt(s, e);
    EntryAt(audit, e, m);
  }

  lemma {:induction false} EntryAt(audit: seq<ExtAudit>, e: Ext, m: nat)
    requires m < |audit| && audit[m].ext == e && forall k | m < k < |audit| :: audit[k].ext != e
    ensures Entry(audit, e) == Some(audit[m])
  {
    if m < |audit| - 1 {
      EntryAt(ButLast(audit), e, m);
    }
  }

  /** The alias checks make an extension and its canonical one agree, up to case. */
  lemma AliasesAgree(s: State, ops: seq<Op>, env: Environment, e: Ext)
    requires PreconditionsHold(s, FullAudit(s), ops, env)
    ensures EqNoCase(MappedText(s, e), MappedText(s, Canonical(e)))
  {
    hide AuditOf, FullAudit, EqNoCase, HandlerData, Entry, SavesUsableOriginal, Fold;
    var checks := AliasChecks(FullAudit(s));
    assert checks[0].Ok() && checks[1].Ok();
    EntryOfFullAudit(s, Jpg);
    EntryOfFullAudit(s, Jpeg);
    EntryOfFullAudit(s, Tif);
    EntryOfFullAudit(s, Tiff);
    NoCaseSwaps(MappedText(s, Canonical(e)), MappedText(s, e));
  }

  lemma NoCaseSwaps(a: string, b: string)
    ensures EqNoCase(a, b) ==> EqNoCase(b, a)
    ensures a == b ==> EqNoCase(b, a)
  {
  }

  /** Texts that differ in case only denote the same CLSID. */
  lemma CaseDoesNotMatter(a: string, b: string)
    requires EqNoCase(a, b)
    ensures ParseClsid(a) == ParseClsid(b)
  {
    if IsClsidText(a) {
      SameClsidText(a, b);
    } else if IsClsidText(b) {
      SameClsidText(b, a);
    }
  }

  lemma SameClsidText(a: string, b: string)
    requires EqNoCase(a, b) && IsClsidText(a)
    ensures IsClsidText(b)
  {
    assert |a| == |Fold(a)| == |Fold(b)| == |b|;
    forall i | 0 <= i < 38
      ensures Lower(a[i]) == Lower(b[i])
    {
      assert Fold(a)[i] == Lower(a[i]) && Fold(b)[i] == Lower(b[i]);
    }
  }

  // ---------------------------------------------------------------- end to end

  /** The mapped value is a multi-string that spells a CLSID: saving it as a string stores the name of its .NET type
      instead. */
  predicate IsListedClsid(s: State, e: Ext) {
    var d := HandlerData(AuditOf(s, Canonical(e)));
    d.Some? && d.value.Lines? && ParseClsid(MappedText(s, e)).Some?
  }

  lemma BlobIsNoClsid(b: seq<Byte>)
    ensures !IsClsidText(PsString(Blob(b)))
  {
    var texts := seq(|b|, i requires 0 <= i < |b| => NumberText(b[i]));
    var text := Join(texts, ' ');
    if b != [] {
      assert texts[0] == NumberText(b[0]);
      assert text[0] == texts[0][0];
    }
  }

  /** Saving the data of a handler mapping as a string keeps its CLSID, unless it is a multi-string that spells one. */
  lemma SavedTextMeans(d: Data)
    ensures ParseClsid(ObjectText(d)) == ParseClsid(PsString(d)) <==> !(d.Lines? && ParseClsid(PsString(d)).Some?)
    ensures d.Lines? ==> ParseClsid(ObjectText(d)).None?
  {
    match d
    case Text(_) =>
    case Number(_) =>
    case Lines(_) =>
    case Blob(b) => BlobIsNoClsid(b);
  }

  /** Installed on a fresh machine, the proxy opened on bytes of an extension's format delegates to the handler that
      extension itself was mapped to before: to nothing when that was no CLSID, and never to the proxy. The one
      exception is a mapping that is a multi-string. */
  lemma DelegatesToOwnHandler(s: State, shared: map<Ext, Data>, digits: string, env: Environment, f: FailPoint,
      works: bool, e: Ext)
    requires RealInstall(s, shared, digits, env, f, works).Completed? && Fresh(s)
    ensures var chosen := ChooseOriginal(RealInstall(s, shared, digits, env, f, works).state.reg, FormatOf(e));
      var own := ParseClsid(MappedText(s, e));
      && (chosen == (if own.Some? then Ok else ErrorNotFound, own) <==> !IsListedClsid(s, e))
      && (IsListedClsid(s, e) ==> chosen == (ErrorNotFound, None))
      && chosen.1 != Some(Fold(PROJECT_CLSID))
  {
    var after := RealInstall(s, shared, digits, env, f, works).state;
    SavedAfterInstall(s, shared, digits, env, f, works, Canonical(e));
    AliasesAgree(s, Plan(s, FullAudit(s), shared, digits), env, e);
    hide *;
    CaseDoesNotMatter(MappedText(s, e), MappedText(s, Canonical(e)));
    FreshIsNotTheProject(s, Canonical(e));
    SavedTextChosen(s, after.reg, e);
  }

  lemma SavedTextChosen(s: State, reg: map<Loc, RegValue>, e: Ext)
    requires var d := HandlerData(AuditOf(s, Canonical(e)));
      d.Some? && Get(reg, SavedAt(Canonical(e))) == Some(Sz(ObjectText(d.value)))
    requires ParseClsid(MappedText(s, e)) == ParseClsid(MappedText(s, Canonical(e))) != Some(Fold(PROJECT_CLSID))
    ensures var chosen, own := ChooseOriginal(reg, FormatOf(e)), ParseClsid(MappedText(s, e));
      && (chosen == (if own.Some? then Ok else ErrorNotFound, own) <==> !IsListedClsid(s, e))
      && (IsListedClsid(s, e) ==> chosen == (ErrorNotFound, None))
      && chosen.1 != Some(Fold(PROJECT_CLSID))
  {
    hide AuditOf, HandlerData, ParseClsid, ObjectText, PsString, ChooseOriginal, Fold;
    var d := HandlerData(AuditOf(s, Canonical(e))).value;
    SavedTextMeans(d);
    ChoiceOfSaved(reg, e, ObjectText(d));
  }

  lemma FreshIsNotTheProject(s: State, e: Ext)
    requires Fresh(s)
    ensures ParseClsid(MappedText(s, e)) != Some(Fold(PROJECT_CLSID))
  {
    hide PsString, IsClsidText;
    assert !IsProxy(Get(s.reg, HandlerAt(e)));
    if Get(s.reg, HandlerAt(e)).None? {
      assert |Fold("")| != |Fold(PROJECT_CLSID)|;
    }
  }

  lemma ChoiceOfSaved(reg: map<Loc, RegValue>, e: Ext, text: string)
    requires Get(reg, SavedAt(Canonical(e))) == Some(Sz(text)) && ParseClsid(text) != Some(Fold(PROJECT_CLSID))
    ensures ChooseOriginal(reg, FormatOf(e)) == (if ParseClsid(text).Some? then Ok else ErrorNotFound, ParseClsid(text))
  {
    hide PROJECT_CLSID, Fold;
    assert CanonicalExtensionFor(FormatOf(e)) == Some(Canonical(e));
    if ParseClsid(text).Some? {
      assert |text| == 38;
    }
  }

  /** Seen from the handler object: whatever file of the right format it is initialised with, it instantiates the
      extension's own handler. */
  lemma OpensOwnHandler<T>(s: State, shared: map<Ext, Data>, digits: string, env: Environment, f: FailPoint,
      works: bool, e: Ext,
      p: Proxy<T>, w: World<T>, file: seq<Byte>)
    requires RealInstall(s, shared, digits, env, f, works).Completed? && Fresh(s) && !IsListedClsid(s, e)
    requires w.reg == RealInstall(s, shared, digits, env, f, works).state.reg
    requires !p.initialized && Inspected(file, w.frame).0 &&
      MetadataParser.DetectContainerFormat(MetadataParser.ReadPrefix(file)) == FormatOf(e)
    ensures var (hr, after) := Initialized(p, w, Some(file));
      var own := ParseClsid(MappedText(s, e));
      && (own.None? ==> hr == ErrorNotFound && !after.initialized)
      && (own.Some? ==>
          var (created, store) := w.create(own.value);
          after.store == if created.Succeeded() && store.Some? then store else p.store)
  {
    hide RealInstall, MetadataParser.DetectContainerFormat, MetadataParser.EmbeddedDpiOf, ParseClsid, Fresh,
      IsListedClsid;
    DelegatesToOwnHandler(s, shared, digits, env, f, works, e);
    assert CanonicalExtensionFor(FormatOf(e)) == Some(Canonical(e));
  }
}
