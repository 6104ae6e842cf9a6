/** `src/handler/PhysicalSizePropertyHandler.cpp`: a property store that forwards everything native to the original
    store and adds the project's own properties. Each call holds the handler's mutex, so calls are atomic. */
module PropertyHandler {
  import opened Common
  import opened EmbeddedDpi
  import opened PhysicalSize
  import opened NumberFormat
  import opened OriginalHandler
  import Registry
  import MetadataParser

  // ---------------------------------------------------------------- keys and settings

  datatype Key = Key(format: nat, pid: nat)

  const PROJECT_FORMAT: nat := 0x7a4e8b66_6c8a_421d_9868_42f50f9312b4

  function ProjectKey(pid: nat): Key { Key(PROJECT_FORMAT, pid) }

  const WIDTH_CM := ProjectKey(2)
  const HEIGHT_CM := ProjectKey(3)
  const SIZE_CM := ProjectKey(4)
  const DPI_X := ProjectKey(5)
  const DPI_Y := ProjectKey(6)
  const DPI_SOURCE := ProjectKey(7)
  const DPI_STATUS := ProjectKey(8)

  const ALL_KEYS: seq<Key> := [WIDTH_CM, HEIGHT_CM, SIZE_CM, DPI_X, DPI_Y, DPI_SOURCE, DPI_STATUS]

  datatype Settings = Settings(showWidth: bool, showHeight: bool, showSize: bool, showDpiX: bool, showDpiY: bool,
    showSource: bool,
    showStatus: bool, fallbackEnabled: bool, fallbackDpi: real, maxDecimalPlaces: nat, trimTrailingZeros: bool)

  predicate IsCustomProperty(k: Key) {
    k.format == PROJECT_FORMAT && 2 <= k.pid <= 8
  }

  predicate IsPropertyEnabled(k: Key, s: Settings) {
    if k == WIDTH_CM then s.showWidth
    else if k == HEIGHT_CM then s.showHeight
    else if k == SIZE_CM then s.showSize
    else if k == DPI_X then s.showDpiX
    else if k == DPI_Y then s.showDpiY
    else if k == DPI_SOURCE then s.showSource
    else if k == DPI_STATUS then s.showStatus
    else false
  }

  function EnabledOf(keys: seq<Key>, s: Settings): seq<Key> {
    if keys == [] then []
    else EnabledOf(ButLast(keys), s) + (if IsPropertyEnabled(Last(keys), s) then [Last(keys)] else [])
  }

  function CustomKeys(s: Settings): seq<Key> {
    EnabledOf(ALL_KEYS, s)
  }

  method BuildCustomKeys(s: Settings) returns (keys: seq<Key>)
    ensures keys == CustomKeys(s)
  {
    hide IsPropertyEnabled;
    keys := [];
    for i := 0 to |ALL_KEYS|
      invariant keys == EnabledOf(ALL_KEYS[..i], s)
    {
      assert ButLast(ALL_KEYS[..i + 1]) == ALL_KEYS[..i] && Last(ALL_KEYS[..i + 1]) == ALL_KEYS[i];
      if IsPropertyEnabled(ALL_KEYS[i], s) {
        keys := keys + [ALL_KEYS[i]];
      }
    }
    assert ALL_KEYS[..|ALL_KEYS|] == ALL_KEYS;
  }

  predicate NoDuplicates(keys: seq<Key>) {
    forall i, j | 0 <= i < j < |keys| :: keys[i] != keys[j]
  }

  lemma {:induction false} EnabledAreExact(keys: seq<Key>, s: Settings)
    requires NoDuplicates(keys)
    ensures NoDuplicates(EnabledOf(keys, s))
    ensures forall k :: k in EnabledOf(keys, s) <==> k in keys && IsPropertyEnabled(k, s)
  {
    hide IsPropertyEnabled;
    if keys != [] {
      EnabledAreExact(ButLast(keys), s);
      assert keys == ButLast(keys) + [Last(keys)];
    }
  }

  /** The project keys listed are exactly the enabled ones, each once. */
  lemma CustomKeysAreExact(s: Settings)
    ensures NoDuplicates(CustomKeys(s))
    ensures forall k :: k in CustomKeys(s) <==> IsPropertyEnabled(k, s)
    ensures forall k | k in CustomKeys(s) :: IsCustomProperty(k)
  {
    EnabledAreExact(ALL_KEYS, s);
  }

  // ---------------------------------------------------------------- inspection

  datatype Inspection = Inspection(format: MetadataParser.Format, width: nat, height: nat, dpi: Dpi, hasSize: bool,
    widthCm: real, heightCm: real) {
    /** A size is present exactly with a density and pixels, and then it is the size they give. */
    predicate Consistent() {
      && dpi.Sound()
      && (hasSize <==> dpi.found && width != 0 && height != 0)
      && (hasSize ==> CalculatePhysicalSizeCm(width, height, dpi.x, dpi.y) == Some(PhysicalSizeCm(widthCm, heightCm)))
    }
  }

  const NOTHING_INSPECTED := Inspection(MetadataParser.UnknownContainer, 0, 0, NotFound(UnknownFormat, NoPhysicalDpi),
    false, 0.0, 0.0)

  /** `InspectImageStream`: `frame` is the size the decoder reports, if it opens the stream at all. */
  function Inspected(file: seq<Byte>, frame: Option<(nat, nat)>): (r: (bool, Inspection))
    ensures r.1.Consistent()
    ensures r.0 <==> MetadataParser.ReadPrefix(file) != [] && frame.Some?
    ensures r.0 ==> (r.1.width, r.1.height) == frame.value
    ensures r.0 ==> r.1.dpi == MetadataParser.EmbeddedDpiOf(MetadataParser.ReadPrefix(file))
    ensures r.0 ==> r.1.format == MetadataParser.DetectContainerFormat(MetadataParser.ReadPrefix(file))
  {
    var bytes := MetadataParser.ReadPrefix(file);
    hide MetadataParser.EmbeddedDpiOf, MetadataParser.DetectContainerFormat;
    MetadataParser.EveryAnswerIsSound(bytes);
    if bytes == [] then (false, NOTHING_INSPECTED)
    else
      var scanned := NOTHING_INSPECTED.(format := MetadataParser.DetectContainerFormat(bytes),
        dpi := MetadataParser.EmbeddedDpiOf(bytes));
      if frame.None? then (false, scanned)
      else
        var (w, h) := frame.value;
        var size := if scanned.dpi.found then CalculatePhysicalSizeCm(w, h, scanned.dpi.x, scanned.dpi.y) else None;
        var sized := scanned.(width := w, height := h);
        if size.None? then (true, sized)
        else (true, sized.(hasSize := true, widthCm := size.value.widthCm, heightCm := size.value.heightCm))
  }

  function WithFallback(i: Inspection, s: Settings): (r: Inspection)
    ensures i.Consistent() ==> r.Consistent()
    ensures !i.dpi.found && s.fallbackEnabled && 1.0 <= s.fallbackDpi <= 100000.0 && i.width > 0 && i.height > 0 ==>
      r.dpi == Dpi(true, s.fallbackDpi, s.fallbackDpi, Inferred, InferredDpi) && r.hasSize
    ensures (i.dpi.found || !s.fallbackEnabled || !(1.0 <= s.fallbackDpi <= 100000.0)) ==> r == i
    ensures (i.width == 0 || i.height == 0) ==> r == i
    ensures (r.format, r.width, r.height) == (i.format, i.width, i.height)
  {
    if i.dpi.found || !s.fallbackEnabled || !IsReasonableDpi(s.fallbackDpi) then i
    else
      var size := CalculatePhysicalSizeCm(i.width, i.height, s.fallbackDpi, s.fallbackDpi);
      if size.None? then i
      else
        i.(dpi := Dpi(true, s.fallbackDpi, s.fallbackDpi, Inferred, InferredDpi), hasSize := true,
           widthCm := size.value.widthCm, heightCm := size.value.heightCm)
  }

  // ---------------------------------------------------------------- the original store

  datatype Value = EmptyValue | Double(d: real) | TextValue(s: string) | StatusValue(status: Status)
    | SourceValue(source: Source) | NativeValue(id: nat)

  /** A 32-bit count or index (`DWORD`). */
  type Dword = n: nat | n < 0x1_0000_0000

  /** How the original store behaves, whatever its state type is. */
  datatype StoreApi<!S> = StoreApi(
    getCount: S -> (HResult, Dword),
    getAt: (S, nat) -> (HResult, Key),
    getValue: (S, Key) -> (HResult, Value),
    setValue: (S, Key, Value) -> (HResult, S),
    commit: S -> (HResult, S),
    isWritable: Option<(S, Key) -> HResult>)

  /** What the handler reads from its surroundings while it is initialised. */
  datatype World<!S> = World(settings: Settings, reg: map<Registry.Loc, Registry.RegValue>, frame: Option<(nat, nat)>,
    create: string -> (HResult, Option<S>))

  datatype Call<!S> =
    | Initialize(file: Option<seq<Byte>>, world: World<S>)
    | GetCount(out: bool)
    | GetAt(index: Dword, out: bool)
    | GetValue(key: Key, out: bool)
    | SetValue(key: Key, value: Value)
    | Commit
    | IsPropertyWritable(key: Key)

  /** A result and what was written through the out parameter. */
  datatype Reply = Reply(hr: HResult, count: Option<nat>, key: Option<Key>, value: Option<Value>)

  function Only(hr: HResult): Reply { Reply(hr, None, None, None) }

  function CountReply(r: (HResult, nat)): Reply { if r.0.Succeeded() then Reply(r.0, Some(r.1), None, None)
      else Only(r.0) }

  function KeyReply(r: (HResult, Key)): Reply { Reply(r.0, None, Some(r.1), None) }

  function ValueReply(r: (HResult, Value)): Reply { Reply(r.0, None, None, Some(r.1)) }

  /** The original store used on its own. It has been initialised when it was created. */
  function Direct<S>(api: StoreApi<S>, s: S, c: Call<S>): (Reply, S) {
    match c
    case Initialize(_, _) => (Only(AlreadyInitialized), s)
    case GetCount(out) => (if out then CountReply(api.getCount(s)) else Only(PointerError), s)
    case GetAt(i, out) => (if out then KeyReply(api.getAt(s, i)) else Only(PointerError), s)
    case GetValue(k, out) => (if out then ValueReply(api.getValue(s, k)) else Only(PointerError), s)
    case SetValue(k, v) => var r := api.setValue(s, k, v); (Only(r.0), r.1)
    case Commit => var r := api.commit(s); (Only(r.0), r.1)
    case IsPropertyWritable(k) => (Only(if api.isWritable.Some? then api.isWritable.value(s, k) else SFalse), s)
  }

  // ---------------------------------------------------------------- the proxy

  /** What a handler object holds. */
  datatype Proxy<S> = Proxy(initialized: bool, settings: Settings, inspection: Inspection, customKeys: seq<Key>,
    store: Option<S>)

  /** The result of an initialisation, and the handler after it. */
  function Initialized<S>(p: Proxy<S>, w: World<S>, file: Option<seq<Byte>>): (HResult, Proxy<S>) {
    if file.None? then (PointerError, p)
    else if p.initialized then (AlreadyInitialized, p)
    else
      var (ok, inspection) := Inspected(file.value, w.frame);
      var configured := p.(settings := w.settings, customKeys := CustomKeys(w.settings), inspection := inspection);
      if !ok then (GeneralFailure, configured)
      else
        var inspected := configured.(inspection := WithFallback(inspection, w.settings));
        var (hr, clsid) := ChooseOriginal(w.reg, inspection.format);
        if hr != Ok then (hr, inspected)
        else
          var (created, store) := w.create(clsid.value);
          if !created.Succeeded() || store.None? then
            (if created.Succeeded() then GeneralFailure else created, inspected)
          else (Ok, inspected.(store := store, initialized := true))
  }

  function Rounded(v: real, s: Settings): Value {
    Double(RoundToDecimalPlaces(v, s.maxDecimalPlaces))
  }

  const NO_EMBEDDED_DPI: string := "DPI não incorporado"

  function CustomValue(k: Key, s: Settings, i: Inspection, sep: string): (HResult, Value)
    requires i.Consistent()
  {
    if k == WIDTH_CM then (Ok, if i.hasSize then Rounded(i.widthCm, s) else EmptyValue)
    else if k == HEIGHT_CM then (Ok, if i.hasSize then Rounded(i.heightCm, s) else EmptyValue)
    else if k == SIZE_CM then
      (Ok, TextValue(if i.hasSize then
        FormatPhysicalSizeCm(i.widthCm, i.heightCm, s.maxDecimalPlaces, s.trimTrailingZeros, sep) else NO_EMBEDDED_DPI))
    else if k == DPI_X then (Ok, if i.dpi.found then Rounded(i.dpi.x, s) else EmptyValue)
    else if k == DPI_Y then (Ok, if i.dpi.found then Rounded(i.dpi.y, s) else EmptyValue)
    else if k == DPI_SOURCE then (Ok, SourceValue(i.dpi.source))
    else if k == DPI_STATUS then (Ok, StatusValue(i.dpi.status))
    else (ErrorNotFound, EmptyValue)
  }

  /** One call on the proxy: the reply and the handler after it. */
  function ProxyStep<S>(api: StoreApi<S>, p: Proxy<S>, sep: string, c: Call<S>): (Reply, Proxy<S>)
    requires p.inspection.Consistent()
  {
    var noPointer := (c.GetCount? || c.GetAt? || c.GetValue?) && !c.out;
    if c.Initialize? then
      var (hr, next) := Initialized(p, c.world, c.file);
      (Only(hr), next)
    else if c.IsPropertyWritable? then
      (Only(if IsCustomProperty(c.key) || api.isWritable.None? || p.store.None? then SFalse
        else api.isWritable.value(p.store.value, c.key)), p)
    else if noPointer then (Only(PointerError), p)
    else if !p.initialized || p.store.None? then (Only(Unexpected), p)
    else
      var s := p.store.value;
      match c
      case GetCount(_) =>
        var (hr, n) := api.getCount(s);
        (if hr.Succeeded() then CountReply((Ok, (n + |p.customKeys|) % 0x1_0000_0000)) else Only(hr), p)
      case GetAt(i, _) =>
        var (hr, n) := api.getCount(s);
        (if !hr.Succeeded() then Only(hr)
         else if i < n then KeyReply(api.getAt(s, i))
         else if i - n >= |p.customKeys| then Only(ErrorNotFound)
         else KeyReply((Ok, p.customKeys[i - n])), p)
      case GetValue(k, _) =>
        (ValueReply(if !IsCustomProperty(k) then api.getValue(s, k)
                    else if !IsPropertyEnabled(k, p.settings) then (Ok, EmptyValue)
                    else CustomValue(k, p.settings, p.inspection, sep)), p)
      case SetValue(k, v) =>
        if IsCustomProperty(k) then (Only(AccessDenied), p)
        else var r := api.setValue(s, k, v); (Only(r.0), p.(store := Some(r.1)))
      case Commit =>
        var r := api.commit(s); (Only(r.0), p.(store := Some(r.1)))
  }

  lemma InitializedIsConsistent<S>(p: Proxy<S>, w: World<S>, file: Option<seq<Byte>>)
    requires p.inspection.Consistent()
    ensures Initialized(p, w, file).1.inspection.Consistent()
    ensures p.initialized ==> Initialized(p, w, file).1 == p
  {
    hide Inspected, WithFallback, ChooseOriginal, CustomKeys, Inspection.Consistent;
  }

  /** No call takes the consistency of the inspection away. */
  lemma StepIsConsistent<S>(api: StoreApi<S>, p: Proxy<S>, sep: string, c: Call<S>)
    requires p.inspection.Consistent()
    ensures ProxyStep(api, p, sep, c).1.inspection.Consistent()
  {
    hide Initialized, CustomValue, IsPropertyEnabled, Inspection.Consistent;
    if c.Initialize? {
      InitializedIsConsistent(p, c.world, c.file);
    }
  }

  // ---------------------------------------------------------------- whole traces

  datatype Trace<S> = Trace(replies: seq<Reply>, end: S)

  function RunProxy<S>(api: StoreApi<S>, p: Proxy<S>, sep: string, calls: seq<Call<S>>): Trace<Proxy<S>>
    requires p.inspection.Consistent()
    decreases |calls|
  {
    if calls == [] then Trace([], p)
    else
      StepIsConsistent(api, p, sep, calls[0]);
      var (reply, next) := ProxyStep(api, p, sep, calls[0]);
      var rest := RunProxy(api, next, sep, calls[1..]);
      Trace([reply] + rest.replies, rest.end)
  }

  function RunDirect<S>(api: StoreApi<S>, s: S, calls: seq<Call<S>>): Trace<S> {
    if calls == [] then Trace([], s)
    else
      var (reply, next) := Direct(api, s, calls[0]);
      var rest := RunDirect(api, next, calls[1..]);
      Trace([reply] + rest.replies, rest.end)
  }

  /** A call about a native key, or a commit. */
  predicate IsNative<S>(c: Call<S>) {
    match c
    case Initialize(_, _) => false
    case GetCount(_) => false
    case GetAt(_, _) => false
    case GetValue(k, _) => !IsCustomProperty(k)
    case SetValue(k, _) => !IsCustomProperty(k)
    case Commit => true
    case IsPropertyWritable(k) => !IsCustomProperty(k)
  }

  /** The calls that can change the original store. */
  predicate Mutates<S>(c: Call<S>) {
    c.SetValue? || c.Commit?
  }

  function NativeCalls<S>(calls: seq<Call<S>>): seq<Call<S>> {
    if calls == [] then [] else (if IsNative(calls[0]) then [calls[0]] else []) + NativeCalls(calls[1..])
  }

  function NativeMutations<S>(calls: seq<Call<S>>): seq<Call<S>> {
    if calls == [] then []
    else (if IsNative(calls[0]) && Mutates(calls[0]) then [calls[0]] else []) + NativeMutations(calls[1..])
  }

  /** The replies to the native calls of a trace. */
  function NativeReplies<S>(calls: seq<Call<S>>, replies: seq<Reply>): seq<Reply>
    requires |calls| == |replies|
  {
    if calls == [] then []
      else (if IsNative(calls[0]) then [replies[0]] else []) + NativeReplies(calls[1..], replies[1..])
  }

  lemma StepRefines<S>(api: StoreApi<S>, p: Proxy<S>, sep: string, c: Call<S>)
    requires p.inspection.Consistent() && p.initialized && p.store.Some?
    ensures var (reply, next) := ProxyStep(api, p, sep, c);
      && next.store.Some? && next == p.(store := next.store)
      && (IsNative(c) ==> (reply, next.store.value) == Direct(api, p.store.value, c))
      && (!(IsNative(c) && Mutates(c)) ==> next == p)
  {
    hide CustomValue, IsPropertyEnabled;
  }

  lemma DirectReads<S>(api: StoreApi<S>, s: S, c: Call<S>)
    requires !Mutates(c)
    ensures Direct(api, s, c).1 == s
  {
  }

  /** For every trace on an initialised handler: the original store sees exactly the native writes and commits, in
      order; native calls get the replies the original store gives on its own; and inspection, settings and key list
      never change. */
  lemma {:induction false} TraceRefines<S>(api: StoreApi<S>, p: Proxy<S>, sep: string, calls: seq<Call<S>>)
    requires p.inspection.Consistent() && p.initialized && p.store.Some?
    ensures var t := RunProxy(api, p, sep, calls);
      && |t.replies| == |calls|
      && t.end.store.Some? && t.end == p.(store := t.end.store)
      && t.end.store.value == RunDirect(api, p.store.value, NativeMutations(calls)).end
      && NativeReplies(calls, t.replies) == RunDirect(api, p.store.value, NativeCalls(calls)).replies
      && t.end.store.value == RunDirect(api, p.store.value, NativeCalls(calls)).end
    decreases |calls|
  {
    hide ProxyStep, Direct, IsNative, Mutates;
    if calls != [] {
      var c := calls[0];
      var (reply, next) := ProxyStep(api, p, sep, c);
      StepRefines(api, p, sep, c);
      TraceRefines(api, next, sep, calls[1..]);
      var rest := RunProxy(api, next, sep, calls[1..]);
      assert ([reply] + rest.replies)[1..] == rest.replies;
      FirstCall(c, NativeMutations(calls[1..]));
      FirstCall(c, NativeCalls(calls[1..]));
      if IsNative(c) && !Mutates(c) {
        DirectReads(api, p.store.value, c);
      }
    }
  }

  lemma FirstCall<S>(c: Call, calls: seq<Call<S>>)
    ensures ([c] + calls)[1..] == calls && [] + calls == calls
  {
  }

  // ---------------------------------------------------------------- the listing

  /** The key at each index of the original store. */
  predicate Lists<S>(api: StoreApi<S>, s: S, keys: seq<Key>) {
    && api.getCount(s) == (Ok, |keys|)
    && forall i | 0 <= i < |keys| :: api.getAt(s, i) == (Ok, keys[i])
  }

  /** GetCount and GetAt list the original keys and then the project keys; the count is right exactly when it fits in 32
      bits. */
  lemma ListingIsOriginalThenCustom<S>(api: StoreApi<S>, p: Proxy<S>, sep: string, keys: seq<Key>)
    requires p.inspection.Consistent() && p.initialized && p.store.Some?
    requires |keys| < 0x1_0000_0000 && Lists(api, p.store.value, keys)
    ensures var all := keys + p.customKeys;
      && (ProxyStep(api, p, sep, GetCount(true)).0 == CountReply((Ok, |all|)) <==> |all| < 0x1_0000_0000)
      && (forall i: Dword | i < |all| :: ProxyStep(api, p, sep, GetAt(i, true)).0 == KeyReply((Ok, all[i])))
      && (forall i: Dword | i >= |all| :: ProxyStep(api, p, sep, GetAt(i, true)).0 == Only(ErrorNotFound))
  {
    hide CustomValue;
  }

  /** A key is listed twice exactly when the original store lists it twice or lists an enabled project key itself:
      duplicates are not removed. */
  lemma DuplicatesAreNotRemoved(keys: seq<Key>, s: Settings)
    ensures NoDuplicates(keys + CustomKeys(s)) <==>
      NoDuplicates(keys) && forall i | 0 <= i < |keys| :: !IsPropertyEnabled(keys[i], s)
  {
    hide IsPropertyEnabled;
    CustomKeysAreExact(s);
    var custom := CustomKeys(s);
    var all := keys + custom;
    if i :| 0 <= i < |keys| && IsPropertyEnabled(keys[i], s) {
      ListedTwice(keys, custom, i);
    } else if !NoDuplicates(keys) {
      var i, j :| 0 <= i < j < |keys| && keys[i] == keys[j];
      assert all[i] == all[j];
    }
  }

  lemma ListedTwice(keys: seq<Key>, custom: seq<Key>, i: nat)
    requires i < |keys| && keys[i] in custom
    ensures !NoDuplicates(keys + custom)
  {
    var j :| 0 <= j < |custom| && custom[j] == keys[i];
    assert (keys + custom)[i] == (keys + custom)[|keys| + j];
  }

  /** An original store with no state that lists one key, and one that counts as many keys as 32 bits hold. */
  function FixedStore(count: Dword, key: Key): StoreApi<()> {
    StoreApi(_ => (Ok, count), (_, _) => (Ok, key), (_, _) => (Ok, EmptyValue), (_, _, _) => (Ok, ()), _ => (Ok, ()),
      None)
  }

  const EVERYTHING_SHOWN := Settings(true, true, true, true, true, true, true, false, 0.0, 2, true)

  const OPEN_PROXY: Proxy<()> := Proxy(true, EVERYTHING_SHOWN, NOTHING_INSPECTED, CustomKeys(EVERYTHING_SHOWN),
    Some(()))

  /** A concrete listing with a key twice: the original store lists the project's width itself. */
  lemma WidthIsListedTwice()
    ensures var api := FixedStore(1, WIDTH_CM);
      ProxyStep(api, OPEN_PROXY, ",", GetAt(0, true)).0 == KeyReply((Ok, WIDTH_CM)) ==
        ProxyStep(api, OPEN_PROXY, ",", GetAt(1, true)).0
  {
    AllShown();
  }

  /** A concrete count that wraps: with seven project keys behind 2^32 - 1 others, GetCount answers 6. */
  lemma CountWraps()
    ensures ProxyStep(FixedStore(0xFFFF_FFFF, Key(0, 0)), OPEN_PROXY, ",", GetCount(true)).0 == CountReply((Ok, 6))
  {
    AllShown();
  }

  lemma AllShown()
    ensures CustomKeys(EVERYTHING_SHOWN) == ALL_KEYS
  {
    EverythingEnabled(ALL_KEYS);
  }

  lemma {:induction false} EverythingEnabled(keys: seq<Key>)
    requires forall k <- keys :: IsPropertyEnabled(k, EVERYTHING_SHOWN)
    ensures EnabledOf(keys, EVERYTHING_SHOWN) == keys
  {
    hide IsPropertyEnabled;
    if keys != [] {
      EverythingEnabled(ButLast(keys));
      assert ButLast(keys) + [Last(keys)] == keys;
    }
  }

  // ---------------------------------------------------------------- what is shown

  /** The project's keys are the seven with its format. */
  lemma ProjectKeys(k: Key)
    ensures IsCustomProperty(k) <==> k in ALL_KEYS
    ensures IsCustomProperty(k) <==> exists pid | 2 <= pid <= 8 :: k == Key(0x7a4e8b66_6c8a_421d_9868_42f50f9312b4, pid)
  {
    if IsCustomProperty(k) {
      assert ALL_KEYS[k.pid - 2] == k;
    }
  }

  /** The reply of an initialised handler to a question for the value of a project key. */
  function Shown<S>(api: StoreApi<S>, p: Proxy<S>, sep: string, pid: nat): Reply
    requires p.inspection.Consistent()
  {
    ProxyStep(api, p, sep, GetValue(ProjectKey(pid), true)).0
  }

  function Answer(v: Value): Reply {
    ValueReply((Ok, v))
  }

  /** Width and height: the exact lengths over the density in their direction, rounded; nothing without a size or when
      switched off. */
  lemma LengthsShown<S>(api: StoreApi<S>, p: Proxy<S>, sep: string)
    requires p.inspection.Consistent() && p.initialized && p.store.Some?
    ensures var i, s := p.inspection, p.settings;
      && (!s.showWidth || !i.hasSize ==> Shown(api, p, sep, 2) == Answer(EmptyValue))
      && (!s.showHeight || !i.hasSize ==> Shown(api, p, sep, 3) == Answer(EmptyValue))
      && (s.showWidth && i.hasSize ==>
          Shown(api, p, sep, 2) == Answer(Double(RoundToDecimalPlaces(i.widthCm, s.maxDecimalPlaces))))
      && (s.showHeight && i.hasSize ==>
          Shown(api, p, sep, 3) == Answer(Double(RoundToDecimalPlaces(i.heightCm, s.maxDecimalPlaces))))
      && (i.hasSize ==> i.widthCm * i.dpi.x == i.width as real * 2.54)
      && (i.hasSize ==> i.heightCm * i.dpi.y == i.height as real * 2.54)
  {
    hide RoundToDecimalPlaces;
  }

  /** So both are within half a unit of the last shown place. */
  lemma LengthsShownAreClose<S>(api: StoreApi<S>, p: Proxy<S>, sep: string)
    requires p.inspection.Consistent() && p.initialized && p.store.Some? && p.inspection.hasSize
    requires p.settings.showWidth && p.settings.showHeight
    ensures var w, h := Shown(api, p, sep, 2).value, Shown(api, p, sep, 3).value;
      var unit := Scale(Min(p.settings.maxDecimalPlaces, 12));
      && w.Some? && w.value.Double? && -0.5 <= (w.value.d - p.inspection.widthCm) * unit <= 0.5
      && h.Some? && h.value.Double? && -0.5 <= (h.value.d - p.inspection.heightCm) * unit <= 0.5
  {
    hide RoundToDecimalPlaces, Scale, Shown;
    LengthsShown(api, p, sep);
    RoundingIsClose(p.inspection.widthCm, p.settings.maxDecimalPlaces);
    RoundingIsClose(p.inspection.heightCm, p.settings.maxDecimalPlaces);
  }

  /** The size text is the two lengths, width first, each of which reads back as the rounded length. */
  lemma SizeTextShown<S>(api: StoreApi<S>, p: Proxy<S>, sep: string)
    requires p.inspection.Consistent() && p.initialized && p.store.Some? && IsSeparator(sep)
    ensures var i, s := p.inspection, p.settings;
      && (!s.showSize ==> Shown(api, p, sep, 4) == Answer(EmptyValue))
      && (s.showSize && !i.hasSize ==> Shown(api, p, sep, 4) == Answer(TextValue("DPI não incorporado")))
      && (s.showSize && i.hasSize ==> exists width, height ::
          && Shown(api, p, sep, 4) == Answer(TextValue(width + " x " + height + " cm"))
          && ParseNumber(width, sep) == Some(RoundToDecimalPlaces(i.widthCm, Min(s.maxDecimalPlaces, 6)))
          && ParseNumber(height, sep) == Some(RoundToDecimalPlaces(i.heightCm, Min(s.maxDecimalPlaces, 6))))
  {
    hide RoundToDecimalPlaces, FormatCentimeters, ParseNumber, IsSeparator, Min;
    var i, s := p.inspection, p.settings;
    if s.showSize && i.hasSize {
      FormatThenParse(i.widthCm, s.maxDecimalPlaces, s.trimTrailingZeros, sep);
      FormatThenParse(i.heightCm, s.maxDecimalPlaces, s.trimTrailingZeros, sep);
      var width := FormatCentimeters(i.widthCm, s.maxDecimalPlaces, s.trimTrailingZeros, sep);
      var height := FormatCentimeters(i.heightCm, s.maxDecimalPlaces, s.trimTrailingZeros, sep);
      assert Shown(api, p, sep, 4) == Answer(TextValue(width + " x " + height + " cm"));
    }
  }

  /** The densities, rounded, or nothing; and where they were found and what came of it. */
  lemma DensitiesShown<S>(api: StoreApi<S>, p: Proxy<S>, sep: string)
    requires p.inspection.Consistent() && p.initialized && p.store.Some?
    ensures var d, s := p.inspection.dpi, p.settings;
      && (!s.showDpiX || !d.found ==> Shown(api, p, sep, 5) == Answer(EmptyValue))
      && (!s.showDpiY || !d.found ==> Shown(api, p, sep, 6) == Answer(EmptyValue))
      && (s.showDpiX && d.found ==>
          Shown(api, p, sep, 5) == Answer(Double(RoundToDecimalPlaces(d.x, s.maxDecimalPlaces))))
      && (s.showDpiY && d.found ==>
          Shown(api, p, sep, 6) == Answer(Double(RoundToDecimalPlaces(d.y, s.maxDecimalPlaces))))
      && Shown(api, p, sep, 7) == Answer(if s.showSource then SourceValue(d.source) else EmptyValue)
      && Shown(api, p, sep, 8) == Answer(if s.showStatus then StatusValue(d.status) else EmptyValue)
  {
    hide RoundToDecimalPlaces;
  }

  /** Project keys are never written, whatever the value. */
  lemma ProjectKeysAreReadOnly<S>(api: StoreApi<S>, p: Proxy<S>, sep: string, pid: nat, v: Value)
    requires p.inspection.Consistent() && 2 <= pid <= 8
    ensures ProxyStep(api, p, sep, IsPropertyWritable(ProjectKey(pid))) == (Only(SFalse), p)
    ensures ProxyStep(api, p, sep, SetValue(ProjectKey(pid), v)) ==
      (Only(if p.initialized && p.store.Some? then AccessDenied else Unexpected), p)
  {
  }

  /** A call without an out parameter, or on a handler that is not initialised, changes nothing and says so. */
  lemma GuardsAnswer<S>(api: StoreApi<S>, p: Proxy<S>, sep: string, c: Call<S>)
    requires p.inspection.Consistent() && !c.Initialize? && !c.IsPropertyWritable?
    ensures (c.GetCount? || c.GetAt? || c.GetValue?) && !c.out ==> ProxyStep(api, p, sep, c) == (Only(PointerError), p)
    ensures (c.SetValue? || c.Commit? || c.out) && (!p.initialized || p.store.None?) ==>
      ProxyStep(api, p, sep, c) == (Only(Unexpected), p)
  {
    hide CustomValue;
  }

  /** A failing original store fails the listing with its own code. */
  lemma ListingFails<S>(api: StoreApi<S>, p: Proxy<S>, sep: string, i: Dword)
    requires p.inspection.Consistent() && p.initialized && p.store.Some? && !api.getCount(p.store.value).0.Succeeded()
    ensures ProxyStep(api, p, sep, GetCount(true)) == (Only(api.getCount(p.store.value).0), p)
    ensures ProxyStep(api, p, sep, GetAt(i, true)) == (Only(api.getCount(p.store.value).0), p)
  {
  }

  /** Without the original's capabilities, no native property is writable. */
  lemma NoCapabilities<S>(api: StoreApi<S>, p: Proxy<S>, sep: string, k: Key)
    requires p.inspection.Consistent() && (api.isWritable.None? || p.store.None?)
    ensures ProxyStep(api, p, sep, IsPropertyWritable(k)) == (Only(SFalse), p)
  {
  }

  // ---------------------------------------------------------------- initialisation

  /** What an initialisation leaves: on success the inspection of the file with the fallback applied, the settings and
      the keys they switch on, and the store; on failure a handler that is as little initialised as before. */
  lemma InitializedMeans<S>(p: Proxy<S>, w: World<S>, file: Option<seq<Byte>>)
    ensures var (hr, next) := Initialized(p, w, file);
      && (file.None? ==> hr == PointerError && next == p)
      && (file.Some? && p.initialized ==> hr == AlreadyInitialized && next == p)
      && (hr == Ok ==> !p.initialized && next.initialized && file.Some? && w.frame.Some?)
      && (hr == Ok ==> next.settings == w.settings && forall k :: k in next.customKeys <==>
          IsPropertyEnabled(k, w.settings))
      && (hr == Ok ==> next.inspection == WithFallback(Inspected(file.value, w.frame).1, w.settings))
      && (hr == Ok ==> next.store.Some?)
      && (hr != Ok ==> next.initialized == p.initialized && next.store == p.store)
      && (file.Some? && !p.initialized && !Inspected(file.value, w.frame).0 ==> hr == GeneralFailure)
  {
    hide Inspected, WithFallback, ChooseOriginal, CustomKeys, IsPropertyEnabled;
    CustomKeysAreExact(w.settings);
  }

  /** Of a file that was read, an original that is not found or does not come up fails the initialisation with its own
      code; one that comes up without a store is a failure too. */
  lemma OriginalFails<S>(p: Proxy<S>, w: World<S>, file: seq<Byte>)
    requires !p.initialized && Inspected(file, w.frame).0
    ensures var (hr, clsid) := ChooseOriginal(w.reg, Inspected(file, w.frame).1.format);
      var answer := Initialized(p, w, Some(file)).0;
      && (hr != Ok ==> answer == hr)
      && (hr == Ok && w.create(clsid.value).0 !in {Ok, SFalse} ==> answer == w.create(clsid.value).0)
      && (hr == Ok && w.create(clsid.value).0 in {Ok, SFalse} && w.create(clsid.value).1.None? ==>
          answer == GeneralFailure)
      && (hr == Ok && w.create(clsid.value).0 in {Ok, SFalse} && w.create(clsid.value).1.Some? ==> answer == Ok)
  {
    hide Inspected, WithFallback, ChooseOriginal, CustomKeys;
  }

  // ---------------------------------------------------------------- the handler object

  class PhysicalSizePropertyHandler<S> {
    const api: StoreApi<S>
    const separator: string
    var initialized: bool
    var settings: Settings
    var inspection: Inspection
    var customKeys: seq<Key>
    var originalStore: Option<S>

    ghost function View(): Proxy<S>
      reads this
    {
      Proxy(initialized, settings, inspection, customKeys, originalStore)
    }

    ghost predicate Valid()
      reads this
    {
      && inspection.Consistent()
      && (initialized ==> originalStore.Some? && customKeys == CustomKeys(settings))
    }

    constructor (api: StoreApi<S>, separator: string, defaults: Settings)
      ensures Valid() && !initialized && this.api == api && this.separator == separator
    {
      this.api := api;
      this.separator := separator;
      initialized := false;
      settings := defaults;
      inspection := NOTHING_INSPECTED;
      customKeys := [];
      originalStore := None;
    }

    method ApplyFallbackDpiIfConfigured()
      modifies this`inspection
      ensures inspection == WithFallback(old(inspection), settings)
      ensures old(inspection).dpi.found ==> inspection == old(inspection)
      ensures inspection.format == old(inspection).format && inspection.width == old(inspection).width &&
        inspection.height == old(inspection).height
      ensures inspection != old(inspection) ==> settings.fallbackEnabled && inspection.hasSize && inspection.dpi.found
      ensures inspection.dpi != old(inspection).dpi ==>
        inspection.dpi == Dpi(true, settings.fallbackDpi, settings.fallbackDpi, Inferred, InferredDpi) &&
        CalculatePhysicalSizeCm(inspection.width, inspection.height, settings.fallbackDpi, settings.fallbackDpi) ==
          Some(PhysicalSizeCm(inspection.widthCm, inspection.heightCm))
    {
      if inspection.dpi.found || !settings.fallbackEnabled || !IsReasonableDpi(settings.fallbackDpi) {
        return;
      }
      var size := CalculatePhysicalSizeCm(inspection.width, inspection.height, settings.fallbackDpi,
        settings.fallbackDpi);
      if size.None? {
        return;
      }
      inspection := inspection.(dpi := Dpi(true, settings.fallbackDpi, settings.fallbackDpi, Inferred, InferredDpi));
      inspection := inspection.(hasSize := true, widthCm := size.value.widthCm, heightCm := size.value.heightCm);
    }

    method InitializeFromStream(file: Option<seq<Byte>>, w: World<S>) returns (hr: HResult)
      requires Valid() && (file.Some? ==> |file.value| <= MAX_VECTOR)
      modifies this
      ensures Valid()
      ensures (Only(hr), View()) == ProxyStep(api, old(View()), separator, Call.Initialize(file, w))
      ensures initialized && !old(initialized) ==> hr == Ok
    {
      hide Inspection.Consistent, CustomKeys, Inspected, WithFallback, ChooseOriginal;
      if file.None? {
        return PointerError;
      }
      if initialized {
        return AlreadyInitialized;
      }
      settings := w.settings;
      customKeys := BuildCustomKeys(settings);
      var (ok, inspected) := Inspected(file.value, w.frame);
      inspection := inspected;
      if !ok {
        return GeneralFailure;
      }
      ApplyFallbackDpiIfConfigured();
      var (chosen, clsid) := ChooseOriginal(w.reg, inspected.format);
      if chosen != Ok {
        return chosen;
      }
      var (created, store) := w.create(clsid.value);
      if !created.Succeeded() {
        return created;
      }
      if store.None? {
        return GeneralFailure;
      }
      originalStore := store;
      initialized := true;
      return Ok;
    }

    method GetCount(out: bool) returns (r: Reply)
      requires Valid()
      ensures (r, View()) == ProxyStep(api, View(), separator, Call.GetCount(out))
    {
      if !out {
        return Only(PointerError);
      }
      if !initialized || originalStore.None? {
        return Only(Unexpected);
      }
      var (hr, originalCount) := api.getCount(originalStore.value);
      if !hr.Succeeded() {
        return Only(hr);
      }
      return CountReply((Ok, (originalCount + |customKeys|) % 0x1_0000_0000));
    }

    method GetAt(index: Dword, out: bool) returns (r: Reply)
      requires Valid()
      ensures (r, View()) == ProxyStep(api, View(), separator, Call.GetAt(index, out))
    {
      if !out {
        return Only(PointerError);
      }
      if !initialized || originalStore.None? {
        return Only(Unexpected);
      }
      var (hr, originalCount) := api.getCount(originalStore.value);
      if !hr.Succeeded() {
        return Only(hr);
      }
      if index < originalCount {
        return KeyReply(api.getAt(originalStore.value, index));
      }
      var customIndex := index - originalCount;
      if customIndex >= |customKeys| {
        return Only(ErrorNotFound);
      }
      return KeyReply((Ok, customKeys[customIndex]));
    }

    method GetValue(key: Key, out: bool) returns (r: Reply)
      requires Valid()
      ensures (r, View()) == ProxyStep(api, View(), separator, Call.GetValue(key, out))
    {
      hide CustomValue, IsPropertyEnabled;
      if !out {
        return Only(PointerError);
      }
      if !initialized || originalStore.None? {
        return Only(Unexpected);
      }
      if IsCustomProperty(key) {
        if !IsPropertyEnabled(key, settings) {
          return ValueReply((Ok, EmptyValue));
        }
        return ValueReply(CustomValue(key, settings, inspection, separator));
      }
      return ValueReply(api.getValue(originalStore.value, key));
    }

    method SetValue(key: Key, value: Value) returns (r: Reply)
      requires Valid()
      modifies this`originalStore
      ensures Valid()
      ensures (r, View()) == ProxyStep(api, old(View()), separator, Call.SetValue(key, value))
    {
      if !initialized || originalStore.None? {
        return Only(Unexpected);
      }
      if IsCustomProperty(key) {
        return Only(AccessDenied);
      }
      var (hr, store) := api.setValue(originalStore.value, key, value);
      originalStore := Some(store);
      return Only(hr);
    }

    method Commit() returns (r: Reply)
      requires Valid()
      modifies this`originalStore
      ensures Valid()
      ensures (r, View()) == ProxyStep(api, old(View()), separator, Call.Commit)
    {
      if !initialized || originalStore.None? {
        return Only(Unexpected);
      }
      var (hr, store) := api.commit(originalStore.value);
      originalStore := Some(store);
      return Only(hr);
    }

    method IsPropertyWritable(key: Key) returns (r: Reply)
      requires Valid()
      ensures (r, View()) == ProxyStep(api, View(), separator, Call.IsPropertyWritable(key))
    {
      if IsCustomProperty(key) {
        return Only(SFalse);
      }
      if originalStore.Some? && api.isWritable.Some? {
        return Only(api.isWritable.value(originalStore.value, key));
      }
      return Only(SFalse);
    }
  }
}
