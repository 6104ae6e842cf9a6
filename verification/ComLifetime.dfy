/** Object lifetime of `ClassFactory.cpp`, `Module.cpp`, `DllExports.cpp` and the handler's constructor, destructor,
    AddRef and Release: any number of threads, interleaved at every atomic step. */
module ComLifetime {
  import opened Common

  /** An object is allocated with one reference, then counted by its constructor. When the last reference goes it is
      dying until its destructor has taken it off the count; then its members are destroyed, and it is gone when its
      memory is freed. */
  datatype Phase = Allocated | Counted | Dying | Uncounted | Gone

  datatype Class = Factory | Handler

  /** `refs` is the object's reference count, `held` the references clients hold, `offered` whether the query that
      follows the creation succeeds. */
  datatype Object = Object(class_: Class, refs: nat, held: nat, phase: Phase, offered: bool)

  /** Where a thread is inside a call. `via` is the factory whose CreateInstance it runs, kept alive by the caller's
      reference. A thread that is returning has done all its counting, but is still executing code of the DLL. */
  datatype Pc =
    | Outside
    | Creating(obj: nat, via: Option<nat>)
    | Querying(obj: nat, via: Option<nat>)
    | Releasing(obj: nat, via: Option<nat>)
    | Deleting(obj: nat, via: Option<nat>)
    | Freeing(obj: nat, via: Option<nat>)
    | Returning(obj: nat, via: Option<nat>)

  /** `count` is the module's global object count. */
  datatype State = State(objects: seq<Object>, threads: seq<Pc>, locks: nat, count: int)

  datatype Action =
    | GetClassObject(thread: nat, succeeds: bool)
    | CreateInstance(thread: nat, factory: nat, succeeds: bool)
    | Construct(thread: nat)
    | Query(thread: nat)
    | Decrement(thread: nat)
    | Destroy(thread: nat)
    | Free(thread: nat)
    | Return(thread: nat)
    | AddRef(obj: nat)
    | Release(thread: nat, obj: nat)
    | Lock(factory: nat)
    | Unlock(factory: nat)

  function Init(threads: nat): State {
    State([], seq(threads, _ => Outside), 0, 0)
  }

  // ---------------------------------------------------------------- steps

  predicate IsHeld(s: State, o: nat) {
    o < |s.objects| && s.objects[o].held > 0
  }

  predicate ThreadAt(s: State, t: nat, pc: Pc) {
    t < |s.threads| && s.threads[t] == pc
  }

  function WithObject(s: State, o: nat, x: Object): State
    requires o < |s.objects|
  {
    s.(objects := s.objects[o := x])
  }

  function WithThread(s: State, t: nat, pc: Pc): State
    requires t < |s.threads|
  {
    s.(threads := s.threads[t := pc])
  }

  /** Leaving a call gives the caller's reference on the factory back. */
  function Leave(s: State, t: nat, via: Option<nat>): State
    requires t < |s.threads|
  {
    var out := WithThread(s, t, Outside);
    if via.Some? && via.value < |s.objects| then
      WithObject(out, via.value, s.objects[via.value].(held := s.objects[via.value].held + 1))
    else out
  }

  predicate Enabled(s: State, a: Action) {
    match a
    case GetClassObject(t, _) => ThreadAt(s, t, Outside)
    case CreateInstance(t, f, _) => ThreadAt(s, t, Outside) && IsHeld(s, f) && s.objects[f].class_ == Factory
    case Construct(t) => t < |s.threads| && s.threads[t].Creating? && s.threads[t].obj < |s.objects|
    case Query(t) => t < |s.threads| && s.threads[t].Querying? && s.threads[t].obj < |s.objects|
    case Decrement(t) => t < |s.threads| && s.threads[t].Releasing? && s.threads[t].obj < |s.objects| &&
      s.objects[s.threads[t].obj].refs > 0
    case Destroy(t) => t < |s.threads| && s.threads[t].Deleting? && s.threads[t].obj < |s.objects|
    case Free(t) => t < |s.threads| && s.threads[t].Freeing? && s.threads[t].obj < |s.objects|
    case Return(t) => t < |s.threads| && s.threads[t].Returning?
    case AddRef(o) => IsHeld(s, o)
    case Release(t, o) => ThreadAt(s, t, Outside) && IsHeld(s, o)
    case Lock(f) => IsHeld(s, f) && s.objects[f].class_ == Factory
    case Unlock(f) => IsHeld(s, f) && s.objects[f].class_ == Factory && s.locks > 0
  }

  /** The effect of one atomic step. Clients balance their calls: they release and unlock only what they hold. A call
      through a reference that its client keeps meanwhile (AddRef, LockServer) is one step: until it returns, that
      reference keeps its object counted. */
  function Step(s: State, a: Action): State
    requires Enabled(s, a)
  {
    match a
    case GetClassObject(t, ok) =>
      WithThread(s.(objects := s.objects + [Object(Factory, 1, 0, Allocated, ok)]), t, Creating(|s.objects|, None))
    case CreateInstance(t, f, ok) =>
      var pinned := WithObject(s, f, s.objects[f].(held := s.objects[f].held - 1));
      WithThread(pinned.(objects := pinned.objects + [Object(Handler, 1, 0, Allocated, ok)]), t,
        Creating(|s.objects|, Some(f)))
    case Construct(t) =>
      var pc := s.threads[t];
      WithThread(WithObject(s, pc.obj, s.objects[pc.obj].(phase := Counted)), t,
        Querying(pc.obj, pc.via)).(count := s.count + 1)
    case Query(t) =>
      var pc := s.threads[t];
      var x := s.objects[pc.obj];
      var queried := if x.offered then x.(refs := x.refs + 1, held := x.held + 1) else x;
      WithThread(WithObject(s, pc.obj, queried), t, Releasing(pc.obj, pc.via))
    case Decrement(t) =>
      var pc := s.threads[t];
      var x := s.objects[pc.obj];
      if x.refs == 1 then WithThread(WithObject(s, pc.obj, x.(refs := 0, phase := Dying)), t, Deleting(pc.obj, pc.via))
      else WithThread(WithObject(s, pc.obj, x.(refs := x.refs - 1)), t, Returning(pc.obj, pc.via))
    case Destroy(t) =>
      var pc := s.threads[t];
      WithThread(WithObject(s, pc.obj, s.objects[pc.obj].(phase := Uncounted)), t,
        Freeing(pc.obj, pc.via)).(count := s.count - 1)
    case Free(t) =>
      var pc := s.threads[t];
      WithThread(WithObject(s, pc.obj, s.objects[pc.obj].(phase := Gone)), t, Returning(pc.obj, pc.via))
    case Return(t) => Leave(s, t, s.threads[t].via)
    case AddRef(o) =>
      WithObject(s, o, s.objects[o].(refs := s.objects[o].refs + 1, held := s.objects[o].held + 1))
    case Release(t, o) =>
      WithThread(WithObject(s, o, s.objects[o].(held := s.objects[o].held - 1)), t, Releasing(o, None))
    case Lock(_) => s.(locks := s.locks + 1, count := s.count + 1)
    case Unlock(_) => s.(locks := s.locks - 1, count := s.count - 1)
  }

  /** `DllCanUnloadNow`. */
  predicate CanUnloadNow(s: State) {
    s.count == 0
  }

  // ---------------------------------------------------------------- bookkeeping

  /** References a thread owns on an object: the temporary one of the call it is in, and the one that keeps its
      factory. */
  function Owns(pc: Pc, o: nat): nat {
    if pc.Outside? then 0
    else
      (if pc.obj == o && (pc.Creating? || pc.Querying? || pc.Releasing?) then 1 else 0) +
      (if pc.via == Some(o) then 1 else 0)
  }

  function Creates(pc: Pc, o: nat): nat { if pc.Creating? && pc.obj == o then 1 else 0 }

  function Deletes(pc: Pc, o: nat): nat { if pc.Deleting? && pc.obj == o then 1 else 0 }

  function Frees(pc: Pc, o: nat): nat { if pc.Freeing? && pc.obj == o then 1 else 0 }

  datatype Tally = Owning | InCreation | InDeletion | InFreeing

  function Share(k: Tally, pc: Pc, o: nat): nat {
    match k
    case Owning => Owns(pc, o)
    case InCreation => Creates(pc, o)
    case InDeletion => Deletes(pc, o)
    case InFreeing => Frees(pc, o)
  }

  function Sum(k: Tally, threads: seq<Pc>, o: nat): nat {
    if threads == [] then 0 else Sum(k, ButLast(threads), o) + Share(k, Last(threads), o)
  }

  lemma {:induction false} SumUpdate(k: Tally, threads: seq<Pc>, t: nat, pc: Pc, o: nat)
    requires t < |threads|
    ensures Sum(k, threads[t := pc], o) == Sum(k, threads, o) - Share(k, threads[t], o) + Share(k, pc, o)
    ensures Sum(k, threads, o) >= Share(k, threads[t], o)
  {
    hide Share;
    var changed := threads[t := pc];
    if t == |threads| - 1 {
      assert ButLast(changed) == ButLast(threads);
    } else {
      SumUpdate(k, ButLast(threads), t, pc, o);
      assert ButLast(changed) == ButLast(threads)[t := pc];
    }
  }

  lemma {:induction false} SumIsZero(k: Tally, threads: seq<Pc>, o: nat)
    requires forall t | 0 <= t < |threads| :: Share(k, threads[t], o) == 0
    ensures Sum(k, threads, o) == 0
  {
    hide Share;
    if threads != [] {
      SumIsZero(k, ButLast(threads), o);
    }
  }

  predicate IsCounted(x: Object) {
    x.phase == Counted || x.phase == Dying
  }

  /** Objects constructed and not yet past their destructor's decrement. */
  function Alive(objects: seq<Object>): nat {
    if objects == [] then 0 else Alive(ButLast(objects)) + (if IsCounted(Last(objects)) then 1 else 0)
  }

  lemma {:induction false} AliveUpdate(objects: seq<Object>, o: nat, x: Object)
    requires o < |objects|
    ensures Alive(objects[o := x]) ==
      Alive(objects) - (if IsCounted(objects[o]) then 1 else 0) + (if IsCounted(x) then 1 else 0)
    ensures IsCounted(objects[o]) ==> Alive(objects) > 0
  {
    hide IsCounted;
    var changed := objects[o := x];
    if o == |objects| - 1 {
      assert ButLast(changed) == ButLast(objects);
    } else {
      AliveUpdate(ButLast(objects), o, x);
      assert ButLast(changed) == ButLast(objects)[o := x];
    }
  }

  lemma AliveAppend(objects: seq<Object>, x: Object)
    ensures Alive(objects + [x]) == Alive(objects) + (if IsCounted(x) then 1 else 0)
  {
    assert ButLast(objects + [x]) == objects;
  }

  // ---------------------------------------------------------------- the invariant

  predicate ObjectOk(x: Object, owned: nat, inCreation: nat, inDeletion: nat, inFreeing: nat) {
    && x.refs == x.held + owned
    && inCreation == (if x.phase == Allocated then 1 else 0)
    && inDeletion == (if x.phase == Dying then 1 else 0)
    && inFreeing == (if x.phase == Uncounted then 1 else 0)
    && (x.phase == Allocated ==> x.refs == 1 && x.held == 0)
    && (x.phase == Counted <==> x.refs > 0 && x.phase != Allocated)
    && (!x.offered ==> x.held == 0)
  }

  predicate ObjectInv(s: State, o: nat)
    requires o < |s.objects|
  {
    ObjectOk(s.objects[o], Sum(Owning, s.threads, o), Sum(InCreation, s.threads, o), Sum(InDeletion, s.threads, o),
      Sum(InFreeing, s.threads, o))
  }

  predicate ThreadOk(s: State, pc: Pc) {
    !pc.Outside? ==>
      && pc.obj < |s.objects|
      && (pc.Querying? || pc.Releasing? ==> s.objects[pc.obj].phase != Allocated)
      && (pc.via.Some? ==>
          && pc.via.value < |s.objects| && pc.via.value != pc.obj
          && s.objects[pc.via.value].offered && s.objects[pc.via.value].phase != Allocated)
  }

  predicate Inv(s: State) {
    && (forall o | 0 <= o < |s.objects| :: ObjectInv(s, o))
    && (forall t | 0 <= t < |s.threads| :: ThreadOk(s, s.threads[t]))
    && s.count == Alive(s.objects) + s.locks
  }

  lemma SumsAfter(threads: seq<Pc>, t: nat, pc: Pc, o: nat)
    requires t < |threads|
    ensures Sum(Owning, threads[t := pc], o) == Sum(Owning, threads, o) - Owns(threads[t], o) + Owns(pc, o)
    ensures Sum(InCreation, threads[t := pc], o) ==
      Sum(InCreation, threads, o) - Creates(threads[t], o) + Creates(pc, o)
    ensures Sum(InDeletion, threads[t := pc], o) ==
      Sum(InDeletion, threads, o) - Deletes(threads[t], o) + Deletes(pc, o)
    ensures Sum(InFreeing, threads[t := pc], o) == Sum(InFreeing, threads, o) - Frees(threads[t], o) + Frees(pc, o)
    ensures Sum(Owning, threads, o) >= Owns(threads[t], o)
    ensures Sum(InCreation, threads, o) >= Creates(threads[t], o)
    ensures Sum(InDeletion, threads, o) >= Deletes(threads[t], o)
    ensures Sum(InFreeing, threads, o) >= Frees(threads[t], o)
  {
    SumUpdate(Owning, threads, t, pc, o);
    SumUpdate(InCreation, threads, t, pc, o);
    SumUpdate(InDeletion, threads, t, pc, o);
    SumUpdate(InFreeing, threads, t, pc, o);
  }

  lemma NewObjectIsUnknown(s: State)
    requires Inv(s)
    ensures forall k: Tally :: Sum(k, s.threads, |s.objects|) == 0
  {
    forall k: Tally
      ensures Sum(k, s.threads, |s.objects|) == 0
    {
      forall t | 0 <= t < |s.threads|
        ensures Share(k, s.threads[t], |s.objects|) == 0
      {
        assert ThreadOk(s, s.threads[t]);
      }
      SumIsZero(k, s.threads, |s.objects|);
    }
  }

  /** An offered object stays offered, none disappears, and none becomes new again: so threads stay well-placed. */
  predicate Grows(a: State, b: State) {
    && |a.objects| <= |b.objects|
    && (forall o | 0 <= o < |a.objects| :: b.objects[o].offered == a.objects[o].offered)
    && (forall o | 0 <= o < |a.objects| :: b.objects[o].phase == Allocated ==> a.objects[o].phase == Allocated)
  }

  lemma OtherThreadsStay(s: State, next: State, t: nat)
    requires Inv(s) && Grows(s, next) && t < |s.threads| == |next.threads|
    requires ThreadOk(next, next.threads[t])
    requires forall u | 0 <= u < |s.threads| && u != t :: next.threads[u] == s.threads[u]
    ensures forall u | 0 <= u < |next.threads| :: ThreadOk(next, next.threads[u])
  {
    forall u | 0 <= u < |next.threads|
      ensures ThreadOk(next, next.threads[u])
    {
      if u != t {
        assert ThreadOk(s, s.threads[u]);
      }
    }
  }

  lemma GetClassObjectInv(s: State, t: nat, ok: bool)
    requires Inv(s) && Enabled(s, GetClassObject(t, ok))
    ensures Inv(Step(s, GetClassObject(t, ok)))
  {
    hide Sum, Alive;
    var next := Step(s, GetClassObject(t, ok));
    var pc := Creating(|s.objects|, None);
    NewObjectIsUnknown(s);
    AliveAppend(s.objects, Object(Factory, 1, 0, Allocated, ok));
    forall o | 0 <= o < |next.objects|
      ensures ObjectInv(next, o)
    {
      SumsAfter(s.threads, t, pc, o);
      if o < |s.objects| {
        assert ObjectInv(s, o);
      }
    }
    OtherThreadsStay(s, next, t);
  }

  lemma CreateInstanceInv(s: State, t: nat, f: nat, ok: bool)
    requires Inv(s) && Enabled(s, CreateInstance(t, f, ok))
    ensures Inv(Step(s, CreateInstance(t, f, ok)))
  {
    hide Sum, Alive;
    var next := Step(s, CreateInstance(t, f, ok));
    var pc := Creating(|s.objects|, Some(f));
    NewObjectIsUnknown(s);
    assert ObjectInv(s, f);
    var pinned := s.objects[f := s.objects[f].(held := s.objects[f].held - 1)];
    AliveUpdate(s.objects, f, pinned[f]);
    AliveAppend(pinned, Object(Handler, 1, 0, Allocated, ok));
    forall o | 0 <= o < |next.objects|
      ensures ObjectInv(next, o)
    {
      SumsAfter(s.threads, t, pc, o);
      if o < |s.objects| {
        assert ObjectInv(s, o);
      }
    }
    OtherThreadsStay(s, next, t);
  }

  /** A thread that only moves on inside its call, changing the object it works on. */
  lemma MoveOnInv(s: State, next: State, t: nat, pc: Pc, x: Object)
    requires Inv(s) && t < |s.threads| && !s.threads[t].Outside? && !pc.Outside?
    requires pc.obj == s.threads[t].obj < |s.objects| && pc.via == s.threads[t].via
    requires next.objects == s.objects[pc.obj := x] && next.threads == s.threads[t := pc] &&
      x.offered == s.objects[pc.obj].offered
    requires x.phase != Allocated
    requires next.count - next.locks ==
      s.count - s.locks + (if IsCounted(x) then 1 else 0) - (if IsCounted(s.objects[pc.obj]) then 1 else 0)
    requires ObjectOk(x, Sum(Owning, next.threads, pc.obj), Sum(InCreation, next.threads, pc.obj),
      Sum(InDeletion, next.threads, pc.obj),
      Sum(InFreeing, next.threads, pc.obj))
    ensures Inv(next)
  {
    hide Sum, Alive;
    AliveUpdate(s.objects, pc.obj, x);
    forall o | 0 <= o < |next.objects|
      ensures ObjectInv(next, o)
    {
      SumsAfter(s.threads, t, pc, o);
      assert ObjectInv(s, o);
    }
    assert ThreadOk(s, s.threads[t]);
    OtherThreadsStay(s, next, t);
  }

  lemma ConstructInv(s: State, t: nat)
    requires Inv(s) && Enabled(s, Construct(t))
    ensures Inv(Step(s, Construct(t)))
  {
    hide Sum, Alive;
    var pc := s.threads[t];
    var moved := Querying(pc.obj, pc.via);
    assert ObjectInv(s, pc.obj);
    assert ThreadOk(s, pc);
    SumsAfter(s.threads, t, moved, pc.obj);
    MoveOnInv(s, Step(s, Construct(t)), t, moved, s.objects[pc.obj].(phase := Counted));
  }

  lemma QueryInv(s: State, t: nat)
    requires Inv(s) && Enabled(s, Query(t))
    ensures Inv(Step(s, Query(t)))
  {
    hide Sum, Alive;
    var pc := s.threads[t];
    var moved, x := Releasing(pc.obj, pc.via), s.objects[pc.obj];
    assert ObjectInv(s, pc.obj);
    assert ThreadOk(s, pc);
    SumsAfter(s.threads, t, moved, pc.obj);
    MoveOnInv(s, Step(s, Query(t)), t, moved, if x.offered then x.(refs := x.refs + 1, held := x.held + 1) else x);
  }

  lemma DecrementInv(s: State, t: nat)
    requires Inv(s) && Enabled(s, Decrement(t))
    ensures Inv(Step(s, Decrement(t)))
  {
    hide Sum, Alive;
    var pc := s.threads[t];
    var x := s.objects[pc.obj];
    assert ObjectInv(s, pc.obj);
    assert ThreadOk(s, pc);
    SumsAfter(s.threads, t, Returning(pc.obj, pc.via), pc.obj);
    SumsAfter(s.threads, t, Deleting(pc.obj, pc.via), pc.obj);
    if x.refs == 1 {
      MoveOnInv(s, Step(s, Decrement(t)), t, Deleting(pc.obj, pc.via), x.(refs := 0, phase := Dying));
    } else {
      MoveOnInv(s, Step(s, Decrement(t)), t, Returning(pc.obj, pc.via), x.(refs := x.refs - 1));
    }
  }

  lemma DestroyInv(s: State, t: nat)
    requires Inv(s) && Enabled(s, Destroy(t))
    ensures Inv(Step(s, Destroy(t)))
  {
    hide Sum, Alive;
    var pc := s.threads[t];
    assert ObjectInv(s, pc.obj);
    assert ThreadOk(s, pc);
    SumsAfter(s.threads, t, Freeing(pc.obj, pc.via), pc.obj);
    MoveOnInv(s, Step(s, Destroy(t)), t, Freeing(pc.obj, pc.via), s.objects[pc.obj].(phase := Uncounted));
  }

  lemma FreeInv(s: State, t: nat)
    requires Inv(s) && Enabled(s, Free(t))
    ensures Inv(Step(s, Free(t)))
  {
    hide Sum, Alive;
    var pc := s.threads[t];
    assert ObjectInv(s, pc.obj);
    assert ThreadOk(s, pc);
    SumsAfter(s.threads, t, Returning(pc.obj, pc.via), pc.obj);
    MoveOnInv(s, Step(s, Free(t)), t, Returning(pc.obj, pc.via), s.objects[pc.obj].(phase := Gone));
  }

  /** A thread that leaves its call gives the caller's factory reference back. */
  lemma ReturnInv(s: State, t: nat)
    requires Inv(s) && Enabled(s, Return(t))
    ensures Inv(Step(s, Return(t)))
  {
    hide Sum, Alive;
    var pc := s.threads[t];
    var next := Step(s, Return(t));
    assert ThreadOk(s, pc);
    if pc.via.Some? {
      AliveUpdate(s.objects, pc.via.value, next.objects[pc.via.value]);
    }
    forall o | 0 <= o < |next.objects|
      ensures ObjectInv(next, o)
    {
      SumsAfter(s.threads, t, Outside, o);
      assert ObjectInv(s, o);
    }
    OtherThreadsStay(s, next, t);
  }

  lemma ReleaseInv(s: State, t: nat, o: nat)
    requires Inv(s) && Enabled(s, Release(t, o))
    ensures Inv(Step(s, Release(t, o)))
  {
    hide Sum, Alive;
    var next := Step(s, Release(t, o));
    assert ObjectInv(s, o);
    AliveUpdate(s.objects, o, next.objects[o]);
    forall k | 0 <= k < |next.objects|
      ensures ObjectInv(next, k)
    {
      SumsAfter(s.threads, t, Releasing(o, None), k);
      assert ObjectInv(s, k);
    }
    OtherThreadsStay(s, next, t);
  }

  lemma AddRefInv(s: State, o: nat)
    requires Inv(s) && Enabled(s, AddRef(o))
    ensures Inv(Step(s, AddRef(o)))
  {
    hide Sum, Alive;
    var next := Step(s, AddRef(o));
    AliveUpdate(s.objects, o, next.objects[o]);
    forall k | 0 <= k < |next.objects|
      ensures ObjectInv(next, k)
    {
      assert ObjectInv(s, k);
    }
    forall u | 0 <= u < |next.threads|
      ensures ThreadOk(next, next.threads[u])
    {
      assert ThreadOk(s, s.threads[u]);
    }
  }

  lemma LocksInv(s: State, a: Action)
    requires Inv(s) && Enabled(s, a) && (a.Lock? || a.Unlock?)
    ensures Inv(Step(s, a))
  {
    hide Sum, Alive;
    var next := Step(s, a);
    forall k | 0 <= k < |next.objects|
      ensures ObjectInv(next, k)
    {
      assert ObjectInv(s, k);
    }
    forall u | 0 <= u < |next.threads|
      ensures ThreadOk(next, next.threads[u])
    {
      assert ThreadOk(s, s.threads[u]);
    }
  }

  lemma StepKeepsInv(s: State, a: Action)
    requires Inv(s) && Enabled(s, a)
    ensures Inv(Step(s, a))
  {
    hide Inv, Step, Enabled;
    match a
    case GetClassObject(t, ok) => GetClassObjectInv(s, t, ok);
    case CreateInstance(t, f, ok) => CreateInstanceInv(s, t, f, ok);
    case Construct(t) => ConstructInv(s, t);
    case Query(t) => QueryInv(s, t);
    case Decrement(t) => DecrementInv(s, t);
    case Destroy(t) => DestroyInv(s, t);
    case Free(t) => FreeInv(s, t);
    case Return(t) => ReturnInv(s, t);
    case AddRef(o) => AddRefInv(s, o);
    case Release(t, o) => ReleaseInv(s, t, o);
    case Lock(_) => LocksInv(s, a);
    case Unlock(_) => LocksInv(s, a);
  }

  // ---------------------------------------------------------------- every run

  /** The state after a run, if every step was possible when it was taken. */
  function Run(threads: nat, actions: seq<Action>): Option<State> {
    if actions == [] then Some(Init(threads))
    else
      var before := Run(threads, ButLast(actions));
      if before.Some? && Enabled(before.value, Last(actions)) then Some(Step(before.value, Last(actions))) else None
  }

  /** In every interleaving, every reference count is exactly the references that exist, and the object count is exactly
      the objects constructed and not yet taken off it, plus the outstanding locks. */
  lemma {:induction false} EveryRunKeepsInv(threads: nat, actions: seq<Action>)
    requires Run(threads, actions).Some?
    ensures Inv(Run(threads, actions).value)
  {
    hide Inv, Step, Enabled;
    if actions == [] {
      InitInv(threads);
    } else {
      EveryRunKeepsInv(threads, ButLast(actions));
      StepKeepsInv(Run(threads, ButLast(actions)).value, Last(actions));
    }
  }

  lemma InitInv(threads: nat)
    ensures Inv(Init(threads))
  {
  }

  lemma {:induction false} NoneAlive(objects: seq<Object>)
    ensures Alive(objects) == 0 <==> forall o | 0 <= o < |objects| :: !IsCounted(objects[o])
  {
    if objects != [] {
      NoneAlive(ButLast(objects));
      assert forall o | 0 <= o < |objects| - 1 :: objects[o] == ButLast(objects)[o];
    }
  }

  /** The DLL may be unloaded exactly when no lock is outstanding and every object is past its destructor's decrement or
      not yet past its constructor's increment. */
  lemma UnloadExactly(s: State)
    requires Inv(s)
    ensures CanUnloadNow(s) <==>
      s.locks == 0 && forall o | 0 <= o < |s.objects| :: s.objects[o].phase in {Allocated, Uncounted, Gone}
  {
    NoneAlive(s.objects);
  }

  /** Whether a thread is in code that the object count does not cover: a factory before its increment, or what follows
      a decrement. */
  predicate IsUncovered(pc: Pc) {
    !pc.Outside? && pc.via.None? && (pc.Creating? || pc.Freeing? || pc.Returning?)
  }

  /** Then no client holds anything, and no thread is in CreateInstance. The only threads still in the DLL are
      constructing a factory in DllGetClassObject, destroying the members of an object, or returning. */
  lemma UnloadIsQuiet(s: State)
    requires Inv(s) && CanUnloadNow(s)
    ensures forall o | 0 <= o < |s.objects| :: s.objects[o].held == 0
    ensures forall t | 0 <= t < |s.threads| :: s.threads[t].Outside? || IsUncovered(s.threads[t])
  {
    hide Sum, Alive;
    UnloadExactly(s);
    forall o | 0 <= o < |s.objects|
      ensures s.objects[o].held == 0
    {
      assert ObjectInv(s, o);
    }
    forall t | 0 <= t < |s.threads|
      ensures s.threads[t].Outside? || IsUncovered(s.threads[t])
    {
      var pc := s.threads[t];
      assert ThreadOk(s, pc);
      if !pc.Outside? {
        SumsAfter(s.threads, t, pc, pc.obj);
        assert ObjectInv(s, pc.obj);
        if pc.via.Some? {
          FactoryIsCounted(s, t);
        }
      }
    }
  }

  /** While CreateInstance runs, its factory is alive. */
  lemma FactoryIsCounted(s: State, t: nat)
    requires Inv(s) && t < |s.threads| && !s.threads[t].Outside? && s.threads[t].via.Some?
    ensures s.threads[t].via.value < |s.objects| && s.objects[s.threads[t].via.value].phase == Counted
  {
    hide Sum, Alive;
    var pc := s.threads[t];
    var f := pc.via.value;
    assert ThreadOk(s, pc);
    SumsAfter(s.threads, t, pc, f);
    assert ObjectInv(s, f);
  }

  /** A query that fails leaves no object behind: once no thread is busy with it, its memory is freed. */
  lemma FailedCreationLeavesNothing(s: State, o: nat)
    requires Inv(s) && o < |s.objects| && !s.objects[o].offered
    requires forall t | 0 <= t < |s.threads| :: !s.threads[t].Outside? && s.threads[t].obj == o ==>
      s.threads[t].Returning?
    ensures s.objects[o].phase == Gone
  {
    hide Sum, Alive;
    assert ObjectInv(s, o);
    forall t | 0 <= t < |s.threads|
      ensures Share(InCreation, s.threads[t], o) == Share(InDeletion, s.threads[t], o) ==
        Share(InFreeing, s.threads[t], o) == 0
      ensures s.threads[t].Outside? || s.threads[t].via != Some(o)
    {
      assert ThreadOk(s, s.threads[t]);
    }
    SumIsZero(Owning, s.threads, o);
    SumIsZero(InCreation, s.threads, o);
    SumIsZero(InDeletion, s.threads, o);
    SumIsZero(InFreeing, s.threads, o);
  }

  /** When every call has returned and clients have released and unlocked everything, every object is gone and the DLL
      may go. */
  lemma NothingLeaks(s: State)
    requires Inv(s) && s.locks == 0
    requires forall t | 0 <= t < |s.threads| :: s.threads[t].Outside?
    requires forall o | 0 <= o < |s.objects| :: s.objects[o].held == 0
    ensures CanUnloadNow(s) && forall o | 0 <= o < |s.objects| :: s.objects[o].phase == Gone
  {
    hide Sum, Alive;
    forall o | 0 <= o < |s.objects|
      ensures s.objects[o].phase == Gone
    {
      assert ObjectInv(s, o);
      SumIsZero(Owning, s.threads, o);
      SumIsZero(InCreation, s.threads, o);
      SumIsZero(InDeletion, s.threads, o);
      SumIsZero(InFreeing, s.threads, o);
    }
    UnloadExactly(s);
  }

  predicate IsDestroyed(s: State, o: nat) {
    o < |s.objects| && s.objects[o].phase in {Uncounted, Gone}
  }

  predicate IsFreed(s: State, o: nat) {
    o < |s.objects| && s.objects[o].phase == Gone
  }

  /** One step: an object is destroyed only while it is dying, freed only after that, and neither is taken back. */
  lemma DestroyedByStep(s: State, a: Action, o: nat)
    requires Inv(s) && Enabled(s, a)
    ensures var destroys, frees := a.Destroy? && s.threads[a.thread].obj == o, a.Free? && s.threads[a.thread].obj == o;
      && (destroys ==> o < |s.objects| && s.objects[o].phase == Dying)
      && (frees ==> o < |s.objects| && s.objects[o].phase == Uncounted)
      && (IsDestroyed(Step(s, a), o) <==> IsDestroyed(s, o) || destroys)
      && (IsFreed(Step(s, a), o) <==> IsFreed(s, o) || frees)
  {
    hide Sum, Alive;
    if o < |s.objects| {
      assert ObjectInv(s, o);
    }
    if a.Construct? || a.Query? || a.Decrement? || a.Destroy? || a.Free? || a.Return? {
      assert ThreadOk(s, s.threads[a.thread]);
      SumsAfter(s.threads, a.thread, Outside, o);
    }
  }

  /** How often a run destroys an object, and how often it frees it. */
  function Destructions(threads: nat, actions: seq<Action>, o: nat): nat
    requires Run(threads, actions).Some?
  {
    if actions == [] then 0
    else
      var s, a := Run(threads, ButLast(actions)).value, Last(actions);
      Destructions(threads, ButLast(actions), o) + (if a.Destroy? && s.threads[a.thread].obj == o then 1 else 0)
  }

  function Deallocations(threads: nat, actions: seq<Action>, o: nat): nat
    requires Run(threads, actions).Some?
  {
    if actions == [] then 0
    else
      var s, a := Run(threads, ButLast(actions)).value, Last(actions);
      Deallocations(threads, ButLast(actions), o) + (if a.Free? && s.threads[a.thread].obj == o then 1 else 0)
  }

  /** Every run destroys and frees each object at most once: exactly once when it is past that, and never before. */
  lemma {:induction false} DeletedOnce(threads: nat, actions: seq<Action>, o: nat)
    requires Run(threads, actions).Some?
    ensures Destructions(threads, actions, o) == if IsDestroyed(Run(threads, actions).value, o) then 1 else 0
    ensures Deallocations(threads, actions, o) == if IsFreed(Run(threads, actions).value, o) then 1 else 0
  {
    hide Inv, Step, IsDestroyed, IsFreed;
    if actions == [] {
      NothingDestroyed(threads, o);
    } else {
      DeletedOnce(threads, ButLast(actions), o);
      EveryRunKeepsInv(threads, ButLast(actions));
      DestroyedByStep(Run(threads, ButLast(actions)).value, Last(actions), o);
      DestroyingIsNew(Run(threads, ButLast(actions)).value, o);
    }
  }

  lemma NothingDestroyed(threads: nat, o: nat)
    ensures !IsDestroyed(Init(threads), o) && !IsFreed(Init(threads), o)
  {
  }

  lemma DestroyingIsNew(s: State, o: nat)
    ensures o < |s.objects| && s.objects[o].phase == Dying ==> !IsDestroyed(s, o)
    ensures o < |s.objects| && s.objects[o].phase == Uncounted ==> !IsFreed(s, o)
  {
  }

  /** No step touches the count of an object that is dying or gone: whoever holds a reference finds it alive. */
  lemma ReferencedIsAlive(s: State, o: nat)
    requires Inv(s) && o < |s.objects|
    ensures s.objects[o].held > 0 ==> s.objects[o].phase == Counted
    ensures forall t | 0 <= t < |s.threads| :: Owns(s.threads[t], o) > 0 ==>
      s.objects[o].phase == Counted || s.objects[o].phase == Allocated
  {
    hide Sum, Alive;
    assert ObjectInv(s, o);
    forall t | 0 <= t < |s.threads|
      ensures Owns(s.threads[t], o) > 0 ==> s.objects[o].phase == Counted || s.objects[o].phase == Allocated
    {
      SumsAfter(s.threads, t, s.threads[t], o);
    }
  }

  // ---------------------------------------------------------------- what the action history says

  function LocksTaken(actions: seq<Action>): nat {
    if actions == [] then 0 else LocksTaken(ButLast(actions)) + (if Last(actions).Lock? then 1 else 0)
  }

  function LocksReturned(actions: seq<Action>): nat {
    if actions == [] then 0 else LocksReturned(ButLast(actions)) + (if Last(actions).Unlock? then 1 else 0)
  }

  function ConstructorRuns(actions: seq<Action>): nat {
    if actions == [] then 0 else ConstructorRuns(ButLast(actions)) + (if Last(actions).Construct? then 1 else 0)
  }

  function DestructorRuns(actions: seq<Action>): nat {
    if actions == [] then 0 else DestructorRuns(ButLast(actions)) + (if Last(actions).Destroy? then 1 else 0)
  }

  /** In every run the object count is told by the actions alone: constructors run less destructors run, plus locks
      taken less locks returned. */
  lemma {:induction false} CountIsHistory(threads: nat, actions: seq<Action>)
    requires Run(threads, actions).Some?
    ensures Run(threads, actions).value.locks == LocksTaken(actions) - LocksReturned(actions)
    ensures Run(threads, actions).value.count ==
      ConstructorRuns(actions) - DestructorRuns(actions) + LocksTaken(actions) - LocksReturned(actions)
  {
    if actions != [] {
      hide Step, Enabled;
      CountIsHistory(threads, ButLast(actions));
      CountByStep(Run(threads, ButLast(actions)).value, Last(actions));
    }
  }

  lemma CountByStep(s: State, a: Action)
    requires Enabled(s, a)
    ensures Step(s, a).locks == s.locks + (if a.Lock? then 1 else 0) - (if a.Unlock? then 1 else 0)
    ensures Step(s, a).count == s.count + (if a.Construct? then 1 else 0) - (if a.Destroy? then 1 else 0) +
      (if a.Lock? then 1 else 0) - (if a.Unlock? then 1 else 0)
  {
  }

  /** So the DLL may be unloaded exactly when every lock is returned and every constructor run is matched by a
      destructor run. */
  lemma UnloadIsHistory(threads: nat, actions: seq<Action>)
    requires Run(threads, actions).Some?
    ensures CanUnloadNow(Run(threads, actions).value) <==>
      LocksTaken(actions) == LocksReturned(actions) && ConstructorRuns(actions) == DestructorRuns(actions)
  {
    hide Run, ConstructorRuns, DestructorRuns, LocksTaken, LocksReturned, Sum, Alive, ObjectInv, ThreadOk;
    EveryRunKeepsInv(threads, actions);
    CountIsHistory(threads, actions);
  }

  /** The objects a run creates, in order: their classes, and whether the query of their creation succeeds. */
  function Creations(actions: seq<Action>): seq<(Class, bool)> {
    if actions == [] then [] else Creations(ButLast(actions)) + CreatedBy(Last(actions))
  }

  function CreatedBy(a: Action): seq<(Class, bool)> {
    match a
    case GetClassObject(_, ok) => [(Factory, ok)]
    case CreateInstance(_, _, ok) => [(Handler, ok)]
    case _ => []
  }

  /** Whether these are the objects of a state. */
  predicate AreObjects(created: seq<(Class, bool)>, s: State) {
    && |s.objects| == |created|
    && forall o | 0 <= o < |s.objects| :: s.objects[o].class_ == created[o].0 && s.objects[o].offered == created[o].1
  }

  lemma CreatedByStep(s: State, a: Action, created: seq<(Class, bool)>)
    requires Enabled(s, a) && AreObjects(created, s)
    ensures AreObjects(created + CreatedBy(a), Step(s, a))
  {
  }

  lemma {:induction false} ObjectsAreCreations(threads: nat, actions: seq<Action>)
    requires Run(threads, actions).Some?
    ensures AreObjects(Creations(actions), Run(threads, actions).value)
  {
    if actions != [] {
      hide Step, Enabled, CreatedBy, AreObjects;
      ObjectsAreCreations(threads, ButLast(actions));
      CreatedByStep(Run(threads, ButLast(actions)).value, Last(actions), Creations(ButLast(actions)));
    }
  }

  /** What an action changes of the references that clients hold on an object. A query of its creation that succeeds
      hands one out, AddRef one more; Release takes one back, and so does CreateInstance for as long as it runs on a
      factory. */
  function HandedOut(s: State, a: Action, created: seq<(Class, bool)>, o: nat): int {
    match a
    case Query(t) => if t < |s.threads| && !s.threads[t].Outside? && s.threads[t].obj == o && o < |created| &&
      created[o].1 then 1 else 0
    case AddRef(p) => if p == o then 1 else 0
    case Release(_, p) => if p == o then -1 else 0
    case CreateInstance(_, f, _) => if f == o then -1 else 0
    case Return(t) => if t < |s.threads| && !s.threads[t].Outside? && s.threads[t].via == Some(o) then 1 else 0
    case _ => 0
  }

  function AllHandedOut(threads: nat, actions: seq<Action>, o: nat): int
    requires Run(threads, actions).Some?
  {
    if actions == [] then 0
    else
      var before := ButLast(actions);
      AllHandedOut(threads, before, o) + HandedOut(Run(threads, before).value, Last(actions), Creations(before), o)
  }

  /** In every run, clients hold exactly the references that they were given and have not given back. */
  lemma {:induction false} HeldIsHistory(threads: nat, actions: seq<Action>, o: nat)
    requires Run(threads, actions).Some?
    ensures var s := Run(threads, actions).value;
      AllHandedOut(threads, actions, o) == if o < |s.objects| then s.objects[o].held else 0
  {
    hide Inv, Creations;
    if actions != [] {
      var before := ButLast(actions);
      HeldIsHistory(threads, before, o);
      EveryRunKeepsInv(threads, before);
      ObjectsAreCreations(threads, before);
      HeldByStep(Run(threads, before).value, Last(actions), Creations(before), o);
    }
  }

  lemma HeldByStep(s: State, a: Action, created: seq<(Class, bool)>, o: nat)
    requires Inv(s) && Enabled(s, a) && |created| == |s.objects|
    requires forall k | 0 <= k < |s.objects| :: s.objects[k].offered == created[k].1
    ensures var next := Step(s, a);
      (if o < |next.objects| then next.objects[o].held else 0) ==
      (if o < |s.objects| then s.objects[o].held else 0) + HandedOut(s, a, created, o)
  {
    hide Sum, Alive;
    if a.Construct? || a.Query? || a.Decrement? || a.Destroy? || a.Free? || a.Return? {
      assert ThreadOk(s, s.threads[a.thread]);
    }
    if o < |s.objects| {
      assert ObjectInv(s, o);
    }
  }

  // ---------------------------------------------------------------- every call can be made and comes to its end

  /** The step a thread inside a call takes next. */
  function NextStep(pc: Pc, t: nat): Action
    requires !pc.Outside?
  {
    match pc
    case Creating(_, _) => Construct(t)
    case Querying(_, _) => Query(t)
    case Releasing(_, _) => Decrement(t)
    case Deleting(_, _) => Destroy(t)
    case Freeing(_, _) => Free(t)
    case Returning(_, _) => Return(t)
  }

  /** No thread is ever stuck inside a call. */
  lemma NoThreadIsStuck(threads: nat, actions: seq<Action>, t: nat)
    requires Run(threads, actions).Some? && t < |Run(threads, actions).value.threads|
    ensures var s := Run(threads, actions).value;
      !s.threads[t].Outside? ==> Enabled(s, NextStep(s.threads[t], t))
  {
    hide Run, Sum, Alive;
    EveryRunKeepsInv(threads, actions);
    var s := Run(threads, actions).value;
    var pc := s.threads[t];
    assert ThreadOk(s, pc);
    if pc.Releasing? {
      assert ObjectInv(s, pc.obj);
      SumsAfter(s.threads, t, pc, pc.obj);
    }
  }

  /** How many steps of its own a thread is from the end of its call, at most. */
  function StepsLeft(pc: Pc): nat {
    match pc
    case Outside => 0
    case Returning(_, _) => 1
    case Freeing(_, _) => 2
    case Deleting(_, _) => 3
    case Releasing(_, _) => 4
    case Querying(_, _) => 5
    case Creating(_, _) => 6
  }

  /** Each of them brings it closer to that end, and no other thread's steps touch it: every call ends. */
  lemma CallsEnd(s: State, a: Action, t: nat)
    requires Enabled(s, a) && t < |s.threads|
    ensures t < |Step(s, a).threads|
    ensures !s.threads[t].Outside? ==>
      if a == NextStep(s.threads[t], t) then StepsLeft(Step(s, a).threads[t]) < StepsLeft(s.threads[t])
      else Step(s, a).threads[t] == s.threads[t]
  {
  }

  /** A client that holds a reference can use it: it can take another, give it back on any thread that is outside, and
      lock and unlock the server or create handlers through it when it is one to a factory. */
  lemma ReferencesCanBeUsed(threads: nat, actions: seq<Action>, o: nat, t: nat, ok: bool)
    requires Run(threads, actions).Some? && AllHandedOut(threads, actions, o) > 0
    requires ThreadAt(Run(threads, actions).value, t, Outside)
    ensures var s := Run(threads, actions).value;
      && o < |Creations(actions)| && Enabled(s, AddRef(o)) && Enabled(s, Release(t, o))
      && (Enabled(s, Lock(o)) <==> Creations(actions)[o].0 == Factory)
      && (Enabled(s, CreateInstance(t, o, ok)) <==> Creations(actions)[o].0 == Factory)
      && (Enabled(s, Unlock(o)) <==>
          Creations(actions)[o].0 == Factory && LocksTaken(actions) > LocksReturned(actions))
  {
    hide Run, AllHandedOut, Creations, LocksTaken, LocksReturned;
    HeldIsHistory(threads, actions, o);
    ObjectsAreCreations(threads, actions);
    CountIsHistory(threads, actions);
  }

  // ---------------------------------------------------------------- what the count does not see

  lemma OneMoreStep(threads: nat, actions: seq<Action>, s: State, a: Action)
    requires Run(threads, actions) == Some(s) && Enabled(s, a)
    ensures Run(threads, actions + [a]) == Some(Step(s, a))
  {
    hide Enabled, Step;
    assert ButLast(actions + [a]) == actions;
  }

  /** The DLL can be reported as unloadable while a thread is constructing a factory in it. */
  lemma UnloadableWhileConstructing()
    ensures var s := Run(1, [GetClassObject(0, true)]);
      s.Some? && CanUnloadNow(s.value) && s.value.threads == [Creating(0, None)]
  {
    OneMoreStep(1, [], Init(1), GetClassObject(0, true));
    assert [] + [GetClassObject(0, true)] == [GetClassObject(0, true)];
  }

  /** The factory of a call whose query fails, in the five steps to its destructor's decrement. */
  function DestroyingState(n: nat): State
    requires n <= 5
  {
    var x := Object(Factory, 1, 0, Allocated, false);
    if n == 0 then State([], [Outside], 0, 0)
    else if n == 1 then State([x], [Creating(0, None)], 0, 0)
    else if n == 2 then State([x.(phase := Counted)], [Querying(0, None)], 0, 1)
    else if n == 3 then State([x.(phase := Counted)], [Releasing(0, None)], 0, 1)
    else if n == 4 then State([x.(refs := 0, phase := Dying)], [Deleting(0, None)], 0, 1)
    else State([x.(refs := 0, phase := Uncounted)], [Freeing(0, None)], 0, 0)
  }

  const DESTROYING: seq<Action> := [GetClassObject(0, false), Construct(0), Query(0), Decrement(0), Destroy(0)]

  lemma DestroyingStep(n: nat)
    requires n < 5
    ensures Enabled(DestroyingState(n), DESTROYING[n]) &&
      Step(DestroyingState(n), DESTROYING[n]) == DestroyingState(n + 1)
  {
  }

  lemma {:induction false} DestroyingRun(n: nat)
    requires n <= 5
    ensures Run(1, DESTROYING[..n]) == Some(DestroyingState(n))
  {
    if n > 0 {
      hide Run, Enabled, Step, DestroyingState;
      DestroyingRun(n - 1);
      DestroyingStep(n - 1);
      OneMoreStep(1, DESTROYING[..n - 1], DestroyingState(n - 1), DESTROYING[n - 1]);
      assert DESTROYING[..n - 1] + [DESTROYING[n - 1]] == DESTROYING[..n];
    } else {
      assert seq(1, _ => Outside) == [Outside];
    }
  }

  /** And while a thread is in a destructor, or on its way out of the call that ran it. */
  lemma UnloadableWhileDestroying()
    ensures var s, next := Run(1, DESTROYING), Run(1, DESTROYING + [Free(0)]);
      && s.Some? && CanUnloadNow(s.value) && s.value.threads == [Freeing(0, None)]
      && next.Some? && CanUnloadNow(next.value) && next.value.threads == [Returning(0, None)]
  {
    hide Run;
    DestroyingRun(5);
    assert DESTROYING[..5] == DESTROYING;
    OneMoreStep(1, DESTROYING, DestroyingState(5), Free(0));
  }
}
