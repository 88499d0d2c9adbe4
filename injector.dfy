/**
 * The hierarchical injector of injector.ts: an `Injector` holds an immutable template, a
 * parent link, a host flag, a construction counter and one instance slot per template slot
 * (the `InjectorInlineStrategy` fields `obj0..9`, or the `objs` array of
 * `InjectorDynamicStrategy`; each strategy belongs to exactly one injector and is folded
 * into it here). Lookups walk the parent chain and build missing instances, and building
 * triggers further lookups.
 *
 * Every method of the mutually recursive engine takes the parent chain as a ghost argument:
 * `chain[d]` is this injector and `chain[i + 1]` the parent of `chain[i]`. Its contract says
 * where the lookup settles (a `Lookup` target of the chain's view) and how the chain's state
 * moves (`InjectorStates`).
 */
module Injectors {
  import opened Wrappers
  import opened Visibilities
  import opened DiTypes
  import opened ProtoInjectors
  import opened Lookup
  import opened InjectorStates

  class Injector {
    const proto: ProtoInjector
    const parent: Injector?
    const isHost: bool
    var constructionCounter: nat
    const depProvider: Option<DependencyProvider>
    const objs: array<Slot>

    /** The template is well formed and there is one instance slot per template slot. */
    ghost predicate Valid()
    {
      proto.Valid() && objs.Length == proto.strategy.SlotCount()
    }

    /** `new Injector(proto, parent, depProvider)`: the counter at zero and every slot `UNDEFINED`;
        the host flag, which `attach` sets in the source, is given here. */
    constructor (proto: ProtoInjector, parent: Injector?, isHost: bool, depProvider: Option<DependencyProvider>)
      requires proto.Valid()
      ensures Valid() && this.proto == proto && this.parent == parent && this.depProvider == depProvider
      ensures this.isHost == isHost && constructionCounter == 0 && fresh(objs)
      ensures forall k | 0 <= k < objs.Length :: objs[k] == Undefined
    {
      this.proto := proto;
      this.parent := parent;
      this.depProvider := depProvider;
      this.isHost := isHost;
      constructionCounter := 0;
      objs := new Slot[proto.strategy.SlotCount()](_ => Undefined);
    }

    /** `Injector.fromResolvedBindings`: a root injector whose bindings are all `Public`,
        stored in the given order. */
    static method FromResolvedBindings(bindings: seq<ResolvedBinding>) returns (inj: Injector)
      ensures fresh(inj) && fresh(inj.objs) && inj.Valid()
      ensures inj.parent == null && !inj.isHost && inj.constructionCounter == 0 && inj.depProvider == None
      ensures inj.proto.numberOfBindings == |bindings| && inj.proto.strategy.AllPublic()
      ensures forall i | 0 <= i < |bindings| :: inj.proto.strategy.EntryBinding(i) == Some(bindings[i])
      ensures forall k | 0 <= k < inj.objs.Length :: inj.objs[k] == Undefined
    {
      var proto := PublicProto(bindings);
      inj := new Injector(proto, null, false, None);
    }

    /** `createChildFromResolved`: a regular child injector whose parent is this one; any
        chain of this injector extended by the child is the child's chain. */
    method CreateChildFromResolved(bindings: seq<ResolvedBinding>, ghost chain: seq<Injector>) returns (inj: Injector)
      requires IsChain(chain) && chain[0] == this
      ensures fresh(inj) && fresh(inj.objs) && inj.Valid()
      ensures inj.parent == this && !inj.isHost && inj.constructionCounter == 0 && inj.depProvider == None
      ensures inj.proto.numberOfBindings == |bindings| && inj.proto.strategy.AllPublic()
      ensures forall i | 0 <= i < |bindings| :: inj.proto.strategy.EntryBinding(i) == Some(bindings[i])
      ensures forall k | 0 <= k < inj.objs.Length :: inj.objs[k] == Undefined
      ensures IsChain([inj] + chain) && View([inj] + chain) == [Frame(inj.proto.strategy, false, inj, None)] + View(chain)
    {
      var proto := PublicProto(bindings);
      inj := new Injector(proto, this, false, None);
      ghost var cv := [inj] + chain;
      assert forall i | 0 <= i < |chain| :: cv[i + 1] == chain[i];
      ViewFromShift(inj, chain, 0);
      LinkedFromShift(inj, chain, 0);
      DistinctFromShift(inj, chain, 0);
    }


    /** The strategies' `resetConstructionCounter`. */
    method ResetConstructionCounter()
      modifies this`constructionCounter
      ensures constructionCounter == 0
    {
      constructionCounter := 0;
    }

    /** `getMaxNumberOfObjects`: ten for the inline strategy, the number of slots for the
        dynamic one; either way the number of instance slots. */
    function GetMaxNumberOfObjects(): (m: nat)
      requires Valid()
      ensures m == objs.Length
      ensures proto.strategy.InlineStrategy? ==> m == MaxConstructionCounter
      ensures proto.strategy.DynamicStrategy? ==> m == proto.numberOfBindings
    {
      match proto.strategy
      case InlineStrategy(_, _, _) => MaxConstructionCounter
      case DynamicStrategy(_, _, _) => objs.Length
    }

    /** `getObjAtIndex` (and `getAt`): the slot, or `OutOfBounds` outside the slots. */
    function GetObjAtIndex(index: int): (r: Result<Slot, DiError>)
      requires Valid()
      reads objs
      ensures r.Err? <==> index < 0 || index >= objs.Length
      ensures r.Err? ==> r.error == OutOfBounds(index)
      ensures r.Ok? ==> r.value == objs[index]
    {
      match proto.strategy
      case InlineStrategy(_, _, _) =>
        if 0 <= index < MaxConstructionCounter then Ok(objs[index]) else Err(OutOfBounds(index))
      case DynamicStrategy(_, _, _) =>
        if index < 0 || index >= objs.Length then Err(OutOfBounds(index)) else Ok(objs[index])
    }

    /** `_mapBindings(injector, fn)`: `fn` of every stored binding, in storage order. */
    method MapBindings<T>(fn: ResolvedBinding -> T) returns (res: seq<T>)
      requires Valid()
      ensures |res| == proto.numberOfBindings
      ensures forall i | 0 <= i < |res| ::
        i < proto.strategy.SlotCount() && proto.strategy.EntryBinding(i).Some? &&
        res[i] == fn(proto.strategy.EntryBinding(i).value)
    {
      res := [];
      for i := 0 to proto.numberOfBindings
        invariant |res| == i
        invariant forall j | 0 <= j < i ::
          j < proto.strategy.SlotCount() && proto.strategy.EntryBinding(j).Some? &&
          res[j] == fn(proto.strategy.EntryBinding(j).value)
      {
        var b := proto.GetBindingAtIndex(i);
        assert b == Ok(proto.strategy.EntryBinding(i)) && b.value.Some?;
        res := res + [fn(b.value.value)];
      }
    }

    // ----- Instance slots -----

    /** The instance in slot `k`: returned as it is when the slot is filled, and otherwise
        whatever `_new` reports for the slot's binding, stored in the slot on success. */
    method ObtainSlot(k: nat, ghost chain: seq<Injector>, ghost d: nat)
      returns (r: Result<Slot, DiError>, ghost outcomes: seq<DepsOutcome>, ghost built: Result<Value, DiError>,
               ghost prior: Slot)
      requires IsChain(chain) && d < |chain| && chain[d] == this
      requires k < objs.Length && proto.strategy.EntryBinding(k).Some? && proto.strategy.EntryVisibility(k).Some?
      modifies Injs(chain, d)`constructionCounter, Stores(chain, d)
      decreases Budget(chain), 2
      ensures Grown(old(State(chain)), State(chain))
      ensures Fetched(old(State(chain)), State(chain), d, Some(k), r)
      ensures old(objs[k]).Undefined? ==>
        r == AsSlot(built) && (built.Err? ==> prior == objs[k]) &&
        Constructed(View(chain), old(State(chain)), Patch(State(chain), d, k, prior), d, k, old(constructionCounter), outcomes, built)
    {
      SlotsAt(chain, d);
      if objs[k] == Undefined {
        r, outcomes, built, prior := Fill(k, chain, d);
      } else {
        r, outcomes, built, prior := Ok(objs[k]), [], Ok(objs[k].value), objs[k];
      }
    }

    /** The `UNDEFINED` case of `getObjByKeyId`: `_new` on the slot's binding with the
        slot's visibility, its answer handed back, and a new instance stored in the slot.
        `prior` is what the slot held when `_new` returned, which the store overwrites. */
    method Fill(k: nat, ghost chain: seq<Injector>, ghost d: nat)
      returns (r: Result<Slot, DiError>, ghost outcomes: seq<DepsOutcome>, ghost built: Result<Value, DiError>,
               ghost prior: Slot)
      requires IsChain(chain) && d < |chain| && chain[d] == this
      requires k < objs.Length && proto.strategy.EntryBinding(k).Some? && proto.strategy.EntryVisibility(k).Some?
      requires objs[k] == Undefined
      modifies Injs(chain, d)`constructionCounter, Stores(chain, d)
      decreases Budget(chain), 1
      ensures Grown(old(State(chain)), State(chain))
      ensures Fetched(old(State(chain)), State(chain), d, Some(k), r)
      ensures r == AsSlot(built) && (built.Err? ==> prior == objs[k])
      ensures Constructed(View(chain), old(State(chain)), Patch(State(chain), d, k, prior), d, k, old(constructionCounter), outcomes, built)
    {
      SlotsAt(chain, d);
      CountersAt(chain, d);
      var binding := proto.strategy.EntryBinding(k).value;
      var visibility := proto.strategy.EntryVisibility(k).value;
      var o;
      o, outcomes := New(binding, visibility, chain, d);
      built := o;
      CountersAt(chain, d);
      SlotsAt(chain, d);
      ViewAt(chain, d);
      ghost var s := State(chain);
      prior := objs[k];
      PatchRestores(s, d, k, Obj(Void));
      if o.Err? {
        SlotFailed(old(State(chain)), State(chain), d, k, o.error);
        return Err(o.error), outcomes, built, prior;
      }
      Store(k, Obj(o.value), chain, d);
      SlotFilled(old(State(chain)), s, State(chain), d, k, o.value);
      PatchRestores(s, d, k, Obj(o.value));
      r := Ok(Obj(o.value));
    }

    method Store(k: nat, x: Slot, ghost chain: seq<Injector>, ghost d: nat)
      requires Distinct(chain) && d < |chain| && chain[d] == this && k < objs.Length
      modifies objs
      ensures d < |old(State(chain)).slots| && |old(State(chain)).slots[d]| == objs.Length
      ensures State(chain) == Snapshot(old(State(chain)).counters, old(State(chain)).slots[d := old(State(chain)).slots[d][k := x]])
    {
      Unique(chain, d);
      SlotsEach(chain);
      objs[k] := x;
      SlotsEach(chain);
    }

    /** The increment of the construction counter. */
    method Tick(ghost chain: seq<Injector>, ghost d: nat)
      requires Distinct(chain) && d < |chain| && chain[d] == this
      modifies this`constructionCounter
      ensures constructionCounter == old(constructionCounter) + 1
      ensures Counters(chain) == old(Counters(chain))[d := old(constructionCounter) + 1]
    {
      Unique(chain, d);
      CountersEach(chain);
      constructionCounter := constructionCounter + 1;
      CountersEach(chain);
    }

    /** `getObjByKeyId` of either strategy: the first slot in index order whose key id is
        `keyId` and whose visibility can see `vis` (the inline strategy's ten unrolled tests
        and the dynamic strategy's loop make the same scan; an unused inline slot has a
        `null` key id and never matches), its instance made on demand; `UNDEFINED` when no
        slot matches. */
    method GetObjByKeyId(keyId: KeyId, vis: Visibility, ghost chain: seq<Injector>, ghost d: nat)
      returns (r: Result<Slot, DiError>, ghost outcomes: seq<DepsOutcome>, ghost built: Result<Value, DiError>,
               ghost prior: Slot)
      requires IsChain(chain) && d < |chain| && chain[d] == this
      modifies Injs(chain, d)`constructionCounter, Stores(chain, d)
      decreases Budget(chain), 3
      ensures Grown(old(State(chain)), State(chain))
      ensures Fetched(old(State(chain)), State(chain), d, proto.strategy.FirstMatch(keyId, vis), r)
      ensures var m := proto.strategy.FirstMatch(keyId, vis);
        m.Some? && old(objs[m.value]).Undefined? ==>
          r == AsSlot(built) && (built.Err? ==> prior == objs[m.value]) &&
          Constructed(View(chain), old(State(chain)), Patch(State(chain), d, m.value, prior), d, m.value,
                      old(constructionCounter), outcomes, built)
    {
      for i := 0 to objs.Length
        invariant forall j | 0 <= j < i :: !proto.strategy.Matches(j, keyId, vis)
      {
        if proto.strategy.Matches(i, keyId, vis) {
          FirstMatchIs(proto.strategy, keyId, vis, i);
          r, outcomes, built, prior := ObtainSlot(i, chain, d);
          return;
        }
      }
      r, outcomes, built, prior := Ok(Undefined), [], Ok(Void), Undefined;
    }

    // ----- Construction -----

    /** `_new`: the counter goes up on every call; a call that finds it already above the
        maximum throws `CyclicDependencyError` for the binding's key and changes nothing
        else; otherwise the answer is `_instantiateBinding`'s. The counter is never reset by
        a lookup, so every injector builds at most `GetMaxNumberOfObjects() + 1` instances
        this way over its lifetime. */
    method New(binding: ResolvedBinding, visibility: Visibility, ghost chain: seq<Injector>, ghost d: nat)
      returns (r: Result<Value, DiError>, ghost outcomes: seq<DepsOutcome>)
      requires IsChain(chain) && d < |chain| && chain[d] == this
      modifies Injs(chain, d)`constructionCounter, Stores(chain, d)
      decreases Budget(chain), 0
      ensures Grown(old(State(chain)), State(chain))
      ensures constructionCounter > old(constructionCounter)
      ensures NewResult(binding, old(constructionCounter), GetMaxNumberOfObjects(), outcomes, r)
      ensures r == Err(CyclicDependency([binding.key])) <==> old(constructionCounter) > GetMaxNumberOfObjects()
      ensures r.Err? ==> WellKeyed(r.error)
      ensures old(constructionCounter) > GetMaxNumberOfObjects() ==>
        Counters(chain) == old(Counters(chain))[d := old(constructionCounter) + 1] &&
        Slots(chain) == old(Slots(chain))
      ensures old(constructionCounter) <= GetMaxNumberOfObjects() ==>
        AllRan(this, depProvider, View(chain), old(State(chain)), State(chain), d, binding, visibility, outcomes)
      ensures old(constructionCounter) <= GetMaxNumberOfObjects() && NoDependencies(binding) ==>
        r == Standalone(binding) &&
        Counters(chain) == old(Counters(chain))[d := old(constructionCounter) + 1] &&
        Slots(chain) == old(Slots(chain))
    {
      ghost var s0 := State(chain);
      CountersAt(chain, d);
      var c := constructionCounter;
      Tick(chain, d);
      ghost var s1 := State(chain);
      TickGrows(s0, s1, d);
      if c > GetMaxNumberOfObjects() {
        return Err(CyclicDependency([binding.key])), [];
      }
      RoomSumTick(Caps(chain), s0.counters, s1.counters, d, 0);
      r, outcomes := InstantiateBinding(binding, visibility, chain, d);
      GrownTransitive(s0, s1, State(chain));
      CountersAt(chain, d);
      AllRanFit(this, depProvider, View(chain), s1, State(chain), d, binding, visibility, outcomes);
      NewCyclicExactly(binding, c, GetMaxNumberOfObjects(), outcomes, r);
      AllRanEarlier(this, depProvider, View(chain), s0, s1, State(chain), d, binding, visibility, outcomes);
    }

    /** `_instantiateBinding`: a multi-binding runs every factory in order and builds the
        list of their values, stopping at the first failure; any other binding runs its
        first factory alone, and one without a factory fails reading
        `resolvedFactories[0]`. */
    method InstantiateBinding(binding: ResolvedBinding, visibility: Visibility, ghost chain: seq<Injector>, ghost d: nat)
      returns (r: Result<Value, DiError>, ghost outcomes: seq<DepsOutcome>)
      requires IsChain(chain) && d < |chain| && chain[d] == this
      modifies Injs(chain, d)`constructionCounter, Stores(chain, d)
      decreases Budget(chain), 10
      ensures Grown(old(State(chain)), State(chain))
      ensures Tried(binding, outcomes) && r == BindingResult(binding, outcomes)
      ensures AllRan(this, depProvider, View(chain), old(State(chain)), State(chain), d, binding, visibility, outcomes)
      ensures !binding.multiBinding && |binding.resolvedFactories| == 0 ==> r == Err(NullReference)
      ensures binding.multiBinding && |binding.resolvedFactories| == 0 ==> r == Ok(List([]))
      ensures NoDependencies(binding) ==> r == Standalone(binding) && State(chain) == old(State(chain))
    {
      if binding.multiBinding {
        r, outcomes := InstantiateAll(binding, visibility, chain, d);
      } else if |binding.resolvedFactories| == 0 {
        r, outcomes := Err(NullReference), [];
      } else {
        ghost var o;
        r, o := Instantiate(binding, binding.resolvedFactories[0], visibility, chain, d);
        outcomes := [o];
      }
      if NoDependencies(binding) {
        AllRanFit(this, depProvider, View(chain), old(State(chain)), State(chain), d, binding, visibility, outcomes);
        NoDependenciesBuild(binding, outcomes);
      }
    }

    /** The multi-binding branch of `_instantiateBinding`: every factory in declaration
        order, stopping at the first failure. */
    method InstantiateAll(binding: ResolvedBinding, visibility: Visibility, ghost chain: seq<Injector>, ghost d: nat)
      returns (r: Result<Value, DiError>, ghost outcomes: seq<DepsOutcome>)
      requires IsChain(chain) && d < |chain| && chain[d] == this && binding.multiBinding
      modifies Injs(chain, d)`constructionCounter, Stores(chain, d)
      decreases Budget(chain), 9
      ensures Grown(old(State(chain)), State(chain))
      ensures Tried(binding, outcomes) && r == BindingResult(binding, outcomes)
      ensures AllRan(this, depProvider, View(chain), old(State(chain)), State(chain), d, binding, visibility, outcomes)
      ensures NoDependencies(binding) ==> State(chain) == old(State(chain))
    {
      var factories := binding.resolvedFactories;
      ghost var view := View(chain);
      var res: seq<Value> := [];
      outcomes := [];
      for i := 0 to |factories|
        invariant |outcomes| == i && MultiResult(binding, outcomes) == Ok(res)
        invariant Grown(old(State(chain)), State(chain))
        invariant NoDependencies(binding) ==> State(chain) == old(State(chain))
        invariant AllRan(this, depProvider, view, old(State(chain)), State(chain), d, binding, visibility, outcomes)
      {
        ghost var s := State(chain);
        RoomSumShrinks(Caps(chain), old(Counters(chain)), Counters(chain), 0);
        var x;
        ghost var o;
        x, o := Instantiate(binding, factories[i], visibility, chain, d);
        GrownTransitive(old(State(chain)), s, State(chain));
        AllRanSnoc(this, depProvider, view, old(State(chain)), s, State(chain), d, binding, visibility, outcomes, o);
        assert (outcomes + [o])[..i] == outcomes;
        outcomes := outcomes + [o];
        if x.Err? {
          assert MultiResult(binding, outcomes) == Err(x.error);
          return Err(x.error), outcomes;
        }
        res := res + [x.value];
      }
      r := Ok(List(res));
    }

    /** `_instantiate`: fetches the first `FetchedCount(rf)` dependencies in declared order,
        stopping at the first fetch that fails, then hands the outcome to `CallFactory`. */
    method Instantiate(binding: ResolvedBinding, rf: ResolvedFactory, visibility: Visibility, ghost chain: seq<Injector>, ghost d: nat)
      returns (r: Result<Value, DiError>, ghost outcome: DepsOutcome)
      requires IsChain(chain) && d < |chain| && chain[d] == this
      modifies Injs(chain, d)`constructionCounter, Stores(chain, d)
      decreases Budget(chain), 8
      ensures Grown(old(State(chain)), State(chain))
      ensures r == CallFactory(binding, rf, outcome)
      ensures Ran(this, depProvider, View(chain), old(State(chain)), State(chain), d, binding, rf, visibility, outcome)
      ensures |rf.dependencies| == 0 ==> outcome == Resolved([]) && State(chain) == old(State(chain))
    {
      var deps := rf.dependencies;
      var length := FetchedCount(rf);
      var args: seq<Value> := [];
      ghost var view := View(chain);
      for i := 0 to length
        invariant |args| == i
        invariant Grown(old(State(chain)), State(chain))
        invariant i == 0 ==> State(chain) == old(State(chain))
        invariant ArgsResolved(this, depProvider, view, State(chain), d, binding, deps, args, visibility)
      {
        ghost var s := State(chain);
        RoomSumShrinks(Caps(chain), old(Counters(chain)), Counters(chain), 0);
        var a;
        ghost var nested, counter, prior;
        a, nested, counter, prior := GetByDependency(binding, deps[i], visibility, chain, d);
        GrownTransitive(old(State(chain)), s, State(chain));
        if a.Err? {
          FailedRun(this, depProvider, view, old(State(chain)), s, State(chain), d, binding, rf, visibility, args, a.error,
                    nested, counter);
          outcome := DepFailed(args, a.error, nested, counter);
          r := Err(AddKey(a.error, binding.key));
          return;
        }
        ArgsResolvedSnoc(this, depProvider, view, s, State(chain), d, binding, deps, args, visibility, a.value);
        args := args + [a.value];
      }
      outcome := Resolved(args);
      r := CallFactory(binding, rf, Resolved(args));
    }

    // ----- Lookup -----

    /** `_getByDependency`: the dependency provider's answer when it gives one, otherwise the
        key's lookup with the dependency's bounds and optionality. */
    method GetByDependency(binding: ResolvedBinding, dep: Dependency, visibility: Visibility, ghost chain: seq<Injector>, ghost d: nat)
      returns (r: Result<Value, DiError>, ghost nested: seq<DepsOutcome>, ghost counter: nat, ghost prior: Slot)
      requires IsChain(chain) && d < |chain| && chain[d] == this
      modifies Injs(chain, d)`constructionCounter, Stores(chain, d)
      decreases Budget(chain), 7
      ensures Grown(old(State(chain)), State(chain))
      ensures depProvider.Some? && depProvider.value(binding, dep).Some? ==>
        r == Ok(depProvider.value(binding, dep).value) && State(chain) == old(State(chain))
      ensures !(depProvider.Some? && depProvider.value(binding, dep).Some?) ==>
        var t := LookupTarget(View(chain), d, dep.key, dep.lowerBound, dep.upperBound, visibility);
        LookedUp(this, old(State(chain)), State(chain), t, dep.key, dep.optional, r) &&
        FreshBuild(View(chain), old(State(chain)), State(chain), t, r, nested, prior)
      ensures r.Ok? ==> DepResolved(this, depProvider, View(chain), State(chain), d, binding, dep, visibility, r.value)
      ensures r.Err? ==>
        FetchFailed(depProvider, View(chain), old(State(chain)), State(chain), d, binding, dep, visibility, r.error, nested, counter)
    {
      if depProvider.Some? && depProvider.value(binding, dep).Some? {
        return Ok(depProvider.value(binding, dep).value), [], 0, Undefined;
      }
      ghost var s0 := State(chain);
      ghost var t := LookupTarget(View(chain), d, dep.key, dep.lowerBound, dep.upperBound, visibility);
      counter := if t.Found? && t.depth < |s0.counters| then s0.counters[t.depth] else 0;
      r, nested, prior := GetByKey(dep.key, dep.lowerBound, dep.upperBound, dep.optional, visibility, chain, d);
      if r.Ok? {
        LookedUpResolves(this, View(chain), old(State(chain)), State(chain), d, dep.key, dep.lowerBound, dep.upperBound,
                         dep.optional, visibility, r);
      } else {
        LookupFailed(this, depProvider, View(chain), old(State(chain)), State(chain), d, binding, dep, visibility, r.error,
                     nested, counter, prior);
      }
    }

    /** `_getByKey`: the injector key answers with this injector; `@Self()` asks only this
        injector, `@Host()` walks up to the host boundary, anything else walks the whole
        chain. */
    method GetByKey(keyId: KeyId, lower: LowerBound, upper: UpperBound, optional: bool, visibility: Visibility,
                    ghost chain: seq<Injector>, ghost d: nat)
      returns (r: Result<Value, DiError>, ghost outcomes: seq<DepsOutcome>, ghost prior: Slot)
      requires IsChain(chain) && d < |chain| && chain[d] == this
      modifies Injs(chain, d)`constructionCounter, Stores(chain, d)
      decreases Budget(chain), 6
      ensures Grown(old(State(chain)), State(chain))
      ensures var t := LookupTarget(View(chain), d, keyId, lower, upper, visibility);
        LookedUp(this, old(State(chain)), State(chain), t, keyId, optional, r) &&
        FreshBuild(View(chain), old(State(chain)), State(chain), t, r, outcomes, prior)
    {
      if keyId == InjectorKeyId {
        return Ok(InjectorRef(this)), [], Undefined;
      }
      match upper
      case SelfOnly => r, outcomes, prior := GetByKeySelf(keyId, optional, visibility, chain, d);
      case HostOnly => r, outcomes, prior := GetByKeyHost(keyId, optional, visibility, lower, chain, d);
      case NoUpperBound => r, outcomes, prior := GetByKeyDefault(keyId, optional, visibility, lower, chain, d);
    }

    /** `_getByKeySelf`: this injector's own slots only. */
    method GetByKeySelf(keyId: KeyId, optional: bool, visibility: Visibility, ghost chain: seq<Injector>, ghost d: nat)
      returns (r: Result<Value, DiError>, ghost outcomes: seq<DepsOutcome>, ghost prior: Slot)
      requires IsChain(chain) && d < |chain| && chain[d] == this
      modifies Injs(chain, d)`constructionCounter, Stores(chain, d)
      decreases Budget(chain), 5
      ensures Grown(old(State(chain)), State(chain))
      ensures var t := ProbeAt(View(chain), d, keyId, visibility);
        LookedUp(this, old(State(chain)), State(chain), t, keyId, optional, r) &&
        FreshBuild(View(chain), old(State(chain)), State(chain), t, r, outcomes, prior)
    {
      SlotsAt(chain, d);
      CountersAt(chain, d);
      var obj; ghost var built;
      obj, outcomes, built, prior := GetObjByKeyId(keyId, visibility, chain, d);
      r := Answer(obj, keyId, optional);
      ViewAt(chain, d);
      SlotsAt(chain, d);
      FetchedAnswers(this, View(chain), old(State(chain)), State(chain), d, keyId, visibility, optional, obj);
      BuiltAnswers(View(chain), old(State(chain)), State(chain), d, keyId, visibility, optional, obj, outcomes, built, prior);
    }

    /** `_getPrivateDependency(key, optional, inj)` with `inj` at depth `j`: the `Private`
        bindings of `inj`'s parent; `inj._parent` is dereferenced without a check. */
    method GetPrivateDependency(keyId: KeyId, optional: bool, inj: Injector, ghost chain: seq<Injector>, ghost d: nat, ghost j: nat)
      returns (r: Result<Value, DiError>, ghost outcomes: seq<DepsOutcome>, ghost prior: Slot)
      requires IsChain(chain) && d <= j < |chain| && chain[d] == this && chain[j] == inj
      modifies Injs(chain, d)`constructionCounter, Stores(chain, d)
      decreases Budget(chain), 4
      ensures Grown(old(State(chain)), State(chain))
      ensures var t := PrivateTarget(View(chain), keyId, j);
        LookedUp(this, old(State(chain)), State(chain), t, keyId, optional, r) &&
        FreshBuild(View(chain), old(State(chain)), State(chain), t, r, outcomes, prior)
    {
      ParentAt(chain, j);
      if inj.parent == null {
        return Err(NullReference), [], Undefined;
      }
      FootprintMono(chain, d, j + 1);
      SlotsAt(chain, j + 1);
      CountersAt(chain, j + 1);
      var obj; ghost var built;
      obj, outcomes, built, prior := inj.parent.GetObjByKeyId(keyId, Private, chain, j + 1);
      r := Answer(obj, keyId, optional);
      ViewAt(chain, j + 1);
      SlotsAt(chain, j + 1);
      FetchedAnswers(this, View(chain), old(State(chain)), State(chain), j + 1, keyId, Private, optional, obj);
      BuiltAnswers(View(chain), old(State(chain)), State(chain), j + 1, keyId, Private, optional, obj, outcomes, built, prior);
    }

    /** Where `_getByKeyHost` stops, with `@SkipSelf()` handled: on a host it hands over to
        the parent's `Private` bindings at once (`toPrivate`), otherwise the walk starts at
        the parent; without it the walk starts here. */
    method HostWalk(keyId: KeyId, visibility: Visibility, lower: LowerBound, ghost chain: seq<Injector>, ghost d: nat)
      returns (inj: Injector?, toPrivate: bool, ghost j: nat)
      requires IsChain(chain) && d < |chain| && chain[d] == this
      ensures d <= j <= |chain| && (j < |chain| <==> inj != null) && (inj != null ==> inj == chain[j])
      ensures inj == null ==> HostTarget(View(chain), d, keyId, visibility, lower) == NotFound
      ensures inj != null && toPrivate ==> HostTarget(View(chain), d, keyId, visibility, lower) == PrivateTarget(View(chain), keyId, j)
      ensures inj != null && !toPrivate ==>
        Probe(View(chain), j, keyId, visibility).Some? &&
        HostTarget(View(chain), d, keyId, visibility, lower) == ProbeAt(View(chain), j, keyId, visibility)
    {
      if lower != SkipSelf {
        inj, toPrivate, j := HostClimb(keyId, visibility, chain, d);
        return;
      }
      ViewAt(chain, d);
      if isHost {
        return this, true, d;
      }
      ParentAt(chain, d);
      if parent == null {
        return null, false, d + 1;
      }
      inj, toPrivate, j := parent.HostClimb(keyId, visibility, chain, d + 1);
    }

    /** The loop of `_getByKeyHost` from this injector at depth `d`, as far as choosing where
        it stops goes: the first injector upwards whose template has a slot visible with
        `visibility`, unless a host with a parent comes first, which hands over to that
        parent's `Private` bindings (`toPrivate`). */
    method HostClimb(keyId: KeyId, visibility: Visibility, ghost chain: seq<Injector>, ghost d: nat)
      returns (inj: Injector?, toPrivate: bool, ghost j: nat)
      requires IsChain(chain) && d < |chain| && chain[d] == this
      ensures d <= j <= |chain| && (j < |chain| <==> inj != null) && (inj != null ==> inj == chain[j])
      ensures inj == null ==> HostFrom(View(chain), keyId, visibility, d) == NotFound
      ensures inj != null && toPrivate ==> HostFrom(View(chain), keyId, visibility, d) == PrivateTarget(View(chain), keyId, j)
      ensures inj != null && !toPrivate ==>
        Probe(View(chain), j, keyId, visibility).Some? &&
        HostFrom(View(chain), keyId, visibility, d) == ProbeAt(View(chain), j, keyId, visibility)
    {
      inj, toPrivate, j := this, false, d;
      while inj != null && inj.proto.strategy.FirstMatch(keyId, visibility).None?
        invariant d <= j <= |chain| && (j < |chain| <==> inj != null) && (inj != null ==> inj == chain[j])
        invariant HostFrom(View(chain), keyId, visibility, j) == HostFrom(View(chain), keyId, visibility, d)
        decreases |chain| - j
      {
        MissAt(chain, j, keyId, visibility);
        if inj.parent != null && inj.isHost {
          toPrivate := true;
          return;
        }
        inj, j := inj.parent, j + 1;
      }
      if inj != null {
        HitAt(chain, j, keyId, visibility);
      }
    }

    /** `_getByKeyHost`: asks with the same visibility from this injector (or, with
        `@SkipSelf()`, from its parent) upwards; a miss at a host that has a parent ends at
        that parent's `Private` bindings, and `@SkipSelf()` on a host goes there at once. */
    method GetByKeyHost(keyId: KeyId, optional: bool, visibility: Visibility, lower: LowerBound, ghost chain: seq<Injector>, ghost d: nat)
      returns (r: Result<Value, DiError>, ghost outcomes: seq<DepsOutcome>, ghost prior: Slot)
      requires IsChain(chain) && d < |chain| && chain[d] == this
      modifies Injs(chain, d)`constructionCounter, Stores(chain, d)
      decreases Budget(chain), 5
      ensures Grown(old(State(chain)), State(chain))
      ensures var t := HostTarget(View(chain), d, keyId, visibility, lower);
        LookedUp(this, old(State(chain)), State(chain), t, keyId, optional, r) &&
        FreshBuild(View(chain), old(State(chain)), State(chain), t, r, outcomes, prior)
    {
      var inj, toPrivate;
      ghost var j;
      inj, toPrivate, j := HostWalk(keyId, visibility, lower, chain, d);
      if inj == null {
        return ThrowOrNull(keyId, optional), [], Undefined;
      }
      if toPrivate {
        r, outcomes, prior := GetPrivateDependency(keyId, optional, inj, chain, d, j);
        return;
      }
      FootprintMono(chain, d, j);
      SlotsAt(chain, j);
      CountersAt(chain, j);
      var obj; ghost var built;
      obj, outcomes, built, prior := inj.GetObjByKeyId(keyId, visibility, chain, j);
      r := Answer(obj, keyId, optional);
      ViewAt(chain, j);
      SlotsAt(chain, j);
      FetchedAnswers(this, View(chain), old(State(chain)), State(chain), j, keyId, visibility, optional, obj);
      BuiltAnswers(View(chain), old(State(chain)), State(chain), j, keyId, visibility, optional, obj, outcomes, built, prior);
    }

    /** Where `_getByKeyDefault` stops, with `@SkipSelf()` handled: it starts at the parent,
        asking it with the visibility the parent of this injector is asked for; without it
        the walk starts here with `visibility`. */
    method DefaultWalk(keyId: KeyId, visibility: Visibility, lower: LowerBound, ghost chain: seq<Injector>, ghost d: nat)
      returns (inj: Injector?, vis: Visibility, ghost j: nat)
      requires IsChain(chain) && d < |chain| && chain[d] == this
      ensures d <= j <= |chain| && (j < |chain| <==> inj != null) && (inj != null ==> inj == chain[j])
      ensures inj == null ==> DefaultTarget(View(chain), d, keyId, visibility, lower) == NotFound
      ensures inj != null ==>
        Probe(View(chain), j, keyId, vis).Some? &&
        DefaultTarget(View(chain), d, keyId, visibility, lower) == ProbeAt(View(chain), j, keyId, vis)
    {
      if lower != SkipSelf {
        inj, vis, j := DefaultClimb(keyId, visibility, chain, d);
        return;
      }
      ViewAt(chain, d);
      ParentAt(chain, d);
      vis := if isHost then PublicAndPrivate else Public;
      if parent == null {
        return null, vis, d + 1;
      }
      inj, vis, j := parent.DefaultClimb(keyId, vis, chain, d + 1);
    }

    /** The loop of `_getByKeyDefault` from this injector at depth `d`, as far as choosing
        where it stops goes: the first injector upwards whose template has a slot visible
        with the visibility it is asked for, which starts as `visibility` and is
        `PublicAndPrivate` above a host and `Public` above any other injector. */
    method DefaultClimb(keyId: KeyId, visibility: Visibility, ghost chain: seq<Injector>, ghost d: nat)
      returns (inj: Injector?, vis: Visibility, ghost j: nat)
      requires IsChain(chain) && d < |chain| && chain[d] == this
      ensures d <= j <= |chain| && (j < |chain| <==> inj != null) && (inj != null ==> inj == chain[j])
      ensures inj == null ==> DefaultFrom(View(chain), keyId, visibility, d) == NotFound
      ensures inj != null ==>
        Probe(View(chain), j, keyId, vis).Some? &&
        DefaultFrom(View(chain), keyId, visibility, d) == ProbeAt(View(chain), j, keyId, vis)
    {
      inj, vis, j := this, visibility, d;
      while inj != null && inj.proto.strategy.FirstMatch(keyId, vis).None?
        invariant d <= j <= |chain| && (j < |chain| <==> inj != null) && (inj != null ==> inj == chain[j])
        invariant DefaultFrom(View(chain), keyId, vis, j) == DefaultFrom(View(chain), keyId, visibility, d)
        decreases |chain| - j
      {
        MissAt(chain, j, keyId, vis);
        inj, vis, j := inj.parent, if inj.isHost then PublicAndPrivate else Public, j + 1;
      }
      if inj != null {
        HitAt(chain, j, keyId, vis);
      }
    }

    /** `_getByKeyDefault`: asks this injector (or, with `@SkipSelf()`, its parent) and then
        each ancestor in turn, asking the parent of a host for `PublicAndPrivate` bindings
        and the parent of any other injector for `Public` ones. */
    method GetByKeyDefault(keyId: KeyId, optional: bool, visibility: Visibility, lower: LowerBound, ghost chain: seq<Injector>, ghost d: nat)
      returns (r: Result<Value, DiError>, ghost outcomes: seq<DepsOutcome>, ghost prior: Slot)
      requires IsChain(chain) && d < |chain| && chain[d] == this
      modifies Injs(chain, d)`constructionCounter, Stores(chain, d)
      decreases Budget(chain), 5
      ensures Grown(old(State(chain)), State(chain))
      ensures var t := DefaultTarget(View(chain), d, keyId, visibility, lower);
        LookedUp(this, old(State(chain)), State(chain), t, keyId, optional, r) &&
        FreshBuild(View(chain), old(State(chain)), State(chain), t, r, outcomes, prior)
    {
      var inj, vis;
      ghost var j;
      inj, vis, j := DefaultWalk(keyId, visibility, lower, chain, d);
      if inj == null {
        return ThrowOrNull(keyId, optional), [], Undefined;
      }
      FootprintMono(chain, d, j);
      SlotsAt(chain, j);
      CountersAt(chain, j);
      var obj; ghost var built;
      obj, outcomes, built, prior := inj.GetObjByKeyId(keyId, vis, chain, j);
      r := Answer(obj, keyId, optional);
      ViewAt(chain, j);
      SlotsAt(chain, j);
      FetchedAnswers(this, View(chain), old(State(chain)), State(chain), j, keyId, vis, optional, obj);
      BuiltAnswers(View(chain), old(State(chain)), State(chain), j, keyId, vis, optional, obj, outcomes, built, prior);
    }

    // ----- Public entry points -----

    /** `get(token)`: a default lookup with `PublicAndPrivate` visibility that fails with
        `NoBindingError` when nothing answers. */
    method Get(keyId: KeyId, ghost chain: seq<Injector>)
      returns (r: Result<Value, DiError>, ghost outcomes: seq<DepsOutcome>, ghost prior: Slot)
      requires IsChain(chain) && chain[0] == this
      modifies Injs(chain, 0)`constructionCounter, Stores(chain, 0)
      ensures Grown(old(State(chain)), State(chain))
      ensures var t := LookupTarget(View(chain), 0, keyId, NoLowerBound, NoUpperBound, PublicAndPrivate);
        LookedUp(this, old(State(chain)), State(chain), t, keyId, false, r) &&
        FreshBuild(View(chain), old(State(chain)), State(chain), t, r, outcomes, prior)
    {
      r, outcomes, prior := GetByKey(keyId, NoLowerBound, NoUpperBound, false, PublicAndPrivate, chain, 0);
    }

    /** `getOptional(token)`: as `get`, with `null` when nothing answers. */
    method GetOptional(keyId: KeyId, ghost chain: seq<Injector>)
      returns (r: Result<Value, DiError>, ghost outcomes: seq<DepsOutcome>, ghost prior: Slot)
      requires IsChain(chain) && chain[0] == this
      modifies Injs(chain, 0)`constructionCounter, Stores(chain, 0)
      ensures Grown(old(State(chain)), State(chain))
      ensures var t := LookupTarget(View(chain), 0, keyId, NoLowerBound, NoUpperBound, PublicAndPrivate);
        LookedUp(this, old(State(chain)), State(chain), t, keyId, true, r) &&
        FreshBuild(View(chain), old(State(chain)), State(chain), t, r, outcomes, prior)
    {
      r, outcomes, prior := GetByKey(keyId, NoLowerBound, NoUpperBound, true, PublicAndPrivate, chain, 0);
    }

    /** `instantiateResolved(binding)`: builds the binding in this injector's context with
        `PublicAndPrivate` visibility, bypassing `_new`: no counter check and no slot keeps
        the result, so a binding without dependencies is built without any change at all. */
    method InstantiateResolved(binding: ResolvedBinding, ghost chain: seq<Injector>)
      returns (r: Result<Value, DiError>, ghost outcomes: seq<DepsOutcome>)
      requires IsChain(chain) && chain[0] == this
      modifies Injs(chain, 0)`constructionCounter, Stores(chain, 0)
      ensures Grown(old(State(chain)), State(chain))
      ensures Tried(binding, outcomes) && r == BindingResult(binding, outcomes)
      ensures AllRan(this, depProvider, View(chain), old(State(chain)), State(chain), 0, binding, PublicAndPrivate, outcomes)
      ensures !binding.multiBinding && |binding.resolvedFactories| == 0 ==> r == Err(NullReference)
      ensures binding.multiBinding && |binding.resolvedFactories| == 0 ==> r == Ok(List([]))
      ensures NoDependencies(binding) ==> r == Standalone(binding) && State(chain) == old(State(chain))
    {
      r, outcomes := InstantiateBinding(binding, PublicAndPrivate, chain, 0);
    }
  }

  /** The template `fromResolvedBindings` and `createChildFromResolved` build. */
  method PublicProto(bindings: seq<ResolvedBinding>) returns (p: ProtoInjector)
    ensures p.Valid() && p.numberOfBindings == |bindings| && p.strategy.AllPublic()
    ensures forall i | 0 <= i < |bindings| :: p.strategy.EntryBinding(i) == Some(bindings[i])
  {
    var bd := seq(|bindings|, i requires 0 <= i < |bindings| => BindingWithVisibility(bindings[i], Public));
    p := NewProtoInjector(bd);
  }

  /** The answer of `_getByKeySelf` and `_getPrivateDependency` to what the strategy gave:
      the instance, or `_throwOrNull` for `UNDEFINED`. */
  function Answer(obj: Result<Slot, DiError>, keyId: KeyId, optional: bool): (r: Result<Value, DiError>)
    ensures obj.Err? ==> r == Err(obj.error)
    ensures obj == Ok(Undefined) ==> r == ThrowOrNull(keyId, optional)
    ensures obj.Ok? && obj.value.Obj? ==> r == Ok(obj.value.value)
  {
    match obj
    case Err(e) => Err(e)
    case Ok(Undefined) => ThrowOrNull(keyId, optional)
    case Ok(Obj(v)) => Ok(v)
  }

  /** What a probe of the injector at depth `j` fetched, as the answer of a lookup that
      settles on that probe. */
  lemma FetchedAnswers(me: object, view: seq<Frame>, s0: Snapshot, s1: Snapshot, j: nat, keyId: KeyId, vis: Visibility,
                       optional: bool, obj: Result<Slot, DiError>)
    requires ValidView(view) && j < |view|
    requires Fetched(s0, s1, j, view[j].strategy.FirstMatch(keyId, vis), obj)
    ensures LookedUp(me, s0, s1, ProbeAt(view, j, keyId, vis), keyId, optional, Answer(obj, keyId, optional))
    ensures obj == Ok(Undefined) <==> Probe(view, j, keyId, vis).None?
    ensures Probe(view, j, keyId, vis).None? ==> s1 == s0
  {
  }

  /** What a probe of the injector at depth `j` built for a slot that was empty, as the
      construction a lookup that settles on that probe reports. */
  lemma BuiltAnswers(view: seq<Frame>, s0: Snapshot, s1: Snapshot, j: nat, keyId: KeyId, vis: Visibility, optional: bool,
                     obj: Result<Slot, DiError>, outcomes: seq<DepsOutcome>, built: Result<Value, DiError>, prior: Slot)
    requires ValidView(view) && j < |view| && j < |s0.slots| && j < |s0.counters| && j < |s1.slots|
    requires var m := view[j].strategy.FirstMatch(keyId, vis);
      m.Some? && m.value < |s0.slots[j]| && s0.slots[j][m.value].Undefined? ==>
        m.value < |s1.slots[j]| && obj == AsSlot(built) && (built.Err? ==> prior == s1.slots[j][m.value]) &&
        Constructed(view, s0, Patch(s1, j, m.value, prior), j, m.value, s0.counters[j], outcomes, built)
    ensures FreshBuild(view, s0, s1, ProbeAt(view, j, keyId, vis), Answer(obj, keyId, optional), outcomes, prior)
  {
  }

  lemma FirstMatchIs(s: ProtoInjectorStrategy, keyId: KeyId, vis: Visibility, i: nat)
    requires s.Valid() && s.Matches(i, keyId, vis)
    requires forall j | 0 <= j < i :: !s.Matches(j, keyId, vis)
    ensures s.FirstMatch(keyId, vis) == Some(i)
    ensures s.EntryBinding(i).Some? && s.EntryVisibility(i).Some?
  {
  }

  // ----- The chain -----

  /** A finite parent chain: `chain[i + 1]` is the parent of `chain[i]`, the last injector
      is a root, and no injector or instance store appears twice. */
  ghost predicate IsChain(chain: seq<Injector>)
  {
    |chain| > 0 && AllValid(chain) && Linked(chain) && chain[|chain| - 1].parent == null && Distinct(chain)
  }

  ghost predicate AllValid(chain: seq<Injector>)
  {
    forall i | 0 <= i < |chain| :: chain[i].Valid()
  }

  ghost predicate Linked(chain: seq<Injector>)
  {
    LinkedFrom(chain, 0)
  }

  /** Each injector from depth `d` on has the next one as its parent (stated recursively,
      so that the verifier unfolds it one link at a time). */
  ghost predicate LinkedFrom(chain: seq<Injector>, d: nat)
    decreases |chain| - d
  {
    d + 1 >= |chain| || (chain[d].parent == chain[d + 1] && LinkedFrom(chain, d + 1))
  }

  lemma {:induction false} LinkedFromAt(chain: seq<Injector>, d: nat, j: nat)
    requires LinkedFrom(chain, d) && d <= j && j + 1 < |chain|
    ensures chain[j].parent == chain[j + 1]
    decreases j - d
  {
    if d < j {
      LinkedFromAt(chain, d + 1, j);
    }
  }

  lemma {:induction false} LinkedFromShift(x: Injector, chain: seq<Injector>, d: nat)
    requires d <= |chain|
    ensures LinkedFrom([x] + chain, d + 1) == LinkedFrom(chain, d)
    decreases |chain| - d
  {
    if d + 1 < |chain| {
      assert ([x] + chain)[d + 1] == chain[d] && ([x] + chain)[d + 2] == chain[d + 1];
      LinkedFromShift(x, chain, d + 1);
    }
  }

  ghost predicate Distinct(chain: seq<Injector>)
  {
    DistinctFrom(chain, 0)
  }

  /** No injector or instance store from depth `d` on appears twice (stated recursively,
      like `LinkedFrom`). */
  ghost predicate DistinctFrom(chain: seq<Injector>, d: nat)
    decreases |chain| - d
  {
    d >= |chain| ||
    ((forall j | d < j < |chain| :: chain[d] != chain[j] && chain[d].objs != chain[j].objs) && DistinctFrom(chain, d + 1))
  }

  lemma {:induction false} DistinctFromPair(chain: seq<Injector>, d: nat, i: nat, j: nat)
    requires DistinctFrom(chain, d) && d <= i < j < |chain|
    ensures chain[i] != chain[j] && chain[i].objs != chain[j].objs
    decreases i - d
  {
    if d < i {
      DistinctFromPair(chain, d + 1, i, j);
    }
  }

  /** The injector at depth `d` and its instance store occur nowhere else in the chain. */
  lemma Unique(chain: seq<Injector>, d: nat)
    requires Distinct(chain) && d < |chain|
    ensures forall i | 0 <= i < |chain| && i != d :: chain[i] != chain[d] && chain[i].objs != chain[d].objs
  {
    forall i | 0 <= i < |chain| && i != d
      ensures chain[i] != chain[d] && chain[i].objs != chain[d].objs
    {
      if i < d {
        DistinctFromPair(chain, 0, i, d);
      } else {
        DistinctFromPair(chain, 0, d, i);
      }
    }
  }

  lemma {:induction false} DistinctFromShift(x: Injector, chain: seq<Injector>, d: nat)
    requires d <= |chain|
    ensures DistinctFrom([x] + chain, d + 1) == DistinctFrom(chain, d)
    decreases |chain| - d
  {
    if d < |chain| {
      var cv := [x] + chain;
      assert cv[d + 1] == chain[d];
      assert (forall j | d + 1 < j < |cv| :: cv[d + 1] != cv[j] && cv[d + 1].objs != cv[j].objs) <==>
             (forall j | d < j < |chain| :: chain[d] != chain[j] && chain[d].objs != chain[j].objs) by {
        assert forall j | d < j < |chain| :: cv[j + 1] == chain[j];
      }
      DistinctFromShift(x, chain, d + 1);
    }
  }

  lemma ParentAt(chain: seq<Injector>, j: nat)
    requires IsChain(chain) && j < |chain|
    ensures chain[j].parent == if j + 1 < |chain| then chain[j + 1] else null
  {
    if j + 1 < |chain| {
      LinkedFromAt(chain, 0, j);
    }
  }

  /** The injectors of the chain from depth `d` on. */
  ghost function Injs(chain: seq<Injector>, d: nat): set<Injector>
    decreases |chain| - d
  {
    if d >= |chain| then {} else {chain[d]} + Injs(chain, d + 1)
  }

  /** Their instance stores. */
  ghost function Stores(chain: seq<Injector>, d: nat): set<array<Slot>>
    decreases |chain| - d
  {
    if d >= |chain| then {} else {chain[d].objs} + Stores(chain, d + 1)
  }

  lemma {:induction false} FootprintMono(chain: seq<Injector>, d: nat, j: nat)
    requires d <= j
    ensures Injs(chain, j) <= Injs(chain, d) && Stores(chain, j) <= Stores(chain, d)
    decreases j - d
  {
    if d < j && d < |chain| {
      FootprintMono(chain, d + 1, j);
    }
  }

  lemma {:induction false} FootprintHas(chain: seq<Injector>, d: nat, i: nat)
    requires d <= i < |chain|
    ensures chain[i] in Injs(chain, d) && chain[i].objs in Stores(chain, d)
    decreases i - d
  {
    if d < i {
      FootprintHas(chain, d + 1, i);
    }
  }

  /** What lookups see of one injector. */
  ghost function FrameOf(inj: Injector): Frame
  {
    Frame(inj.proto.strategy, inj.isHost, inj, inj.depProvider)
  }

  /** What lookups see of the chain. */
  ghost function View(chain: seq<Injector>): (v: seq<Frame>)
    ensures |v| == |chain|
    ensures AllValid(chain) ==> ValidView(v)
  {
    ViewFrom(chain, 0)
  }

  ghost function ViewFrom(chain: seq<Injector>, d: nat): (v: seq<Frame>)
    requires d <= |chain|
    decreases |chain| - d
    ensures |v| == |chain| - d
    ensures AllValid(chain) ==> ValidView(v)
  {
    if d == |chain| then [] else [FrameOf(chain[d])] + ViewFrom(chain, d + 1)
  }

  /** A miss at depth `j`: the default walk goes on at the parent, asking with the
      visibility that depends on whether `j` is a host; the host walk goes on at the parent,
      or hands over to the parent's `Private` bindings when `j` is a host with a parent. */
  lemma MissAt(chain: seq<Injector>, j: nat, keyId: KeyId, vis: Visibility)
    requires IsChain(chain) && j < |chain| && chain[j].proto.strategy.FirstMatch(keyId, vis).None?
    ensures chain[j].parent == if j + 1 < |chain| then chain[j + 1] else null
    ensures DefaultFrom(View(chain), keyId, vis, j) ==
      DefaultFrom(View(chain), keyId, if chain[j].isHost then PublicAndPrivate else Public, j + 1)
    ensures HostFrom(View(chain), keyId, vis, j) ==
      if chain[j].parent != null && chain[j].isHost then PrivateTarget(View(chain), keyId, j)
      else HostFrom(View(chain), keyId, vis, j + 1)
  {
    ViewAt(chain, j);
    ParentAt(chain, j);
  }

  /** A hit at depth `j` ends either walk there. */
  lemma HitAt(chain: seq<Injector>, j: nat, keyId: KeyId, vis: Visibility)
    requires IsChain(chain) && j < |chain| && chain[j].proto.strategy.FirstMatch(keyId, vis).Some?
    ensures Probe(View(chain), j, keyId, vis).Some?
    ensures DefaultFrom(View(chain), keyId, vis, j) == ProbeAt(View(chain), j, keyId, vis)
    ensures HostFrom(View(chain), keyId, vis, j) == ProbeAt(View(chain), j, keyId, vis)
  {
    ViewAt(chain, j);
  }

  lemma ViewAt(chain: seq<Injector>, i: nat)
    requires i < |chain|
    ensures View(chain)[i] == FrameOf(chain[i])
  {
    ViewFromAt(chain, 0, i);
  }

  lemma {:induction false} ViewFromAt(chain: seq<Injector>, d: nat, i: nat)
    requires d <= i < |chain|
    ensures ViewFrom(chain, d)[i - d] == FrameOf(chain[i])
    decreases i - d
  {
    if d < i {
      ViewFromAt(chain, d + 1, i);
    }
  }

  lemma {:induction false} ViewFromShift(x: Injector, chain: seq<Injector>, d: nat)
    requires d <= |chain|
    ensures ViewFrom([x] + chain, d + 1) == ViewFrom(chain, d)
    decreases |chain| - d
  {
    if d < |chain| {
      assert ([x] + chain)[d + 1] == chain[d];
      ViewFromShift(x, chain, d + 1);
    }
  }

  ghost function Caps(chain: seq<Injector>): (c: seq<nat>)
    ensures |c| == |chain|
  {
    seq(|chain|, i requires 0 <= i < |chain| => chain[i].objs.Length)
  }

  ghost function Counters(chain: seq<Injector>): (c: seq<nat>)
    reads set i | 0 <= i < |chain| :: chain[i]`constructionCounter
    ensures |c| == |chain|
  {
    CountersFrom(chain, 0)
  }

  ghost function CountersFrom(chain: seq<Injector>, d: nat): (c: seq<nat>)
    requires d <= |chain|
    reads set i | d <= i < |chain| :: chain[i]`constructionCounter
    decreases |chain| - d
    ensures |c| == |chain| - d
  {
    if d == |chain| then [] else [chain[d].constructionCounter] + CountersFrom(chain, d + 1)
  }

  lemma CountersAt(chain: seq<Injector>, i: nat)
    requires i < |chain|
    ensures Counters(chain)[i] == chain[i].constructionCounter
  {
    CountersFromAt(chain, 0, i);
  }

  lemma {:induction false} CountersFromAt(chain: seq<Injector>, d: nat, i: nat)
    requires d <= i < |chain|
    ensures CountersFrom(chain, d)[i - d] == chain[i].constructionCounter
    decreases i - d
  {
    if d < i {
      CountersFromAt(chain, d + 1, i);
    }
  }

  ghost function Slots(chain: seq<Injector>): (s: seq<seq<Slot>>)
    reads set i | 0 <= i < |chain| :: chain[i].objs
    ensures |s| == |chain|
  {
    SlotsFrom(chain, 0)
  }

  ghost function SlotsFrom(chain: seq<Injector>, d: nat): (s: seq<seq<Slot>>)
    requires d <= |chain|
    reads set i | d <= i < |chain| :: chain[i].objs
    decreases |chain| - d
    ensures |s| == |chain| - d
  {
    if d == |chain| then [] else [chain[d].objs[..]] + SlotsFrom(chain, d + 1)
  }

  lemma SlotsAt(chain: seq<Injector>, i: nat)
    requires i < |chain|
    ensures Slots(chain)[i] == chain[i].objs[..]
  {
    SlotsFromAt(chain, 0, i);
  }

  lemma {:induction false} SlotsFromAt(chain: seq<Injector>, d: nat, i: nat)
    requires d <= i < |chain|
    ensures SlotsFrom(chain, d)[i - d] == chain[i].objs[..]
    decreases i - d
  {
    if d < i {
      SlotsFromAt(chain, d + 1, i);
    }
  }

  ghost function State(chain: seq<Injector>): Snapshot
    reads set i | 0 <= i < |chain| :: chain[i]`constructionCounter
    reads set i | 0 <= i < |chain| :: chain[i].objs
  {
    Snapshot(Counters(chain), Slots(chain))
  }

  /** The termination measure of the engine: the construction room left in the chain. */
  ghost function Budget(chain: seq<Injector>): nat
    reads set i | 0 <= i < |chain| :: chain[i]`constructionCounter
  {
    RoomSum(Caps(chain), Counters(chain), 0)
  }

  lemma CountersEach(chain: seq<Injector>)
    ensures forall i | 0 <= i < |chain| :: Counters(chain)[i] == chain[i].constructionCounter
  {
    forall i | 0 <= i < |chain| {
      CountersAt(chain, i);
    }
  }

  lemma SlotsEach(chain: seq<Injector>)
    ensures forall i | 0 <= i < |chain| :: Slots(chain)[i] == chain[i].objs[..]
  {
    forall i | 0 <= i < |chain| {
      SlotsAt(chain, i);
    }
  }
}
