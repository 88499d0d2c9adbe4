/**
 * The mutable part of a chain of injectors as a value: the construction counter and the
 * instance slots of each injector, nearest first. Method contracts in `Injectors` relate
 * the state before and after a call through these definitions, so the facts about the
 * engine that span several calls (an instance is made once and then always returned, the
 * construction budget only shrinks) are stated and proved here on values.
 */
module InjectorStates {
  import opened Wrappers
  import opened Visibilities
  import opened DiTypes
  import opened ProtoInjectors
  import opened Lookup

  /** An instance slot: `UNDEFINED` until its binding has been built, then the instance. */
  datatype Slot = Undefined | Obj(value: Value)

  /** A build's answer as the strategy hands it back: the instance, now in its slot. */
  function AsSlot(b: Result<Value, DiError>): Result<Slot, DiError>
  {
    match b
    case Ok(v) => Ok(Obj(v))
    case Err(e) => Err(e)
  }

  datatype Snapshot = Snapshot(counters: seq<nat>, slots: seq<seq<Slot>>)

  /** The only ways the engine changes a chain: counters go up and empty slots get filled;
      a filled slot keeps its instance. */
  ghost predicate Grown(s0: Snapshot, s1: Snapshot)
  {
    |s1.counters| == |s0.counters| && |s1.slots| == |s0.slots| &&
    (forall i | 0 <= i < |s0.counters| :: s0.counters[i] <= s1.counters[i]) &&
    (forall i | 0 <= i < |s0.slots| ::
      |s1.slots[i]| == |s0.slots[i]| &&
      forall k | 0 <= k < |s0.slots[i]| :: s0.slots[i][k].Obj? ==> s1.slots[i][k] == s0.slots[i][k])
  }

  lemma GrownTransitive(s0: Snapshot, s1: Snapshot, s2: Snapshot)
    requires Grown(s0, s1) && Grown(s1, s2)
    ensures Grown(s0, s2)
  {
  }

  /** Raising one counter by one is growth. */
  lemma TickGrows(s0: Snapshot, s1: Snapshot, d: nat)
    requires d < |s0.counters| && s1 == Snapshot(s0.counters[d := s0.counters[d] + 1], s0.slots)
    ensures Grown(s0, s1) && s1.counters[d] == s0.counters[d] + 1
  {
  }

  /** A construction that ticked the counter and failed with an error naming a key, for a
      slot that was empty, completes a fetch of that slot with the error. */
  lemma SlotFailed(s0: Snapshot, s1: Snapshot, d: nat, k: nat, e: DiError)
    requires Grown(s0, s1) && d < |s0.slots| && d < |s0.counters| && k < |s0.slots[d]|
    requires s0.slots[d][k].Undefined? && s0.counters[d] < s1.counters[d] && WellKeyed(e)
    ensures Fetched(s0, s1, d, Some(k), Err(e))
  {
  }

  /** Storing an instance in a slot that was empty in an earlier state `s0`, after a
      construction that ticked the counter, completes a fetch of that slot (a re-entrant
      construction may have filled the slot meanwhile; `getObjByKeyId` then overwrites it). */
  lemma SlotFilled(s0: Snapshot, s1: Snapshot, s2: Snapshot, d: nat, k: nat, v: Value)
    requires Grown(s0, s1) && d < |s0.slots| && d < |s0.counters| && k < |s0.slots[d]|
    requires s0.slots[d][k].Undefined? && s0.counters[d] < s1.counters[d]
    requires s2 == Snapshot(s1.counters, s1.slots[d := s1.slots[d][k := Obj(v)]])
    ensures Grown(s0, s2) && Fetched(s0, s2, d, Some(k), Ok(Obj(v)))
  {
  }

  /** State `s` with slot `k` of depth `j` holding `w`. */
  function Patch(s: Snapshot, j: nat, k: nat, w: Slot): (p: Snapshot)
    ensures p.counters == s.counters && |p.slots| == |s.slots|
    ensures forall i | 0 <= i < |s.slots| :: |p.slots[i]| == |s.slots[i]|
    ensures j < |s.slots| && k < |s.slots[j]| ==> p.slots[j][k] == w
    ensures forall i, l | 0 <= i < |s.slots| && 0 <= l < |s.slots[i]| && (i != j || l != k) :: p.slots[i][l] == s.slots[i][l]
  {
    if j < |s.slots| && k < |s.slots[j]| then Snapshot(s.counters, s.slots[j := s.slots[j][k := w]]) else s
  }

  /** Putting back what a slot held undoes a store into it, and a slot patched with its own
      content is unchanged. */
  lemma PatchRestores(s: Snapshot, j: nat, k: nat, x: Slot)
    requires j < |s.slots| && k < |s.slots[j]|
    ensures Patch(Snapshot(s.counters, s.slots[j := s.slots[j][k := x]]), j, k, s.slots[j][k]) == s
    ensures Patch(s, j, k, s.slots[j][k]) == s
  {
    var row := s.slots[j][k := x];
    assert row[k := s.slots[j][k]] == s.slots[j];
    assert s.slots[j := row][j := s.slots[j]] == s.slots;
    assert s.slots[j][k := s.slots[j][k]] == s.slots[j];
    assert s.slots[j := s.slots[j]] == s.slots;
  }

  // ----- The construction budget -----

  /** How many more `_new` calls an injector with `cap` objects passes before it throws
      `CyclicDependencyError`: the check is `counter++ > cap`, so a counter of `cap` still
      passes and every later call fails. */
  function Room(cap: nat, counter: nat): nat
  {
    if counter > cap then 0 else cap + 1 - counter
  }

  /** The room left from depth `d` up. */
  function RoomSum(caps: seq<nat>, counters: seq<nat>, d: nat): nat
    decreases |caps| - d
  {
    if d >= |caps| || d >= |counters| then 0 else Room(caps[d], counters[d]) + RoomSum(caps, counters, d + 1)
  }

  /** Raising counters never adds room. */
  lemma {:induction false} RoomSumShrinks(caps: seq<nat>, c0: seq<nat>, c1: seq<nat>, d: nat)
    requires |caps| == |c0| == |c1|
    requires forall i | d <= i < |c0| :: c0[i] <= c1[i]
    ensures RoomSum(caps, c1, d) <= RoomSum(caps, c0, d)
    decreases |caps| - d
  {
    if d < |caps| {
      RoomSumShrinks(caps, c0, c1, d + 1);
    }
  }

  /** A `_new` at depth `d` that passes its check strictly lowers the room counted from any
      depth `e` up to `d`: this is why the mutual recursion of construction and lookup ends. */
  lemma {:induction false} RoomSumTick(caps: seq<nat>, c0: seq<nat>, c1: seq<nat>, d: nat, e: nat)
    requires |caps| == |c0| == |c1| && e <= d < |caps|
    requires c0[d] <= caps[d] && c1[d] == c0[d] + 1
    requires forall i | e <= i < |c0| :: c0[i] <= c1[i]
    ensures RoomSum(caps, c1, e) < RoomSum(caps, c0, e)
    decreases d - e
  {
    if e < d {
      RoomSumTick(caps, c0, c1, d, e + 1);
    } else {
      RoomSumShrinks(caps, c0, c1, d + 1);
    }
  }

  // ----- What a call reports -----

  /** The outcome of `getObjByKeyId` at depth `d` when the template's first matching slot is
      `m`: `UNDEFINED` and no change when none matches; otherwise the slot's instance, which
      is returned as it was when it was already made, and which is left in the slot when it
      is made now, after a construction that raised the counter; a failed construction
      names a key. */
  ghost predicate Fetched(s0: Snapshot, s1: Snapshot, d: nat, m: Option<nat>, r: Result<Slot, DiError>)
  {
    match m
    case None => r == Ok(Undefined) && s1 == s0
    case Some(k) =>
      d < |s0.slots| && d < |s1.slots| && d < |s0.counters| && d < |s1.counters| &&
      k < |s0.slots[d]| && k < |s1.slots[d]| &&
      (s0.slots[d][k].Obj? ==> r == Ok(s0.slots[d][k]) && s1 == s0) &&
      (s0.slots[d][k].Undefined? ==> s0.counters[d] < s1.counters[d]) &&
      (r.Ok? ==> r.value.Obj? && s1.slots[d][k] == r.value) &&
      (r.Err? ==> WellKeyed(r.error))
  }

  /** The outcome of a lookup that settles on target `t`, asked of injector `me`: the asking
      injector for the injector key; `_throwOrNull` for no binding; a null-dereference error
      for a missing parent; and for a slot, the same three cases as `Fetched`. Only a lookup
      that makes an instance changes anything. */
  ghost predicate LookedUp(me: object, s0: Snapshot, s1: Snapshot, t: Target, keyId: KeyId, optional: bool, r: Result<Value, DiError>)
  {
    match t
    case InjectorItself => r == Ok(InjectorRef(me)) && s1 == s0
    case NotFound => r == ThrowOrNull(keyId, optional) && s1 == s0
    case NullParent => r == Err(NullReference) && s1 == s0
    case Found(j, k) =>
      j < |s0.slots| && j < |s1.slots| && j < |s0.counters| && j < |s1.counters| &&
      k < |s0.slots[j]| && k < |s1.slots[j]| &&
      (s0.slots[j][k].Obj? ==> r == Ok(s0.slots[j][k].value) && s1 == s0) &&
      (s0.slots[j][k].Undefined? ==> s0.counters[j] < s1.counters[j]) &&
      (r.Ok? ==> s1.slots[j][k] == Obj(r.value)) &&
      (r.Err? ==> WellKeyed(r.error))
  }

  /** `v` is the answer, in state `s`, to the lookup of `keyId` asked of `me` at depth `d`:
      the injector itself, `null` for an optional key nothing binds, or the instance in the
      slot the lookup settles on. */
  ghost predicate KeyResolved(me: object, view: seq<Frame>, s: Snapshot, d: nat, keyId: KeyId,
                              lower: LowerBound, upper: UpperBound, optional: bool, vis: Visibility, v: Value)
    requires ValidView(view) && d < |view|
  {
    match LookupTarget(view, d, keyId, lower, upper, vis)
    case InjectorItself => v == InjectorRef(me)
    case NotFound => optional && v == Null
    case NullParent => false
    case Found(j, k) => j < |s.slots| && k < |s.slots[j]| && s.slots[j][k] == Obj(v)
  }

  /** `v` is the value `_getByDependency` gives for `dep`: the provider's answer when it has
      one, otherwise the key's lookup with the dependency's bounds. */
  ghost predicate DepResolved(me: object, provider: Option<DependencyProvider>, view: seq<Frame>, s: Snapshot, d: nat,
                              binding: ResolvedBinding, dep: Dependency, vis: Visibility, v: Value)
    requires ValidView(view) && d < |view|
  {
    if provider.Some? && provider.value(binding, dep).Some? then v == provider.value(binding, dep).value
    else KeyResolved(me, view, s, d, dep.key, dep.lowerBound, dep.upperBound, dep.optional, vis, v)
  }

  /** Each fetched argument is the resolution of the dependency at its position. */
  ghost predicate ArgsResolved(me: object, provider: Option<DependencyProvider>, view: seq<Frame>, s: Snapshot, d: nat,
                               binding: ResolvedBinding, deps: seq<Dependency>, args: seq<Value>, vis: Visibility)
    requires ValidView(view) && d < |view|
  {
    |args| <= |deps| &&
    forall i | 0 <= i < |args| :: DepResolved(me, provider, view, s, d, binding, deps[i], vis, args[i])
  }

  /** A lookup that succeeds leaves its answer resolvable in the state after it. */
  lemma LookedUpResolves(me: object, view: seq<Frame>, s0: Snapshot, s1: Snapshot, d: nat, keyId: KeyId,
                         lower: LowerBound, upper: UpperBound, optional: bool, vis: Visibility, r: Result<Value, DiError>)
    requires ValidView(view) && d < |view|
    requires LookedUp(me, s0, s1, LookupTarget(view, d, keyId, lower, upper, vis), keyId, optional, r)
    requires r.Ok?
    ensures KeyResolved(me, view, s1, d, keyId, lower, upper, optional, vis, r.value)
  {
  }

  /** Resolutions survive everything the engine does afterwards. */
  lemma KeyResolvedStable(me: object, view: seq<Frame>, s0: Snapshot, s1: Snapshot, d: nat, keyId: KeyId,
                          lower: LowerBound, upper: UpperBound, optional: bool, vis: Visibility, v: Value)
    requires ValidView(view) && d < |view| && Grown(s0, s1)
    requires KeyResolved(me, view, s0, d, keyId, lower, upper, optional, vis, v)
    ensures KeyResolved(me, view, s1, d, keyId, lower, upper, optional, vis, v)
  {
  }

  lemma ArgsResolvedStable(me: object, provider: Option<DependencyProvider>, view: seq<Frame>, s0: Snapshot, s1: Snapshot, d: nat,
                           binding: ResolvedBinding, deps: seq<Dependency>, args: seq<Value>, vis: Visibility)
    requires ValidView(view) && d < |view| && Grown(s0, s1)
    requires ArgsResolved(me, provider, view, s0, d, binding, deps, args, vis)
    ensures ArgsResolved(me, provider, view, s1, d, binding, deps, args, vis)
  {
    forall i | 0 <= i < |args|
      ensures DepResolved(me, provider, view, s1, d, binding, deps[i], vis, args[i])
    {
      var dep := deps[i];
      if !(provider.Some? && provider.value(binding, dep).Some?) {
        KeyResolvedStable(me, view, s0, s1, d, dep.key, dep.lowerBound, dep.upperBound, dep.optional, vis, args[i]);
      }
    }
  }

  /** A resolution fetched after the earlier ones extends the resolved prefix, in the
      state after it. */
  lemma ArgsResolvedSnoc(me: object, provider: Option<DependencyProvider>, view: seq<Frame>, s0: Snapshot, s1: Snapshot, d: nat,
                         binding: ResolvedBinding, deps: seq<Dependency>, args: seq<Value>, vis: Visibility, a: Value)
    requires ValidView(view) && d < |view| && Grown(s0, s1)
    requires ArgsResolved(me, provider, view, s0, d, binding, deps, args, vis) && |args| < |deps|
    requires DepResolved(me, provider, view, s1, d, binding, deps[|args|], vis, a)
    ensures ArgsResolved(me, provider, view, s1, d, binding, deps, args + [a], vis)
  {
    ArgsResolvedStable(me, provider, view, s0, s1, d, binding, deps, args, vis);
  }

  /** The construction `getObjByKeyId` starts for the empty slot `k` of the injector at
      depth `j`: `_new` of the slot's binding with the slot's visibility, which found the
      counter `counter`, made the factory runs `outcomes` and reported `r`, each run within
      the maximum described by `Ran` from `s0` to `s1`. */
  ghost predicate Constructed(view: seq<Frame>, s0: Snapshot, s1: Snapshot, j: nat, k: nat, counter: nat,
                              outcomes: seq<DepsOutcome>, r: Result<Value, DiError>)
    requires ValidView(view) && j < |view|
    decreases outcomes, 1
  {
    var st := view[j].strategy;
    k < st.SlotCount() && st.EntryBinding(k).Some? && st.EntryVisibility(k).Some? &&
    NewResult(st.EntryBinding(k).value, counter, st.SlotCount(), outcomes, r) &&
    (counter <= st.SlotCount() ==>
      AllRan(view[j].injector, view[j].provider, view, s0, s1, j, st.EntryBinding(k).value, st.EntryVisibility(k).value, outcomes))
  }

  /** What a lookup that settles on `t` built: when `t` is a slot that was empty in `s0`,
      the answer `r` is what that slot's construction reported, with the counter its
      injector had in `s0`. `prior` is what the slot held when the construction returned:
      `UNDEFINED`, unless a re-entrant construction of the same slot filled it, an instance
      the store of `r` then overwrote; the runs are described in `s1` with `prior` put
      back, and a failed construction stored nothing. */
  ghost predicate FreshBuild(view: seq<Frame>, s0: Snapshot, s1: Snapshot, t: Target, r: Result<Value, DiError>,
                             outcomes: seq<DepsOutcome>, prior: Slot)
    requires ValidView(view)
  {
    t.Found? && t.depth < |view| && t.depth < |s0.slots| && t.depth < |s0.counters| &&
    t.slot < |s0.slots[t.depth]| && s0.slots[t.depth][t.slot].Undefined? ==>
      (r.Err? ==> t.depth < |s1.slots| && t.slot < |s1.slots[t.depth]| && prior == s1.slots[t.depth][t.slot]) &&
      Constructed(view, s0, Patch(s1, t.depth, t.slot, prior), t.depth, t.slot, s0.counters[t.depth], outcomes, r)
  }

  /** Why the fetch of `dep` failed with `e`: the provider gave no answer, and the lookup
      found no binding for a required key, dereferenced a missing parent, or settled on a
      slot that was empty in `s0` whose construction, between `s0` and `s1`, found the
      counter `counter`, made the runs `nested` and failed with `e`. */
  ghost predicate FetchFailed(provider: Option<DependencyProvider>, view: seq<Frame>, s0: Snapshot, s1: Snapshot, d: nat,
                              binding: ResolvedBinding, dep: Dependency, vis: Visibility, e: DiError,
                              nested: seq<DepsOutcome>, counter: nat)
    requires ValidView(view) && d < |view|
    decreases nested, 2
  {
    !(provider.Some? && provider.value(binding, dep).Some?) &&
    match LookupTarget(view, d, dep.key, dep.lowerBound, dep.upperBound, vis)
    case InjectorItself => false
    case NotFound => !dep.optional && e == NoBinding([dep.key])
    case NullParent => e == NullReference
    case Found(j, k) =>
      j < |view| && j < |s0.slots| && k < |s0.slots[j]| && j < |s0.counters| && j < |s1.counters| &&
      s0.slots[j][k].Undefined? && s0.counters[j] <= counter < s1.counters[j] && WellKeyed(e) &&
      Constructed(view, s0, s1, j, k, counter, nested, Err(e))
  }

  /** What one `_instantiate` of factory `rf`, run from `s0` to `s1`, reported: the
      resolutions of its dependencies in order, or those fetched before the next one's
      fetch failed. */
  ghost predicate Ran(me: object, provider: Option<DependencyProvider>, view: seq<Frame>, s0: Snapshot, s1: Snapshot, d: nat,
                      binding: ResolvedBinding, rf: ResolvedFactory, vis: Visibility, outcome: DepsOutcome)
    requires ValidView(view) && d < |view|
    decreases outcome, 3
  {
    Fits(rf, outcome) &&
    match outcome
    case Resolved(args) => ArgsResolved(me, provider, view, s1, d, binding, rf.dependencies, args, vis)
    case DepFailed(fetched, e, nested, counter) =>
      ArgsResolved(me, provider, view, s1, d, binding, rf.dependencies, fetched, vis) &&
      FetchFailed(provider, view, s0, s1, d, binding, rf.dependencies[|fetched|], vis, e, nested, counter)
  }

  /** Every run of `binding`'s factories, from `s0` to `s1`. */
  ghost predicate AllRan(me: object, provider: Option<DependencyProvider>, view: seq<Frame>, s0: Snapshot, s1: Snapshot, d: nat,
                         binding: ResolvedBinding, vis: Visibility, outcomes: seq<DepsOutcome>)
    requires ValidView(view) && d < |view|
    decreases outcomes, 0
  {
    forall i | 0 <= i < |outcomes| && i < |binding.resolvedFactories| ::
      Ran(me, provider, view, s0, s1, d, binding, binding.resolvedFactories[i], vis, outcomes[i])
  }

  /** A failed lookup of a dependency the provider does not answer is a failed fetch, with
      the counter the construction found when it built one. */
  lemma LookupFailed(me: object, provider: Option<DependencyProvider>, view: seq<Frame>, s0: Snapshot, s1: Snapshot, d: nat,
                     binding: ResolvedBinding, dep: Dependency, vis: Visibility, e: DiError,
                     nested: seq<DepsOutcome>, counter: nat, prior: Slot)
    requires ValidView(view) && d < |view|
    requires !(provider.Some? && provider.value(binding, dep).Some?)
    requires var t := LookupTarget(view, d, dep.key, dep.lowerBound, dep.upperBound, vis);
      LookedUp(me, s0, s1, t, dep.key, dep.optional, Err(e)) && FreshBuild(view, s0, s1, t, Err(e), nested, prior) &&
      (t.Found? && t.depth < |s0.counters| ==> counter == s0.counters[t.depth])
    ensures FetchFailed(provider, view, s0, s1, d, binding, dep, vis, e, nested, counter)
  {
    var t := LookupTarget(view, d, dep.key, dep.lowerBound, dep.upperBound, vis);
    if t.Found? {
      PatchRestores(s1, t.depth, t.slot, prior);
    }
  }

  /** A run stays described by `Ran` when the window around it widens: an earlier start
      still had every failing slot empty and a lower counter, and a later end still
      resolves the arguments. */
  lemma RanWiden(me: object, provider: Option<DependencyProvider>, view: seq<Frame>, s0: Snapshot, s: Snapshot, s1: Snapshot,
                 s2: Snapshot, d: nat, binding: ResolvedBinding, rf: ResolvedFactory, vis: Visibility, outcome: DepsOutcome)
    requires ValidView(view) && d < |view| && Grown(s0, s) && Grown(s1, s2)
    requires Ran(me, provider, view, s, s1, d, binding, rf, vis, outcome)
    ensures Ran(me, provider, view, s0, s2, d, binding, rf, vis, outcome)
    decreases outcome, 3
  {
    match outcome
    case Resolved(args) =>
      ArgsResolvedStable(me, provider, view, s1, s2, d, binding, rf.dependencies, args, vis);
    case DepFailed(fetched, e, nested, counter) =>
      ArgsResolvedStable(me, provider, view, s1, s2, d, binding, rf.dependencies, fetched, vis);
      FetchFailedWiden(provider, view, s0, s, s1, s2, d, binding, rf.dependencies[|fetched|], vis, e, nested, counter);
  }

  lemma FetchFailedWiden(provider: Option<DependencyProvider>, view: seq<Frame>, s0: Snapshot, s: Snapshot, s1: Snapshot,
                         s2: Snapshot, d: nat, binding: ResolvedBinding, dep: Dependency, vis: Visibility, e: DiError,
                         nested: seq<DepsOutcome>, counter: nat)
    requires ValidView(view) && d < |view| && Grown(s0, s) && Grown(s1, s2)
    requires FetchFailed(provider, view, s, s1, d, binding, dep, vis, e, nested, counter)
    ensures FetchFailed(provider, view, s0, s2, d, binding, dep, vis, e, nested, counter)
    decreases nested, 2
  {
    var t := LookupTarget(view, d, dep.key, dep.lowerBound, dep.upperBound, vis);
    if t.Found? {
      ConstructedWiden(view, s0, s, s1, s2, t.depth, t.slot, counter, nested, Err(e));
    }
  }

  /** A construction stays described by `Constructed` when the window around it widens. */
  lemma ConstructedWiden(view: seq<Frame>, s0: Snapshot, s: Snapshot, s1: Snapshot, s2: Snapshot, j: nat, k: nat,
                         counter: nat, outcomes: seq<DepsOutcome>, r: Result<Value, DiError>)
    requires ValidView(view) && j < |view| && Grown(s0, s) && Grown(s1, s2)
    requires Constructed(view, s, s1, j, k, counter, outcomes, r)
    ensures Constructed(view, s0, s2, j, k, counter, outcomes, r)
    decreases outcomes, 1
  {
    var st := view[j].strategy;
    if counter <= st.SlotCount() {
      AllRanWiden(view[j].injector, view[j].provider, view, s0, s, s1, s2, j, st.EntryBinding(k).value,
                  st.EntryVisibility(k).value, outcomes);
    }
  }

  lemma AllRanWiden(me: object, provider: Option<DependencyProvider>, view: seq<Frame>, s0: Snapshot, s: Snapshot, s1: Snapshot,
                    s2: Snapshot, d: nat, binding: ResolvedBinding, vis: Visibility, outcomes: seq<DepsOutcome>)
    requires ValidView(view) && d < |view| && Grown(s0, s) && Grown(s1, s2)
    requires AllRan(me, provider, view, s, s1, d, binding, vis, outcomes)
    ensures AllRan(me, provider, view, s0, s2, d, binding, vis, outcomes)
    decreases outcomes, 0
  {
    forall i | 0 <= i < |outcomes| && i < |binding.resolvedFactories|
      ensures Ran(me, provider, view, s0, s2, d, binding, binding.resolvedFactories[i], vis, outcomes[i])
    {
      RanWiden(me, provider, view, s0, s, s1, s2, d, binding, binding.resolvedFactories[i], vis, outcomes[i]);
    }
  }

  /** A fetch that failed after the first `|fetched|` dependencies resolved ends a run. */
  lemma FailedRun(me: object, provider: Option<DependencyProvider>, view: seq<Frame>, s0: Snapshot, s: Snapshot, s1: Snapshot,
                  d: nat, binding: ResolvedBinding, rf: ResolvedFactory, vis: Visibility, fetched: seq<Value>, e: DiError,
                  nested: seq<DepsOutcome>, counter: nat)
    requires ValidView(view) && d < |view| && Grown(s0, s) && Grown(s, s1) && |fetched| < FetchedCount(rf)
    requires ArgsResolved(me, provider, view, s, d, binding, rf.dependencies, fetched, vis)
    requires FetchFailed(provider, view, s, s1, d, binding, rf.dependencies[|fetched|], vis, e, nested, counter)
    ensures Ran(me, provider, view, s0, s1, d, binding, rf, vis, DepFailed(fetched, e, nested, counter))
  {
    ArgsResolvedStable(me, provider, view, s, s1, d, binding, rf.dependencies, fetched, vis);
    FetchFailedWiden(provider, view, s0, s, s1, s1, d, binding, rf.dependencies[|fetched|], vis, e, nested, counter);
  }

  /** The runs so far, each widened to the whole window, with the next run appended. */
  lemma AllRanSnoc(me: object, provider: Option<DependencyProvider>, view: seq<Frame>, s0: Snapshot, s: Snapshot, s1: Snapshot,
                   d: nat, binding: ResolvedBinding, vis: Visibility, outcomes: seq<DepsOutcome>, o: DepsOutcome)
    requires ValidView(view) && d < |view| && Grown(s0, s) && Grown(s, s1)
    requires |outcomes| < |binding.resolvedFactories|
    requires AllRan(me, provider, view, s0, s, d, binding, vis, outcomes)
    requires Ran(me, provider, view, s, s1, d, binding, binding.resolvedFactories[|outcomes|], vis, o)
    ensures AllRan(me, provider, view, s0, s1, d, binding, vis, outcomes + [o])
  {
    var fs, all := binding.resolvedFactories, outcomes + [o];
    forall i | 0 <= i < |all| && i < |fs|
      ensures Ran(me, provider, view, s0, s1, d, binding, fs[i], vis, all[i])
    {
      if i < |outcomes| {
        assert all[i] == outcomes[i];
        RanWiden(me, provider, view, s0, s0, s, s1, d, binding, fs[i], vis, all[i]);
      } else {
        RanWiden(me, provider, view, s0, s, s1, s1, d, binding, fs[i], vis, o);
      }
    }
  }

  /** Runs described from a later start stay described from an earlier one. */
  lemma AllRanEarlier(me: object, provider: Option<DependencyProvider>, view: seq<Frame>, s0: Snapshot, s: Snapshot, s1: Snapshot,
                      d: nat, binding: ResolvedBinding, vis: Visibility, outcomes: seq<DepsOutcome>)
    requires ValidView(view) && d < |view| && Grown(s0, s)
    requires AllRan(me, provider, view, s, s1, d, binding, vis, outcomes)
    ensures AllRan(me, provider, view, s0, s1, d, binding, vis, outcomes)
  {
    AllRanWiden(me, provider, view, s0, s, s1, s1, d, binding, vis, outcomes);
  }

  /** Runs that fit their factories, as far as the state-free part goes. */
  lemma AllRanFit(me: object, provider: Option<DependencyProvider>, view: seq<Frame>, s0: Snapshot, s1: Snapshot, d: nat,
                  binding: ResolvedBinding, vis: Visibility, outcomes: seq<DepsOutcome>)
    requires ValidView(view) && d < |view|
    requires AllRan(me, provider, view, s0, s1, d, binding, vis, outcomes)
    ensures AllFit(binding, outcomes)
  {
    forall i | 0 <= i < |outcomes| && i < |binding.resolvedFactories|
      ensures Fits(binding.resolvedFactories[i], outcomes[i])
    {
      assert Ran(me, provider, view, s0, s1, d, binding, binding.resolvedFactories[i], vis, outcomes[i]);
    }
  }

  /** Lazy singletons: once a lookup has answered with an instance, asking again for the
      same key in the same way, after anything else the engine did in between, answers with
      the very same instance and changes nothing. */
  lemma SameAnswerAgain(me: object, t: Target, keyId: KeyId, optional: bool,
                        s0: Snapshot, s1: Snapshot, s2: Snapshot, s3: Snapshot,
                        r1: Result<Value, DiError>, r2: Result<Value, DiError>)
    requires LookedUp(me, s0, s1, t, keyId, optional, r1) && r1.Ok?
    requires Grown(s1, s2)
    requires LookedUp(me, s2, s3, t, keyId, optional, r2)
    ensures r2 == r1 && s3 == s2
  {
  }

  /** A lookup that fails for want of a binding or of a parent changes nothing, and one that
      fails while making an instance still leaves every instance that existed in place. */
  lemma FailedLookupKeepsInstances(me: object, t: Target, keyId: KeyId, optional: bool,
                                   s0: Snapshot, s1: Snapshot, r: Result<Value, DiError>)
    requires LookedUp(me, s0, s1, t, keyId, optional, r) && r.Err?
    requires t.Found? ==> Grown(s0, s1)
    ensures !t.Found? ==> s1 == s0
    ensures t.Found? ==> t.depth < |s0.slots| && t.slot < |s0.slots[t.depth]| && s0.slots[t.depth][t.slot].Undefined?
  {
  }
}
