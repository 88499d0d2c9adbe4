/**
 * The values the injector works on: key ids, dependencies, resolved bindings and their
 * factories, the objects factories make, and the errors of injector.ts together with the
 * key path (`addKey`) they accumulate.
 */
module DiTypes {
  import opened Wrappers

  /** A key as issued by the key registry: the registry itself (key.ts) is not part of this
      model, so keys are the integer ids it hands out. */
  type KeyId = nat

  /** The id the registry issues for the `Injector` token (`INJECTOR_KEY`). */
  const InjectorKeyId: KeyId := 0

  /** `_instantiate` fetches at most twenty dependencies (`d0` .. `d19`) and knows factory
      arities 0 through 20. */
  const MaxArity: nat := 20

  /** `SkipSelfMetadata` as a dependency's lower bound. */
  datatype LowerBound = NoLowerBound | SkipSelf

  /** `SelfMetadata` or `HostMetadata` as a dependency's upper bound. */
  datatype UpperBound = NoUpperBound | SelfOnly | HostOnly

  datatype Dependency = Dependency(key: KeyId, optional: bool, lowerBound: LowerBound, upperBound: UpperBound)

  /** The identity of an exception a factory throws. */
  type Cause = nat

  /** What a lookup or a factory yields. */
  datatype Value =
    | Null                          // an optional dependency that no binding answers
    | Void                          // JavaScript `undefined`
    | InjectorRef(injector: object) // the injector itself, asked for by `InjectorKeyId`
    | List(items: seq<Value>)       // the array a multi-binding produces
    | Instance(id: nat)             // an object made by a factory or supplied by a provider

  datatype FactoryOutcome = Returned(value: Value) | Threw(cause: Cause)

  /** A factory with the dependencies whose values it receives, in order. */
  datatype ResolvedFactory = ResolvedFactory(factory: seq<Value> -> FactoryOutcome, dependencies: seq<Dependency>)

  datatype ResolvedBinding = ResolvedBinding(key: KeyId, resolvedFactories: seq<ResolvedFactory>, multiBinding: bool)

  /** The `DependencyProvider` plug-in: `None` plays the part of the `UNDEFINED` answer. */
  type DependencyProvider = (ResolvedBinding, Dependency) -> Option<Value>

  datatype DiError =
    | NoBinding(keys: seq<KeyId>)
    | CyclicDependency(keys: seq<KeyId>)
    | InstantiationError(cause: Cause, keys: seq<KeyId>)
    | OutOfBounds(index: int)
    | NullReference                 // the TypeError of reading a member of null or undefined
  {
    /** The errors `_instantiate` annotates: `AbstractBindingError` and its subclasses, and
        `InstantiationError`. */
    predicate IsKeyed() { NoBinding? || CyclicDependency? || InstantiationError? }
  }

  /** `e.addKey(injector, key)` where `_instantiate` catches `e`: a keyed error gets the key
      appended to its path; any other error passes through untouched. */
  function AddKey(e: DiError, key: KeyId): (r: DiError)
    ensures r.NoBinding? == e.NoBinding? && r.CyclicDependency? == e.CyclicDependency?
    ensures r.InstantiationError? == e.InstantiationError? && r.IsKeyed() == e.IsKeyed()
    ensures e.IsKeyed() ==> r.keys == e.keys + [key] && |r.keys| > 0 && r.keys[|r.keys| - 1] == key
    ensures e.InstantiationError? ==> r.cause == e.cause
    ensures !e.IsKeyed() ==> r == e
  {
    if e.IsKeyed() then e.(keys := e.keys + [key]) else e
  }

  /** `_throwOrNull`: the answer to a lookup that no binding satisfies. */
  function ThrowOrNull(keyId: KeyId, optional: bool): (r: Result<Value, DiError>)
    ensures r.Ok? <==> optional
    ensures r.Ok? ==> r.value == Null
    ensures r.Err? ==> r.error == NoBinding([keyId])
  {
    if optional then Ok(Null) else Err(NoBinding([keyId]))
  }

  /** How fetching a factory's dependencies ended: with the values in declared order, or
      with the first error raised, after the values fetched before it. When that error came
      from building the dependency's instance, `nested` are the runs of that build and
      `counter` is the construction counter its `_new` found. */
  datatype DepsOutcome =
    | Resolved(args: seq<Value>)
    | DepFailed(fetched: seq<Value>, error: DiError, nested: seq<DepsOutcome>, counter: nat)

  /** A keyed error names at least one key on its path. */
  predicate WellKeyed(e: DiError)
  {
    e.IsKeyed() ==> |e.keys| > 0
  }

  /** The number of dependencies `_instantiate` actually fetches. */
  function FetchedCount(rf: ResolvedFactory): nat
  {
    if |rf.dependencies| <= MaxArity then |rf.dependencies| else MaxArity
  }

  /** The end of `_instantiate`: a dependency error is annotated with the binding's key and
      re-thrown; otherwise the factory is called with exactly the fetched values when its
      arity is one of the twenty-one handled cases, and a throw is wrapped in an
      `InstantiationError` carrying the key. With more than twenty dependencies no case of
      the switch applies and the result stays `undefined`. */
  function CallFactory(binding: ResolvedBinding, rf: ResolvedFactory, outcome: DepsOutcome): (r: Result<Value, DiError>)
  {
    match outcome
    case DepFailed(_, e, _, _) => Err(AddKey(e, binding.key))
    case Resolved(args) =>
      if |rf.dependencies| > MaxArity then Ok(Void)
      else match rf.factory(args)
        case Returned(v) => Ok(v)
        case Threw(c) => Err(InstantiationError(c, [binding.key]))
  }

  /** `v` is what factory `rf` gives for the fetched dependency values `args`. */
  ghost predicate Produced(rf: ResolvedFactory, args: seq<Value>, v: Value)
  {
    |args| == FetchedCount(rf) &&
    (|rf.dependencies| > MaxArity ==> v == Void) &&
    (|rf.dependencies| <= MaxArity ==> rf.factory(args) == Returned(v))
  }

  /** `v` is what `_instantiateBinding` builds for `binding` when factory `i` is given
      `argss[i]`: one value per factory, in declaration order, for a multi-binding; the
      value of the first factory otherwise. */
  ghost predicate Built(binding: ResolvedBinding, argss: seq<seq<Value>>, v: Value)
  {
    var fs := binding.resolvedFactories;
    if binding.multiBinding then
      v.List? && |v.items| == |fs| && |argss| == |fs| &&
      forall i | 0 <= i < |fs| :: Produced(fs[i], argss[i], v.items[i])
    else
      |fs| > 0 && |argss| == 1 && Produced(fs[0], argss[0], v)
  }

  /** Every error `_instantiate` reports names the binding being built as the last key of
      its path, except an unkeyed error raised while fetching a dependency, which passes
      through unchanged; a throw of the factory itself becomes an `InstantiationError`
      whose path is exactly that key. */
  lemma CallFactoryErrors(binding: ResolvedBinding, rf: ResolvedFactory, outcome: DepsOutcome)
    ensures var r := CallFactory(binding, rf, outcome);
      r.Err? ==>
        (r.error.IsKeyed() && |r.error.keys| > 0 && r.error.keys[|r.error.keys| - 1] == binding.key) ||
        (outcome.DepFailed? && !outcome.error.IsKeyed() && r.error == outcome.error)
    ensures outcome.Resolved? && |rf.dependencies| <= MaxArity && rf.factory(outcome.args).Threw? ==>
      CallFactory(binding, rf, outcome) == Err(InstantiationError(rf.factory(outcome.args).cause, [binding.key]))
    ensures outcome.DepFailed? ==>
      CallFactory(binding, rf, outcome).Err? &&
      (outcome.error.IsKeyed() ==> CallFactory(binding, rf, outcome).error.keys == outcome.error.keys + [binding.key])
  {
  }

  /** A successful factory call produced its value from exactly the fetched arguments. */
  lemma CallFactoryOk(binding: ResolvedBinding, rf: ResolvedFactory, args: seq<Value>)
    requires |args| == FetchedCount(rf)
    ensures var r := CallFactory(binding, rf, Resolved(args)); r.Ok? ==> Produced(rf, args, r.value)
    ensures |rf.dependencies| <= MaxArity ==>
      (CallFactory(binding, rf, Resolved(args)).Ok? <==> rf.factory(args).Returned?)
  {
  }

  // ----- Building a binding from the outcomes of its factory runs -----

  /** What `_instantiate` can report for factory `rf`: every fetched value, or the values
      fetched before a dependency failed with an error that names a key when it is keyed. */
  predicate Fits(rf: ResolvedFactory, outcome: DepsOutcome)
  {
    match outcome
    case Resolved(args) => |args| == FetchedCount(rf)
    case DepFailed(fetched, e, _, _) => |fetched| < FetchedCount(rf) && WellKeyed(e)
  }

  /** Each run fits the factory it ran. */
  predicate AllFit(binding: ResolvedBinding, outcomes: seq<DepsOutcome>)
  {
    forall i | 0 <= i < |outcomes| && i < |binding.resolvedFactories| ::
      Fits(binding.resolvedFactories[i], outcomes[i])
  }

  /** The multi-binding loop of `_instantiateBinding` over the first `|outcomes|`
      factories, given what each run reported: the values in order, or the first failure. */
  function MultiResult(binding: ResolvedBinding, outcomes: seq<DepsOutcome>): Result<seq<Value>, DiError>
    requires |outcomes| <= |binding.resolvedFactories|
    decreases |outcomes|
  {
    if |outcomes| == 0 then Ok([])
    else
      var n := |outcomes| - 1;
      match MultiResult(binding, outcomes[..n])
      case Err(e) => Err(e)
      case Ok(vs) =>
        match CallFactory(binding, binding.resolvedFactories[n], outcomes[n])
        case Err(e) => Err(e)
        case Ok(v) => Ok(vs + [v])
  }

  /** The runs `_instantiateBinding` makes: one of the first factory for a plain binding
      (none when it has no factory), and for a multi-binding one per factory in order,
      stopping right after the first that fails. */
  predicate Tried(binding: ResolvedBinding, outcomes: seq<DepsOutcome>)
  {
    var fs := binding.resolvedFactories;
    if binding.multiBinding then
      |outcomes| <= |fs| &&
      (|outcomes| > 0 ==> MultiResult(binding, outcomes[..|outcomes| - 1]).Ok?) &&
      (|outcomes| < |fs| ==> MultiResult(binding, outcomes).Err?)
    else
      |outcomes| == (if |fs| == 0 then 0 else 1)
  }

  /** `_instantiateBinding`'s answer given its runs: the list of the values for a
      multi-binding, the first factory's result for a plain one, and the TypeError of
      reading `resolvedFactories[0]` for a plain binding without factories. */
  function BindingResult(binding: ResolvedBinding, outcomes: seq<DepsOutcome>): Result<Value, DiError>
    requires Tried(binding, outcomes)
  {
    if binding.multiBinding then
      match MultiResult(binding, outcomes)
      case Ok(vs) => Ok(List(vs))
      case Err(e) => Err(e)
    else if |binding.resolvedFactories| == 0 then Err(NullReference)
    else CallFactory(binding, binding.resolvedFactories[0], outcomes[0])
  }

  /** The arguments each run fetched. */
  function ArgsOf(outcomes: seq<DepsOutcome>): (argss: seq<seq<Value>>)
    ensures |argss| == |outcomes|
  {
    seq(|outcomes|, i requires 0 <= i < |outcomes| =>
      match outcomes[i] case Resolved(args) => args case DepFailed(fetched, _, _, _) => fetched)
  }

  /** What `_new` reports for `binding` when its injector's counter stood at `counter`
      before the increment and `cap` objects are allowed: `CyclicDependency` with the
      binding's key past the maximum, without running any factory, and otherwise
      `_instantiateBinding`'s answer for the runs it made. */
  ghost predicate NewResult(binding: ResolvedBinding, counter: nat, cap: nat, outcomes: seq<DepsOutcome>, r: Result<Value, DiError>)
  {
    if counter > cap then outcomes == [] && r == Err(CyclicDependency([binding.key]))
    else Tried(binding, outcomes) && AllFit(binding, outcomes) && r == BindingResult(binding, outcomes)
  }

  // ----- Bindings without dependencies -----

  ghost predicate NoDependencies(binding: ResolvedBinding)
  {
    forall f | 0 <= f < |binding.resolvedFactories| :: |binding.resolvedFactories[f].dependencies| == 0
  }

  /** A factory without dependencies, called with no arguments. */
  function CallAlone(binding: ResolvedBinding, rf: ResolvedFactory): Result<Value, DiError>
  {
    match rf.factory([])
    case Returned(v) => Ok(v)
    case Threw(c) => Err(InstantiationError(c, [binding.key]))
  }

  /** The first `n` factories of a multi-binding called in turn with no arguments. */
  function StandaloneAll(binding: ResolvedBinding, n: nat): Result<seq<Value>, DiError>
    requires n <= |binding.resolvedFactories|
  {
    if n == 0 then Ok([])
    else match StandaloneAll(binding, n - 1)
      case Err(e) => Err(e)
      case Ok(vs) =>
        match CallAlone(binding, binding.resolvedFactories[n - 1])
        case Err(e) => Err(e)
        case Ok(v) => Ok(vs + [v])
  }

  /** The build of a binding none of whose factories takes a dependency, in closed form. */
  function Standalone(binding: ResolvedBinding): Result<Value, DiError>
  {
    if binding.multiBinding then
      match StandaloneAll(binding, |binding.resolvedFactories|)
      case Ok(vs) => Ok(List(vs))
      case Err(e) => Err(e)
    else if |binding.resolvedFactories| == 0 then Err(NullReference)
    else CallAlone(binding, binding.resolvedFactories[0])
  }

  /** The factories of a multi-binding without dependencies all succeed exactly when each
      returns, and then the values are theirs in order; otherwise the first throw wins. */
  lemma {:induction false} StandaloneAllOk(binding: ResolvedBinding, n: nat)
    requires n <= |binding.resolvedFactories|
    ensures StandaloneAll(binding, n).Ok? <==>
      forall i | 0 <= i < n :: binding.resolvedFactories[i].factory([]).Returned?
    ensures StandaloneAll(binding, n).Ok? ==>
      |StandaloneAll(binding, n).value| == n &&
      forall i | 0 <= i < n :: binding.resolvedFactories[i].factory([]) == Returned(StandaloneAll(binding, n).value[i])
    ensures StandaloneAll(binding, n).Err? ==>
      exists i | 0 <= i < n :: binding.resolvedFactories[i].factory([]).Threw? &&
        StandaloneAll(binding, n).error == InstantiationError(binding.resolvedFactories[i].factory([]).cause, [binding.key])
  {
    if n > 0 {
      StandaloneAllOk(binding, n - 1);
      var fs := binding.resolvedFactories;
      match StandaloneAll(binding, n - 1)
      case Err(e) => {
        var i :| 0 <= i < n - 1 && fs[i].factory([]).Threw? && e == InstantiationError(fs[i].factory([]).cause, [binding.key]);
        assert 0 <= i < n;
      }
      case Ok(vs) => {
        if fs[n - 1].factory([]).Threw? {
          assert StandaloneAll(binding, n).error == InstantiationError(fs[n - 1].factory([]).cause, [binding.key]);
        } else {
          var w := vs + [fs[n - 1].factory([]).value];
          assert StandaloneAll(binding, n) == Ok(w);
          assert forall i | 0 <= i < n - 1 :: w[i] == vs[i];
        }
      }
    }
  }

  /** A binding without dependencies: a plain one gives its first factory's value, or its
      throw wrapped in `InstantiationError`; a multi-binding gives the list of every
      factory's value, or the first throw. */
  lemma StandaloneCases(binding: ResolvedBinding)
    ensures !binding.multiBinding && |binding.resolvedFactories| == 0 ==> Standalone(binding) == Err(NullReference)
    ensures !binding.multiBinding && |binding.resolvedFactories| > 0 ==>
      var out := binding.resolvedFactories[0].factory([]);
      (out.Returned? ==> Standalone(binding) == Ok(out.value)) &&
      (out.Threw? ==> Standalone(binding) == Err(InstantiationError(out.cause, [binding.key])))
    ensures binding.multiBinding ==>
      (Standalone(binding).Ok? <==> forall i | 0 <= i < |binding.resolvedFactories| :: binding.resolvedFactories[i].factory([]).Returned?)
    ensures binding.multiBinding && Standalone(binding).Ok? ==>
      Standalone(binding).value.List? && |Standalone(binding).value.items| == |binding.resolvedFactories| &&
      forall i | 0 <= i < |binding.resolvedFactories| ::
        binding.resolvedFactories[i].factory([]) == Returned(Standalone(binding).value.items[i])
  {
    StandaloneAllOk(binding, |binding.resolvedFactories|);
  }

  // ----- What a build reports -----

  /** A run that fits its factory never reports a bare `CyclicDependency` with the
      binding's own key: any keyed error it passes on has had that key appended to a
      non-empty path. */
  lemma CallFactoryKeyed(binding: ResolvedBinding, rf: ResolvedFactory, outcome: DepsOutcome)
    requires Fits(rf, outcome)
    ensures var r := CallFactory(binding, rf, outcome);
      r.Err? ==> WellKeyed(r.error) && r.error != CyclicDependency([binding.key])
  {
    if outcome.DepFailed? && outcome.error.IsKeyed() {
      assert |AddKey(outcome.error, binding.key).keys| >= 2;
    }
  }

  lemma {:induction false} MultiResultKeyed(binding: ResolvedBinding, outcomes: seq<DepsOutcome>)
    requires |outcomes| <= |binding.resolvedFactories| && AllFit(binding, outcomes)
    ensures var r := MultiResult(binding, outcomes);
      r.Err? ==> WellKeyed(r.error) && r.error != CyclicDependency([binding.key])
    decreases |outcomes|
  {
    if |outcomes| > 0 {
      var n := |outcomes| - 1;
      assert AllFit(binding, outcomes[..n]) by {
        assert forall i | 0 <= i < n :: outcomes[..n][i] == outcomes[i];
      }
      MultiResultKeyed(binding, outcomes[..n]);
      CallFactoryKeyed(binding, binding.resolvedFactories[n], outcomes[n]);
    }
  }

  /** Every failure of `_instantiateBinding` names a key when it is keyed, and none is the
      bare `CyclicDependency` of the binding itself: that one comes only from `_new`'s own
      check. */
  lemma BuildErrorsKeyed(binding: ResolvedBinding, outcomes: seq<DepsOutcome>)
    requires Tried(binding, outcomes) && AllFit(binding, outcomes)
    ensures var r := BindingResult(binding, outcomes);
      r.Err? ==> WellKeyed(r.error) && r.error != CyclicDependency([binding.key])
  {
    if binding.multiBinding {
      MultiResultKeyed(binding, outcomes);
    } else if |binding.resolvedFactories| > 0 {
      CallFactoryKeyed(binding, binding.resolvedFactories[0], outcomes[0]);
    }
  }

  /** `_new` throws `CyclicDependencyError` for the binding's own key exactly when the
      counter before its increment exceeds the maximum, and its errors name a key. */
  lemma NewCyclicExactly(binding: ResolvedBinding, counter: nat, cap: nat, outcomes: seq<DepsOutcome>, r: Result<Value, DiError>)
    requires NewResult(binding, counter, cap, outcomes, r)
    ensures r == Err(CyclicDependency([binding.key])) <==> counter > cap
    ensures r.Err? ==> WellKeyed(r.error)
  {
    if counter <= cap {
      BuildErrorsKeyed(binding, outcomes);
    }
  }

  lemma {:induction false} MultiResultOk(binding: ResolvedBinding, outcomes: seq<DepsOutcome>)
    requires |outcomes| <= |binding.resolvedFactories| && AllFit(binding, outcomes)
    ensures var r := MultiResult(binding, outcomes);
      r.Ok? ==>
        |r.value| == |outcomes| &&
        forall i | 0 <= i < |outcomes| ::
          outcomes[i].Resolved? && Produced(binding.resolvedFactories[i], ArgsOf(outcomes)[i], r.value[i])
    decreases |outcomes|
  {
    if |outcomes| > 0 {
      var n := |outcomes| - 1;
      var fs, pre := binding.resolvedFactories, outcomes[..n];
      assert AllFit(binding, pre) by {
        assert forall i | 0 <= i < n :: pre[i] == outcomes[i];
      }
      MultiResultOk(binding, pre);
      var r := MultiResult(binding, outcomes);
      if r.Ok? {
        var vs := MultiResult(binding, pre).value;
        var c := CallFactory(binding, fs[n], outcomes[n]);
        assert c.Ok? && r.value == vs + [c.value];
        CallFactoryOk(binding, fs[n], outcomes[n].args);
        forall i | 0 <= i < |outcomes|
          ensures outcomes[i].Resolved? && Produced(fs[i], ArgsOf(outcomes)[i], r.value[i])
        {
          if i < n {
            assert pre[i] == outcomes[i] && ArgsOf(pre)[i] == ArgsOf(outcomes)[i] && r.value[i] == vs[i];
          }
        }
      }
    }
  }

  /** A successful build was made by running every factory the binding's kind calls, each
      on the values fetched for it. */
  lemma BuildSucceeds(binding: ResolvedBinding, outcomes: seq<DepsOutcome>)
    requires Tried(binding, outcomes) && AllFit(binding, outcomes)
    ensures var r := BindingResult(binding, outcomes);
      r.Ok? ==> Built(binding, ArgsOf(outcomes), r.value) && forall i | 0 <= i < |outcomes| :: outcomes[i].Resolved?
  {
    var r := BindingResult(binding, outcomes);
    if r.Ok? {
      if binding.multiBinding {
        MultiResultOk(binding, outcomes);
      } else {
        var o := outcomes[0];
        assert o.Resolved? && Fits(binding.resolvedFactories[0], o);
        FactoryResultProduced(binding, binding.resolvedFactories[0], o);
      }
    }
  }

  lemma FactoryResultProduced(binding: ResolvedBinding, rf: ResolvedFactory, outcome: DepsOutcome)
    requires CallFactory(binding, rf, outcome).Ok?
    requires outcome.Resolved? ==> |outcome.args| == FetchedCount(rf)
    ensures outcome.Resolved? && Produced(rf, outcome.args, CallFactory(binding, rf, outcome).value)
  {
    CallFactoryOk(binding, rf, outcome.args);
  }

  lemma {:induction false} MultiStandalone(binding: ResolvedBinding, outcomes: seq<DepsOutcome>)
    requires NoDependencies(binding) && |outcomes| <= |binding.resolvedFactories| && AllFit(binding, outcomes)
    ensures MultiResult(binding, outcomes) == StandaloneAll(binding, |outcomes|)
    decreases |outcomes|
  {
    if |outcomes| > 0 {
      var n := |outcomes| - 1;
      var pre := outcomes[..n];
      assert AllFit(binding, pre) by {
        assert forall i | 0 <= i < n :: pre[i] == outcomes[i];
      }
      MultiStandalone(binding, pre);
      assert Fits(binding.resolvedFactories[n], outcomes[n]);
      assert outcomes[n] == Resolved([]);
    }
  }

  lemma {:induction false} StandaloneAllSticks(binding: ResolvedBinding, m: nat, n: nat)
    requires m <= n <= |binding.resolvedFactories| && StandaloneAll(binding, m).Err?
    ensures StandaloneAll(binding, n) == StandaloneAll(binding, m)
    decreases n - m
  {
    if m < n {
      StandaloneAllSticks(binding, m, n - 1);
    }
  }

  /** A binding without dependencies builds to its closed form whatever runs it took. */
  lemma NoDependenciesBuild(binding: ResolvedBinding, outcomes: seq<DepsOutcome>)
    requires NoDependencies(binding) && Tried(binding, outcomes) && AllFit(binding, outcomes)
    ensures BindingResult(binding, outcomes) == Standalone(binding)
  {
    var fs := binding.resolvedFactories;
    if binding.multiBinding {
      MultiStandalone(binding, outcomes);
      if |outcomes| < |fs| {
        StandaloneAllSticks(binding, |outcomes|, |fs|);
      }
    } else if |fs| > 0 {
      assert Fits(fs[0], outcomes[0]);
      assert outcomes[0] == Resolved([]);
    }
  }

  /** `_new` on a binding without dependencies, within the maximum, gives the closed form. */
  lemma NewWithoutDependencies(binding: ResolvedBinding, counter: nat, cap: nat, outcomes: seq<DepsOutcome>, r: Result<Value, DiError>)
    requires NewResult(binding, counter, cap, outcomes, r) && NoDependencies(binding) && counter <= cap
    ensures r == Standalone(binding)
  {
    NoDependenciesBuild(binding, outcomes);
  }
}
