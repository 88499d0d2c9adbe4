/**
 * The binding-storage template of an injector (injector.ts, `ProtoInjector` with its
 * `ProtoInjectorInlineStrategy` and `ProtoInjectorDynamicStrategy`). A template is never
 * changed after it is built, so it is a value here.
 */
module ProtoInjectors {
  import opened Wrappers
  import opened Visibilities
  import opened DiTypes

  /** `_MAX_CONSTRUCTION_COUNTER`: the number of inline slots, the binding count above which
      the dynamic layout is chosen, and the construction bound of an inline injector. */
  const MaxConstructionCounter: nat := 10

  /** A binding paired with the visibility it is stored under. */
  datatype BindingWithVisibility = BindingWithVisibility(binding: ResolvedBinding, visibility: Visibility)
  {
    function GetKeyId(): KeyId { binding.key }
  }

  /** The inline layout keeps ten named slots `binding0..9`, `keyId0..9`, `visibility0..9`,
      each `null` (`None`) when unused; the dynamic layout keeps three parallel arrays. */
  datatype ProtoInjectorStrategy =
    | InlineStrategy(binding: seq<Option<ResolvedBinding>>, keyId: seq<Option<KeyId>>, visibility: seq<Option<Visibility>>)
    | DynamicStrategy(bindings: seq<ResolvedBinding>, keyIds: seq<KeyId>, visibilities: seq<Visibility>)
  {
    /** The slots are parallel, a used slot has all three parts, and its key id is the key of
        its binding (`BindingWithVisibility.getKeyId`). */
    ghost predicate Valid()
    {
      match this
      case InlineStrategy(b, k, v) =>
        |b| == MaxConstructionCounter && |k| == MaxConstructionCounter && |v| == MaxConstructionCounter &&
        forall i | 0 <= i < MaxConstructionCounter ::
          b[i].Some? == k[i].Some? && b[i].Some? == v[i].Some? && (b[i].Some? ==> k[i] == Some(b[i].value.key))
      case DynamicStrategy(b, k, v) =>
        |k| == |b| && |v| == |b| && forall i | 0 <= i < |b| :: k[i] == b[i].key
    }

    /** The number of slots: ten inline, one per binding in the dynamic layout. It is also the
        number of instance slots an injector built from this template keeps. */
    function SlotCount(): nat
    {
      match this
      case InlineStrategy(_, _, _) => MaxConstructionCounter
      case DynamicStrategy(b, _, _) => |b|
    }

    function EntryBinding(i: nat): Option<ResolvedBinding>
      requires Valid() && i < SlotCount()
    {
      match this
      case InlineStrategy(b, _, _) => b[i]
      case DynamicStrategy(b, _, _) => Some(b[i])
    }

    function EntryKeyId(i: nat): Option<KeyId>
      requires Valid() && i < SlotCount()
    {
      match this
      case InlineStrategy(_, k, _) => k[i]
      case DynamicStrategy(_, k, _) => Some(k[i])
    }

    function EntryVisibility(i: nat): Option<Visibility>
      requires Valid() && i < SlotCount()
    {
      match this
      case InlineStrategy(_, _, v) => v[i]
      case DynamicStrategy(_, _, v) => Some(v[i])
    }

    /** The test an injector strategy applies to slot `i`: its key id is `keyId` and its
        visibility can see the requested one (`p.keyIdN === keyId && canSee(p.visibilityN, visibility)`). */
    predicate Matches(i: nat, keyId: KeyId, vis: Visibility)
      requires Valid()
    {
      i < SlotCount() && EntryKeyId(i) == Some(keyId) && EntryVisibility(i).Some? &&
      CanSee(EntryVisibility(i).value, vis)
    }

    /** The first slot, at `i` or later, that matches. */
    function FirstMatchFrom(keyId: KeyId, vis: Visibility, i: nat): (r: Option<nat>)
      requires Valid() && i <= SlotCount()
      decreases SlotCount() - i
      ensures r.Some? ==>
        i <= r.value < SlotCount() && Matches(r.value, keyId, vis) &&
        forall j | i <= j < r.value :: !Matches(j, keyId, vis)
      ensures r.None? ==> forall j | i <= j < SlotCount() :: !Matches(j, keyId, vis)
    {
      if i == SlotCount() then None
      else if Matches(i, keyId, vis) then Some(i)
      else FirstMatchFrom(keyId, vis, i + 1)
    }

    /** The slot `getObjByKeyId` settles on: the first one in index order whose key id is
        `keyId` and whose visibility can see `vis`, or none. */
    function FirstMatch(keyId: KeyId, vis: Visibility): (r: Option<nat>)
      requires Valid()
      ensures r.Some? ==>
        r.value < SlotCount() && Matches(r.value, keyId, vis) &&
        forall j | 0 <= j < r.value :: !Matches(j, keyId, vis)
      ensures r.None? <==> forall j | 0 <= j < SlotCount() :: !Matches(j, keyId, vis)
    {
      FirstMatchFrom(keyId, vis, 0)
    }

    /** `getBindingAtIndex`: the inline layout answers any index 0 through 9, with `null`
        for an unused slot, and fails otherwise; the dynamic layout fails exactly outside
        `0 <= index < length`. */
    function GetBindingAtIndex(index: int): (r: Result<Option<ResolvedBinding>, DiError>)
      requires Valid()
      ensures r.Err? <==> index < 0 || index >= SlotCount()
      ensures r.Err? ==> r.error == OutOfBounds(index)
      ensures r.Ok? ==> r.value == EntryBinding(index)
      ensures r.Ok? && DynamicStrategy? ==> r.value.Some?
    {
      match this
      case InlineStrategy(b, _, _) =>
        if 0 <= index < MaxConstructionCounter then Ok(b[index]) else Err(OutOfBounds(index))
      case DynamicStrategy(b, _, _) =>
        if index < 0 || index >= |b| then Err(OutOfBounds(index)) else Ok(Some(b[index]))
    }

    /** Every stored binding has visibility `Public` (the templates `fromResolvedBindings` and
        `createChildFromResolved` build). */
    ghost predicate AllPublic()
      requires Valid()
    {
      forall i | 0 <= i < SlotCount() :: EntryVisibility(i).Some? ==> EntryVisibility(i).value == Public
    }
  }

  /** The inline constructor: slot `k` takes entry `k` when `length > k` and stays `null`
      otherwise. */
  function NewInlineStrategy(bwv: seq<BindingWithVisibility>): (s: ProtoInjectorStrategy)
    ensures s.InlineStrategy? && s.Valid()
  {
    InlineStrategy(
      seq(MaxConstructionCounter, k requires 0 <= k < MaxConstructionCounter => if k < |bwv| then Some(bwv[k].binding) else None),
      seq(MaxConstructionCounter, k requires 0 <= k < MaxConstructionCounter => if k < |bwv| then Some(bwv[k].GetKeyId()) else None),
      seq(MaxConstructionCounter, k requires 0 <= k < MaxConstructionCounter => if k < |bwv| then Some(bwv[k].visibility) else None))
  }

  /** What the dynamic constructor produces: the three parallel arrays of the entries. */
  function DynamicStrategyOf(bwv: seq<BindingWithVisibility>): (s: ProtoInjectorStrategy)
    ensures s.DynamicStrategy? && s.Valid() && s.SlotCount() == |bwv|
  {
    DynamicStrategy(
      seq(|bwv|, i requires 0 <= i < |bwv| => bwv[i].binding),
      seq(|bwv|, i requires 0 <= i < |bwv| => bwv[i].GetKeyId()),
      seq(|bwv|, i requires 0 <= i < |bwv| => bwv[i].visibility))
  }

  /** The dynamic constructor: fills the three arrays entry by entry. */
  method NewDynamicStrategy(bwv: seq<BindingWithVisibility>) returns (s: ProtoInjectorStrategy)
    ensures s == DynamicStrategyOf(bwv)
  {
    var bindings: seq<ResolvedBinding> := [];
    var keyIds: seq<KeyId> := [];
    var visibilities: seq<Visibility> := [];
    for i := 0 to |bwv|
      invariant |bindings| == i && |keyIds| == i && |visibilities| == i
      invariant forall j | 0 <= j < i ::
        bindings[j] == bwv[j].binding && keyIds[j] == bwv[j].GetKeyId() && visibilities[j] == bwv[j].visibility
    {
      bindings := bindings + [bwv[i].binding];
      keyIds := keyIds + [bwv[i].GetKeyId()];
      visibilities := visibilities + [bwv[i].visibility];
    }
    s := DynamicStrategy(bindings, keyIds, visibilities);
  }

  /** The immutable template an injector is built from. */
  datatype ProtoInjector = ProtoInjector(strategy: ProtoInjectorStrategy, numberOfBindings: nat)
  {
    /** The layout agrees with the binding count: dynamic exactly above ten, one dynamic slot
        per binding, and the first `numberOfBindings` inline slots used. */
    ghost predicate Valid()
    {
      strategy.Valid() &&
      (numberOfBindings > MaxConstructionCounter <==> strategy.DynamicStrategy?) &&
      (strategy.DynamicStrategy? ==> |strategy.bindings| == numberOfBindings) &&
      (strategy.InlineStrategy? ==>
        forall k | 0 <= k < MaxConstructionCounter :: strategy.binding[k].Some? <==> k < numberOfBindings)
    }

    function GetBindingAtIndex(index: int): (r: Result<Option<ResolvedBinding>, DiError>)
      requires strategy.Valid()
    {
      strategy.GetBindingAtIndex(index)
    }
  }

  /** The `ProtoInjector` constructor: dynamic layout iff there are more than ten entries,
      and either way the entries stored in their given order. */
  method NewProtoInjector(bwv: seq<BindingWithVisibility>) returns (p: ProtoInjector)
    ensures p.Valid() && p.numberOfBindings == |bwv|
    ensures p.strategy.DynamicStrategy? <==> |bwv| > MaxConstructionCounter
    ensures |bwv| <= p.strategy.SlotCount()
    ensures forall i | 0 <= i < |bwv| ::
      p.strategy.EntryBinding(i) == Some(bwv[i].binding) &&
      p.strategy.EntryKeyId(i) == Some(bwv[i].GetKeyId()) &&
      p.strategy.EntryVisibility(i) == Some(bwv[i].visibility) &&
      p.GetBindingAtIndex(i) == Ok(Some(bwv[i].binding))
    ensures forall i | |bwv| <= i < p.strategy.SlotCount() :: p.strategy.EntryBinding(i) == None
  {
    var strategy;
    if |bwv| > MaxConstructionCounter {
      strategy := NewDynamicStrategy(bwv);
    } else {
      strategy := NewInlineStrategy(bwv);
    }
    p := ProtoInjector(strategy, |bwv|);
  }

  /** The two layouts are interchangeable for up to ten entries: the same bindings, key ids
      and visibilities at the same positions, the same first matching slot for every lookup,
      and the same `getBindingAtIndex` answer at every stored position. They differ only on
      in-range unused inline slots, where the inline layout answers `null` and the dynamic
      one fails with `OutOfBounds`. */
  lemma StrategiesAgree(bwv: seq<BindingWithVisibility>, keyId: KeyId, vis: Visibility)
    requires |bwv| <= MaxConstructionCounter
    ensures var inline, dynamic := NewInlineStrategy(bwv), DynamicStrategyOf(bwv);
      (forall i | 0 <= i < |bwv| ::
        inline.EntryBinding(i) == dynamic.EntryBinding(i) &&
        inline.EntryKeyId(i) == dynamic.EntryKeyId(i) &&
        inline.EntryVisibility(i) == dynamic.EntryVisibility(i) &&
        inline.GetBindingAtIndex(i) == dynamic.GetBindingAtIndex(i)) &&
      inline.FirstMatch(keyId, vis) == dynamic.FirstMatch(keyId, vis) &&
      (forall i | |bwv| <= i < MaxConstructionCounter ::
        inline.GetBindingAtIndex(i) == Ok(None) && dynamic.GetBindingAtIndex(i) == Err(OutOfBounds(i)))
  {
    var inline, dynamic := NewInlineStrategy(bwv), DynamicStrategyOf(bwv);
    forall i | 0 <= i < MaxConstructionCounter
      ensures inline.Matches(i, keyId, vis) == (i < |bwv| && dynamic.Matches(i, keyId, vis))
    {
    }
    FirstMatchSame(inline, dynamic, keyId, vis, 0);
  }

  /** Two layouts whose matching slots coincide settle on the same first slot. */
  lemma {:induction false} FirstMatchSame(a: ProtoInjectorStrategy, b: ProtoInjectorStrategy, keyId: KeyId, vis: Visibility, i: nat)
    requires a.Valid() && b.Valid() && b.SlotCount() <= a.SlotCount() && i <= b.SlotCount()
    requires forall j | 0 <= j < a.SlotCount() :: a.Matches(j, keyId, vis) == (j < b.SlotCount() && b.Matches(j, keyId, vis))
    ensures a.FirstMatchFrom(keyId, vis, i) == b.FirstMatchFrom(keyId, vis, i)
    decreases b.SlotCount() - i
  {
    if i < b.SlotCount() && !b.Matches(i, keyId, vis) {
      FirstMatchSame(a, b, keyId, vis, i + 1);
    } else if i == b.SlotCount() {
      NoMatchBeyond(a, keyId, vis, i, b.SlotCount());
    }
  }

  lemma NoMatchBeyond(a: ProtoInjectorStrategy, keyId: KeyId, vis: Visibility, i: nat, n: nat)
    requires a.Valid() && i <= a.SlotCount() && n <= i
    requires forall j | n <= j < a.SlotCount() :: !a.Matches(j, keyId, vis)
    ensures a.FirstMatchFrom(keyId, vis, i) == None
  {
  }

  /** In a template whose bindings are all `Public`, a `Public` lookup and a
      `PublicAndPrivate` lookup settle on the same slot, and a `Private` lookup finds nothing. */
  lemma AllPublicLookups(s: ProtoInjectorStrategy, keyId: KeyId)
    requires s.Valid() && s.AllPublic()
    ensures s.FirstMatch(keyId, Public) == s.FirstMatch(keyId, PublicAndPrivate)
    ensures s.FirstMatch(keyId, Private) == None
  {
    forall j | 0 <= j < s.SlotCount()
      ensures s.Matches(j, keyId, Public) == s.Matches(j, keyId, PublicAndPrivate)
      ensures !s.Matches(j, keyId, Private)
    {
    }
    FirstMatchFromAgree(s, keyId, Public, PublicAndPrivate, 0);
  }

  lemma {:induction false} FirstMatchFromAgree(s: ProtoInjectorStrategy, keyId: KeyId, v1: Visibility, v2: Visibility, i: nat)
    requires s.Valid() && i <= s.SlotCount()
    requires forall j | 0 <= j < s.SlotCount() :: s.Matches(j, keyId, v1) == s.Matches(j, keyId, v2)
    ensures s.FirstMatchFrom(keyId, v1, i) == s.FirstMatchFrom(keyId, v2, i)
    decreases s.SlotCount() - i
  {
    if i < s.SlotCount() {
      FirstMatchFromAgree(s, keyId, v1, v2, i + 1);
    }
  }
}
