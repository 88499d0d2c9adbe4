/**
 * Where a lookup settles (injector.ts, `_getByKey`, `_getByKeySelf`, `_getByKeyHost`,
 * `_getPrivateDependency`, `_getByKeyDefault`). Which injector and which slot a lookup ends
 * at depends only on the templates along the parent chain and on the host flags, never on
 * which instances exist yet, so it is stated here over a value view of the chain: `view[0]`
 * is the injector asked, `view[i + 1]` the parent of `view[i]`.
 */
module Lookup {
  import opened Wrappers
  import opened Visibilities
  import opened DiTypes
  import opened ProtoInjectors

  /** What a lookup observes of one injector: the layout of its template and its host flag;
      the injector itself and its dependency provider matter only to the construction a
      lookup may start there. */
  datatype Frame = Frame(strategy: ProtoInjectorStrategy, isHost: bool, injector: object, provider: Option<DependencyProvider>)

  ghost predicate ValidView(view: seq<Frame>)
  {
    forall i | 0 <= i < |view| :: view[i].strategy.Valid()
  }

  /** The end of a lookup: the asking injector itself (`INJECTOR_KEY`), slot `slot` of the
      injector at `depth`, no visible binding on the walk, or a dereference of a missing
      parent. */
  datatype Target = InjectorItself | Found(depth: nat, slot: nat) | NotFound | NullParent

  /** `getObjByKeyId` on the injector at depth `j`, as far as choosing the slot goes. */
  function Probe(view: seq<Frame>, j: nat, keyId: KeyId, vis: Visibility): Option<nat>
    requires ValidView(view) && j < |view|
  {
    view[j].strategy.FirstMatch(keyId, vis)
  }

  function ProbeAt(view: seq<Frame>, j: nat, keyId: KeyId, vis: Visibility): (r: Target)
    requires ValidView(view) && j < |view|
    ensures r.Found? || r.NotFound?
    ensures r.Found? ==> r.depth == j && r.slot < view[j].strategy.SlotCount()
  {
    match Probe(view, j, keyId, vis)
    case Some(k) => Found(j, k)
    case None => NotFound
  }

  /** The visibility a default walk asks the parent of `f` for. */
  function NextVisibility(f: Frame): Visibility
  {
    if f.isHost then PublicAndPrivate else Public
  }

  /** The loop of `_getByKeyDefault` from depth `j`, asking with `vis`. */
  function DefaultFrom(view: seq<Frame>, keyId: KeyId, vis: Visibility, j: nat): (r: Target)
    requires ValidView(view) && j <= |view|
    decreases |view| - j
    ensures r.Found? || r.NotFound?
    ensures r.Found? ==> j <= r.depth < |view| && r.slot < view[r.depth].strategy.SlotCount()
  {
    if j == |view| then NotFound
    else match Probe(view, j, keyId, vis)
      case Some(k) => Found(j, k)
      case None => DefaultFrom(view, keyId, NextVisibility(view[j]), j + 1)
  }

  /** `_getByKeyDefault`: `SkipSelf` starts at the parent with the visibility the parent of
      this injector is asked for. */
  function DefaultTarget(view: seq<Frame>, d: nat, keyId: KeyId, vis: Visibility, lower: LowerBound): (r: Target)
    requires ValidView(view) && d < |view|
    ensures r.Found? || r.NotFound?
    ensures r.Found? ==> d <= r.depth < |view| && r.slot < view[r.depth].strategy.SlotCount()
    ensures r.Found? && lower == SkipSelf ==> d < r.depth
  {
    if lower == SkipSelf then DefaultFrom(view, keyId, NextVisibility(view[d]), d + 1)
    else DefaultFrom(view, keyId, vis, d)
  }

  /** `_getPrivateDependency(key, optional, inj)` with `inj` at depth `j`: the `Private`
      bindings of the parent, and a null dereference when there is no parent. */
  function PrivateTarget(view: seq<Frame>, keyId: KeyId, j: nat): (r: Target)
    requires ValidView(view) && j < |view|
    ensures r.Found? || r.NotFound? || r.NullParent?
    ensures r.NullParent? <==> j + 1 == |view|
    ensures r.Found? ==> r.depth == j + 1 && r.depth < |view| && r.slot < view[r.depth].strategy.SlotCount()
  {
    if j + 1 == |view| then NullParent else ProbeAt(view, j + 1, keyId, Private)
  }

  /** The loop of `_getByKeyHost` from depth `j`: the visibility never changes, and a miss at
      a host that has a parent ends the walk at that parent's `Private` bindings. */
  function HostFrom(view: seq<Frame>, keyId: KeyId, vis: Visibility, j: nat): (r: Target)
    requires ValidView(view) && j <= |view|
    decreases |view| - j
    ensures r.Found? || r.NotFound?
    ensures r.Found? ==> j <= r.depth < |view| && r.slot < view[r.depth].strategy.SlotCount()
  {
    if j == |view| then NotFound
    else match Probe(view, j, keyId, vis)
      case Some(k) => Found(j, k)
      case None =>
        if j + 1 < |view| && view[j].isHost then PrivateTarget(view, keyId, j)
        else HostFrom(view, keyId, vis, j + 1)
  }

  /** `_getByKeyHost`: `SkipSelf` on a host goes straight to the parent's `Private`
      bindings, and on a non-host starts the walk at the parent. */
  function HostTarget(view: seq<Frame>, d: nat, keyId: KeyId, vis: Visibility, lower: LowerBound): (r: Target)
    requires ValidView(view) && d < |view|
    ensures r.Found? || r.NotFound? || r.NullParent?
    ensures r.NullParent? <==> lower == SkipSelf && view[d].isHost && d + 1 == |view|
    ensures r.Found? ==> d <= r.depth < |view| && r.slot < view[r.depth].strategy.SlotCount()
    ensures r.Found? && lower == SkipSelf ==> d < r.depth
  {
    if lower == SkipSelf then
      if view[d].isHost then PrivateTarget(view, keyId, d) else HostFrom(view, keyId, vis, d + 1)
    else HostFrom(view, keyId, vis, d)
  }

  /** `_getByKey`: the injector key answers with the injector itself; otherwise the upper
      bound picks the walk. */
  function LookupTarget(view: seq<Frame>, d: nat, keyId: KeyId, lower: LowerBound, upper: UpperBound, vis: Visibility): (r: Target)
    requires ValidView(view) && d < |view|
    ensures r.InjectorItself? <==> keyId == InjectorKeyId
    ensures r.Found? ==> d <= r.depth < |view| && r.slot < view[r.depth].strategy.SlotCount()
    ensures r.Found? && upper == SelfOnly ==> r.depth == d
    ensures r.NullParent? ==> upper == HostOnly && lower == SkipSelf && view[d].isHost && d + 1 == |view|
  {
    if keyId == InjectorKeyId then InjectorItself
    else match upper
      case SelfOnly => ProbeAt(view, d, keyId, vis)
      case HostOnly => HostTarget(view, d, keyId, vis, lower)
      case NoUpperBound => DefaultTarget(view, d, keyId, vis, lower)
  }

  // ----- The default walk -----

  /** The visibility a default walk started at `start` with `vis` asks depth `j` for: `vis`
      itself at the start, then `PublicAndPrivate` above a host and `Public` above any other
      injector. */
  function WalkVisibility(view: seq<Frame>, vis: Visibility, start: nat, j: nat): Visibility
    requires start <= j < |view|
  {
    if j == start then vis else NextVisibility(view[j - 1])
  }

  /** The default walk ends at the nearest depth whose template has a binding it can see with
      the visibility in force there. */
  lemma {:induction false} DefaultFromIsNearestVisible(view: seq<Frame>, keyId: KeyId, vis: Visibility, start: nat)
    requires ValidView(view) && start <= |view|
    ensures var r := DefaultFrom(view, keyId, vis, start);
      r.Found? ==>
        Probe(view, r.depth, keyId, WalkVisibility(view, vis, start, r.depth)) == Some(r.slot) &&
        forall i | start <= i < r.depth :: Probe(view, i, keyId, WalkVisibility(view, vis, start, i)).None?
    decreases |view| - start
  {
    if start < |view| && Probe(view, start, keyId, vis).None? {
      var next := NextVisibility(view[start]);
      DefaultFromIsNearestVisible(view, keyId, next, start + 1);
      var r := DefaultFrom(view, keyId, next, start + 1);
      assert DefaultFrom(view, keyId, vis, start) == r;
      if r.Found? {
        assert WalkVisibility(view, next, start + 1, r.depth) == WalkVisibility(view, vis, start, r.depth);
        forall i | start <= i < r.depth
          ensures Probe(view, i, keyId, WalkVisibility(view, vis, start, i)).None?
        {
          if start < i {
            assert WalkVisibility(view, next, start + 1, i) == WalkVisibility(view, vis, start, i);
          }
        }
      }
    }
  }

  /** The default walk reports `NotFound` exactly when no depth from `start` on has a binding
      it can see with the visibility in force there. */
  lemma {:induction false} DefaultFromNotFound(view: seq<Frame>, keyId: KeyId, vis: Visibility, start: nat)
    requires ValidView(view) && start <= |view|
    ensures DefaultFrom(view, keyId, vis, start).NotFound? <==>
      forall i | start <= i < |view| :: Probe(view, i, keyId, WalkVisibility(view, vis, start, i)).None?
    decreases |view| - start
  {
    if start < |view| && Probe(view, start, keyId, vis).None? {
      var next := NextVisibility(view[start]);
      DefaultFromNotFound(view, keyId, next, start + 1);
      if DefaultFrom(view, keyId, next, start + 1).NotFound? {
        forall i | start <= i < |view|
          ensures Probe(view, i, keyId, WalkVisibility(view, vis, start, i)).None?
        {
          if start < i {
            assert WalkVisibility(view, next, start + 1, i) == WalkVisibility(view, vis, start, i);
          }
        }
      } else {
        var i :| start + 1 <= i < |view| && Probe(view, i, keyId, WalkVisibility(view, next, start + 1, i)).Some?;
        assert WalkVisibility(view, next, start + 1, i) == WalkVisibility(view, vis, start, i);
      }
    } else if start < |view| {
      assert WalkVisibility(view, vis, start, start) == vis;
    }
  }

  /** A template whose bindings are all `Public` answers a `PublicAndPrivate` walk as it
      answers a `Public` one. */
  lemma DefaultFromAllPublic(view: seq<Frame>, keyId: KeyId, j: nat)
    requires ValidView(view) && j < |view| && view[j].strategy.AllPublic()
    ensures DefaultFrom(view, keyId, PublicAndPrivate, j) == DefaultFrom(view, keyId, Public, j)
  {
    AllPublicLookups(view[j].strategy, keyId);
  }

  function Shift(t: Target): Target
  {
    if t.Found? then Found(t.depth + 1, t.slot) else t
  }

  /** Putting a child below a view (`cv[1..]` is the view, `cv[0]` the child) moves every
      default walk one level up and changes nothing else. */
  lemma {:induction false} DefaultFromBelowChild(cv: seq<Frame>, keyId: KeyId, vis: Visibility, j: nat)
    requires ValidView(cv) && 0 < |cv| && j < |cv|
    ensures ValidView(cv[1..])
    ensures DefaultFrom(cv, keyId, vis, j + 1) == Shift(DefaultFrom(cv[1..], keyId, vis, j))
    decreases |cv| - j
  {
    var view := cv[1..];
    if j < |view| {
      assert cv[j + 1] == view[j];
      assert Probe(cv, j + 1, keyId, vis) == Probe(view, j, keyId, vis);
      if Probe(view, j, keyId, vis).None? {
        DefaultFromBelowChild(cv, keyId, NextVisibility(view[j]), j + 1);
      }
    }
  }

  /** A lookup from a child (`cv[0]` the child, `cv[1]` its parent) with no binding for the
      key continues as the parent's default walk one level up, asked with the visibility
      the child passes up: `Public` from a regular child, `PublicAndPrivate` from a host.
      A child with a binding for the key answers from its own slot. */
  lemma ChildFallsBackToParent(cv: seq<Frame>, keyId: KeyId)
    requires ValidView(cv) && 1 < |cv| && keyId != InjectorKeyId
    ensures ValidView(cv[1..])
    ensures cv[0].strategy.FirstMatch(keyId, PublicAndPrivate).None? ==>
      LookupTarget(cv, 0, keyId, NoLowerBound, NoUpperBound, PublicAndPrivate) ==
      Shift(DefaultFrom(cv[1..], keyId, NextVisibility(cv[0]), 0))
    ensures cv[0].strategy.FirstMatch(keyId, PublicAndPrivate).Some? ==>
      LookupTarget(cv, 0, keyId, NoLowerBound, NoUpperBound, PublicAndPrivate) ==
      Found(0, cv[0].strategy.FirstMatch(keyId, PublicAndPrivate).value)
  {
    if cv[0].strategy.FirstMatch(keyId, PublicAndPrivate).None? {
      DefaultFromBelowChild(cv, keyId, NextVisibility(cv[0]), 0);
    }
  }

  /** `createChildFromResolved`, seen from a lookup: a regular child with no binding for the
      key answers a `get` exactly as its parent does one level up, when the parent's
      bindings are all `Public` (a root made by `fromResolvedBindings`, or another such
      child); a child with a binding for the key answers from its own slot. */
  lemma ChildDefersToParent(cv: seq<Frame>, keyId: KeyId)
    requires ValidView(cv) && 1 < |cv|
    requires !cv[0].isHost && cv[1].strategy.AllPublic() && keyId != InjectorKeyId
    ensures ValidView(cv[1..])
    ensures cv[0].strategy.FirstMatch(keyId, PublicAndPrivate).None? ==>
      LookupTarget(cv, 0, keyId, NoLowerBound, NoUpperBound, PublicAndPrivate) ==
      Shift(LookupTarget(cv[1..], 0, keyId, NoLowerBound, NoUpperBound, PublicAndPrivate))
    ensures cv[0].strategy.FirstMatch(keyId, PublicAndPrivate).Some? ==>
      LookupTarget(cv, 0, keyId, NoLowerBound, NoUpperBound, PublicAndPrivate) ==
      Found(0, cv[0].strategy.FirstMatch(keyId, PublicAndPrivate).value)
  {
    var view := cv[1..];
    assert view[0] == cv[1];
    ChildFallsBackToParent(cv, keyId);
    if cv[0].strategy.FirstMatch(keyId, PublicAndPrivate).None? {
      DefaultFromAllPublic(view, keyId, 0);
    }
  }

  // ----- The host walk -----

  /** A host walk that meets a host with a parent at depth `h` consults the injectors from
      `start` up to `h` with the requested visibility and then only the `Private` bindings of
      the parent of `h`; nothing beyond depth `h + 1` is seen. This lemma covers a hit at or
      below `h`, `HostFromAtParent` one at the parent. */
  lemma {:induction false} HostFromStopsAtHost(view: seq<Frame>, keyId: KeyId, vis: Visibility, start: nat, h: nat)
    requires ValidView(view) && start <= h && h + 1 < |view| && view[h].isHost
    requires forall i | start <= i < h :: !view[i].isHost
    ensures HostFrom(view, keyId, vis, start).Found? ==> HostFrom(view, keyId, vis, start).depth <= h + 1
    ensures var r := HostFrom(view, keyId, vis, start);
      r.Found? && r.depth <= h ==>
        Probe(view, r.depth, keyId, vis) == Some(r.slot) &&
        forall i | start <= i < r.depth :: Probe(view, i, keyId, vis).None?
    decreases h - start
  {
    var r := HostFrom(view, keyId, vis, start);
    if Probe(view, start, keyId, vis).Some? {
      assert r == Found(start, Probe(view, start, keyId, vis).value);
    } else if start == h {
      assert r == PrivateTarget(view, keyId, h);
    } else {
      assert r == HostFrom(view, keyId, vis, start + 1);
      HostFromStopsAtHost(view, keyId, vis, start + 1, h);
      if r.Found? && r.depth <= h {
        MissesExtend(view, keyId, vis, start, r.depth);
      }
    }
  }

  /** A host walk that meets a host with a parent at depth `h` and settles at the parent has
      missed with the requested visibility from `start` up to `h` and found a `Private`
      binding in the parent. */
  lemma {:induction false} HostFromAtParent(view: seq<Frame>, keyId: KeyId, vis: Visibility, start: nat, h: nat)
    requires ValidView(view) && start <= h && h + 1 < |view| && view[h].isHost
    requires forall i | start <= i < h :: !view[i].isHost
    ensures var r := HostFrom(view, keyId, vis, start);
      r.Found? && r.depth == h + 1 ==>
        Probe(view, h + 1, keyId, Private) == Some(r.slot) &&
        forall i | start <= i <= h :: Probe(view, i, keyId, vis).None?
    decreases h - start
  {
    var r := HostFrom(view, keyId, vis, start);
    if Probe(view, start, keyId, vis).Some? {
      assert r == Found(start, Probe(view, start, keyId, vis).value);
    } else if start == h {
      assert r == PrivateTarget(view, keyId, h);
    } else {
      assert r == HostFrom(view, keyId, vis, start + 1);
      HostFromAtParent(view, keyId, vis, start + 1, h);
      if r.Found? && r.depth == h + 1 {
        MissesExtend(view, keyId, vis, start, h + 1);
      }
    }
  }

  lemma MissesExtend(view: seq<Frame>, keyId: KeyId, vis: Visibility, start: nat, e: nat)
    requires ValidView(view) && start < e <= |view| && Probe(view, start, keyId, vis).None?
    requires forall i | start + 1 <= i < e :: Probe(view, i, keyId, vis).None?
    ensures forall i | start <= i < e :: Probe(view, i, keyId, vis).None?
  {
  }

  /** A host walk that meets a host with a parent at depth `h` reports `NotFound` exactly
      when no injector from `start` up to `h` has a visible binding and the parent of `h`
      has no `Private` one. */
  lemma {:induction false} HostFromMissesAtHost(view: seq<Frame>, keyId: KeyId, vis: Visibility, start: nat, h: nat)
    requires ValidView(view) && start <= h && h + 1 < |view| && view[h].isHost
    requires forall i | start <= i < h :: !view[i].isHost
    ensures HostFrom(view, keyId, vis, start).NotFound? <==>
      Probe(view, h + 1, keyId, Private).None? &&
      forall i | start <= i <= h :: Probe(view, i, keyId, vis).None?
    decreases h - start
  {
    var r := HostFrom(view, keyId, vis, start);
    if Probe(view, start, keyId, vis).Some? {
      assert r == Found(start, Probe(view, start, keyId, vis).value);
    } else if start == h {
      assert r == PrivateTarget(view, keyId, h);
    } else {
      assert r == HostFrom(view, keyId, vis, start + 1);
      HostFromMissesAtHost(view, keyId, vis, start + 1, h);
    }
  }

  /** A host walk that meets no host with a parent is a first-match search of the whole
      rest of the chain with the requested visibility. */
  lemma {:induction false} HostFromWithoutHost(view: seq<Frame>, keyId: KeyId, vis: Visibility, start: nat)
    requires ValidView(view) && start <= |view|
    requires forall i | start <= i < |view| - 1 :: !view[i].isHost
    ensures var r := HostFrom(view, keyId, vis, start);
      (r.Found? ==>
        Probe(view, r.depth, keyId, vis) == Some(r.slot) &&
        forall i | start <= i < r.depth :: Probe(view, i, keyId, vis).None?) &&
      (r.NotFound? <==> forall i | start <= i < |view| :: Probe(view, i, keyId, vis).None?)
    decreases |view| - start
  {
    if start < |view| && Probe(view, start, keyId, vis).None? {
      HostFromWithoutHost(view, keyId, vis, start + 1);
      var r := HostFrom(view, keyId, vis, start + 1);
      if r.Found? {
        MissesExtend(view, keyId, vis, start, r.depth);
      } else {
        MissesExtend(view, keyId, vis, start, |view|);
      }
    }
  }

  /** `@SkipSelf() @Host()` on a host: only the parent's `Private` bindings are consulted, and
      a host without a parent dereferences the missing parent. */
  lemma SkipSelfOnHost(view: seq<Frame>, d: nat, keyId: KeyId, vis: Visibility)
    requires ValidView(view) && d < |view| && view[d].isHost && keyId != InjectorKeyId
    ensures var r := LookupTarget(view, d, keyId, SkipSelf, HostOnly, vis);
      if d + 1 == |view| then r == NullParent
      else match Probe(view, d + 1, keyId, Private)
        case Some(k) => r == Found(d + 1, k)
        case None => r == NotFound
  {
  }

  // ----- Unbound keys -----

  /** No injector from depth `from` on stores a binding for the key. */
  ghost predicate Unbound(view: seq<Frame>, keyId: KeyId, from: nat)
    requires ValidView(view)
  {
    forall i, s | from <= i < |view| && 0 <= s < view[i].strategy.SlotCount() ::
      view[i].strategy.EntryKeyId(s) != Some(keyId)
  }

  lemma UnboundProbe(view: seq<Frame>, keyId: KeyId, from: nat, j: nat, vis: Visibility)
    requires ValidView(view) && Unbound(view, keyId, from) && from <= j < |view|
    ensures Probe(view, j, keyId, vis).None?
  {
    var s := view[j].strategy;
    assert forall k | 0 <= k < s.SlotCount() :: !s.Matches(k, keyId, vis);
  }

  lemma {:induction false} UnboundWalks(view: seq<Frame>, keyId: KeyId, vis: Visibility, from: nat, j: nat)
    requires ValidView(view) && Unbound(view, keyId, from) && from <= j <= |view|
    ensures DefaultFrom(view, keyId, vis, j) == NotFound
    ensures HostFrom(view, keyId, vis, j) == NotFound
    decreases |view| - j
  {
    if j < |view| {
      UnboundProbe(view, keyId, from, j, vis);
      UnboundWalks(view, keyId, NextVisibility(view[j]), from, j + 1);
      UnboundWalks(view, keyId, vis, from, j + 1);
      if j + 1 < |view| {
        UnboundProbe(view, keyId, from, j + 1, Private);
      }
    }
  }

  /** A key bound nowhere on the chain is never found: every lookup mode reports `NotFound`,
      except `@SkipSelf() @Host()` asked of a host without a parent. */
  lemma UnboundKeyIsNotFound(view: seq<Frame>, d: nat, keyId: KeyId, lower: LowerBound, upper: UpperBound, vis: Visibility)
    requires ValidView(view) && d < |view| && Unbound(view, keyId, d) && keyId != InjectorKeyId
    ensures var r := LookupTarget(view, d, keyId, lower, upper, vis);
      r == (if upper == HostOnly && lower == SkipSelf && view[d].isHost && d + 1 == |view| then NullParent else NotFound)
  {
    UnboundWalks(view, keyId, vis, d, d);
    UnboundWalks(view, keyId, vis, d, d + 1);
    UnboundWalks(view, keyId, NextVisibility(view[d]), d, d + 1);
    UnboundProbe(view, keyId, d, d, vis);
    if d + 1 < |view| {
      UnboundProbe(view, keyId, d, d + 1, Private);
    }
  }
}
