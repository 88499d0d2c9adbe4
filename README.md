# Angular 2 dependency injector and NgFor, modelled in Dafny

This project models two parts of Angular 2 (alpha).

**The hierarchical dependency injector** (`modules/angular2/src/core/di/injector.ts`):

- An `Injector` is built from an immutable `ProtoInjector` template. The template stores its bindings either in ten inline slots or, beyond ten bindings, in three parallel arrays.
- Each injector keeps one instance slot per template slot.
- A lookup of a key walks up the parent chain as its dependency's bounds dictate: `@Self`, `@Host`, `@SkipSelf`, or the default walk. Which bindings it may see depends on the visibility rules of `canSee` and on host boundaries.
- The first time a lookup settles on a slot, the slot's binding is built. Building resolves the binding's own dependencies through further lookups, and the result is cached in the slot.
- A construction counter guards against cyclic dependencies.

**The `NgFor` directive** (`modules/angular2/src/core/directives/ng_for.ts`):

- NgFor keeps a view container showing one embedded view per item of its collection.
- It applies the change records the differ reports in three steps:
  - it detaches or removes the views of removed and moved records, highest previous index first;
  - it re-inserts the moved views and creates views for added records, in ascending current index;
  - it sets the `$implicit`, `index`, `even`, `odd` and `last` locals.

Dafny modules:

| module | holds |
|---|---|
| `Wrappers` | Option and Result |
| `Visibilities` | `canSee` |
| `DiTypes` | keys, dependencies, bindings, factories, errors |
| `ProtoInjectors` | the two template layouts |
| `Lookup` | where each kind of lookup settles, as pure functions of the chain |
| `InjectorStates` | how a lookup may change the chain's counters and instance slots |
| `Injectors` | the `Injector` class, its slots as an `array` |
| `Positions` | positional editing of sequences |
| `ForChanges` | change records, tuples, the two sorts |
| `ViewContainers` | the view container NgFor edits |
| `ForSteps`, `ForApply` | the loop invariants and the correctness argument of `_applyChanges` |
| `NgFors` | the `NgFor` class |

Two design choices run through the model:

- The injector's recursive engine carries the finite parent chain as a ghost argument.
- Each lookup is specified against a pure description of where it settles. Its effect is stated as "counters only grow, and a filled slot keeps its instance".

## Model

| member | source | states |
|---|---|---|
| Visibilities.CanSeeLattice | modules/angular2/src/core/di/injector.ts:48-51 | A binding answers a request when the visibilities are equal or either is `PublicAndPrivate`. The relation is symmetric and reflexive, and `Public` and `Private` never see each other. |
| Visibilities.CanSeeFailsOnlyBetweenPublicAndPrivate | modules/angular2/src/core/di/injector.ts:48-51 | The only failing pairs are `Public`/`Private` in either order. |
| ProtoInjectors.NewInlineStrategy | modules/angular2/src/core/di/injector.ts:93-146 | The inline layout is well formed. |
| ProtoInjectors.DynamicStrategyOf | modules/angular2/src/core/di/injector.ts:172-184 | The dynamic layout is well formed with exactly one slot per binding. |
| ProtoInjectors.NewDynamicStrategy | modules/angular2/src/core/di/injector.ts:172-184 | The entry-by-entry loop produces the dynamic layout of the bindings. |
| ProtoInjectors.NewProtoInjector | modules/angular2/src/core/di/injector.ts:203-209 | The dynamic layout is chosen exactly when there are more than ten bindings. Every binding, key id and visibility is stored at its own index, slots past the bindings are empty, and `getBindingAtIndex` returns binding i. |
| ProtoInjectors.ProtoInjectorStrategy.GetBindingAtIndex | modules/angular2/src/core/di/injector.ts:148-160 | `OutOfBounds(index)` exactly for indices outside the layout's slots. Otherwise it gives the stored entry, which the dynamic layout never leaves empty. |
| ProtoInjectors.ProtoInjectorStrategy.FirstMatch | modules/angular2/src/core/di/injector.ts:251-317 | The lowest slot whose key id matches and whose visibility can see the request. It is `None` exactly when no slot matches. |
| ProtoInjectors.ProtoInjectorStrategy.FirstMatchFrom | modules/angular2/src/core/di/injector.ts:357-371 | The scan from slot i finds the first matching slot at or after i, or reports that none matches. |
| ProtoInjectors.StrategiesAgree | modules/angular2/src/core/di/injector.ts:93-191 | For up to ten bindings both layouts store the same entries and find the same first match. Past the bindings, the inline layout answers empty where the dynamic one reports `OutOfBounds`. |
| ProtoInjectors.AllPublicLookups | modules/angular2/src/core/di/injector.ts:687-693 | In an all-`Public` template, a `Public` request finds what a `PublicAndPrivate` request finds, and a `Private` request finds nothing. |
| DiTypes.AddKey | modules/angular2/src/core/di/injector.ts:799-804 | A keyed error raised while fetching dependencies keeps its kind and cause and gets the binding's key appended. Any other error passes through unchanged. |
| DiTypes.ThrowOrNull | modules/angular2/src/core/di/injector.ts:913-919 | `null` exactly for an optional lookup, `NoBinding([key])` otherwise. |
| DiTypes.CallFactoryErrors | modules/angular2/src/core/di/injector.ts:799-878 | A failure of `_instantiate` is either keyed and ends with the binding's key, or an unkeyed dependency failure passed on as is. A throwing factory becomes `InstantiationError` with the factory's cause and the binding's key. |
| DiTypes.CallFactoryOk | modules/angular2/src/core/di/injector.ts:806-879 | For at most twenty dependencies, the factory call succeeds exactly when the factory returns. A success is the factory's value for exactly the fetched arguments. |
| DiTypes.NewCyclicExactly | modules/angular2/src/core/di/injector.ts:752-757 | `_new` reports `CyclicDependency` with the binding's own key exactly when the counter before the increment exceeds the maximum. Every error it reports that is keyed names a key. |
| DiTypes.BuildErrorsKeyed | modules/angular2/src/core/di/injector.ts:759-880 | A failure of `_instantiateBinding` is never the bare `CyclicDependency` of the binding itself, and a keyed one names a key. |
| DiTypes.BuildSucceeds | modules/angular2/src/core/di/injector.ts:759-880 | A successful build ran every factory its kind calls, each on fully resolved arguments, and its value is `Built` from them. |
| DiTypes.StandaloneAllOk | modules/angular2/src/core/di/injector.ts:760-765 | The factories of a multi-binding without dependencies all succeed exactly when each returns. The values are then theirs in order; otherwise the error is the `InstantiationError` of a factory that threw. |
| DiTypes.StandaloneCases | modules/angular2/src/core/di/injector.ts:759-769 | Without dependencies, a plain binding gives its first factory's value or its wrapped throw, and a multi-binding gives the list of all values exactly when every factory returns. |
| DiTypes.NoDependenciesBuild | modules/angular2/src/core/di/injector.ts:759-880 | For a binding without dependencies, whatever runs were recorded, `_instantiateBinding`'s answer is the closed form `Standalone`. |
| DiTypes.NewWithoutDependencies | modules/angular2/src/core/di/injector.ts:752-757 | Within the maximum, `_new` on a binding without dependencies gives `Standalone`. |
| Injectors.Injector.constructor | modules/angular2/src/core/di/injector.ts:539-546 | A new injector has the given template, parent and provider, a zero counter, and one `UNDEFINED` slot per template slot. |
| Injectors.Injector.FromResolvedBindings | modules/angular2/src/core/di/injector.ts:520-524 | A root injector: no parent, not a host, every binding stored `Public` in the given order, nothing built. |
| Injectors.Injector.CreateChildFromResolved | modules/angular2/src/core/di/injector.ts:687-693 | The child's parent is this injector and its bindings are all `Public`. It extends the chain, and the chain's view gains the child's frame on top. |
| Injectors.Injector.ResetConstructionCounter | modules/angular2/src/core/di/injector.ts:239 | The counter becomes 0. |
| Injectors.Injector.GetMaxNumberOfObjects | modules/angular2/src/core/di/injector.ts:333 | The number of slots: 10 for the inline layout and the binding count for the dynamic one. |
| Injectors.Injector.GetObjAtIndex | modules/angular2/src/core/di/injector.ts:319-332 | The slot at the index, or `OutOfBounds(index)` exactly outside the slots. |
| Injectors.Injector.MapBindings | modules/angular2/src/core/di/injector.ts:991-997 | One result per binding, in storage order, each `fn` of the stored binding. |
| Injectors.Injector.GetObjByKeyId | modules/angular2/src/core/di/injector.ts:357-371 | It settles on the template's first matching slot. With no match it returns `UNDEFINED` and changes nothing. An instance already made is returned with nothing changed. Otherwise the slot's binding goes through `_new`, and `Constructed` describes that construction: the answer is exactly what `NewResult` says `_new` reports for the counter before the call, and within the maximum every factory run it made is described by `Ran`, in the end state with the slot's own content as it was when `_new` returned (`prior`). |
| Injectors.Injector.ObtainSlot | modules/angular2/src/core/di/injector.ts:362-367 | A filled slot is returned unchanged. For an empty one, the answer and the factory runs of `_new` on the slot's binding are as `Constructed` describes them, and a success is left in the slot. |
| Injectors.Injector.Fill | modules/angular2/src/core/di/injector.ts:363-365 | The empty slot's binding is built through `_new` with the slot's visibility. The answer is that build's `NewResult` outcome, and within the maximum each factory run is described by `Ran`, in the end state with `prior`, what the slot held when `_new` returned, put back. After a failure the slot still holds what `_new` left there (`prior`); after a success it holds the new instance. Counters only grow, and no slot filled before the call changes. |
| Injectors.Injector.New | modules/angular2/src/core/di/injector.ts:752-757 | The counter always goes up. The result is `CyclicDependency([key])` exactly when the counter before the increment exceeds the maximum, and then no factory runs and nothing else changes. Within the maximum the result is `_instantiateBinding`'s answer for the factory runs it made, each run described by `Ran`. A binding without dependencies gives its closed form `Standalone`, with only the counter raised. |
| Injectors.Injector.InstantiateBinding | modules/angular2/src/core/di/injector.ts:759-769 | The runs are one of the first factory for a plain binding, and for a multi-binding one per factory up to the first failure. The result is `BindingResult` of those runs, each described by `Ran`. No factories gives the empty list or the TypeError of `resolvedFactories[0]`. A binding without dependencies gives `Standalone` and changes nothing. |
| Injectors.Injector.InstantiateAll | modules/angular2/src/core/di/injector.ts:760-765 | The factories of a multi-binding run in order until one fails. The result is the list of their values or the first error, as `MultiResult` of the recorded runs gives it, and every run is described by `Ran`. |
| Injectors.Injector.Instantiate | modules/angular2/src/core/di/injector.ts:771-880 | The result is the factory call on what the dependency fetches produced. Either every fetched argument resolves its dependency in declared order, up to twenty, or the arguments before dependency i resolve and the fetch of dependency i failed as `FetchFailed` describes; when that fetch built an empty slot, the outcome records that construction's runs and counter, and `FetchFailed` describes them in turn. No dependencies means no fetch and no change. |
| Injectors.Injector.GetByDependency | modules/angular2/src/core/di/injector.ts:882-891 | A provider answer other than `UNDEFINED` is returned with nothing changed. Otherwise the lookup settles where `_getByKey` with the dependency's bounds settles, and when that is an empty slot the answer is its construction's (`FreshBuild`). A success resolves the dependency. A failure is a missing required binding, a missing parent, or the failed construction of an empty slot, whose runs `nested` are described down to the fetch that failed. |
| Injectors.Injector.GetByKey | modules/angular2/src/core/di/injector.ts:893-909 | The injector key answers this injector. `@Self` uses only the own slots, `@Host` the host walk, and anything else the default walk. When the lookup settles on an empty slot, the answer is what that slot's construction reported, its runs described by `Ran` (`FreshBuild`). |
| Injectors.Injector.GetByKeySelf | modules/angular2/src/core/di/injector.ts:922-925 | It consults only this injector's slots, and an unanswered lookup is `_throwOrNull`. An empty slot's answer is what its construction reported (`FreshBuild`). |
| Injectors.Injector.GetPrivateDependency | modules/angular2/src/core/di/injector.ts:955-958 | It asks the parent of the given injector for bindings visible to a `Private` request. A missing parent is a null dereference. An empty slot's answer is what its construction reported (`FreshBuild`). |
| Injectors.Injector.HostWalk | modules/angular2/src/core/di/injector.ts:928-952 | The injector the host walk stops at, and whether it then defers to that injector's parent, agree with `HostTarget`. |
| Injectors.Injector.HostClimb | modules/angular2/src/core/di/injector.ts:939-950 | The loop of `_getByKeyHost` agrees with `HostFrom`. |
| Injectors.Injector.GetByKeyHost | modules/angular2/src/core/di/injector.ts:928-952 | The lookup settles on `HostTarget`. An empty slot's answer is what its construction reported (`FreshBuild`). |
| Injectors.Injector.DefaultWalk | modules/angular2/src/core/di/injector.ts:961-979 | The injector and visibility the default walk stops with agree with `DefaultTarget`. |
| Injectors.Injector.DefaultClimb | modules/angular2/src/core/di/injector.ts:970-976 | The loop of `_getByKeyDefault` agrees with `DefaultFrom`. |
| Injectors.Injector.GetByKeyDefault | modules/angular2/src/core/di/injector.ts:961-979 | The lookup settles on `DefaultTarget`. An empty slot's answer is what its construction reported (`FreshBuild`). |
| Injectors.Injector.Get | modules/angular2/src/core/di/injector.ts:573-575 | A non-optional `PublicAndPrivate` lookup with no bounds. It returns the injector itself for the injector key, `NoBindingError` when nothing answers, and an instance already made as it is. Otherwise it returns the result of constructing the chosen slot: `NewResult` of its binding for that injector's counter, with each factory run described by `Ran` (`FreshBuild`). |
| Injectors.Injector.GetOptional | modules/angular2/src/core/di/injector.ts:598-600 | The same lookup, optional: `null` instead of `NoBindingError` when nothing answers. Everything else, the result of constructing an empty slot included, is as for `Get`. |
| Injectors.Injector.InstantiateResolved | modules/angular2/src/core/di/injector.ts:747-749 | It builds with `PublicAndPrivate` without `_new`, so no cyclic check. The result is `BindingResult` of the runs it made, each described by `Ran`. No factories gives the empty list or the TypeError. A binding without dependencies gives `Standalone` and leaves every counter and slot as it was. |
| Injectors.PublicProto | modules/angular2/src/core/di/injector.ts:688-689 | The template of all-`Public` entries, in the given order. |
| Injectors.Answer | modules/angular2/src/core/di/injector.ts:923-924 | `UNDEFINED` becomes `_throwOrNull`, an instance is returned, and an error passes through. |
| Lookup.ProbeAt | modules/angular2/src/core/di/injector.ts:357-371 | One injector's answer is a slot of that injector or nothing. |
| Lookup.DefaultFrom | modules/angular2/src/core/di/injector.ts:970-976 | The default loop settles at or above its start, or finds nothing. |
| Lookup.DefaultTarget | modules/angular2/src/core/di/injector.ts:961-979 | With `@SkipSelf`, the default walk never settles on the asking injector. |
| Lookup.PrivateTarget | modules/angular2/src/core/di/injector.ts:955-958 | It answers exactly from the parent, and it is a null parent exactly at the root. |
| Lookup.HostFrom | modules/angular2/src/core/di/injector.ts:939-950 | The host loop settles at or above its start, or finds nothing. |
| Lookup.HostTarget | modules/angular2/src/core/di/injector.ts:928-952 | A null parent occurs exactly for `@SkipSelf` on a root host. With `@SkipSelf` the walk never settles on the asking injector. |
| Lookup.LookupTarget | modules/angular2/src/core/di/injector.ts:893-909 | The injector itself exactly for the injector key, only the own injector under `@Self`, and a null parent only for `@Host @SkipSelf` on a root host. |
| Lookup.DefaultFromIsNearestVisible | modules/angular2/src/core/di/injector.ts:970-976 | The default walk settles on the nearest injector that answers. Each injector is asked with the visibility its child passes up. |
| Lookup.DefaultFromNotFound | modules/angular2/src/core/di/injector.ts:961-979 | The default walk finds nothing exactly when no injector on the way answers. |
| Lookup.DefaultFromAllPublic | modules/angular2/src/core/di/injector.ts:687-693 | From an all-`Public` injector, a `PublicAndPrivate` walk and a `Public` walk settle alike. |
| Lookup.ChildFallsBackToParent | modules/angular2/src/core/di/injector.ts:961-979 | For any parent, a child with no binding for the key continues as the parent's default walk one level up. That walk asks with the visibility the child passes up: `Public` from a regular child, `PublicAndPrivate` from a host. A child with a binding answers from its own slot. |
| Lookup.ChildDefersToParent | modules/angular2/src/core/di/injector.ts:687-693 | For a regular child whose parent's bindings are all `Public` (a root made by `fromResolvedBindings`, or another such child): the child answers from its own bindings first, and failing that from the parent's own lookup one level up. So the child sees the parent and never the other way round. |
| Lookup.HostFromStopsAtHost | modules/angular2/src/core/di/injector.ts:939-950 | The host walk never passes the parent of the first host. Below it, the walk settles on the nearest answering injector. |
| Lookup.HostFromAtParent | modules/angular2/src/core/di/injector.ts:944-945 | At the host's parent, only a binding visible to a `Private` request (`Private` or `PublicAndPrivate`) answers, and only after every injector up to the host has missed. |
| Lookup.HostFromMissesAtHost | modules/angular2/src/core/di/injector.ts:939-952 | The host walk finds nothing exactly when everything up to the host misses and the host's parent has no binding visible to a `Private` request. |
| Lookup.HostFromWithoutHost | modules/angular2/src/core/di/injector.ts:939-952 | With no host on the way, the host walk is the plain nearest-answer walk to the root. |
| Lookup.SkipSelfOnHost | modules/angular2/src/core/di/injector.ts:932-936 | `@Host @SkipSelf` on a host consults only the parent's bindings visible to a `Private` request (`Private` or `PublicAndPrivate`), and the root gives a null parent. |
| Lookup.UnboundKeyIsNotFound | modules/angular2/src/core/di/injector.ts:913-979 | A key no injector on the way binds is not found, except where a missing parent is dereferenced first. |
| InjectorStates.SameAnswerAgain | modules/angular2/src/core/di/injector.ts:362-367 | A lookup that succeeded answers the same again, with nothing changed, however the chain has grown since. |
| InjectorStates.FailedLookupKeepsInstances | modules/angular2/src/core/di/injector.ts:362-367 | A failed lookup that reached no slot changes nothing. One that reached a slot found that slot empty. |
| InjectorStates.GrownTransitive | modules/angular2/src/core/di/injector.ts:362-367 | "Counters only rise and filled slots keep their instance" composes. |
| InjectorStates.RanWiden | modules/angular2/src/core/di/injector.ts:362-367 | A factory run's description survives any growth before its start and after its end. A failing fetch's slot was empty earlier too, and resolved arguments stay resolved. |
| InjectorStates.ConstructedWiden | modules/angular2/src/core/di/injector.ts:752-757 | A construction's description survives the same widening, the nested runs included. |
| InjectorStates.LookupFailed | modules/angular2/src/core/di/injector.ts:882-891 | When the provider gives no answer, a failed lookup together with what it built is a `FetchFailed`, with the counter the construction found. |
| ViewContainers.ViewContainer.Detach | modules/angular2/src/core/directives/ng_for.ts:132 | The view at the index comes out and is returned. The other views keep their order, and the locals are untouched. |
| ViewContainers.ViewContainer.Remove | modules/angular2/src/core/directives/ng_for.ts:135 | The view at the index comes out and the others keep their order. |
| ViewContainers.ViewContainer.Insert | modules/angular2/src/core/directives/ng_for.ts:146 | The view goes in at the index and the others keep their order. |
| ViewContainers.ViewContainer.CreateEmbeddedView | modules/angular2/src/core/directives/ng_for.ts:148-149 | A fresh view with no locals goes in at the index. |
| ViewContainers.ViewContainer.SetLocal | modules/angular2/src/core/directives/ng_for.ts:114 | One local of one view changes and nothing else does. |
| ViewContainers.WithoutShown | modules/angular2/src/core/directives/ng_for.ts:125-153 | Taking views out of the container takes exactly the matching items out of what it shows. |
| ForChanges.Sort | modules/angular2/src/core/directives/ng_for.ts:126 | The tuples' comparator sort gives a permutation sorted by the compared index. |
| ForChanges.InsertSorted | modules/angular2/src/core/directives/ng_for.ts:142 | Inserting into a sorted sequence keeps it sorted and adds exactly the one tuple. |
| ForChanges.SortKeeps | modules/angular2/src/core/directives/ng_for.ts:126 | Sorting keeps the set of indices the tuples carry. |
| ForChanges.SortMembers | modules/angular2/src/core/directives/ng_for.ts:142 | Sorting introduces no tuple. |
| ForChanges.SortStrict | modules/angular2/src/core/directives/ng_for.ts:126 | With distinct indices the sorted order is strictly ascending. |
| ForChanges.TuplesOfKeys | modules/angular2/src/core/directives/ng_for.ts:96-105 | The tuples built from the records carry exactly those records, with no views. |
| NgFors.NgFor.constructor | modules/angular2/src/core/directives/ng_for.ts:75-76 | A new directive has no collection and no differ yet. |
| NgFors.NgFor.SetNgForOf | modules/angular2/src/core/directives/ng_for.ts:78-83 | The value is always stored. A differ is made only when none exists and the value is present, and an existing differ is kept. |
| NgFors.NgFor.DoCheck | modules/angular2/src/core/directives/ng_for.ts:85-90 | With no differ or no changes the container is untouched. Otherwise it shows the current collection, and only the last view is marked last. A moved item's position holds the view it had before, and an added item's position holds a view created by this call. Every arrived position carries its index. |
| NgFors.NgFor.ApplyChanges | modules/angular2/src/core/directives/ng_for.ts:92-116 | If the report describes the step from the shown collection to the current one, the container shows the current collection in order. The views no record names keep their order. A moved record's new position holds the very view that stood at its old position, and an added record's position holds a view created by this call. Every arrived position carries its index, even and odd, and exactly the last view has `last` set. |
| NgFors.NgFor.Rearrange | modules/angular2/src/core/directives/ng_for.ts:95-107 | After the two bulk steps there is one view per current position. The kept views sit at the positions no record arrives at, in their old order. A moved record's new position holds the view from its old position, an added record's a newly created view, and each inserted tuple's view sits at its record's current index. |
| NgFors.NgFor.PerViewChange | modules/angular2/src/core/directives/ng_for.ts:118-123 | Exactly the four locals of that one view change, to the values of `PerViewLocals`. |
| ForApply.PerViewLocals | modules/angular2/src/core/directives/ng_for.ts:118-123 | The view shows the record's item and its index is the record's current index. `even` holds exactly when the index is even and `odd` is its negation. No other local changes. |
| NgFors.NgFor.ChangeViews | modules/angular2/src/core/directives/ng_for.ts:109-111 | Every inserted view gets its own record's locals, and every other view is untouched. |
| NgFors.NgFor.MarkLast | modules/angular2/src/core/directives/ng_for.ts:113-115 | View i of the container gets `last` equal to "i is the final index". Views outside the container are untouched. |
| NgFors.NgFor.BulkRemove | modules/angular2/src/core/directives/ng_for.ts:125-139 | The container keeps exactly the views whose positions no tuple names, in order, with the locals untouched. The returned tuples are the moves, in descending previous index, each with the view that stood at its previous index. |
| NgFors.NgFor.RemoveDescending | modules/angular2/src/core/directives/ng_for.ts:128-137 | Processing from the highest previous index down, every `detach`/`remove` index is still the original position, and the loop leaves the container as `BulkRemove` promises. |
| NgFors.NgFor.BulkInsert | modules/angular2/src/core/directives/ng_for.ts:141-153 | The views present before keep their order around the inserted positions. The returned tuples are sorted, and each has a view sitting at its current index: the detached one if it had one, a new one otherwise. |
| NgFors.NgFor.InsertAscending | modules/angular2/src/core/directives/ng_for.ts:143-151 | Inserting in ascending current index puts every view at its final position. |
| ForSteps.RemoveStep | modules/angular2/src/core/directives/ng_for.ts:129-136 | One step of the removal loop: taking out the highest remaining position leaves the views not yet named, and a move is recorded with its view. |
| ForSteps.InsertStep | modules/angular2/src/core/directives/ng_for.ts:144-150 | One step of the insertion loop: inserting at the next current index leaves the earlier placements in place. |
| ForSteps.SortedInsertOrder | modules/angular2/src/core/directives/ng_for.ts:142 | After the sort, the tuples ascend strictly by current index and each fits the container. |
| ForApply.KeptLength | modules/angular2/src/core/directives/ng_for.ts:102-107 | The kept views plus the arrivals number exactly the current collection's length. |
| ForApply.InsertTuplesFit | modules/angular2/src/core/directives/ng_for.ts:102-107 | The moves returned by `_bulkRemove` plus the additions meet `_bulkInsert`'s needs: distinct in-range current indices, and detached views that are neither attached nor shared. |
| ForApply.KeptItems | modules/angular2/src/core/directives/ng_for.ts:107-115 | Views kept in place still show their old items after both locals loops. |
| ForApply.ArrivedItems | modules/angular2/src/core/directives/ng_for.ts:109-115 | Each arrived position shows the current item there and carries its index. |
| ForApply.Reconciled | modules/angular2/src/core/directives/ng_for.ts:92-116 | Kept views showing their old items plus arrived views showing the new items make the container show exactly the current collection. |
| ForApply.LastKeeps | modules/angular2/src/core/directives/ng_for.ts:113-115 | Setting `last` changes neither the item shown nor the numbering, and marks exactly the final view. |
| ForApply.ArrivalViews | modules/angular2/src/core/directives/ng_for.ts:102-107 | A moved record's new position ends up holding the view from its old position, and an added record's position a view created by `_bulkInsert`. |
| Positions.WithoutDetermines | modules/angular2/src/core/directives/ng_for.ts:92-116 | Two sequences of one length that agree at the arrival positions and agree elsewhere are equal. This is how the kept views and the arrived views together fix what is shown. |
| Positions.RemoveBelow | modules/angular2/src/core/directives/ng_for.ts:128-136 | Removing at a position below every position taken so far finds the original element there. |
| Positions.InsertAbove | modules/angular2/src/core/directives/ng_for.ts:143-150 | Inserting at a position above every position filled so far leaves the kept elements in order. |
| ForChanges.RemovalConsistent | modules/angular2/test/core/directives/ng_for_spec.ts:54-67 | A witness that `ApplyChanges`'s precondition holds for this test: the report of one removal describes the step from `[1, 2]` to `[1]`, so `ApplyChanges` then guarantees the container shows `[1]`. |
| ForChanges.MoveConsistent | modules/angular2/test/core/directives/ng_for_spec.ts:69-84 | A witness that `ApplyChanges`'s precondition holds for this test: the single move of 1 describes the step from `[1, 2]` to `[2, 1]`, so `ApplyChanges` then guarantees the container shows `[2, 1]`. |

## Left out

- Key registry: `Key.get`, `Injector.resolve`, `resolveAndCreate` and `resolveAndCreateChild` live in files that are not part of this model. Keys are given as `nat` ids, with id 0 for the `Injector` token, and bindings arrive already resolved.
- `attach` is not modelled as a mutation. `parent` and `isHost` are constructor arguments, because the model's chain is fixed once built.
- Exceptions are `Result` errors. The error classes' messages, the stack argument and `displayName`/`toString` (injector.ts:981-988) are not modelled.
- `debugContext` and the `_debugContext` field are calls into code outside the model.
- Factories are total functions from argument lists to a value or a thrown cause. The identity of objects they create is an `Instance` id they return.
- The dependency provider is a pure function of binding and dependency. The injector argument that the TypeScript provider receives is not passed.
- The ten inline template slots and instance fields are stored as sequences and an array of length ten. The unrolled `if` chain of the inline `getObjByKeyId` is the same first-match scan as the dynamic loop, and `StrategiesAgree` states that the two layouts agree.
- The engine's methods take the parent chain as a ghost argument, and the chain is assumed finite and acyclic. A cyclic parent chain is not modelled.
- Injectors.Injector.ObtainSlot: a re-entrant lookup of the same slot during its construction may fill the slot before the outer call stores its own answer over it. The contracts cover this case with the ghost output `prior`, the slot's content when `_new` returned, rather than excluding it. The model does not prove that such a nested construction always fails.
- Injectors.Injector.Instantiate: an argument fetched from a slot that was already filled is stated only as that slot's content (`KeyResolved`). No invariant ties a filled slot's instance to a build of its binding, since the overwrite just described would break one. An argument that a fetch built fresh is not traced back to that construction's runs; only a failing fetch's construction is.
- The differ (`IterableDiffers.find(...).create(...)`, `diff`) is not part of this model. `DoCheck` receives the differ's report as a parameter, and the differ is represented only by the collection it was created for. `find` is assumed to succeed.
- `TemplateRef`, the rendering behind `ViewContainerRef` and `ViewRef`, and change detection are left out. A view is an id, and the container holds each created view's locals.
- `RecordViewTuple` is a value. Its in-place update (`tuple.view = ...`) and the in-place `sort` of the tuple arrays are modelled by returning the updated, sorted sequences. The later loops use the returned sequence, which is the array the source sorted.
- The comparator sorts are modelled as an insertion sort. The source's `Array.prototype.sort` may order equal keys differently, but the reports accepted by `Consistent` never have equal keys.
- NgFors.NgFor.BulkRemove: requires the tuples' previous indices to be present, distinct and inside the container. The source's behaviour on a malformed report, such as detaching an index twice, is not modelled.
- NgFors.NgFor.BulkInsert: requires distinct present current indices that fit the container. The source's behaviour on a malformed report is not modelled.
- NgFors.NgFor.ApplyChanges: the `index`, `even` and `odd` locals of views that stay in place are not rewritten by `_applyChanges`. Whether they are still right depends on the differ reporting every index change, so the contract states numbering only for arrived positions.
- NgFors.NgFor.DoCheck: behaviour when `ngForOf` is null is not constrained, since how the differ reports a null collection is outside the model.
