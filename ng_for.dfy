/**
 * The NgFor directive (`modules/angular2/src/core/directives/ng_for.ts`): it keeps a view
 * container showing one embedded view per item of its collection, in collection order,
 * by applying the differ's change records.  The differ is consulted by the caller: its
 * report is a parameter of `DoCheck`.
 */
module NgFors {
  import opened Wrappers
  import opened Positions
  import opened ForChanges
  import opened ViewContainers
  import opened ForSteps
  import opened ForApply

  /** The differ `IterableDiffers.find(value).create(cdr)` returns, remembered by the collection it was made for. */
  datatype IterableDiffer<T> = IterableDiffer(createdFor: seq<T>)

  class NgFor<T(==)> {
    /** `_ngForOf`; `None` stands for `null`/`undefined`. */
    var ngForOf: Option<seq<T>>
    /** `_differ`. */
    var differ: Option<IterableDiffer<T>>
    /** `_viewContainer`. */
    const viewContainer: ViewContainer<T>

    constructor (viewContainer: ViewContainer<T>)
      ensures this.viewContainer == viewContainer && ngForOf == None && differ == None
    {
      this.viewContainer := viewContainer;
      ngForOf, differ := None, None;
    }

    /**
     * The `ngForOf` input setter: records the collection and, the first time a collection
     * is present, creates the differ for it.  A differ once created is kept.
     */
    method SetNgForOf(value: Option<seq<T>>)
      modifies this
      ensures ngForOf == value
      ensures old(differ).Some? ==> differ == old(differ)
      ensures old(differ).None? ==> differ == (if value.Some? then Some(IterableDiffer(value.value)) else None)
    {
      ngForOf := value;
      if differ.None? && value.Some? {
        differ := Some(IterableDiffer(value.value));
      }
    }

    /**
     * `doCheck`: when a differ exists, asks it for the changes to `ngForOf` (here the
     * parameter `changes`, `None` when it reports none) and applies them.  `current` is the
     * collection the differ was given, `previous` the one the container shows.
     */
    method DoCheck(changes: Option<IterableChanges<T>>, ghost previous: seq<T>, ghost current: seq<T>)
      requires viewContainer.Valid()
      requires Shown(viewContainer.views, viewContainer.locals) == Lift(previous)
      requires differ.Some? && changes.Some? ==>
        Consistent(previous, current, changes.value) && (ngForOf.Some? ==> ngForOf.value == current)
      modifies viewContainer
      ensures viewContainer.Valid()
      ensures differ.None? || changes.None? ==>
        viewContainer.views == old(viewContainer.views) && viewContainer.locals == old(viewContainer.locals)
      ensures differ.Some? && changes.Some? ==>
        Shown(viewContainer.views, viewContainer.locals) == Lift(current) &&
        LastMarked(viewContainer.views, viewContainer.locals)
      ensures differ.Some? && changes.Some? ==>
        var c := changes.value;
        (forall rec | rec in c.moved + c.added ::
          RecCur(rec) < |viewContainer.views| && Numbered(viewContainer.locals[viewContainer.views[RecCur(rec)]], RecCur(rec))) &&
        (forall rec | rec in c.moved ::
          RecCur(rec) < |viewContainer.views| && RecPrev(rec) < |old(viewContainer.views)| &&
          viewContainer.views[RecCur(rec)] == old(viewContainer.views)[RecPrev(rec)]) &&
        (forall rec | rec in c.added ::
          RecCur(rec) < |viewContainer.views| && |old(viewContainer.locals)| <= viewContainer.views[RecCur(rec)])
    {
      if differ.Some? {
        if changes.Some? {
          ApplyChanges(changes.value, previous, current);
        }
      }
    }

    /**
     * `_bulkRemove`: takes out of the container the view at every tuple's previous index,
     * highest index first, detaching those whose record has a current index and returning
     * them with their views, in descending previous-index order.
     */
    method BulkRemove(tuples: seq<RecordViewTuple<T>>) returns (movedTuples: seq<RecordViewTuple<T>>)
      requires viewContainer.Valid()
      requires forall t | t in tuples :: t.record.previousIndex.Some? && PrevOf(t) < |viewContainer.views|
      requires Injective(tuples, PrevOf)
      modifies viewContainer
      ensures viewContainer.Valid() && viewContainer.locals == old(viewContainer.locals)
      ensures viewContainer.views == Without(old(viewContainer.views), Image(tuples, PrevOf), 0)
      ensures forall i, j | 0 <= i < j < |movedTuples| :: PrevOf(movedTuples[j]) < PrevOf(movedTuples[i])
      ensures forall m | m in movedTuples ::
        m.record.currentIndex.Some? && PrevOf(m) < |old(viewContainer.views)| &&
        m.view == Some(old(viewContainer.views)[PrevOf(m)])
      ensures Image(movedTuples, RecordOf) == MovedRecords(tuples)
    {
      ghost var views0 := viewContainer.views;
      var sorted := Sort(tuples, ByPrevious);
      SortKeeps(tuples, ByPrevious, PrevOf);
      SortStrict(tuples, ByPrevious);
      forall t | t in sorted ensures t.record.previousIndex.Some? && PrevOf(t) < |views0| {
        assert t in multiset(tuples);
      }
      movedTuples := RemoveDescending(sorted);
      MovedRecordsSame(sorted, tuples);
      WithoutDistinct(views0, Image(tuples, PrevOf), 0);
      WithoutShown(views0, viewContainer.locals, Image(tuples, PrevOf), 0);
    }

    /** The loop of `_bulkRemove`, over tuples sorted by ascending previous index. */
    method RemoveDescending(sorted: seq<RecordViewTuple<T>>) returns (movedTuples: seq<RecordViewTuple<T>>)
      requires forall t | t in sorted :: t.record.previousIndex.Some? && PrevOf(t) < |viewContainer.views|
      requires forall a, b | 0 <= a < b < |sorted| :: PrevOf(sorted[a]) < PrevOf(sorted[b])
      modifies viewContainer
      ensures viewContainer.locals == old(viewContainer.locals)
      ensures viewContainer.views == Without(old(viewContainer.views), Image(sorted, PrevOf), 0)
      ensures forall i, j | 0 <= i < j < |movedTuples| :: PrevOf(movedTuples[j]) < PrevOf(movedTuples[i])
      ensures forall m | m in movedTuples ::
        m.record.currentIndex.Some? && PrevOf(m) < |old(viewContainer.views)| &&
        m.view == Some(old(viewContainer.views)[PrevOf(m)])
      ensures Image(movedTuples, RecordOf) == MovedRecords(sorted)
    {
      ghost var views0 := viewContainer.views;
      movedTuples := [];
      var i := |sorted|;
      RemoveStart(sorted, views0);
      while i > 0
        invariant 0 <= i <= |sorted|
        invariant viewContainer.locals == old(viewContainer.locals)
        invariant RemovedSoFar(sorted, i, movedTuples, viewContainer.views, views0)
      {
        i := i - 1;
        var tuple := sorted[i];
        var p := tuple.record.previousIndex.value;
        RemoveReady(sorted, i, movedTuples, viewContainer.views, views0);
        ghost var w, m0 := viewContainer.views, movedTuples;
        if tuple.record.currentIndex.Some? {
          var v := viewContainer.Detach(p);
          tuple := tuple.(view := Some(v));
          movedTuples := movedTuples + [tuple];
        } else {
          viewContainer.Remove(p);
        }
        RemoveStep(sorted, i, m0, w, views0, movedTuples, viewContainer.views);
      }
      RemoveDone(sorted, movedTuples, viewContainer.views, views0);
    }

    /**
     * The first half of `_applyChanges`: removes the views of removed and moved records and
     * re-inserts the moved ones, or creates one for an added record, at its current index.
     * The container then holds one view per current position: the kept views in their old
     * order at the positions no record arrives at, and the views of the returned tuples at
     * their records' current indices.
     */
    method Rearrange(changes: IterableChanges<T>, ghost previous: seq<T>, ghost current: seq<T>)
      returns (r: seq<RecordViewTuple<T>>)
      requires viewContainer.Valid()
      requires Shown(viewContainer.views, viewContainer.locals) == Lift(previous)
      requires Consistent(previous, current, changes)
      modifies viewContainer
      ensures viewContainer.Valid() && |viewContainer.views| == |current|
      ensures |old(viewContainer.locals)| <= |viewContainer.locals|
      ensures viewContainer.locals[..|old(viewContainer.locals)|] == old(viewContainer.locals)
      ensures Without(viewContainer.views, Image(changes.moved + changes.added, RecCur), 0) ==
              Without(old(viewContainer.views), Image(changes.removed + changes.moved, RecPrev), 0)
      ensures forall i | 0 <= i < |r| ::
        r[i].record in changes.moved + changes.added && r[i].view.Some? &&
        CurOf(r[i]) < |viewContainer.views| && viewContainer.views[CurOf(r[i])] == r[i].view.value
      ensures Image(r, CurOf) == Image(changes.moved + changes.added, RecCur)
      ensures forall i, j | 0 <= i < j < |r| :: r[i].view != r[j].view
      ensures forall rec | rec in changes.moved ::
        RecCur(rec) < |viewContainer.views| && RecPrev(rec) < |old(viewContainer.views)| &&
        viewContainer.views[RecCur(rec)] == old(viewContainer.views)[RecPrev(rec)]
      ensures forall rec | rec in changes.added ::
        RecCur(rec) < |viewContainer.views| && |old(viewContainer.locals)| <= viewContainer.views[RecCur(rec)]
    {
      ghost var views0, locals0 := viewContainer.views, viewContainer.locals;
      ghost var leaving, arriving := changes.removed + changes.moved, changes.moved + changes.added;
      ghost var pl, pa := Image(leaving, RecPrev), Image(arriving, RecCur);
      var recordViewTuples := TuplesOf(changes.removed + changes.moved);
      LeavingFit(previous, current, changes, |views0|);
      var insertTuples := BulkRemove(recordViewTuples);
      ghost var views1 := viewContainer.views;
      assert views1 == Without(views0, pl, 0);
      KeptLength(previous, current, leaving, arriving, views0);
      forall r | r in changes.moved ensures RecPrev(r) in pl {
        assert r in leaving;
      }
      InsertTuplesFit(changes.moved, changes.added, |current|, pl, views0, locals0, insertTuples);
      ghost var movedTuples := insertTuples;
      insertTuples := insertTuples + TuplesOf(changes.added);
      assert Image(insertTuples, CurOf) == pa && |insertTuples| == |arriving|;
      r := BulkInsert(insertTuples);
      ghost var sorted := Sort(insertTuples, ByCurrent);
      SortKeeps(insertTuples, ByCurrent, CurOf);
      SortMembers(insertTuples, ByCurrent);
      InsertedRecords(arriving, insertTuples, sorted, r, viewContainer.views, |locals0|);
      ArrivalViews(changes.moved, changes.added, movedTuples, sorted, r, views0, viewContainer.views, |locals0|);
      forall i, j | 0 <= i < j < |r| ensures r[i].view != r[j].view {
        assert CurOf(r[i]) < CurOf(r[j]);
      }
    }

    /**
     * `_applyChanges`: rearranges the views, gives each inserted view its record's locals
     * and marks the last view.  Given a change report that describes the step from
     * `previous`, which the container shows, to `current`, the container shows `current`,
     * every arrival position carries its index, and only the last view is marked last.
     */
    method ApplyChanges(changes: IterableChanges<T>, ghost previous: seq<T>, ghost current: seq<T>)
      requires viewContainer.Valid()
      requires Shown(viewContainer.views, viewContainer.locals) == Lift(previous)
      requires Consistent(previous, current, changes)
      modifies viewContainer
      ensures viewContainer.Valid()
      ensures Shown(viewContainer.views, viewContainer.locals) == Lift(current)
      ensures LastMarked(viewContainer.views, viewContainer.locals)
      ensures forall rec | rec in changes.moved + changes.added ::
        RecCur(rec) < |viewContainer.views| && Numbered(viewContainer.locals[viewContainer.views[RecCur(rec)]], RecCur(rec))
      ensures Without(viewContainer.views, Image(changes.moved + changes.added, RecCur), 0) ==
              Without(old(viewContainer.views), Image(changes.removed + changes.moved, RecPrev), 0)
      ensures forall rec | rec in changes.moved ::
        RecCur(rec) < |viewContainer.views| && RecPrev(rec) < |old(viewContainer.views)| &&
        viewContainer.views[RecCur(rec)] == old(viewContainer.views)[RecPrev(rec)]
      ensures forall rec | rec in changes.added ::
        RecCur(rec) < |viewContainer.views| && |old(viewContainer.locals)| <= viewContainer.views[RecCur(rec)]
    {
      ghost var views0, locals0 := viewContainer.views, viewContainer.locals;
      ghost var arriving := changes.moved + changes.added;
      ghost var pl, pa := Image(changes.removed + changes.moved, RecPrev), Image(arriving, RecCur);
      var r := Rearrange(changes, previous, current);
      ghost var views2, locals2 := viewContainer.views, viewContainer.locals;
      ChangeViews(r);
      ghost var locals3 := viewContainer.locals;
      MarkLast();
      ghost var f := viewContainer.locals;
      LastKeeps(views2, locals3, f);
      KeptItems(views0, locals0, pl, pa, views2, locals2, r, locals3, f);
      ArrivedItems(current, arriving, pa, views2, locals2, r, locals3, f);
      Reconciled(previous, current, pl, pa, views0, locals0, views2, f);
      forall rec | rec in arriving ensures RecCur(rec) < |views2| && Numbered(f[views2[RecCur(rec)]], RecCur(rec)) {
        assert RecCur(rec) in pa;
      }
    }

    /** `_perViewChange`: sets the four locals of one view from its record. */
    method PerViewChange(v: ViewId, record: ChangeRecord<T>)
      requires v < |viewContainer.locals|
      modifies viewContainer
      ensures viewContainer.views == old(viewContainer.views)
      ensures viewContainer.locals == old(viewContainer.locals[v := PerViewLocals(viewContainer.locals[v], record)])
    {
      viewContainer.SetLocal(v, Implicit, ItemValue(record.item));
      viewContainer.SetLocal(v, Index, IndexValue(record.currentIndex));
      viewContainer.SetLocal(v, Even, BoolValue(OrZero(record.currentIndex) % 2 == 0));
      viewContainer.SetLocal(v, Odd, BoolValue(OrZero(record.currentIndex) % 2 == 1));
    }

    /**
     * The first loop of `_applyChanges`: `_perViewChange` for every inserted tuple.  Each
     * tuple's view ends with the locals of its own record; every other view is untouched.
     */
    method ChangeViews(r: seq<RecordViewTuple<T>>)
      requires forall i | 0 <= i < |r| :: r[i].view.Some? && r[i].view.value < |viewContainer.locals|
      requires forall i, j | 0 <= i < j < |r| :: r[i].view != r[j].view
      modifies viewContainer
      ensures viewContainer.views == old(viewContainer.views)
      ensures |viewContainer.locals| == |old(viewContainer.locals)|
      ensures forall i | 0 <= i < |r| ::
        viewContainer.locals[r[i].view.value] == PerViewLocals(old(viewContainer.locals)[r[i].view.value], r[i].record)
      ensures forall v | 0 <= v < |viewContainer.locals| && v !in ViewsOf(r) ::
        viewContainer.locals[v] == old(viewContainer.locals)[v]
    {
      ghost var locals0 := viewContainer.locals;
      ghost var seen: set<ViewId> := {};
      var i := 0;
      while i < |r|
        invariant 0 <= i <= |r|
        invariant viewContainer.views == old(viewContainer.views) && |viewContainer.locals| == |locals0|
        invariant forall j | 0 <= j < i ::
          viewContainer.locals[r[j].view.value] == PerViewLocals(locals0[r[j].view.value], r[j].record)
        invariant forall j | i <= j < |r| :: viewContainer.locals[r[j].view.value] == locals0[r[j].view.value]
        invariant seen <= ViewsOf(r)
        invariant forall v | 0 <= v < |locals0| && v !in seen :: viewContainer.locals[v] == locals0[v]
      {
        var v := r[i].view.value;
        assert r[i] in r;
        PerViewChange(v, r[i].record);
        seen := seen + {v};
        i := i + 1;
      }
    }

    /** The second loop of `_applyChanges`: `last` is true for the last view and false elsewhere. */
    method MarkLast()
      requires viewContainer.Valid()
      modifies viewContainer
      ensures viewContainer.views == old(viewContainer.views)
      ensures |viewContainer.locals| == |old(viewContainer.locals)|
      ensures forall i | 0 <= i < |viewContainer.views| ::
        viewContainer.locals[viewContainer.views[i]] ==
        old(viewContainer.locals)[viewContainer.views[i]][Last := BoolValue(i == |viewContainer.views| - 1)]
      ensures forall v | 0 <= v < |viewContainer.locals| && v !in viewContainer.views ::
        viewContainer.locals[v] == old(viewContainer.locals)[v]
    {
      ghost var locals0 := viewContainer.locals;
      var views := viewContainer.views;
      var ilen := |views|;
      var i := 0;
      while i < ilen
        invariant 0 <= i <= ilen
        invariant viewContainer.views == views && |viewContainer.locals| == |locals0|
        invariant forall j | 0 <= j < i ::
          viewContainer.locals[views[j]] == locals0[views[j]][Last := BoolValue(j == ilen - 1)]
        invariant forall v | 0 <= v < |locals0| && v !in views[..i] :: viewContainer.locals[v] == locals0[v]
      {
        assert views[..i + 1] == views[..i] + [views[i]];
        assert views[i] !in views[..i];
        viewContainer.SetLocal(views[i], Last, BoolValue(i == ilen - 1));
        i := i + 1;
      }
      assert views[..i] == views;
    }

    /**
     * `_bulkInsert`: sorts the tuples by current index and, in ascending order, re-attaches
     * each detached view at its current index or creates a new view there.  The tuples come
     * back sorted, each with its view.  The views present before keep their order around
     * the inserted ones.
     */
    method BulkInsert(tuples: seq<RecordViewTuple<T>>) returns (r: seq<RecordViewTuple<T>>)
      requires viewContainer.Valid()
      requires forall t | t in tuples ::
        t.record.currentIndex.Some? && CurOf(t) < |viewContainer.views| + |tuples|
      requires Injective(tuples, CurOf)
      requires forall t | t in tuples && t.view.Some? ::
        t.view.value < |viewContainer.locals| && t.view.value !in viewContainer.views
      requires forall t, u | t in tuples && u in tuples && t != u && t.view.Some? :: t.view != u.view
      modifies viewContainer
      ensures viewContainer.Valid()
      ensures |old(viewContainer.locals)| <= |viewContainer.locals|
      ensures viewContainer.locals[..|old(viewContainer.locals)|] == old(viewContainer.locals)
      ensures |viewContainer.views| == |old(viewContainer.views)| + |tuples|
      ensures Without(viewContainer.views, Image(tuples, CurOf), 0) == old(viewContainer.views)
      ensures |r| == |tuples|
      ensures forall i | 0 <= i < |r| :: Placed(r[i], Sort(tuples, ByCurrent)[i], viewContainer.views, |old(viewContainer.locals)|)
      ensures forall i, j | 0 <= i < j < |r| :: CurOf(r[i]) < CurOf(r[j])
    {
      var sorted := Sort(tuples, ByCurrent);
      SortedInsertOrder(tuples, viewContainer.views, viewContainer.locals);
      r := InsertAscending(sorted);
    }

    /** The loop of `_bulkInsert`, over tuples sorted by strictly ascending current index. */
    method InsertAscending(sorted: seq<RecordViewTuple<T>>) returns (r: seq<RecordViewTuple<T>>)
      requires viewContainer.Valid()
      requires InsertOrder(sorted, viewContainer.views, viewContainer.locals)
      modifies viewContainer
      ensures viewContainer.Valid()
      ensures |old(viewContainer.locals)| <= |viewContainer.locals|
      ensures viewContainer.locals[..|old(viewContainer.locals)|] == old(viewContainer.locals)
      ensures |viewContainer.views| == |old(viewContainer.views)| + |sorted|
      ensures Without(viewContainer.views, Image(sorted, CurOf), 0) == old(viewContainer.views)
      ensures |r| == |sorted|
      ensures forall i | 0 <= i < |r| :: Placed(r[i], sorted[i], viewContainer.views, |old(viewContainer.locals)|)
    {
      ghost var views0, locals0 := viewContainer.views, viewContainer.locals;
      r := sorted;
      var k := 0;
      InsertStart(sorted, views0, locals0);
      while k < |r|
        invariant InsertedSoFar(sorted, r, k, viewContainer.views, viewContainer.locals, views0, locals0)
      {
        var tuple := r[k];
        var c := tuple.record.currentIndex.value;
        InsertFits(sorted, k, |views0|);
        ghost var w, l, r0 := viewContainer.views, viewContainer.locals, r;
        var v;
        if tuple.view.Some? {
          v := tuple.view.value;
          viewContainer.Insert(v, c);
        } else {
          v := viewContainer.CreateEmbeddedView(c);
          r := r[k := tuple.(view := Some(v))];
        }
        InsertStep(sorted, r0, k, w, l, views0, locals0, v, r, viewContainer.views, viewContainer.locals);
        k := k + 1;
      }
      InsertDone(sorted, r, k, viewContainer.views, viewContainer.locals, views0, locals0);
    }
  }
}
