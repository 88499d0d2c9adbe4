/**
 * The loops of NgFor's `_bulkRemove` and `_bulkInsert`, one step at a time: the state each
 * loop keeps between iterations, and why one iteration keeps it.
 */
module ForSteps {
  import opened Wrappers
  import opened Positions
  import opened ForChanges
  import opened ViewContainers

  /** Sorted strictly, every tuple after `i` has a larger previous index. */
  lemma Above<T>(sorted: seq<RecordViewTuple<T>>, i: nat, ps: set<int>)
    requires i < |sorted| && ps == Image(sorted[i + 1..], PrevOf)
    requires forall a, b | 0 <= a < b < |sorted| :: PrevOf(sorted[a]) < PrevOf(sorted[b])
    ensures forall q | q in ps :: PrevOf(sorted[i]) < q
  {
    forall q | q in ps ensures PrevOf(sorted[i]) < q {
      var t :| t in sorted[i + 1..] && PrevOf(t) == q;
      var b :| i + 1 <= b < |sorted| && sorted[b] == t;
    }
  }

  /** Sorted strictly, every tuple before `k` has a smaller current index. */
  lemma Below<T>(sorted: seq<RecordViewTuple<T>>, k: nat, ps: set<int>)
    requires k < |sorted| && ps == Image(sorted[..k], CurOf)
    requires forall a, b | 0 <= a < b < |sorted| :: CurOf(sorted[a]) < CurOf(sorted[b])
    ensures forall q | q in ps :: q < CurOf(sorted[k])
  {
    forall q | q in ps ensures q < CurOf(sorted[k]) {
      var t :| t in sorted[..k] && CurOf(t) == q;
      var a :| 0 <= a < k && sorted[a] == t;
    }
  }

  /**
   * Inserting in ascending current-index order, each index is at most the number of views
   * present when its turn comes: the `k` inserted before it plus the `base` views kept.
   */
  lemma {:induction false} InsertFits<T>(sorted: seq<RecordViewTuple<T>>, k: nat, base: nat)
    requires k < |sorted|
    requires forall a, b | 0 <= a < b < |sorted| :: CurOf(sorted[a]) < CurOf(sorted[b])
    requires forall t | t in sorted :: CurOf(t) < base + |sorted|
    ensures CurOf(sorted[k]) <= base + k
    decreases |sorted| - k
  {
    if k + 1 < |sorted| {
      InsertFits(sorted, k + 1, base);
    } else {
      assert sorted[k] in sorted;
    }
  }

  /** The records among `ts` that have a current index: the moves, once removals are set apart. */
  ghost function MovedRecords<T>(ts: seq<RecordViewTuple<T>>): set<ChangeRecord<T>> {
    set t | t in ts && t.record.currentIndex.Some? :: t.record
  }

  /**
   * `_bulkRemove`'s result so far: in strictly descending previous-index order, all at or
   * above `floor`, each a move carrying the view found at its previous index.
   */
  ghost predicate MovedSoFar<T>(moved: seq<RecordViewTuple<T>>, views0: seq<ViewId>, floor: nat) {
    (forall a, b | 0 <= a < b < |moved| :: PrevOf(moved[b]) < PrevOf(moved[a])) &&
    forall m | m in moved ::
      floor <= PrevOf(m) && m.record.currentIndex.Some? && PrevOf(m) < |views0| && m.view == Some(views0[PrevOf(m)])
  }

  lemma MovedExtend<T>(moved: seq<RecordViewTuple<T>>, views0: seq<ViewId>, floor: nat, tuple: RecordViewTuple<T>)
    requires MovedSoFar(moved, views0, floor) && PrevOf(tuple) < floor
    requires tuple.record.currentIndex.Some? && PrevOf(tuple) < |views0| && tuple.view == Some(views0[PrevOf(tuple)])
    ensures MovedSoFar(moved + [tuple], views0, PrevOf(tuple))
  {
    assert forall m | m in moved + [tuple] :: m == tuple || m in moved;
  }

  lemma MovedLower<T>(moved: seq<RecordViewTuple<T>>, views0: seq<ViewId>, floor: nat, lower: nat)
    requires MovedSoFar(moved, views0, floor) && lower <= floor
    ensures MovedSoFar(moved, views0, lower)
  { }

  lemma MovedRecordsSame<T>(a: seq<RecordViewTuple<T>>, b: seq<RecordViewTuple<T>>)
    requires multiset(a) == multiset(b)
    ensures MovedRecords(a) == MovedRecords(b)
  {
    assert forall t :: t in a <==> t in b by {
      forall t ensures t in a <==> t in b {
        assert t in a <==> t in multiset(a);
        assert t in b <==> t in multiset(b);
      }
    }
  }

  /** How `_bulkRemove`'s result grows by one step of its loop. */
  lemma MovedStep<T>(sorted: seq<RecordViewTuple<T>>, i: nat, moved: seq<RecordViewTuple<T>>, tuple: RecordViewTuple<T>)
    requires i < |sorted| && tuple.record == sorted[i].record
    requires Image(moved, RecordOf) == MovedRecords(sorted[i + 1..])
    ensures tuple.record.currentIndex.Some? ==> Image(moved + [tuple], RecordOf) == MovedRecords(sorted[i..])
    ensures tuple.record.currentIndex.None? ==> Image(moved, RecordOf) == MovedRecords(sorted[i..])
  {
    assert sorted[i..] == [sorted[i]] + sorted[i + 1..];
    assert forall t | t in sorted[i..] :: t == sorted[i] || t in sorted[i + 1..];
    ImageSnoc(moved, tuple, RecordOf);
    if tuple.record.currentIndex.Some? {
      assert MovedRecords(sorted[i..]) == MovedRecords(sorted[i + 1..]) + {tuple.record};
    } else {
      assert MovedRecords(sorted[i..]) == MovedRecords(sorted[i + 1..]);
    }
  }

  /**
   * The state of `_bulkRemove` once the sorted tuples from `i` on are handled: their
   * positions are gone from the container, and the moved ones among them are collected.
   */
  ghost predicate RemovedSoFar<T>(sorted: seq<RecordViewTuple<T>>, i: nat, moved: seq<RecordViewTuple<T>>,
                                  views: seq<ViewId>, views0: seq<ViewId>) {
    (forall t | t in sorted :: t.record.previousIndex.Some? && PrevOf(t) < |views0|) &&
    (forall a, b | 0 <= a < b < |sorted| :: PrevOf(sorted[a]) < PrevOf(sorted[b])) &&
    i <= |sorted| &&
    views == Without(views0, Image(sorted[i..], PrevOf), 0) &&
    MovedSoFar(moved, views0, if i < |sorted| then PrevOf(sorted[i]) else 0) &&
    (i == |sorted| ==> moved == []) &&
    Image(moved, RecordOf) == MovedRecords(sorted[i..])
  }

  lemma RemoveStart<T>(sorted: seq<RecordViewTuple<T>>, views0: seq<ViewId>)
    requires forall t | t in sorted :: t.record.previousIndex.Some? && PrevOf(t) < |views0|
    requires forall a, b | 0 <= a < b < |sorted| :: PrevOf(sorted[a]) < PrevOf(sorted[b])
    ensures RemovedSoFar(sorted, |sorted|, [], views0, views0)
  {
    assert sorted[|sorted|..] == [];
    assert Image(sorted[|sorted|..], PrevOf) == {};
    assert Image<RecordViewTuple<T>, ChangeRecord<T>>([], RecordOf) == {};
    WithoutNothing(views0, {}, 0);
  }

  /** Once every tuple is handled, the container and the collected moves are as `_bulkRemove` promises. */
  lemma RemoveDone<T>(sorted: seq<RecordViewTuple<T>>, moved: seq<RecordViewTuple<T>>, views: seq<ViewId>, views0: seq<ViewId>)
    requires RemovedSoFar(sorted, 0, moved, views, views0)
    ensures views == Without(views0, Image(sorted, PrevOf), 0)
    ensures forall i, j | 0 <= i < j < |moved| :: PrevOf(moved[j]) < PrevOf(moved[i])
    ensures forall m | m in moved :: m.record.currentIndex.Some? && PrevOf(m) < |views0| && m.view == Some(views0[PrevOf(m)])
    ensures Image(moved, RecordOf) == MovedRecords(sorted)
  {
    assert sorted[0..] == sorted;
  }

  /** The view at the next tuple's previous index is still the one that was there at first. */
  lemma RemoveReady<T>(sorted: seq<RecordViewTuple<T>>, i: nat, moved: seq<RecordViewTuple<T>>,
                       views: seq<ViewId>, views0: seq<ViewId>)
    requires i < |sorted| && RemovedSoFar(sorted, i + 1, moved, views, views0)
    ensures PrevOf(sorted[i]) < |views| && views[PrevOf(sorted[i])] == views0[PrevOf(sorted[i])]
  {
    assert sorted[i] in sorted;
    var ps := Image(sorted[i + 1..], PrevOf);
    Above(sorted, i, ps);
    RemoveBelow(views0, ps, PrevOf(sorted[i]));
  }

  /** One step of `_bulkRemove`: the view at tuple `i`'s previous index goes. */
  lemma RemoveStep<T>(sorted: seq<RecordViewTuple<T>>, i: nat, moved: seq<RecordViewTuple<T>>,
                      views: seq<ViewId>, views0: seq<ViewId>, moved2: seq<RecordViewTuple<T>>, views2: seq<ViewId>)
    requires i < |sorted| && RemovedSoFar(sorted, i + 1, moved, views, views0)
    requires PrevOf(sorted[i]) < |views|
    requires views2 == views[..PrevOf(sorted[i])] + views[PrevOf(sorted[i]) + 1..]
    requires sorted[i].record.currentIndex.Some? ==>
      moved2 == moved + [sorted[i].(view := Some(views[PrevOf(sorted[i])]))]
    requires sorted[i].record.currentIndex.None? ==> moved2 == moved
    ensures RemovedSoFar(sorted, i, moved2, views2, views0)
  {
    var t, p := sorted[i], PrevOf(sorted[i]);
    assert t in sorted;
    var ps := Image(sorted[i + 1..], PrevOf);
    Above(sorted, i, ps);
    assert sorted[i..] == [t] + sorted[i + 1..];
    ImageCons(t, sorted[i + 1..], PrevOf);
    RemoveBelow(views0, ps, p);
    if t.record.currentIndex.Some? {
      var tuple := t.(view := Some(views[p]));
      MovedStep(sorted, i, moved, tuple);
      if i + 1 < |sorted| {
        MovedExtend(moved, views0, PrevOf(sorted[i + 1]), tuple);
      }
    } else {
      MovedStep(sorted, i, moved, t);
      if i + 1 < |sorted| {
        MovedLower(moved, views0, PrevOf(sorted[i + 1]), p);
      }
    }
  }

  /**
   * After `_bulkInsert`, tuple `r` (tuple `t` before) has a view, namely `t`'s own if it had
   * one and otherwise one created during the insertion, and that view sits at the record's
   * current index.
   */
  ghost predicate Placed<T>(r: RecordViewTuple<T>, t: RecordViewTuple<T>, views: seq<ViewId>, created: nat) {
    r.record == t.record && r.view.Some? &&
    (t.view.Some? ==> r.view == t.view) && (t.view.None? ==> created <= r.view.value) &&
    CurOf(r) < |views| && views[CurOf(r)] == r.view.value
  }

  /**
   * What `_bulkInsert` may rely on for the sorted tuples: strictly ascending current
   * indices, each below the number of views once all are in, and views that are created,
   * detached and held by one tuple each.
   */
  ghost predicate InsertOrder<T>(sorted: seq<RecordViewTuple<T>>, views: seq<ViewId>, locals: seq<Locals<T>>) {
    (forall a, b | 0 <= a < b < |sorted| :: CurOf(sorted[a]) < CurOf(sorted[b])) &&
    (forall t | t in sorted :: t.record.currentIndex.Some? && CurOf(t) < |views| + |sorted|) &&
    (forall t | t in sorted && t.view.Some? :: t.view.value < |locals| && t.view.value !in views) &&
    (forall t, u | t in sorted && u in sorted && t != u && t.view.Some? :: t.view != u.view)
  }

  /** The tuples `_bulkInsert` receives meet `InsertOrder` once sorted by current index. */
  lemma SortedInsertOrder<T>(tuples: seq<RecordViewTuple<T>>, views: seq<ViewId>, locals: seq<Locals<T>>)
    requires forall t | t in tuples :: t.record.currentIndex.Some? && CurOf(t) < |views| + |tuples|
    requires Injective(tuples, CurOf)
    requires forall t | t in tuples && t.view.Some? :: t.view.value < |locals| && t.view.value !in views
    requires forall t, u | t in tuples && u in tuples && t != u && t.view.Some? :: t.view != u.view
    ensures |Sort(tuples, ByCurrent)| == |tuples|
    ensures Image(Sort(tuples, ByCurrent), CurOf) == Image(tuples, CurOf)
    ensures InsertOrder(Sort(tuples, ByCurrent), views, locals)
  {
    var sorted := Sort(tuples, ByCurrent);
    SortKeeps(tuples, ByCurrent, CurOf);
    SortStrict(tuples, ByCurrent);
    SortMembers(tuples, ByCurrent);
    assert forall a, b | 0 <= a < b < |sorted| :: CurOf(sorted[a]) < CurOf(sorted[b]) by {
      forall a, b | 0 <= a < b < |sorted| ensures CurOf(sorted[a]) < CurOf(sorted[b]) {
        assert Key(sorted[a], ByCurrent) < Key(sorted[b], ByCurrent);
      }
    }
    InsertOrderFrom(tuples, sorted, views, locals);
  }

  /** `InsertOrder` holds of any strictly ascending arrangement of the tuples. */
  lemma InsertOrderFrom<T>(tuples: seq<RecordViewTuple<T>>, sorted: seq<RecordViewTuple<T>>,
                           views: seq<ViewId>, locals: seq<Locals<T>>)
    requires forall t | t in tuples :: t.record.currentIndex.Some? && CurOf(t) < |views| + |tuples|
    requires forall t | t in tuples && t.view.Some? :: t.view.value < |locals| && t.view.value !in views
    requires forall t, u | t in tuples && u in tuples && t != u && t.view.Some? :: t.view != u.view
    requires |sorted| == |tuples| && forall t | t in sorted :: t in tuples
    requires forall a, b | 0 <= a < b < |sorted| :: CurOf(sorted[a]) < CurOf(sorted[b])
    ensures InsertOrder(sorted, views, locals)
  {
  }

  /** The state of `_bulkInsert` once the first `k` sorted tuples are in. */
  ghost predicate InsertedSoFar<T>(sorted: seq<RecordViewTuple<T>>, r: seq<RecordViewTuple<T>>, k: nat,
                                   views: seq<ViewId>, locals: seq<Locals<T>>,
                                   views0: seq<ViewId>, locals0: seq<Locals<T>>) {
    InsertOrder(sorted, views0, locals0) &&
    k <= |r| == |sorted| &&
    Distinct(views) && Created(views, locals) &&
    |locals0| <= |locals| && locals[..|locals0|] == locals0 &&
    |views| == |views0| + k &&
    Without(views, Image(sorted[..k], CurOf), 0) == views0 &&
    (forall j | 0 <= j < k :: Placed(r[j], sorted[j], views, |locals0|)) &&
    (forall j | k <= j < |r| :: r[j] == sorted[j]) &&
    (forall j | k <= j < |r| && sorted[j].view.Some? :: sorted[j].view.value !in views)
  }

  lemma InsertStart<T>(sorted: seq<RecordViewTuple<T>>, views0: seq<ViewId>, locals0: seq<Locals<T>>)
    requires Distinct(views0) && Created(views0, locals0) && InsertOrder(sorted, views0, locals0)
    ensures InsertedSoFar(sorted, sorted, 0, views0, locals0, views0, locals0)
  {
    assert Image(sorted[..0], CurOf) == {};
    WithoutNothing(views0, {}, 0);
    assert locals0[..|locals0|] == locals0;
    forall j | 0 <= j < |sorted| && sorted[j].view.Some? ensures sorted[j].view.value !in views0 {
      assert sorted[j] in sorted;
    }
  }

  /**
   * Attaching a view `v` that is created but not attached, at `c`, above every position
   * filled so far, keeps the container valid and what was left of it before.
   */
  lemma AttachAbove<T>(views: seq<ViewId>, locals: seq<Locals<T>>, v: ViewId, c: nat, ps: set<int>,
                       views2: seq<ViewId>, locals2: seq<Locals<T>>)
    requires Distinct(views) && Created(views, locals) && v !in views
    requires c <= |views| && views2 == views[..c] + [v] + views[c..] && forall q | q in ps :: q < c
    requires |locals| <= |locals2| && v < |locals2|
    ensures Distinct(views2) && Created(views2, locals2)
    ensures Without(views2, ps + {c}, 0) == Without(views, ps, 0)
    ensures |views2| == |views| + 1 && views2[c] == v
    ensures forall i | 0 <= i < c :: views2[i] == views[i]
    ensures forall x | x in views2 :: x in views || x == v
  {
    InsertAbove(views, v, ps, c);
    InsertDistinct(views, v, c);
    InsertShape(views, v, c);
    forall i | 0 <= i < |views2| ensures views2[i] < |locals2| {
      if i < c {
        assert views2[i] == views[i];
      } else if c < i {
        assert views2[i] == views[i - 1];
      }
    }
  }

  /** The tuples already placed stay placed when a view goes in above them. */
  lemma PlacedAbove<T>(sorted: seq<RecordViewTuple<T>>, r: seq<RecordViewTuple<T>>, k: nat,
                       views: seq<ViewId>, created: nat, r2: seq<RecordViewTuple<T>>, views2: seq<ViewId>)
    requires k < |sorted| == |r| == |r2|
    requires forall a, b | 0 <= a < b < |sorted| :: CurOf(sorted[a]) < CurOf(sorted[b])
    requires forall j | 0 <= j < k :: Placed(r[j], sorted[j], views, created) && r2[j] == r[j]
    requires CurOf(sorted[k]) <= |views| < |views2|
    requires forall i | 0 <= i < CurOf(sorted[k]) :: views2[i] == views[i]
    requires Placed(r2[k], sorted[k], views2, created)
    ensures forall j | 0 <= j < k + 1 :: Placed(r2[j], sorted[j], views2, created)
  {
    forall j | 0 <= j < k ensures Placed(r2[j], sorted[j], views2, created) {
      assert CurOf(sorted[j]) < CurOf(sorted[k]) && CurOf(r2[j]) == CurOf(sorted[j]);
    }
  }

  /** Once every tuple is placed, the container and the tuples are as `_bulkInsert` promises. */
  lemma InsertDone<T>(sorted: seq<RecordViewTuple<T>>, r: seq<RecordViewTuple<T>>, k: nat,
                      views: seq<ViewId>, locals: seq<Locals<T>>, views0: seq<ViewId>, locals0: seq<Locals<T>>)
    requires InsertedSoFar(sorted, r, k, views, locals, views0, locals0) && k == |r|
    ensures Distinct(views) && Created(views, locals)
    ensures |locals0| <= |locals| && locals[..|locals0|] == locals0
    ensures |views| == |views0| + |sorted| && Without(views, Image(sorted, CurOf), 0) == views0
    ensures |r| == |sorted| && forall i | 0 <= i < |r| :: Placed(r[i], sorted[i], views, |locals0|)
  {
    assert sorted[..k] == sorted;
  }

  /** One step of `_bulkInsert`: view `v` goes in at the current index of tuple `k`. */
  lemma InsertStep<T>(sorted: seq<RecordViewTuple<T>>, r: seq<RecordViewTuple<T>>, k: nat,
                      views: seq<ViewId>, locals: seq<Locals<T>>,
                      views0: seq<ViewId>, locals0: seq<Locals<T>>,
                      v: ViewId, r2: seq<RecordViewTuple<T>>, views2: seq<ViewId>, locals2: seq<Locals<T>>)
    requires InsertedSoFar(sorted, r, k, views, locals, views0, locals0) && k < |r|
    requires CurOf(sorted[k]) <= |views|
    requires views2 == views[..CurOf(sorted[k])] + [v] + views[CurOf(sorted[k])..]
    requires sorted[k].view.Some? ==> v == sorted[k].view.value && locals2 == locals && r2 == r
    requires sorted[k].view.None? ==>
      v == |locals| && locals2 == locals + [map[]] && r2 == r[k := sorted[k].(view := Some(v))]
    ensures InsertedSoFar(sorted, r2, k + 1, views2, locals2, views0, locals0)
  {
    var c, t := CurOf(sorted[k]), sorted[k];
    assert t in sorted;
    var ps := Image(sorted[..k], CurOf);
    Below(sorted, k, ps);
    AttachAbove(views, locals, v, c, ps, views2, locals2);
    assert sorted[..k + 1] == sorted[..k] + [t];
    ImageSnoc(sorted[..k], t, CurOf);
    assert locals2[..|locals0|] == locals0 by {
      if t.view.None? {
        assert locals2[..|locals0|] == locals[..|locals0|];
      }
    }
    PlacedAbove(sorted, r, k, views, |locals0|, r2, views2);
    forall j | k + 1 <= j < |r2| && sorted[j].view.Some? ensures sorted[j].view.value !in views2 {
      assert sorted[j] in sorted && sorted[j] != t;
    }
  }
}
