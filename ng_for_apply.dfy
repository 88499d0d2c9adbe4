/**
 * What NgFor's `_applyChanges` and `_perViewChange` leave behind: the locals of one view,
 * and the argument that the container ends up showing the current collection.
 */
module ForApply {
  import opened Wrappers
  import opened Positions
  import opened ForChanges
  import opened ViewContainers
  import opened ForSteps

  /**
   * The locals `_perViewChange` leaves a view with: the record's item, its current index,
   * and whether that index is even or odd; JavaScript's `%` reads a missing index as 0.
   */
  function PerViewLocals<T>(l: Locals<T>, record: ChangeRecord<T>): (r: Locals<T>)
    ensures ItemOf(r) == Some(record.item)
    ensures Index in r && r[Index] == IndexValue(record.currentIndex)
    ensures Even in r && Odd in r && r[Even].BoolValue? && r[Odd].BoolValue? && r[Even].flag != r[Odd].flag
    ensures r[Even].flag <==> RecCur(record) % 2 == 0
    ensures record.currentIndex.Some? ==> Numbered(r, record.currentIndex.value)
    ensures forall name | name in l && name !in {Implicit, Index, Even, Odd} :: name in r && r[name] == l[name]
    ensures forall name | name in r :: name in l || name in {Implicit, Index, Even, Odd}
  {
    var i := OrZero(record.currentIndex);
    l[Implicit := ItemValue(record.item)][Index := IndexValue(record.currentIndex)]
     [Even := BoolValue(i % 2 == 0)][Odd := BoolValue(i % 2 == 1)]
  }

  /** A view's `index`, `even` and `odd` locals describe position `c`. */
  ghost predicate Numbered<T>(l: Locals<T>, c: nat) {
    Index in l && l[Index] == IndexValue(Some(c)) &&
    Even in l && l[Even] == BoolValue(c % 2 == 0) && Odd in l && l[Odd] == BoolValue(c % 2 == 1)
  }

  /** Exactly the last of `views` has its `last` local set to true. */
  ghost predicate LastMarked<T>(views: seq<ViewId>, locals: seq<Locals<T>>)
    requires Created(views, locals)
  {
    forall i | 0 <= i < |views| :: Last in locals[views[i]] && locals[views[i]][Last] == BoolValue(i == |views| - 1)
  }

  /** Setting `last` on the attached views changes neither what a view shows nor its numbering. */
  lemma LastKeeps<T>(views: seq<ViewId>, before: seq<Locals<T>>, after: seq<Locals<T>>)
    requires Created(views, before) && |after| == |before|
    requires forall i | 0 <= i < |views| ::
      after[views[i]] == before[views[i]][Last := BoolValue(i == |views| - 1)]
    requires forall v | 0 <= v < |after| && v !in views :: after[v] == before[v]
    ensures forall v | 0 <= v < |after| :: ItemOf(after[v]) == ItemOf(before[v])
    ensures forall v, c | 0 <= v < |after| && Numbered(before[v], c) :: Numbered(after[v], c)
    ensures LastMarked(views, after)
  {
    forall v | 0 <= v < |after| && v in views
      ensures ItemOf(after[v]) == ItemOf(before[v]) && forall c | Numbered(before[v], c) :: Numbered(after[v], c)
    {
      var i :| 0 <= i < |views| && views[i] == v;
    }
  }

  /** The views the tuples carry. */
  ghost function ViewsOf<T>(r: seq<RecordViewTuple<T>>): set<ViewId> {
    set t | t in r && t.view.Some? :: t.view.value
  }

  /** No two records of `s` share a current index. */
  lemma CurApart<T>(s: seq<ChangeRecord<T>>, x: ChangeRecord<T>, y: ChangeRecord<T>)
    requires Injective(s, RecCur) && x in s && y in s && x != y
    ensures RecCur(x) != RecCur(y)
  {
    var a :| 0 <= a < |s| && s[a] == x;
    var b :| 0 <= b < |s| && s[b] == y;
    if b < a {
      assert RecCur(s[b]) != RecCur(s[a]);
    }
  }

  /** A moved record and an added record never share a current index. */
  lemma MovedAddedApart<T>(moved: seq<ChangeRecord<T>>, added: seq<ChangeRecord<T>>, x: ChangeRecord<T>, y: ChangeRecord<T>)
    requires Injective(moved + added, RecCur) && x in moved && y in added
    ensures RecCur(x) != RecCur(y)
  {
    var a :| 0 <= a < |moved| && moved[a] == x;
    var b :| 0 <= b < |added| && added[b] == y;
    assert (moved + added)[a] == x && (moved + added)[|moved| + b] == y;
  }

  /** The tuples `_applyChanges` hands to `_bulkRemove` meet its requirements. */
  lemma LeavingFit<T>(previous: seq<T>, current: seq<T>, ch: IterableChanges<T>, n: nat)
    requires Consistent(previous, current, ch) && n == |previous|
    ensures forall t | t in TuplesOf(ch.removed + ch.moved) :: t.record.previousIndex.Some? && PrevOf(t) < n
    ensures Injective(TuplesOf(ch.removed + ch.moved), PrevOf)
    ensures Image(TuplesOf(ch.removed + ch.moved), PrevOf) == Image(ch.removed + ch.moved, RecPrev)
    ensures MovedRecords(TuplesOf(ch.removed + ch.moved)) == set r | r in ch.moved
  {
    var leaving := ch.removed + ch.moved;
    TuplesOfKeys(leaving);
    var ts := TuplesOf(leaving);
    forall r | r in ch.moved ensures r in MovedRecords(ts) {
      assert r in leaving && RecordViewTuple(r, None) in ts;
    }
  }

  /** Lengths: the views kept plus the views arriving make up the current collection. */
  lemma KeptLength<T>(previous: seq<T>, current: seq<T>, leaving: seq<ChangeRecord<T>>,
                      arriving: seq<ChangeRecord<T>>, views0: seq<ViewId>)
    requires forall r | r in leaving :: RecPrev(r) < |previous|
    requires forall r | r in arriving :: RecCur(r) < |current|
    requires Injective(leaving, RecPrev) && Injective(arriving, RecCur)
    requires Without(previous, Image(leaving, RecPrev), 0) == Without(current, Image(arriving, RecCur), 0)
    requires |views0| == |previous|
    ensures |Without(views0, Image(leaving, RecPrev), 0)| + |arriving| == |current|
  {
    var pl, pa := Image(leaving, RecPrev), Image(arriving, RecCur);
    forall p | p in pl ensures 0 <= p < |previous| {
      var r :| r in leaving && RecPrev(r) == p;
    }
    forall p | p in pa ensures 0 <= p < |current| {
      var r :| r in arriving && RecCur(r) == p;
    }
    WithoutCount(views0, pl);
    WithoutCount(previous, pl);
    WithoutCount(current, pa);
    InjectiveSize(leaving, RecPrev);
    InjectiveSize(arriving, RecCur);
  }

  /** The moved tuples carry moved records; tuples built for added records carry added ones. */
  lemma ArrivingRecords<T>(mv: seq<ChangeRecord<T>>, ad: seq<ChangeRecord<T>>, moved: seq<RecordViewTuple<T>>)
    requires forall r | r in ad :: r.currentIndex.Some?
    requires forall m | m in moved :: m.record.currentIndex.Some?
    requires Image(moved, RecordOf) == set r | r in mv
    ensures forall m | m in moved :: m.record in mv
    ensures forall t | t in moved + TuplesOf(ad) :: t.record in mv + ad && t.record.currentIndex.Some?
    ensures Image(moved + TuplesOf(ad), CurOf) == Image(mv + ad, RecCur)
  {
    var added := TuplesOf(ad);
    var ins := moved + added;
    TuplesOfKeys(ad);
    forall m | m in moved ensures m.record in mv {
      assert RecordOf(m) in Image(moved, RecordOf);
    }
    forall t | t in ins ensures t.record in mv + ad && t.record.currentIndex.Some? {
      if t !in moved {
        assert t in added && t.record in ad;
      }
    }
    forall c | c in Image(mv + ad, RecCur) ensures c in Image(ins, CurOf) {
      var r :| r in mv + ad && RecCur(r) == c;
      if r in mv {
        assert r in Image(moved, RecordOf);
        var m :| m in moved && RecordOf(m) == r;
        assert m in ins;
      } else {
        assert RecordViewTuple(r, None) in added;
        assert RecordViewTuple(r, None) in ins;
      }
    }
  }

  /** No two of the tuples handed to `_bulkInsert` share a current index. */
  lemma ArrivingApart<T>(mv: seq<ChangeRecord<T>>, ad: seq<ChangeRecord<T>>, moved: seq<RecordViewTuple<T>>)
    requires Injective(mv + ad, RecCur)
    requires forall i, j | 0 <= i < j < |moved| :: PrevOf(moved[j]) < PrevOf(moved[i])
    requires forall m | m in moved :: m.record in mv
    ensures Injective(moved + TuplesOf(ad), CurOf)
  {
    var added := TuplesOf(ad);
    var ins := moved + added;
    forall i, j | 0 <= i < j < |ins| ensures CurOf(ins[i]) != CurOf(ins[j]) {
      if j < |moved| {
        assert ins[i] == moved[i] && ins[j] == moved[j] && moved[i] in moved && moved[j] in moved;
        assert PrevOf(moved[j]) < PrevOf(moved[i]);
        CurApart(mv + ad, ins[i].record, ins[j].record);
      } else if i < |moved| {
        assert ins[i] == moved[i] && moved[i] in moved && ins[j] == added[j - |moved|];
        MovedAddedApart(mv, ad, ins[i].record, ins[j].record);
      } else {
        var a, b := i - |moved|, j - |moved|;
        assert ins[i] == added[a] && ins[j] == added[b];
        assert (mv + ad)[|mv| + a] == ad[a] && (mv + ad)[|mv| + b] == ad[b];
      }
    }
  }

  /**
   * The views the moved tuples carry are created, detached once `_bulkRemove` is done, and
   * held by one tuple each; the tuples built for added records carry none.
   */
  lemma ArrivingViews<T>(ad: seq<ChangeRecord<T>>, mv: seq<ChangeRecord<T>>, pl: set<int>,
                         views0: seq<ViewId>, locals0: seq<Locals<T>>, moved: seq<RecordViewTuple<T>>)
    requires Distinct(views0) && Created(views0, locals0)
    requires forall r | r in mv :: RecPrev(r) in pl
    requires forall i, j | 0 <= i < j < |moved| :: PrevOf(moved[j]) < PrevOf(moved[i])
    requires forall m | m in moved :: m.record in mv && PrevOf(m) < |views0| && m.view == Some(views0[PrevOf(m)])
    ensures forall t | t in moved + TuplesOf(ad) && t.view.Some? ::
      t.view.value < |locals0| && t.view.value !in Without(views0, pl, 0)
    ensures forall t, u | t in moved + TuplesOf(ad) && u in moved + TuplesOf(ad) && t != u && t.view.Some? ::
      t.view != u.view
  {
    var ins := moved + TuplesOf(ad);
    TuplesOfKeys(ad);
    forall t | t in ins && t.view.Some? ensures t.view.value < |locals0| && t.view.value !in Without(views0, pl, 0) {
      assert t in moved;
      WithoutExcludes(views0, pl, PrevOf(t));
    }
    forall t, u | t in ins && u in ins && t != u && t.view.Some? ensures t.view != u.view {
      assert t in moved;
      if u in moved {
        var a :| 0 <= a < |moved| && moved[a] == t;
        var b :| 0 <= b < |moved| && moved[b] == u;
        assert PrevOf(t) != PrevOf(u);
      }
    }
  }

  /**
   * The tuples `_applyChanges` hands to `_bulkInsert`, the moved ones `_bulkRemove`
   * returned followed by one per added record, meet its requirements, and their current
   * indices are exactly the arrival positions.
   */
  lemma InsertTuplesFit<T>(mv: seq<ChangeRecord<T>>, ad: seq<ChangeRecord<T>>, n: nat, pl: set<int>,
                           views0: seq<ViewId>, locals0: seq<Locals<T>>, moved: seq<RecordViewTuple<T>>)
    requires forall r | r in ad :: r.currentIndex.Some?
    requires forall r | r in mv + ad :: RecCur(r) < n
    requires Injective(mv + ad, RecCur)
    requires forall r | r in mv :: RecPrev(r) in pl
    requires Distinct(views0) && Created(views0, locals0)
    requires |Without(views0, pl, 0)| + |mv + ad| == n
    requires forall i, j | 0 <= i < j < |moved| :: PrevOf(moved[j]) < PrevOf(moved[i])
    requires forall m | m in moved ::
      m.record.currentIndex.Some? && PrevOf(m) < |views0| && m.view == Some(views0[PrevOf(m)])
    requires Image(moved, RecordOf) == set r | r in mv
    ensures var ins, views1 := moved + TuplesOf(ad), Without(views0, pl, 0);
      (forall t | t in ins :: t.record.currentIndex.Some? && CurOf(t) < |views1| + |ins|) &&
      Injective(ins, CurOf) &&
      (forall t | t in ins && t.view.Some? :: t.view.value < |locals0| && t.view.value !in views1) &&
      (forall t, u | t in ins && u in ins && t != u && t.view.Some? :: t.view != u.view) &&
      Image(ins, CurOf) == Image(mv + ad, RecCur) &&
      (forall t | t in ins :: t.record in mv + ad) &&
      |ins| == |mv + ad|
  {
    var ins := moved + TuplesOf(ad);
    ArrivingRecords(mv, ad, moved);
    ArrivingApart(mv, ad, moved);
    ArrivingViews(ad, mv, pl, views0, locals0, moved);
    InjectiveSize(ins, CurOf);
    InjectiveSize(mv + ad, RecCur);
    assert |ins| == |mv + ad|;
  }

  /** The tuples `_bulkInsert` returns, read against the records they came from. */
  lemma InsertedRecords<T>(arriving: seq<ChangeRecord<T>>, ins: seq<RecordViewTuple<T>>,
                           sorted: seq<RecordViewTuple<T>>, r: seq<RecordViewTuple<T>>,
                           views2: seq<ViewId>, created: nat)
    requires |r| == |sorted| && forall i | 0 <= i < |r| :: Placed(r[i], sorted[i], views2, created)
    requires forall t | t in sorted :: t in ins
    requires forall t | t in ins :: t.record in arriving
    ensures forall i | 0 <= i < |r| ::
      r[i].record in arriving && r[i].view.Some? &&
      CurOf(r[i]) < |views2| && views2[CurOf(r[i])] == r[i].view.value
    ensures Image(r, CurOf) == Image(sorted, CurOf)
  {
    forall i | 0 <= i < |r| ensures r[i].record in arriving {
      assert sorted[i] in sorted;
    }
    forall c | c in Image(sorted, CurOf) ensures c in Image(r, CurOf) {
      var t :| t in sorted && CurOf(t) == c;
      var i :| 0 <= i < |sorted| && sorted[i] == t;
      assert r[i] in r && CurOf(r[i]) == c;
    }
    forall c | c in Image(r, CurOf) ensures c in Image(sorted, CurOf) {
      var t :| t in r && CurOf(t) == c;
      var i :| 0 <= i < |r| && r[i] == t;
      assert sorted[i] in sorted && CurOf(sorted[i]) == c;
    }
  }

  /**
   * Where the arrivals' views come from: a moved record's new position holds the view
   * that stood at its old position, an added record's new position a view created by
   * `_bulkInsert` (numbered from `created` on).
   */
  lemma ArrivalViews<T>(mv: seq<ChangeRecord<T>>, ad: seq<ChangeRecord<T>>, moved: seq<RecordViewTuple<T>>,
                        sorted: seq<RecordViewTuple<T>>, r: seq<RecordViewTuple<T>>,
                        views0: seq<ViewId>, views2: seq<ViewId>, created: nat)
    requires forall m | m in moved :: PrevOf(m) < |views0| && m.view == Some(views0[PrevOf(m)])
    requires Image(moved, RecordOf) == set x | x in mv
    requires multiset(sorted) == multiset(moved + TuplesOf(ad))
    requires |r| == |sorted| && forall i | 0 <= i < |r| :: Placed(r[i], sorted[i], views2, created)
    ensures forall rec | rec in mv ::
      RecCur(rec) < |views2| && RecPrev(rec) < |views0| && views2[RecCur(rec)] == views0[RecPrev(rec)]
    ensures forall rec | rec in ad :: RecCur(rec) < |views2| && created <= views2[RecCur(rec)]
  {
    forall rec | rec in mv
      ensures RecCur(rec) < |views2| && RecPrev(rec) < |views0| && views2[RecCur(rec)] == views0[RecPrev(rec)]
    {
      assert rec in Image(moved, RecordOf);
      var m :| m in moved && m.record == rec;
      assert m in multiset(moved + TuplesOf(ad));
      assert m in multiset(sorted);
      var i :| 0 <= i < |sorted| && sorted[i] == m;
      assert Placed(r[i], m, views2, created);
    }
    forall rec | rec in ad ensures RecCur(rec) < |views2| && created <= views2[RecCur(rec)] {
      var k :| 0 <= k < |ad| && ad[k] == rec;
      var t := TuplesOf(ad)[k];
      assert t in moved + TuplesOf(ad);
      assert t in multiset(sorted);
      var i :| 0 <= i < |sorted| && sorted[i] == t;
      assert Placed(r[i], t, views2, created);
    }
  }

  /** A view kept at a position outside `pa` is none of the tuples' views. */
  lemma KeptUntouched<T>(views2: seq<ViewId>, pa: set<int>, r: seq<RecordViewTuple<T>>, v: ViewId)
    requires Distinct(views2) && v in Without(views2, pa, 0)
    requires forall i | 0 <= i < |r| ::
      r[i].view.Some? && CurOf(r[i]) < |views2| && views2[CurOf(r[i])] == r[i].view.value
    requires Image(r, CurOf) == pa
    ensures v !in ViewsOf(r)
  {
    WithoutFrom(views2, pa, 0, v);
    var j :| 0 <= j < |views2| && 0 + j !in pa && views2[j] == v;
    forall t | t in r && t.view.Some? ensures t.view.value != v {
      var i :| 0 <= i < |r| && r[i] == t;
      assert CurOf(t) in Image(r, CurOf);
    }
  }

  /**
   * The views `_bulkRemove` and `_bulkInsert` kept in place: neither loop of
   * `_applyChanges` changes the item they show.
   */
  lemma KeptItems<T>(views0: seq<ViewId>, locals0: seq<Locals<T>>, pl: set<int>, pa: set<int>,
                     views2: seq<ViewId>, locals2: seq<Locals<T>>, r: seq<RecordViewTuple<T>>,
                     locals3: seq<Locals<T>>, f: seq<Locals<T>>)
    requires Created(views0, locals0) && Distinct(views2)
    requires Without(views2, pa, 0) == Without(views0, pl, 0)
    requires |locals0| <= |locals2| && locals2[..|locals0|] == locals0
    requires forall i | 0 <= i < |r| ::
      r[i].view.Some? && CurOf(r[i]) < |views2| && views2[CurOf(r[i])] == r[i].view.value
    requires Image(r, CurOf) == pa
    requires |locals3| == |locals2| && |f| == |locals2|
    requires forall v | 0 <= v < |locals3| && v !in ViewsOf(r) :: locals3[v] == locals2[v]
    requires forall v | 0 <= v < |f| :: ItemOf(f[v]) == ItemOf(locals3[v])
    ensures forall v: ViewId | v in Without(views0, pl, 0) ::
      v < |locals0| && v < |f| && ItemOf(f[v]) == ItemOf(locals0[v])
  {
    forall v: ViewId | v in Without(views0, pl, 0) ensures v < |locals0| && v < |f| && ItemOf(f[v]) == ItemOf(locals0[v]) {
      WithoutFrom(views0, pl, 0, v);
      KeptUntouched(views2, pa, r, v);
      assert locals2[..|locals0|][v] == locals2[v];
    }
  }

  /** Every arrival position ends with a view showing the current item, numbered by its position. */
  lemma ArrivedItems<T>(current: seq<T>, arriving: seq<ChangeRecord<T>>, pa: set<int>,
                        views2: seq<ViewId>, locals2: seq<Locals<T>>, r: seq<RecordViewTuple<T>>,
                        locals3: seq<Locals<T>>, f: seq<Locals<T>>)
    requires forall rec | rec in arriving ::
      rec.currentIndex.Some? && RecCur(rec) < |current| && current[RecCur(rec)] == rec.item
    requires forall i | 0 <= i < |r| ::
      r[i].record in arriving && r[i].view.Some? && CurOf(r[i]) < |views2| && views2[CurOf(r[i])] == r[i].view.value
    requires Image(r, CurOf) == pa
    requires Created(views2, locals2) && |locals3| == |locals2| && |f| == |locals2|
    requires forall i | 0 <= i < |r| ::
      locals3[r[i].view.value] == PerViewLocals(locals2[r[i].view.value], r[i].record)
    requires forall v | 0 <= v < |f| :: ItemOf(f[v]) == ItemOf(locals3[v])
    requires forall v, c | 0 <= v < |f| && Numbered(locals3[v], c) :: Numbered(f[v], c)
    ensures forall c | c in pa ::
      0 <= c < |views2| && ItemOf(f[views2[c]]) == Some(current[c]) && Numbered(f[views2[c]], c)
  {
    forall c | c in pa ensures 0 <= c < |views2| && ItemOf(f[views2[c]]) == Some(current[c]) && Numbered(f[views2[c]], c) {
      var t :| t in r && CurOf(t) == c;
      var i :| 0 <= i < |r| && r[i] == t;
      assert t.record in arriving;
    }
  }

  /**
   * The end of `_applyChanges`: the kept views still show what they showed, and every
   * arrival position shows the current item, so the container shows `current`.
   */
  lemma Reconciled<T>(previous: seq<T>, current: seq<T>, pl: set<int>, pa: set<int>,
                      views0: seq<ViewId>, locals0: seq<Locals<T>>, views2: seq<ViewId>, f: seq<Locals<T>>)
    requires Without(previous, pl, 0) == Without(current, pa, 0)
    requires Created(views0, locals0) && Shown(views0, locals0) == Lift(previous)
    requires Created(views2, f) && |views2| == |current|
    requires Without(views2, pa, 0) == Without(views0, pl, 0)
    requires forall v: ViewId | v in Without(views0, pl, 0) ::
      v < |locals0| && v < |f| && ItemOf(f[v]) == ItemOf(locals0[v])
    requires forall c | c in pa :: 0 <= c < |views2| && ItemOf(f[views2[c]]) == Some(current[c])
    ensures Shown(views2, f) == Lift(current)
  {
    var views1 := Without(views0, pl, 0);
    WithoutShown(views2, f, pa, 0);
    WithoutShown(views0, locals0, pl, 0);
    assert Shown(views1, f) == Shown(views1, locals0) by {
      forall k | 0 <= k < |views1| ensures ItemOf(f[views1[k]]) == ItemOf(locals0[views1[k]]) {
        assert views1[k] in views1;
      }
    }
    WithoutLift(previous, pl, 0);
    WithoutLift(current, pa, 0);
    var x, y := Shown(views2, f), Lift(current);
    forall i | 0 <= i < |x| && 0 + i in pa ensures x[i] == y[i] {
      assert i in pa;
      assert x[i] == ItemOf(f[views2[i]]) && y[i] == Some(current[i]);
    }
    WithoutDetermines(x, y, pa, 0);
  }
}
