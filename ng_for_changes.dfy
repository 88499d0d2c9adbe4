/**
 * The differ's report as NgFor consumes it, and the values `_applyChanges` builds from it:
 * change records, record/view tuples, and the sorts `_bulkRemove` and `_bulkInsert` apply.
 */
module ForChanges {
  import opened Wrappers
  import opened Positions

  /** The identity of a view; the view container hands out a fresh one for every view it creates. */
  type ViewId = nat

  /**
   * One entry of the differ's report: the item, its index in the previous collection
   * (absent for an addition) and its index in the current one (absent for a removal).
   */
  datatype ChangeRecord<T> = ChangeRecord(item: T, previousIndex: Option<nat>, currentIndex: Option<nat>)

  /**
   * The records the differ's `forEachRemovedItem`, `forEachMovedItem` and
   * `forEachAddedItem` visit, each list in visiting order.
   */
  datatype IterableChanges<T> =
    IterableChanges(removed: seq<ChangeRecord<T>>, moved: seq<ChangeRecord<T>>, added: seq<ChangeRecord<T>>)

  /** `RecordViewTuple`: a change record and the view NgFor holds for it so far, if any. */
  datatype RecordViewTuple<T> = RecordViewTuple(record: ChangeRecord<T>, view: Option<ViewId>)

  /** The sort comparators subtract indices, and JavaScript reads a missing index there as 0. */
  function OrZero(i: Option<nat>): nat {
    if i.Some? then i.value else 0
  }

  function RecPrev<T>(r: ChangeRecord<T>): nat { OrZero(r.previousIndex) }
  function RecCur<T>(r: ChangeRecord<T>): nat { OrZero(r.currentIndex) }
  function PrevOf<T>(t: RecordViewTuple<T>): nat { RecPrev(t.record) }
  function CurOf<T>(t: RecordViewTuple<T>): nat { RecCur(t.record) }
  function RecordOf<T>(t: RecordViewTuple<T>): ChangeRecord<T> { t.record }

  /** `new RecordViewTuple(record, null)` for each record, in order. */
  function TuplesOf<T>(rs: seq<ChangeRecord<T>>): seq<RecordViewTuple<T>> {
    seq(|rs|, i requires 0 <= i < |rs| => RecordViewTuple(rs[i], None))
  }

  /** The values `f` takes on the elements of `s`. */
  ghost function Image<X, Y>(s: seq<X>, f: X -> Y): set<Y> {
    set x | x in s :: f(x)
  }

  /** `f` tells the positions of `s` apart. */
  ghost predicate Injective<X, Y>(s: seq<X>, f: X -> Y) {
    forall i, j | 0 <= i < j < |s| :: f(s[i]) != f(s[j])
  }

  lemma ImageSnoc<X, Y>(s: seq<X>, x: X, f: X -> Y)
    ensures Image(s + [x], f) == Image(s, f) + {f(x)}
  {
    assert forall z | z in s + [x] :: z == x || z in s;
    assert forall z | z in s :: z in s + [x];
    assert x in s + [x];
  }

  lemma ImageCons<X, Y>(x: X, s: seq<X>, f: X -> Y)
    ensures Image([x] + s, f) == Image(s, f) + {f(x)}
  {
    assert forall z | z in [x] + s :: z == x || z in s;
    assert forall z | z in s :: z in [x] + s;
    assert x in [x] + s;
  }

  /** A sequence has as many positions as `f`-values exactly when `f` tells its positions apart. */
  lemma {:induction false} ImageSize<X, Y>(s: seq<X>, f: X -> Y)
    ensures |Image(s, f)| <= |s|
    ensures Injective(s, f) <==> |Image(s, f)| == |s|
    decreases |s|
  {
    if |s| == 0 {
      assert Image(s, f) == {};
    } else {
      var n := |s| - 1;
      var p, x := s[..n], s[n];
      assert s == p + [x];
      ImageSnoc(p, x, f);
      ImageSize(p, f);
      if f(x) in Image(p, f) {
        var y :| y in p && f(y) == f(x);
        var i :| 0 <= i < |p| && p[i] == y;
        assert s[i] == y && i < n;
      } else {
        InjectiveSnoc(p, x, f);
      }
    }
  }

  lemma InjectiveSize<X, Y>(s: seq<X>, f: X -> Y)
    requires Injective(s, f)
    ensures |Image(s, f)| == |s|
  {
    ImageSize(s, f);
  }

  /** An element whose value is new keeps `f` telling the positions apart. */
  lemma InjectiveSnoc<X, Y>(p: seq<X>, x: X, f: X -> Y)
    requires f(x) !in Image(p, f)
    ensures Injective(p + [x], f) <==> Injective(p, f)
  {
    var s := p + [x];
    forall i | 0 <= i < |p| ensures f(s[i]) != f(x) {
      assert s[i] == p[i] && p[i] in p;
    }
    assert forall i | 0 <= i < |p| :: s[i] == p[i];
  }

  /** Sequences with the same elements have the same image. */
  lemma ImageSame<X, Y>(a: seq<X>, b: seq<X>, f: X -> Y)
    requires multiset(a) == multiset(b)
    ensures Image(a, f) == Image(b, f)
  {
    forall y | y in Image(a, f) ensures y in Image(b, f) {
      var x :| x in a && f(x) == y;
      assert x in multiset(b);
    }
    forall y | y in Image(b, f) ensures y in Image(a, f) {
      var x :| x in b && f(x) == y;
      assert x in multiset(a);
    }
  }

  /** Rearranging a sequence keeps `f` telling its positions apart. */
  lemma InjectiveSame<X, Y>(a: seq<X>, b: seq<X>, f: X -> Y)
    requires multiset(a) == multiset(b) && Injective(a, f)
    ensures Injective(b, f)
  {
    assert |a| == |multiset(a)| == |multiset(b)| == |b|;
    ImageSame(a, b, f);
    ImageSize(a, f);
    ImageSize(b, f);
  }

  /** The index each comparator subtracts. */
  datatype SortKey = ByPrevious | ByCurrent

  function Key<T>(t: RecordViewTuple<T>, key: SortKey): nat {
    if key == ByPrevious then PrevOf(t) else CurOf(t)
  }

  /** The sort order both comparators ask for. */
  ghost predicate SortedBy<T>(s: seq<RecordViewTuple<T>>, key: SortKey) {
    forall i, j | 0 <= i < j < |s| :: Key(s[i], key) <= Key(s[j], key)
  }

  /** A key no larger than any of a sorted sequence's may go in front of it. */
  lemma SortedCons<T>(x: RecordViewTuple<T>, rest: seq<RecordViewTuple<T>>, key: SortKey)
    requires SortedBy(rest, key) && forall j | 0 <= j < |rest| :: Key(x, key) <= Key(rest[j], key)
    ensures SortedBy([x] + rest, key)
  {
    var r := [x] + rest;
    forall i, j | 0 <= i < j < |r| ensures Key(r[i], key) <= Key(r[j], key) {
      assert r[j] == rest[j - 1];
      if i > 0 {
        assert r[i] == rest[i - 1];
      }
    }
  }

  /**
   * Inserting `t` behind the head of a sorted `s`: the head's key bounds every key of the
   * rest, and putting the head back gives the elements of `s` and `t`.
   */
  lemma HeadBelow<T>(t: RecordViewTuple<T>, s: seq<RecordViewTuple<T>>, rest: seq<RecordViewTuple<T>>, key: SortKey)
    requires |s| > 0 && SortedBy(s, key) && Key(s[0], key) <= Key(t, key)
    requires multiset(rest) == multiset(s[1..]) + multiset{t}
    ensures forall j | 0 <= j < |rest| :: Key(s[0], key) <= Key(rest[j], key)
    ensures multiset([s[0]] + rest) == multiset(s) + multiset{t}
  {
    assert s == [s[0]] + s[1..];
    forall j | 0 <= j < |rest| ensures Key(s[0], key) <= Key(rest[j], key) {
      assert rest[j] in multiset(rest);
      if rest[j] != t {
        assert rest[j] in multiset(s[1..]);
        var k :| 0 <= k < |s[1..]| && s[1..][k] == rest[j];
        assert s[k + 1] == rest[j];
      }
    }
  }

  function InsertSorted<T>(t: RecordViewTuple<T>, s: seq<RecordViewTuple<T>>, key: SortKey)
    : (r: seq<RecordViewTuple<T>>)
    requires SortedBy(s, key)
    ensures |r| == |s| + 1 && SortedBy(r, key) && multiset(r) == multiset(s) + multiset{t}
    decreases |s|
  {
    if |s| == 0 || Key(t, key) <= Key(s[0], key) then
      SortedCons(t, s, key);
      [t] + s
    else
      var rest := InsertSorted(t, s[1..], key);
      HeadBelow(t, s, rest, key);
      SortedCons(s[0], rest, key);
      [s[0]] + rest
  }

  /**
   * `Array.prototype.sort` with a comparator subtracting `key`s: the tuples in ascending
   * key order.  Under the callers' preconditions no two keys are equal, so the order of
   * equal keys, which the engine leaves open, never matters.
   */
  function Sort<T>(ts: seq<RecordViewTuple<T>>, key: SortKey): (r: seq<RecordViewTuple<T>>)
    ensures |r| == |ts| && SortedBy(r, key) && multiset(r) == multiset(ts)
    decreases |ts|
  {
    if |ts| == 0 then []
    else
      assert ts == [ts[0]] + ts[1..];
      InsertSorted(ts[0], Sort(ts[1..], key), key)
  }

  /** Sorting keeps the length, the elements and every image. */
  lemma SortKeeps<T, Y>(ts: seq<RecordViewTuple<T>>, key: SortKey, f: RecordViewTuple<T> -> Y)
    ensures |Sort(ts, key)| == |ts| && multiset(Sort(ts, key)) == multiset(ts)
    ensures Image(Sort(ts, key), f) == Image(ts, f)
  {
    ImageSame(Sort(ts, key), ts, f);
  }

  /** Sorting brings in no element. */
  lemma SortMembers<T>(ts: seq<RecordViewTuple<T>>, key: SortKey)
    ensures forall t | t in Sort(ts, key) :: t in ts
  {
    forall t | t in Sort(ts, key) ensures t in ts {
      assert t in multiset(Sort(ts, key));
    }
  }

  /** With distinct keys the sorted tuples ascend strictly. */
  lemma SortStrict<T>(ts: seq<RecordViewTuple<T>>, key: SortKey)
    requires key == ByPrevious ==> Injective(ts, PrevOf)
    requires key == ByCurrent ==> Injective(ts, CurOf)
    ensures |Sort(ts, key)| == |ts|
    ensures forall i, j | 0 <= i < j < |ts| :: Key(Sort(ts, key)[i], key) < Key(Sort(ts, key)[j], key)
  {
    var r := Sort(ts, key);
    if key == ByPrevious {
      InjectiveSame(ts, r, PrevOf);
      forall i, j | 0 <= i < j < |r| ensures Key(r[i], key) < Key(r[j], key) {
        assert Key(r[i], key) <= Key(r[j], key) && PrevOf(r[i]) != PrevOf(r[j]);
      }
    } else {
      InjectiveSame(ts, r, CurOf);
      forall i, j | 0 <= i < j < |r| ensures Key(r[i], key) < Key(r[j], key) {
        assert Key(r[i], key) <= Key(r[j], key) && CurOf(r[i]) != CurOf(r[j]);
      }
    }
  }

  /** The tuples built from records carry those records, no view, and the records' keys. */
  lemma TuplesOfKeys<T>(rs: seq<ChangeRecord<T>>)
    ensures forall t | t in TuplesOf(rs) :: t.view.None? && t.record in rs
    ensures forall r | r in rs :: RecordViewTuple(r, None) in TuplesOf(rs)
    ensures Image(TuplesOf(rs), PrevOf) == Image(rs, RecPrev)
    ensures Image(TuplesOf(rs), CurOf) == Image(rs, RecCur)
    ensures Injective(rs, RecPrev) ==> Injective(TuplesOf(rs), PrevOf)
    ensures Injective(rs, RecCur) ==> Injective(TuplesOf(rs), CurOf)
  {
    var ts := TuplesOf(rs);
    forall r | r in rs ensures RecordViewTuple(r, None) in ts {
      var i :| 0 <= i < |rs| && rs[i] == r;
      assert ts[i] == RecordViewTuple(r, None);
    }
    forall t | t in ts ensures t.view.None? && t.record in rs {
      var i :| 0 <= i < |ts| && ts[i] == t;
    }
  }

  /**
   * The differ's report describes the step from `previous` to `current`:
   * - removals carry a previous index and no current one, moves carry both, additions a
   *   current one;
   * - the previous indices of removals and moves are distinct positions of `previous`, and
   *   the current indices of moves and additions distinct positions of `current` that
   *   hold each record's item;
   * - what stays in place, read in order, is the same in both collections.
   */
  ghost predicate Consistent<T>(previous: seq<T>, current: seq<T>, ch: IterableChanges<T>) {
    var leaving, arriving := ch.removed + ch.moved, ch.moved + ch.added;
    (forall r | r in ch.removed :: r.previousIndex.Some? && r.currentIndex.None?) &&
    (forall r | r in ch.moved :: r.previousIndex.Some? && r.currentIndex.Some?) &&
    (forall r | r in ch.added :: r.currentIndex.Some?) &&
    (forall r | r in leaving :: RecPrev(r) < |previous|) &&
    (forall r | r in arriving :: RecCur(r) < |current| && current[RecCur(r)] == r.item) &&
    Injective(leaving, RecPrev) && Injective(arriving, RecCur) &&
    Without(previous, Image(leaving, RecPrev), 0) == Without(current, Image(arriving, RecCur), 0)
  }

  /** Removing the second of `[1, 2]` is reported as one removal; 1 stays in place. */
  lemma RemovalConsistent()
    ensures Consistent([1, 2], [1], IterableChanges([ChangeRecord(2, Some(1), None)], [], []))
  {
    var r := ChangeRecord(2, Some(1), None);
    assert [r] + [] == [] + [r] == [r];
    ImageSnoc([], r, RecPrev);
    assert Image<ChangeRecord<int>, nat>([], RecPrev) == {};
    assert Image<ChangeRecord<int>, nat>([], RecCur) == {};
  }

  /** Taking 1 off the front of `[1, 2]` and appending it may be reported as the single move of 1. */
  lemma MoveConsistent()
    ensures Consistent([1, 2], [2, 1], IterableChanges([], [ChangeRecord(1, Some(0), Some(1))], []))
  {
    var r := ChangeRecord(1, Some(0), Some(1));
    assert [] + [r] == [r] + [] == [r];
    ImageSnoc([], r, RecPrev);
    ImageSnoc([], r, RecCur);
    assert Image<ChangeRecord<int>, nat>([], RecPrev) == {};
    assert Image<ChangeRecord<int>, nat>([], RecCur) == {};
  }
}
