/**
 * The view container NgFor edits, reduced to what NgFor relies on: an ordered list of
 * attached views, and the local variables of every view the container has created.
 * The rendering behind `ViewContainerRef` and `ViewRef` is not part of this model.
 */
module ViewContainers {
  import opened Wrappers
  import opened Positions
  import opened ForChanges

  /** The template locals NgFor writes: `$implicit`, `index`, `even`, `odd` and `last`. */
  datatype Local = Implicit | Index | Even | Odd | Last

  /** The values NgFor stores in them: the item, a possibly missing index, a flag. */
  datatype LocalValue<T> = ItemValue(item: T) | IndexValue(index: Option<nat>) | BoolValue(flag: bool)

  type Locals<T> = map<Local, LocalValue<T>>

  /** The item a view displays, if its `$implicit` local holds one. */
  function ItemOf<T>(l: Locals<T>): Option<T> {
    if Implicit in l && l[Implicit].ItemValue? then Some(l[Implicit].item) else None
  }

  /** Every view of `views` has been created and has its locals in `locals`. */
  ghost predicate Created<T>(views: seq<ViewId>, locals: seq<Locals<T>>) {
    forall i | 0 <= i < |views| :: views[i] < |locals|
  }

  /** The item each of `views` displays, in order. */
  ghost function Shown<T>(views: seq<ViewId>, locals: seq<Locals<T>>): seq<Option<T>>
    requires Created(views, locals)
  {
    seq(|views|, i requires 0 <= i < |views| => ItemOf(locals[views[i]]))
  }

  /** Every item of a collection, as displayed. */
  ghost function Lift<T>(s: seq<T>): seq<Option<T>> {
    seq(|s|, i requires 0 <= i < |s| => Some(s[i]))
  }

  lemma {:induction false} WithoutShown<T>(views: seq<ViewId>, locals: seq<Locals<T>>, ps: set<int>, off: int)
    requires Created(views, locals)
    ensures Created(Without(views, ps, off), locals)
    ensures Shown(Without(views, ps, off), locals) == Without(Shown(views, locals), ps, off)
    decreases |views|
  {
    var w := Without<ViewId>(views, ps, off);
    forall k | 0 <= k < |w| ensures w[k] < |locals| {
      assert w[k] in w;
      WithoutFrom<ViewId>(views, ps, off, w[k]);
    }
    if |views| > 0 {
      WithoutShown(views[1..], locals, ps, off + 1);
      assert Shown(views, locals)[1..] == Shown(views[1..], locals);
    }
  }

  lemma {:induction false} WithoutLift<T>(s: seq<T>, ps: set<int>, off: int)
    ensures Lift(Without(s, ps, off)) == Without(Lift(s), ps, off)
    decreases |s|
  {
    if |s| > 0 {
      WithoutLift(s[1..], ps, off + 1);
      assert Lift(s)[1..] == Lift(s[1..]);
    }
  }

  /**
   * The container: `views` are the attached views in display order; `locals[v]` holds the
   * local variables of view `v`, for every view created so far, attached or detached.
   */
  class ViewContainer<T> {
    var views: seq<ViewId>
    var locals: seq<Locals<T>>

    /** No view is attached twice, and every attached view has been created. */
    ghost predicate Valid()
      reads this
    {
      Distinct(views) && Created(views, locals)
    }

    constructor ()
      ensures views == [] && locals == [] && Valid()
    {
      views, locals := [], [];
    }

    /** `detach(index)`: takes the view at `index` out of the container and hands it back. */
    method Detach(index: nat) returns (v: ViewId)
      requires index < |views|
      modifies this
      ensures v == old(views[index]) && views == old(views[..index] + views[index + 1..])
      ensures locals == old(locals)
    {
      v := views[index];
      views := views[..index] + views[index + 1..];
    }

    /** `remove(index)`: takes the view at `index` out of the container for good. */
    method Remove(index: nat)
      requires index < |views|
      modifies this
      ensures views == old(views[..index] + views[index + 1..]) && locals == old(locals)
    {
      views := views[..index] + views[index + 1..];
    }

    /** `insert(view, index)`: attaches a detached view at `index`. */
    method Insert(v: ViewId, index: nat)
      requires index <= |views|
      modifies this
      ensures views == old(views[..index] + [v] + views[index..]) && locals == old(locals)
    {
      views := views[..index] + [v] + views[index..];
    }

    /** `createEmbeddedView(template, index)`: a new view, with no locals yet, attached at `index`. */
    method CreateEmbeddedView(index: nat) returns (v: ViewId)
      requires index <= |views|
      modifies this
      ensures v == old(|locals|) && locals == old(locals) + [map[]]
      ensures views == old(views[..index] + [v] + views[index..])
    {
      v := |locals|;
      locals := locals + [map[]];
      views := views[..index] + [v] + views[index..];
    }

    /** `view.setLocal(name, value)`. */
    method SetLocal(v: ViewId, name: Local, value: LocalValue<T>)
      requires v < |locals|
      modifies this
      ensures locals == old(locals[v := locals[v][name := value]]) && views == old(views)
    {
      locals := locals[v := locals[v][name := value]];
    }
  }
}
