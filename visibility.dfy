/**
 * The visibility lattice of a binding (injector.ts, enum `Visibility` and `canSee`).
 * A `Public` binding is seen by ordinary child injectors, a `Private` one only by host
 * children, and a `PublicAndPrivate` one by both.
 */
module Visibilities {

  datatype Visibility = Public | Private | PublicAndPrivate

  /** Whether a binding stored with visibility `src` may answer a lookup made with `dst`. */
  predicate CanSee(src: Visibility, dst: Visibility)
  {
    src == dst || dst == PublicAndPrivate || src == PublicAndPrivate
  }

  /** The lattice facts the lookup rules rely on: equal visibilities see each other,
      `PublicAndPrivate` sees and is seen by everything, `Public` and `Private` are blind
      to each other, and the relation is symmetric. */
  lemma CanSeeLattice(src: Visibility, dst: Visibility)
    ensures CanSee(src, dst) <==> (src == dst || src == PublicAndPrivate || dst == PublicAndPrivate)
    ensures CanSee(src, dst) == CanSee(dst, src)
    ensures !CanSee(Public, Private) && !CanSee(Private, Public)
    ensures CanSee(src, PublicAndPrivate) && CanSee(PublicAndPrivate, dst)
    ensures CanSee(src, src)
  {
  }

  /** The only pairs that fail to see each other are `Public`/`Private` in either order. */
  lemma CanSeeFailsOnlyBetweenPublicAndPrivate(src: Visibility, dst: Visibility)
    ensures !CanSee(src, dst) <==> (src == Public && dst == Private) || (src == Private && dst == Public)
  {
  }
}
