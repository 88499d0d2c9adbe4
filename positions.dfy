/**
 * Positional editing of sequences: what is left of a sequence once the elements at a set
 * of positions are taken out, and how removing or inserting one element at a position
 * changes that.  NgFor's reconciliation (`_bulkRemove`, `_bulkInsert`) is described in
 * these terms.
 */
module Positions {

  /** No element occurs twice. */
  ghost predicate Distinct<X>(s: seq<X>) {
    forall i, j | 0 <= i < j < |s| :: s[i] != s[j]
  }

  /**
   * The elements of `s`, read as sitting at positions `off`, `off + 1`, ..., whose
   * positions are not in `ps`, in their original order.
   */
  function Without<X>(s: seq<X>, ps: set<int>, off: int): seq<X>
    decreases |s|
  {
    if |s| == 0 then [] else (if off in ps then [] else [s[0]]) + Without(s[1..], ps, off + 1)
  }

  /** The positions of `ps` inside the window `[lo, hi)`. */
  ghost function Within(ps: set<int>, lo: int, hi: int): set<int> {
    set p | p in ps && lo <= p < hi
  }

  lemma {:induction false} WithoutAppend<X>(a: seq<X>, b: seq<X>, ps: set<int>, off: int)
    ensures Without(a + b, ps, off) == Without(a, ps, off) + Without(b, ps, off + |a|)
    decreases |a|
  {
    if |a| == 0 {
      assert a + b == b;
    } else {
      var h: seq<X> := if off in ps then [] else [a[0]];
      assert (a + b)[0] == a[0] && (a + b)[1..] == a[1..] + b;
      assert Without(a + b, ps, off) == h + Without(a[1..] + b, ps, off + 1);
      assert Without(a, ps, off) == h + Without(a[1..], ps, off + 1);
      WithoutAppend(a[1..], b, ps, off + 1);
      assert off + 1 + |a[1..]| == off + |a|;
    }
  }

  /** A window holding none of the positions keeps everything. */
  lemma {:induction false} WithoutNothing<X>(s: seq<X>, ps: set<int>, off: int)
    requires forall p | p in ps :: p < off || off + |s| <= p
    ensures Without(s, ps, off) == s
    decreases |s|
  {
    if |s| > 0 {
      WithoutNothing(s[1..], ps, off + 1);
    }
  }

  /** Only the positions inside the window matter. */
  lemma {:induction false} WithoutWindow<X>(s: seq<X>, ps: set<int>, qs: set<int>, off: int)
    requires forall p | off <= p < off + |s| :: p in ps <==> p in qs
    ensures Without(s, ps, off) == Without(s, qs, off)
    decreases |s|
  {
    if |s| > 0 {
      WithoutWindow(s[1..], ps, qs, off + 1);
    }
  }

  /** Every position inside the window drops exactly one element. */
  lemma {:induction false} WithoutLength<X>(s: seq<X>, ps: set<int>, off: int)
    ensures |Without(s, ps, off)| + |Within(ps, off, off + |s|)| == |s|
    decreases |s|
  {
    if |s| == 0 {
      assert Within(ps, off, off) == {};
    } else {
      WithoutLength(s[1..], ps, off + 1);
      var tail := Within(ps, off + 1, off + |s|);
      if off in ps {
        assert Within(ps, off, off + |s|) == tail + {off};
      } else {
        assert Within(ps, off, off + |s|) == tail;
      }
    }
  }

  /** Taking out positions that all lie inside `s` drops one element per position. */
  lemma WithoutCount<X>(s: seq<X>, ps: set<int>)
    requires forall p | p in ps :: 0 <= p < |s|
    ensures |Without(s, ps, 0)| + |ps| == |s|
  {
    WithoutLength(s, ps, 0);
    assert Within(ps, 0, 0 + |s|) == ps;
  }

  /** What is left is drawn from `s`, at positions outside `ps`. */
  lemma {:induction false} WithoutFrom<X>(s: seq<X>, ps: set<int>, off: int, x: X)
    requires x in Without(s, ps, off)
    ensures exists i | 0 <= i < |s| :: off + i !in ps && s[i] == x
    decreases |s|
  {
    if off !in ps && s[0] == x {
      assert off + 0 !in ps && s[0] == x;
    } else {
      WithoutFrom(s[1..], ps, off + 1, x);
      var i :| 0 <= i < |s[1..]| && off + 1 + i !in ps && s[1..][i] == x;
      assert off + (i + 1) !in ps && s[i + 1] == x;
    }
  }

  /** Taking elements out of a sequence without repetitions leaves one without repetitions. */
  lemma {:induction false} WithoutDistinct<X>(s: seq<X>, ps: set<int>, off: int)
    requires Distinct(s)
    ensures Distinct(Without(s, ps, off))
    decreases |s|
  {
    if |s| > 0 {
      WithoutDistinct(s[1..], ps, off + 1);
      if off !in ps && s[0] in Without(s[1..], ps, off + 1) {
        WithoutFrom(s[1..], ps, off + 1, s[0]);
      }
    }
  }

  /** In a sequence without repetitions, an element whose position is taken out is gone. */
  lemma WithoutExcludes<X>(s: seq<X>, ps: set<int>, i: int)
    requires Distinct(s) && 0 <= i < |s| && i in ps
    ensures s[i] !in Without(s, ps, 0)
  {
    forall x | x in Without(s, ps, 0) ensures x != s[i] {
      WithoutFrom(s, ps, 0, x);
      var j :| 0 <= j < |s| && 0 + j !in ps && s[j] == x;
      assert j != i;
    }
  }

  /**
   * Two sequences of one length that agree at the positions of `ps` and agree once those
   * positions are taken out are the same sequence.
   */
  lemma {:induction false} WithoutDetermines<X>(x: seq<X>, y: seq<X>, ps: set<int>, off: int)
    requires |x| == |y|
    requires forall i | 0 <= i < |x| && off + i in ps :: x[i] == y[i]
    requires Without(x, ps, off) == Without(y, ps, off)
    ensures x == y
    decreases |x|
  {
    if |x| > 0 {
      var h: seq<X> := if off in ps then [] else [x[0]];
      if off !in ps {
        assert x[0] == Without(x, ps, off)[0] == Without(y, ps, off)[0] == y[0];
      } else {
        assert off + 0 in ps;
      }
      assert Without(x, ps, off) == h + Without(x[1..], ps, off + 1);
      assert Without(y, ps, off) == h + Without(y[1..], ps, off + 1);
      assert Without(x[1..], ps, off + 1) == Without(x, ps, off)[|h|..];
      assert Without(y[1..], ps, off + 1) == Without(y, ps, off)[|h|..];
      forall i | 0 <= i < |x[1..]| && off + 1 + i in ps ensures x[1..][i] == y[1..][i] {
        assert off + (i + 1) in ps;
      }
      WithoutDetermines(x[1..], y[1..], ps, off + 1);
      assert x == [x[0]] + x[1..] && y == [y[0]] + y[1..];
    }
  }

  /**
   * Removing position `p` when every position already taken out lies above it: the element
   * at `p` is still the original one, and taking it out as well leaves `Without` of the
   * larger set.
   */
  lemma RemoveBelow<X>(s: seq<X>, ps: set<int>, p: int)
    requires 0 <= p < |s| && forall q | q in ps :: p < q
    ensures p < |Without(s, ps, 0)| && Without(s, ps, 0)[p] == s[p]
    ensures Without(s, ps, 0)[..p] + Without(s, ps, 0)[p + 1..] == Without(s, ps + {p}, 0)
  {
    var pre, rest := s[..p], s[p + 1..];
    var mid := [s[p]] + rest;
    assert s == pre + mid;
    WithoutAppend(pre, mid, ps, 0);
    WithoutNothing(pre, ps, 0);
    assert mid[1..] == rest;
    assert Without(mid, ps, p) == [s[p]] + Without(rest, ps, p + 1);
    WithoutAppend(pre, mid, ps + {p}, 0);
    WithoutNothing(pre, ps + {p}, 0);
    assert Without(mid, ps + {p}, p) == Without(rest, ps + {p}, p + 1);
    WithoutWindow(rest, ps + {p}, ps, p + 1);
    var w := Without(s, ps, 0);
    assert w == pre + [s[p]] + Without(rest, ps, p + 1);
    assert w[..p] == pre && w[p + 1..] == Without(rest, ps, p + 1);
  }

  /** Positions that all lie in `pre` leave whatever follows it untouched. */
  lemma KeepTail<X>(pre: seq<X>, post: seq<X>, ps: set<int>)
    requires forall q | q in ps :: q < |pre|
    ensures Without(pre + post, ps, 0) == Without(pre, ps, 0) + post
  {
    WithoutAppend(pre, post, ps, 0);
    WithoutNothing(post, ps, |pre|);
  }

  /** An element standing at a position that is taken out is dropped. */
  lemma DropHead<X>(v: X, post: seq<X>, ps: set<int>, off: int)
    requires off in ps
    ensures Without([v] + post, ps, off) == Without(post, ps, off + 1)
  {
    assert ([v] + post)[1..] == post;
  }

  /** Taking out `c` as well as positions below it drops the element inserted at `c`. */
  lemma DropInserted<X>(pre: seq<X>, v: X, post: seq<X>, ps: set<int>)
    requires forall q | q in ps :: q < |pre|
    ensures Without(pre + ([v] + post), ps + {|pre|}, 0) == Without(pre, ps, 0) + post
  {
    var c, qs := |pre|, ps + {|pre|};
    WithoutAppend(pre, [v] + post, qs, 0);
    assert forall p | 0 <= p < 0 + |pre| :: p in qs <==> p in ps;
    WithoutWindow(pre, qs, ps, 0);
    DropHead(v, post, qs, c);
    assert forall p | p in qs :: p < c + 1;
    WithoutNothing(post, qs, c + 1);
  }

  /**
   * Inserting `v` at position `c` when every position already filled lies below it: adding
   * `c` to the filled positions leaves what was left before.
   */
  lemma InsertAbove<X>(s: seq<X>, v: X, ps: set<int>, c: int)
    requires 0 <= c <= |s| && forall q | q in ps :: q < c
    ensures Without(s[..c] + [v] + s[c..], ps + {c}, 0) == Without(s, ps, 0)
  {
    var pre, post := s[..c], s[c..];
    DropInserted(pre, v, post, ps);
    KeepTail(pre, post, ps);
    assert s == pre + post;
    assert s[..c] + [v] + s[c..] == pre + ([v] + post);
  }

  /** Inserting `v` at `c` leaves the elements below `c` in place and adds only `v`. */
  lemma InsertShape<X>(s: seq<X>, v: X, c: int)
    requires 0 <= c <= |s|
    ensures |s[..c] + [v] + s[c..]| == |s| + 1 && (s[..c] + [v] + s[c..])[c] == v
    ensures forall i | 0 <= i < c :: (s[..c] + [v] + s[c..])[i] == s[i]
    ensures forall i | c < i <= |s| :: (s[..c] + [v] + s[c..])[i] == s[i - 1]
    ensures forall x | x in s[..c] + [v] + s[c..] :: x in s || x == v
  {
    var t := s[..c] + [v] + s[c..];
    forall x | x in t ensures x in s || x == v {
      var i :| 0 <= i < |t| && t[i] == x;
      if i < c {
        assert t[i] == s[i];
      } else if c < i {
        assert t[i] == s[i - 1];
      }
    }
  }

  /** Inserting an element not yet present keeps a sequence free of repetitions. */
  lemma InsertDistinct<X>(s: seq<X>, v: X, c: int)
    requires 0 <= c <= |s| && Distinct(s) && v !in s
    ensures Distinct(s[..c] + [v] + s[c..])
  {
    var t := s[..c] + [v] + s[c..];
    forall i, j | 0 <= i < j < |t| ensures t[i] != t[j] {
      var si := if i < c then i else i - 1;
      var sj := if j <= c then j else j - 1;
      if i != c && j != c {
        assert t[i] == s[si] && t[j] == s[sj] && si < sj;
      } else if i == c {
        assert t[j] == s[sj] && s[sj] in s;
      } else {
        assert t[i] == s[si] && s[si] in s;
      }
    }
  }
}
