/**
 * Row-level operations of a data frame: selecting the rows of a boolean mask
 * (df[mask]) and mapping every row (a column assignment).  A frame is a
 * sequence of records; columns are fields of the record type.
 */
module DataFrames {

  /** df[mask]: the rows that satisfy p, in their original order. */
  function Filter<T(!new)>(s: seq<T>, p: T -> bool): (r: seq<T>)
    ensures |r| <= |s|
    ensures forall x :: x in r <==> x in s && p(x)
    decreases |s|
  {
    if s == [] then [] else (if p(s[0]) then [s[0]] else []) + Filter(s[1..], p)
  }

  /** Two masks that are complementary on every row split the frame: every row lands in exactly one part. */
  lemma {:induction false} FilterSplit<T(!new)>(s: seq<T>, p: T -> bool, q: T -> bool)
    requires forall x :: x in s ==> (p(x) <==> !q(x))
    ensures multiset(Filter(s, p)) + multiset(Filter(s, q)) == multiset(s)
    decreases |s|
  {
    if s != [] {
      FilterSplit(s[1..], p, q);
      assert s == [s[0]] + s[1..];
    }
  }

  /** Three masks of which every row satisfies exactly one split the frame in three. */
  lemma {:induction false} FilterSplit3<T(!new)>(s: seq<T>, p: T -> bool, q: T -> bool, r: T -> bool)
    requires forall x :: x in s ==> (p(x) || q(x) || r(x)) && !(p(x) && q(x)) && !(p(x) && r(x)) && !(q(x) && r(x))
    ensures multiset(Filter(s, p)) + multiset(Filter(s, q)) + multiset(Filter(s, r)) == multiset(s)
    decreases |s|
  {
    if s != [] {
      FilterSplit3(s[1..], p, q, r);
      assert s == [s[0]] + s[1..];
    }
  }

  /** A mask no row satisfies selects nothing. */
  lemma {:induction false} FilterNone<T(!new)>(s: seq<T>, p: T -> bool)
    requires forall x :: x in s ==> !p(x)
    ensures Filter(s, p) == []
    decreases |s|
  {
    if s != [] {
      FilterNone(s[1..], p);
    }
  }

  /** A common part cancels from two equal multiset sums. */
  lemma MultisetCancel<T>(a: multiset<T>, b: multiset<T>, c: multiset<T>)
    requires a + b == a + c
    ensures b == c
  {
    assert forall x :: b[x] == (a + b)[x] - a[x];
  }

  /** Two masks that agree on every row select the same rows. */
  lemma {:induction false} FilterAgree<T(!new)>(s: seq<T>, p: T -> bool, q: T -> bool)
    requires forall x :: x in s ==> (p(x) <==> q(x))
    ensures Filter(s, p) == Filter(s, q)
    decreases |s|
  {
    if s != [] {
      FilterAgree(s[1..], p, q);
    }
  }

  /** A frame cut in two: the rows a mask selects and the rest. */
  datatype Split<T> = Split(kept: seq<T>, dropped: seq<T>)

  /** ~mask */
  function Not<T>(p: T -> bool): T -> bool {
    x => !p(x)
  }

  /** (df[mask], df[~mask]): every row lands in exactly one part, each part keeping the frame's order. */
  function SplitBy<T(!new)>(s: seq<T>, p: T -> bool): (r: Split<T>)
    ensures multiset(r.kept) + multiset(r.dropped) == multiset(s)
    ensures |r.kept| + |r.dropped| == |s|
    ensures forall x :: x in r.kept <==> x in s && p(x)
    ensures forall x :: x in r.dropped <==> x in s && !p(x)
  {
    FilterSplit(s, p, Not(p));
    assert |multiset(Filter(s, p)) + multiset(Filter(s, Not(p)))| == |multiset(s)|;
    Split(Filter(s, p), Filter(s, Not(p)))
  }

  /** Applies f to every row. */
  function MapSeq<A, B>(f: A -> B, s: seq<A>): (r: seq<B>)
    ensures |r| == |s|
    ensures forall i :: 0 <= i < |s| ==> r[i] == f(s[i])
  {
    seq(|s|, i requires 0 <= i < |s| => f(s[i]))
  }

  lemma MapSeqConcat<A, B>(f: A -> B, a: seq<A>, b: seq<A>)
    ensures MapSeq(f, a + b) == MapSeq(f, a) + MapSeq(f, b)
  {
    assert forall i :: 0 <= i < |a + b| ==> MapSeq(f, a + b)[i] == (MapSeq(f, a) + MapSeq(f, b))[i];
  }

  /** Two row maps in a row are one map. */
  lemma MapSeqCompose<A, B, C>(f: A -> B, g: B -> C, h: A -> C, s: seq<A>)
    requires forall x :: g(f(x)) == h(x)
    ensures MapSeq(g, MapSeq(f, s)) == MapSeq(h, s)
  {
  }

  /** Mapping every row of two permutations of one frame gives two permutations of one frame. */
  lemma {:induction false} MapSeqPermutation<A, B>(f: A -> B, s: seq<A>, t: seq<A>)
    requires multiset(s) == multiset(t)
    ensures multiset(MapSeq(f, s)) == multiset(MapSeq(f, t))
    decreases |s|
  {
    if s == [] {
      assert |t| == |multiset(t)| == 0;
    } else {
      var x := s[0];
      assert x in multiset(t);
      var k :| 0 <= k < |t| && t[k] == x;
      var rest := t[..k] + t[k + 1..];
      assert t == t[..k] + [x] + t[k + 1..];
      assert s == [x] + s[1..];
      calc {
        multiset{x} + multiset(s[1..]);
        multiset(s);
        multiset(t);
        multiset(t[..k]) + multiset{x} + multiset(t[k + 1..]);
        multiset{x} + multiset(rest);
      }
      assert multiset(s[1..]) == multiset{x} + multiset(s[1..]) - multiset{x};
      assert multiset(rest) == multiset{x} + multiset(rest) - multiset{x};
      MapSeqPermutation(f, s[1..], rest);
      MapSeqConcat(f, [x], s[1..]);
      MapSeqConcat(f, t[..k], t[k + 1..]);
      MapSeqConcat(f, t[..k] + [x], t[k + 1..]);
      MapSeqConcat(f, t[..k], [x]);
    }
  }

  /** If two parts partition a frame, their mapped rows partition the mapped frame. */
  lemma MapSeqSplit<A, B>(f: A -> B, a: seq<A>, b: seq<A>, whole: seq<A>)
    requires multiset(a) + multiset(b) == multiset(whole)
    ensures multiset(MapSeq(f, a)) + multiset(MapSeq(f, b)) == multiset(MapSeq(f, whole))
  {
    MapSeqPermutation(f, a + b, whole);
    MapSeqConcat(f, a, b);
  }
}
