/** Sequence notions shared by the keyword ranking and the entity lists:
    duplicate-freedom, first occurrences, removal of repeats and Python's
    `s[:n]` slice. */
module Seqs {

  predicate NoDup<T(==)>(s: seq<T>) {
    forall i, j :: 0 <= i < j < |s| ==> s[i] != s[j]
  }

  /** Position of the first `w` in `xs`, or `|xs|` when there is none. */
  function FirstIndex<T(==)>(xs: seq<T>, w: T): (k: nat)
    ensures k <= |xs|
    ensures k < |xs| <==> w in xs
    ensures k < |xs| ==> xs[k] == w
    ensures forall i :: 0 <= i < k ==> xs[i] != w
  {
    if xs == [] then 0
    else if xs[0] == w then 0
    else 1 + FirstIndex(xs[1..], w)
  }

  /** A position holding `w` with no `w` before it is the first index. */
  lemma FirstIndexUnique<T>(xs: seq<T>, w: T, k: nat)
    requires k < |xs| && xs[k] == w
    requires forall i :: 0 <= i < k ==> xs[i] != w
    ensures FirstIndex(xs, w) == k
  {
  }

  /** Appending an element moves no first occurrence, and gives a new element
      the last position. */
  lemma FirstIndexAppend<T>(p: seq<T>, y: T)
    ensures forall w :: w in p ==> FirstIndex(p + [y], w) == FirstIndex(p, w)
    ensures y !in p ==> FirstIndex(p + [y], y) == |p|
  {
    forall w | w in p
      ensures FirstIndex(p + [y], w) == FirstIndex(p, w)
    {
      FirstIndexUnique(p + [y], w, FirstIndex(p, w));
    }
    if y !in p {
      FirstIndexUnique(p + [y], y, |p|);
    }
  }

  /** The elements of `xs` without repeats, in order of first occurrence:
      the key order of a dict or `Counter` filled from `xs`. */
  function Distinct<T(==)>(xs: seq<T>): (d: seq<T>)
    ensures NoDup(d)
    ensures |d| <= |xs|
    ensures forall i :: 0 <= i < |d| ==> d[i] in xs
    ensures forall i :: 0 <= i < |xs| ==> xs[i] in d
    ensures forall i, j :: 0 <= i < j < |d| ==> FirstIndex(xs, d[i]) < FirstIndex(xs, d[j])
  {
    if xs == [] then []
    else
      var p := xs[..|xs| - 1];
      var y := xs[|xs| - 1];
      assert xs == p + [y];
      DistinctStep(p, y, Distinct(p));
      if y in p then Distinct(p) else Distinct(p) + [y]
  }

  /** `d` lists the elements of `xs` without repeats, in order of first
      occurrence. */
  predicate DistinctOf<T(==)>(xs: seq<T>, d: seq<T>) {
    && NoDup(d)
    && |d| <= |xs|
    && (forall i :: 0 <= i < |d| ==> d[i] in xs)
    && (forall i :: 0 <= i < |xs| ==> xs[i] in d)
    && (forall i, j :: 0 <= i < j < |d| ==> FirstIndex(xs, d[i]) < FirstIndex(xs, d[j]))
  }

  /** Appending `y` to `p` appends `y` to its distinct elements when it is
      new, and changes nothing otherwise. */
  lemma DistinctStep<T>(p: seq<T>, y: T, d: seq<T>)
    requires DistinctOf(p, d)
    ensures DistinctOf(p + [y], if y in p then d else d + [y])
  {
    FirstIndexAppend(p, y);
    var xs := p + [y];
    if y !in p {
      var e := d + [y];
      assert y !in d;
      forall i | 0 <= i < |e| ensures e[i] in xs {
        if i < |d| {
          assert e[i] == d[i];
        }
      }
      forall i | 0 <= i < |xs| ensures xs[i] in e {
        if i < |p| {
          assert xs[i] == p[i];
        }
      }
    } else {
      forall i | 0 <= i < |xs| ensures xs[i] in d {
        if i < |p| {
          assert xs[i] == p[i];
        }
      }
    }
  }

  /** The elements of `s`. */
  function Elems<T>(s: seq<T>): set<T> {
    set i | 0 <= i < |s| :: s[i]
  }

  /** A duplicate-free sequence has as many elements as its set. */
  lemma {:induction false} NoDupCard<T>(s: seq<T>)
    requires NoDup(s)
    ensures |Elems(s)| == |s|
  {
    if s != [] {
      var p := s[..|s| - 1];
      NoDupCard(p);
      assert Elems(s) == Elems(p) + {s[|s| - 1]};
      assert s[|s| - 1] !in Elems(p);
    }
  }

  /** A duplicate-free sequence drawn from the elements of another is no
      longer than the other's set of elements. */
  lemma NoDupWithin<T>(s: seq<T>, t: seq<T>)
    requires NoDup(s)
    requires forall i :: 0 <= i < |s| ==> s[i] in t
    ensures |s| <= |Elems(t)|
  {
    NoDupCard(s);
    assert Elems(s) <= Elems(t) by {
      forall x | x in Elems(s) ensures x in Elems(t) {
        var i :| 0 <= i < |s| && s[i] == x;
        var j :| 0 <= j < |t| && t[j] == x;
      }
    }
    SubsetCard(Elems(s), Elems(t));
  }

  /** A subset is no larger than its superset. */
  lemma SubsetCard<T>(a: set<T>, b: set<T>)
    requires a <= b
    ensures |a| <= |b|
  {
    assert b == a + (b - a);
  }

  /** If `whole` is `h` before `rest`, `rest` is `mid` before `k`, and
      `part` is `h` before `mid`, then `whole` is `part` before `k`. */
  lemma ConcatStep<T>(whole: seq<T>, part: seq<T>, h: seq<T>, rest: seq<T>, mid: seq<T>, k: seq<T>)
    requires whole == h + rest && rest == mid + k && part == h + mid
    ensures whole == part + k
  {
  }

  /** The positions of `s` whose entry satisfies `p`. */
  ghost function Positions<T>(s: seq<T>, p: T -> bool): set<int> {
    set j | 0 <= j < |s| && p(s[j])
  }

  /** An entry added at the end adds its own position when it satisfies
      `p`. */
  lemma PositionsSnoc<T>(s: seq<T>, y: T, p: T -> bool)
    ensures |Positions(s + [y], p)| == |Positions(s, p)| + (if p(y) then 1 else 0)
  {
    var last: set<int> := if p(y) then {|s|} else {};
    assert Positions(s + [y], p) == Positions(s, p) + last by {
      assert forall j :: 0 <= j < |s| ==> (s + [y])[j] == s[j];
      assert (s + [y])[|s|] == y;
    }
    assert |s| !in Positions(s, p);
  }

  /** `s[:n]`. */
  function Take<T>(s: seq<T>, n: nat): (r: seq<T>)
    ensures |r| <= n && |r| <= |s|
    ensures |r| == n || |r| == |s|
    ensures r == s[..|r|]
  {
    if |s| <= n then s else s[..n]
  }
}
