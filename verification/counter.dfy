/** `Counter(xs).most_common(n)`: the counter's keys sit in first-occurrence
    order, and `most_common` sorts them stably by descending count before
    keeping the first `n`. The ranking this yields is stated independently by
    `Precedes`: more frequent first, equally frequent in order of first
    occurrence. */
module Counter {
  import opened Seqs

  /** `Counter(xs)[w]`: the number of occurrences of `w` in `xs`. */
  function Count(xs: seq<string>, w: string): nat {
    multiset(xs)[w]
  }

  /** `a` is listed before `b` by `most_common`. */
  predicate Precedes(xs: seq<string>, a: string, b: string) {
    || Count(xs, a) > Count(xs, b)
    || (Count(xs, a) == Count(xs, b) && FirstIndex(xs, a) < FirstIndex(xs, b))
  }

  /** `s` lists its entries in `most_common` order. */
  predicate Ranked(xs: seq<string>, s: seq<string>) {
    forall i, j :: 0 <= i < j < |s| ==> Precedes(xs, s[i], s[j])
  }

  /** One step of a stable sort by descending count: `x`, which was seen
      before every key of `s`, goes before the first key that is not more
      frequent than it. */
  function InsertByCount(xs: seq<string>, x: string, s: seq<string>): seq<string> {
    if s == [] then [x]
    else if Count(xs, s[0]) > Count(xs, x) then [s[0]] + InsertByCount(xs, x, s[1..])
    else [x] + s
  }

  /** Stable sort of the keys `ks` by descending count. */
  function SortByCount(xs: seq<string>, ks: seq<string>): seq<string> {
    if ks == [] then [] else InsertByCount(xs, ks[0], SortByCount(xs, ks[1..]))
  }

  /** `most_common(n)` on the counter of `xs`. */
  function MostCommon(xs: seq<string>, n: nat): (r: seq<string>)
    ensures |r| <= n && |r| <= |xs|
    ensures NoDup(r)
    ensures forall i :: 0 <= i < |r| ==> r[i] in xs
    ensures Ranked(xs, r)
    ensures |r| < n ==> forall i :: 0 <= i < |xs| ==> xs[i] in r
    ensures forall w, i :: w in xs && w !in r && 0 <= i < |r| ==> Precedes(xs, r[i], w)
  {
    var keys := Distinct(xs);
    var sorted := SortByCount(xs, keys);
    SortByCountRanked(xs, keys);
    SortByCountElems(xs, keys);
    assert |sorted| == |multiset(sorted)| == |multiset(keys)| == |keys|;
    PrefixOfRanked(xs, keys, sorted, n);
    Take(sorted, n)
  }

  /** The first `n` entries of a ranked arrangement of the distinct keys have
      the properties `most_common(n)` promises. */
  lemma PrefixOfRanked(xs: seq<string>, keys: seq<string>, sorted: seq<string>, n: nat)
    requires forall i :: 0 <= i < |keys| ==> keys[i] in xs
    requires forall i :: 0 <= i < |xs| ==> xs[i] in keys
    requires Ranked(xs, sorted) && multiset(sorted) == multiset(keys)
    ensures var r := Take(sorted, n);
      && NoDup(r)
      && Ranked(xs, r)
      && (forall i :: 0 <= i < |r| ==> r[i] in xs)
      && (|r| < n ==> forall i :: 0 <= i < |xs| ==> xs[i] in r)
      && (forall w, i :: w in xs && w !in r && 0 <= i < |r| ==> Precedes(xs, r[i], w))
  {
    var r := Take(sorted, n);
    forall i | 0 <= i < |r| ensures r[i] in xs {
      assert r[i] in multiset(sorted);
      var k := IndexOfElem(keys, r[i]);
    }
    forall w | w in xs ensures w in sorted {
      var k :| 0 <= k < |xs| && xs[k] == w;
      assert w in keys;
      assert w in multiset(keys);
      var j := IndexOfElem(sorted, w);
    }
    forall w, i | w in xs && w !in r && 0 <= i < |r|
      ensures Precedes(xs, r[i], w)
    {
      var k :| 0 <= k < |sorted| && sorted[k] == w;
      assert r[i] == sorted[i];
    }
  }

  /** Inserting adds exactly the inserted key. */
  lemma {:induction false} InsertByCountElems(xs: seq<string>, x: string, s: seq<string>)
    ensures multiset(InsertByCount(xs, x, s)) == multiset(s) + multiset{x}
  {
    if s != [] && Count(xs, s[0]) > Count(xs, x) {
      InsertByCountElems(xs, x, s[1..]);
      assert s == [s[0]] + s[1..];
    }
  }

  /** `most_common` order is transitive. */
  lemma PrecedesTransitive(xs: seq<string>, a: string, b: string, c: string)
    requires Precedes(xs, a, b) && Precedes(xs, b, c)
    ensures Precedes(xs, a, c)
  {
  }

  /** Inserting a key seen before all others into a ranked list keeps it
      ranked. */
  lemma {:induction false} InsertByCountRanked(xs: seq<string>, x: string, s: seq<string>)
    requires Ranked(xs, s)
    requires forall i :: 0 <= i < |s| ==> FirstIndex(xs, x) < FirstIndex(xs, s[i])
    ensures Ranked(xs, InsertByCount(xs, x, s))
  {
    if s == [] {
    } else if Count(xs, s[0]) > Count(xs, x) {
      InsertByCountRanked(xs, x, s[1..]);
      InsertBehindHead(xs, x, s);
    } else {
      InsertInFront(xs, x, s);
    }
  }

  /** A position of `s` holding an element of its multiset. */
  lemma IndexOfElem(s: seq<string>, w: string) returns (k: nat)
    requires w in multiset(s)
    ensures k < |s| && s[k] == w
  {
    k :| 0 <= k < |s| && s[k] == w;
  }

  /** Inductive step of `InsertByCountRanked` when the head of `s` is more
      frequent than `x` and stays in front. */
  lemma InsertBehindHead(xs: seq<string>, x: string, s: seq<string>)
    requires s != [] && Count(xs, s[0]) > Count(xs, x)
    requires Ranked(xs, s)
    requires Ranked(xs, InsertByCount(xs, x, s[1..]))
    ensures Ranked(xs, InsertByCount(xs, x, s))
  {
    var tail := InsertByCount(xs, x, s[1..]);
    InsertByCountElems(xs, x, s[1..]);
    forall j | 0 <= j < |tail|
      ensures Precedes(xs, s[0], tail[j])
    {
      var w := tail[j];
      assert w in multiset(tail);
      if w != x {
        var k := IndexOfElem(s[1..], w);
        assert s[k + 1] == w;
      }
    }
    RankedCons(xs, s[0], tail);
  }

  /** Putting in front of a ranked list a key that precedes all of its keys
      keeps it ranked. */
  lemma RankedCons(xs: seq<string>, h: string, t: seq<string>)
    requires Ranked(xs, t)
    requires forall j :: 0 <= j < |t| ==> Precedes(xs, h, t[j])
    ensures Ranked(xs, [h] + t)
  {
    var r := [h] + t;
    forall i, j | 0 <= i < j < |r|
      ensures Precedes(xs, r[i], r[j])
    {
      assert r[j] == t[j - 1];
      if i > 0 {
        assert r[i] == t[i - 1];
      }
    }
  }

  /** Inductive step of `InsertByCountRanked` when `x` goes in front. */
  lemma InsertInFront(xs: seq<string>, x: string, s: seq<string>)
    requires s != [] && Count(xs, s[0]) <= Count(xs, x)
    requires Ranked(xs, s)
    requires forall i :: 0 <= i < |s| ==> FirstIndex(xs, x) < FirstIndex(xs, s[i])
    ensures Ranked(xs, InsertByCount(xs, x, s))
  {
    assert Precedes(xs, x, s[0]);
    forall j | 0 <= j < |s|
      ensures Precedes(xs, x, s[j])
    {
      if j > 0 {
        PrecedesTransitive(xs, x, s[0], s[j]);
      }
    }
    RankedCons(xs, x, s);
  }

  /** Sorting keeps exactly the keys. */
  lemma {:induction false} SortByCountElems(xs: seq<string>, ks: seq<string>)
    ensures multiset(SortByCount(xs, ks)) == multiset(ks)
  {
    if ks != [] {
      SortByCountElems(xs, ks[1..]);
      InsertByCountElems(xs, ks[0], SortByCount(xs, ks[1..]));
      assert ks == [ks[0]] + ks[1..];
    }
  }

  /** Sorting keys listed in first-occurrence order by descending count, stably,
      ranks them in `most_common` order. */
  lemma {:induction false} SortByCountRanked(xs: seq<string>, ks: seq<string>)
    requires forall i, j :: 0 <= i < j < |ks| ==> FirstIndex(xs, ks[i]) < FirstIndex(xs, ks[j])
    ensures Ranked(xs, SortByCount(xs, ks))
  {
    if ks != [] {
      var rest := SortByCount(xs, ks[1..]);
      SortByCountRanked(xs, ks[1..]);
      SortByCountElems(xs, ks[1..]);
      forall i | 0 <= i < |rest|
        ensures FirstIndex(xs, ks[0]) < FirstIndex(xs, rest[i])
      {
        assert rest[i] in multiset(rest);
        var k :| 0 <= k < |ks[1..]| && ks[1..][k] == rest[i];
        assert ks[k + 1] == rest[i];
      }
      InsertByCountRanked(xs, ks[0], rest);
    }
  }
}
