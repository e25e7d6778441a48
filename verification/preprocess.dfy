/** `preprocess_text`: every run of whitespace becomes one space, and leading
    and trailing whitespace disappears (`' '.join(text.split())`). */
module Preprocess {
  import opened PyStr

  /** Every whitespace character is a plain space with a non-whitespace
      character on each side: no leading or trailing whitespace, and words
      separated by exactly one space. */
  predicate SingleSpaced(r: string) {
    forall i :: 0 <= i < |r| && IsSpace(r[i]) ==>
      r[i] == ' ' && 0 < i < |r| - 1 && !IsSpace(r[i - 1]) && !IsSpace(r[i + 1])
  }

  /** `preprocess_text(text)`. */
  function Normalise(text: string): (r: string)
    ensures SingleSpaced(r)
    ensures Split(r) == Split(text)
    ensures r == [] <==> Split(text) == []
  {
    if text == [] then []
    else
      JoinSingleSpaced(Split(text));
      SplitJoin(Split(text));
      Join(" ", Split(text))
  }

  /** Joining whitespace-free, non-empty words with one space gives a
      single-spaced string. */
  lemma {:induction false} JoinSingleSpaced(ws: seq<string>)
    requires AllWords(ws)
    ensures SingleSpaced(Join(" ", ws))
  {
    if |ws| > 1 {
      var w := ws[0];
      var j := Join(" ", ws[1..]);
      var r := Join(" ", ws);
      JoinSingleSpaced(ws[1..]);
      JoinHead(" ", ws[1..]);
      assert r == w + " " + j;
      forall i | 0 <= i < |r| && IsSpace(r[i])
        ensures r[i] == ' ' && 0 < i < |r| - 1 && !IsSpace(r[i - 1]) && !IsSpace(r[i + 1])
      {
        if i > |w| {
          var k := i - |w| - 1;
          assert r[i] == j[k];
          assert r[i - 1] == j[k - 1] && r[i + 1] == j[k + 1];
        }
      }
    }
  }

  /** What follows the first space of a single-spaced string is itself
      single-spaced and starts with a non-whitespace character. */
  lemma SingleSpacedAfterSpace(s: string, n: nat)
    requires SingleSpaced(s)
    requires n < |s| && IsSpace(s[n])
    ensures n + 1 < |s| && !IsSpace(s[n + 1])
    ensures SingleSpaced(s[n + 1..])
  {
    var t := s[n + 1..];
    forall k | 0 <= k < |t| && IsSpace(t[k])
      ensures t[k] == ' ' && 0 < k < |t| - 1 && !IsSpace(t[k - 1]) && !IsSpace(t[k + 1])
    {
      assert t[k] == s[n + 1 + k];
      assert k != 0;
      assert s[n + k] == t[k - 1];
      assert s[n + 2 + k] == t[k + 1];
    }
  }

  /** When the first word of `s` fills its first `n` characters, the words of
      `s` are that word followed by the words after position `n`. */
  lemma SplitAfterFirstWord(s: string, n: nat)
    requires 0 < n < |s| && !IsSpace(s[0])
    requires WordPrefix(s) == s[..n]
    ensures Split(s) == [s[..n]] + Split(s[n + 1..])
  {
    assert IsSpace(s[n]);
    assert s[n..][1..] == s[n + 1..];
    assert Split(s[n..]) == Split(s[n + 1..]);
  }

  /** A single-spaced string is already normalised. */
  lemma SingleSpacedIsFixpoint(s: string)
    requires SingleSpaced(s)
    ensures Normalise(s) == s
  {
    if s != [] {
      JoinSplitSingleSpaced(s);
    }
  }

  /** Joining the words of a single-spaced string with one space gives it
      back. */
  lemma {:induction false} JoinSplitSingleSpaced(s: string)
    requires SingleSpaced(s)
    ensures Join(" ", Split(s)) == s
    decreases |s|
  {
    if s != [] {
      assert !IsSpace(s[0]);
      var n := |WordPrefix(s)|;
      if n == |s| {
        SplitWholeWord(s);
      } else {
        SingleSpacedAfterSpace(s, n);
        JoinSplitSingleSpaced(s[n + 1..]);
        assert s[n] == ' ';
        JoinSplitAfterFirstWord(s, n);
      }
    }
  }

  /** When the first word of `s` is followed by one space and text whose
      words join back to it, the words of `s` join back to `s`. */
  lemma JoinSplitAfterFirstWord(s: string, n: nat)
    requires 0 < n && n + 1 < |s| && WordPrefix(s) == s[..n]
    requires s[n] == ' ' && !IsSpace(s[n + 1])
    requires Join(" ", Split(s[n + 1..])) == s[n + 1..]
    ensures Join(" ", Split(s)) == s
  {
    FirstWordStep(s, n);
    assert s == s[..n] + [s[n]] + s[n + 1..];
  }

  /** A string that is its own first word is its only word. */
  lemma SplitWholeWord(s: string)
    requires s != [] && |WordPrefix(s)| == |s|
    ensures Split(s) == [s]
  {
    assert WordPrefix(s) == s[..|s|] == s;
    assert s[|s|..] == [];
  }

  /** The words of `s`, joined, are its first word, a space, and the join of
      the words after the space that ends the first word. */
  lemma FirstWordStep(s: string, n: nat)
    requires 0 < n && n + 1 < |s|
    requires WordPrefix(s) == s[..n]
    requires !IsSpace(s[n + 1])
    ensures Join(" ", Split(s)) == s[..n] + " " + Join(" ", Split(s[n + 1..]))
  {
    assert !IsSpace(s[0]);
    SplitAfterFirstWord(s, n);
    var t := s[n + 1..];
    assert Split(t) == [WordPrefix(t)] + Split(t[|WordPrefix(t)|..]);
    JoinCons(" ", s[..n], Split(t));
  }

  /** Joining a non-empty list after one more piece puts a separator
      between. */
  lemma JoinCons(sep: string, x: string, ws: seq<string>)
    requires ws != []
    ensures Join(sep, [x] + ws) == x + sep + Join(sep, ws)
  {
    assert ([x] + ws)[1..] == ws;
  }

  /** The normalised strings are exactly the single-spaced ones. */
  lemma NormaliseFixpoints(s: string)
    ensures Normalise(s) == s <==> SingleSpaced(s)
  {
    if SingleSpaced(s) {
      SingleSpacedIsFixpoint(s);
    }
  }

  /** Normalising twice is normalising once. */
  lemma NormaliseIdempotent(s: string)
    ensures Normalise(Normalise(s)) == Normalise(s)
  {
    SingleSpacedIsFixpoint(Normalise(s));
  }

  /** The normalised text holds the input's non-whitespace characters plus
      one space between each pair of consecutive words. */
  lemma NormaliseLength(s: string)
    ensures Split(s) == [] ==> |Normalise(s)| == 0
    ensures Split(s) != [] ==> |Normalise(s)| == |NonSpace(s)| + |Split(s)| - 1
  {
    if Split(s) != [] {
      JoinLength(" ", Split(s));
      SplitKeepsNonSpace(s);
    }
  }
}
