/** The key topics of `generate_basic_metadata_from_text`: words longer than
    three characters whose lower-case form is not a stop word are lower-cased,
    stripped of surrounding punctuation, counted, and the five most common
    are kept. The stop-word test runs on the word before its punctuation is
    stripped. */
module Keywords {
  import opened PyStr
  import opened Seqs
  import opened Counter

  const StopWords: set<string> := {
    "the", "and", "are", "for", "with", "this", "that", "from", "they",
    "have", "been", "will", "said", "each", "which", "their", "time", "but",
    "all", "can", "may", "was", "were", "not", "you", "your"
  }

  /** Number of key topics kept. */
  const TopicCount: nat := 5

  /** A word must be longer than this to be a candidate. */
  const MinLength: nat := 3

  /** The characters stripped from both ends of a candidate. */
  predicate IsEdgePunct(c: char) {
    c in ".,!?;:\"()[]"
  }

  /** `len(word) > 3 and word.lower() not in stop_words`. */
  predicate Qualifies(w: string) {
    |w| > MinLength && Lower(w) !in StopWords
  }

  /** `word.lower().strip('.,!?;:"()[]')`. */
  function CleanWord(w: string): string {
    Trim(Lower(w), IsEdgePunct)
  }

  /** What one word contributes to `words_clean`: its cleaned form when it
      qualifies, and nothing otherwise. */
  function CandidateOf(w: string): seq<string> {
    if Qualifies(w) then [CleanWord(w)] else []
  }

  /** `words_clean`: the cleaned form of each qualifying word, in order. */
  function Candidates(words: seq<string>): (cs: seq<string>)
    ensures |cs| <= |words|
  {
    if words == [] then [] else CandidateOf(words[0]) + Candidates(words[1..])
  }

  /** The comprehension works word by word, so it distributes over
      concatenation. */
  lemma {:induction false} CandidatesAppend(a: seq<string>, b: seq<string>)
    ensures Candidates(a + b) == Candidates(a) + Candidates(b)
  {
    if a == [] {
      assert a + b == b;
    } else {
      var c := CandidateOf(a[0]);
      assert (a + b)[0] == a[0] && (a + b)[1..] == a[1..] + b;
      CandidatesAppend(a[1..], b);
      calc {
        Candidates(a + b);
        c + Candidates(a[1..] + b);
        c + (Candidates(a[1..]) + Candidates(b));
        (c + Candidates(a[1..])) + Candidates(b);
      }
    }
  }

  /** Word `w` contributes `x` to `words_clean`. */
  predicate Contributes(w: string, x: string) {
    Qualifies(w) && CleanWord(w) == x
  }

  /** The positions of the words that contribute `x` to `words_clean`. */
  ghost function Sources(words: seq<string>, x: string): set<int> {
    Positions(words, w => Contributes(w, x))
  }

  /** The counter's count of `x` is the number of qualifying words whose
      cleaned form is `x`. */
  lemma {:induction false} CandidateCount(words: seq<string>, x: string)
    ensures Count(Candidates(words), x) == |Sources(words, x)|
    decreases |words|
  {
    if words == [] {
      assert Sources(words, x) == {};
    } else {
      var init := words[..|words| - 1];
      var w := words[|words| - 1];
      assert words == init + [w];
      CandidateCount(init, x);
      CandidatesSnoc(init, w, x);
      PositionsSnoc(init, w, v => Contributes(v, x));
    }
  }

  /** A word added at the end adds its own contribution to the count. */
  lemma CandidatesSnoc(init: seq<string>, w: string, x: string)
    ensures Count(Candidates(init + [w]), x) ==
              Count(Candidates(init), x) + (if Contributes(w, x) then 1 else 0)
  {
    CandidatesAppend(init, [w]);
    assert Candidates([w]) == CandidateOf(w) + Candidates([]);
    assert multiset(Candidates(init) + CandidateOf(w)) == multiset(Candidates(init)) + multiset(CandidateOf(w));
  }

  /** `[word for word, count in Counter(words_clean).most_common(5)]`, or
      nothing for empty text. */
  function Keywords(text: string): (r: seq<string>)
    ensures text == [] ==> r == []
    ensures |r| <= TopicCount
    ensures NoDup(r)
    ensures forall i :: 0 <= i < |r| ==> r[i] in Candidates(Split(text))
    ensures Ranked(Candidates(Split(text)), r)
    ensures text != [] && |r| < TopicCount ==>
              forall w :: w in Candidates(Split(text)) ==> w in r
    ensures forall w, i :: w in Candidates(Split(text)) && w !in r && 0 <= i < |r| ==>
              Precedes(Candidates(Split(text)), r[i], w)
  {
    if text == [] then [] else MostCommon(Candidates(Split(text)), TopicCount)
  }

  /** `x` is the cleaned form of some word of `words` that is longer than
      three characters and is not a stop word. */
  ghost predicate CleanedFrom(words: seq<string>, x: string) {
    exists j :: 0 <= j < |words| && Qualifies(words[j]) && CleanWord(words[j]) == x
  }

  /** Every key topic is the lower-cased, stripped form of a qualifying word
      of the text. */
  lemma KeywordsFromWords(text: string)
    ensures forall i :: 0 <= i < |Keywords(text)| ==> CleanedFrom(Split(text), Keywords(text)[i])
  {
    var words := Split(text);
    var r := Keywords(text);
    forall i | 0 <= i < |r| ensures CleanedFrom(words, r[i]) {
      CandidateSource(words, r[i]);
    }
  }

  /** Every candidate is the cleaned form of a qualifying word, and every
      qualifying word contributes its cleaned form. */
  lemma {:induction false} CandidateSource(words: seq<string>, x: string)
    ensures x in Candidates(words) <==> CleanedFrom(words, x)
  {
    if words != [] {
      CandidateSource(words[1..], x);
      var head := if Qualifies(words[0]) then [CleanWord(words[0])] else [];
      assert Candidates(words) == head + Candidates(words[1..]);
      CleanedFromCons(words, x);
    }
  }

  /** A word list is a source of `x` through its first word or through the
      rest. */
  lemma CleanedFromCons(words: seq<string>, x: string)
    requires words != []
    ensures CleanedFrom(words, x) <==>
              (Qualifies(words[0]) && CleanWord(words[0]) == x) || CleanedFrom(words[1..], x)
  {
    if CleanedFrom(words[1..], x) {
      var j :| 0 <= j < |words[1..]| && Qualifies(words[1..][j]) && CleanWord(words[1..][j]) == x;
      assert words[j + 1] == words[1..][j];
    }
    if CleanedFrom(words, x) {
      var j :| 0 <= j < |words| && Qualifies(words[j]) && CleanWord(words[j]) == x;
      if j > 0 {
        assert words[1..][j - 1] == words[j];
      }
    }
  }

  /** The most common entry of a one-entry list is that entry. */
  lemma MostCommonOfOne(x: string)
    ensures MostCommon([x], TopicCount) == [x]
  {
    var r := MostCommon([x], TopicCount);
    assert x in r;
  }

  /** The key topics of a one-word text: its cleaned form when it qualifies. */
  lemma KeywordsOfOneWord(w: string)
    requires IsWord(w) && Qualifies(w)
    ensures Keywords(w) == [CleanWord(w)]
  {
    SplitOfWord(w);
    assert Candidates([w]) == [CleanWord(w)];
    MostCommonOfOne(CleanWord(w));
  }

  /** Every stop word has at least three characters and starts with a
      lower-case letter. */
  lemma StopWordShape(sw: string)
    requires sw in StopWords
    ensures |sw| >= MinLength && 'a' <= sw[0] <= 'z'
  {
  }

  /** Lower-casing leaves parentheses and lower-case letters alone. */
  lemma LowerParenthesised(sw: string)
    requires forall i :: 0 <= i < |sw| ==> 'a' <= sw[i] <= 'z'
    ensures Lower("(" + sw + ")") == "(" + sw + ")"
  {
    LowerAppend("(" + sw, ")");
    LowerAppend("(", sw);
    assert Lower(sw) == sw;
    assert Lower("(") == "(";
    assert Lower(")") == ")";
  }

  /** Stripping punctuation from a parenthesised run of letters leaves the
      letters. */
  lemma CleanParenthesised(sw: string)
    requires sw != []
    requires forall i :: 0 <= i < |sw| ==> 'a' <= sw[i] <= 'z'
    ensures CleanWord("(" + sw + ")") == sw
  {
    LowerParenthesised(sw);
    assert ("(" + sw + ")") == ['('] + (sw + ")");
    TrimStartDrops('(', sw + ")", IsEdgePunct);
    assert !IsEdgePunct((sw + ")")[0]);
    assert sw + ")" == sw + [')'];
    TrimEndDrops(sw, ')', IsEdgePunct);
    assert !IsEdgePunct(sw[|sw| - 1]);
  }

  /** `lstrip` drops a leading character it strips and stops at the first
      character it keeps. */
  lemma TrimStartDrops(c: char, s: string, drop: char -> bool)
    requires drop(c)
    requires s != [] && !drop(s[0])
    ensures TrimStart([c] + s, drop) == s
  {
    assert ([c] + s)[1..] == s;
  }

  /** `rstrip` drops a trailing character it strips and stops at the last
      character it keeps. */
  lemma TrimEndDrops(s: string, c: char, drop: char -> bool)
    requires drop(c)
    requires s != [] && !drop(s[|s| - 1])
    ensures TrimEnd(s + [c], drop) == s
  {
    assert (s + [c])[..|s|] == s;
  }

  /** Because the stop-word test sees the punctuation, every stop word
      written in parentheses is a candidate, and a text consisting of it has
      the stop word itself as its only key topic: "(the)" yields "the". */
  lemma StopWordInParentheses(sw: string)
    requires sw in StopWords
    requires forall i :: 0 <= i < |sw| ==> 'a' <= sw[i] <= 'z'
    ensures Keywords("(" + sw + ")") == [sw]
  {
    var w := "(" + sw + ")";
    StopWordShape(sw);
    LowerParenthesised(sw);
    assert w[0] == '(';
    assert w !in StopWords by {
      if w in StopWords {
        StopWordShape(w);
      }
    }
    assert IsWord(w);
    CleanParenthesised(sw);
    KeywordsOfOneWord(w);
  }

  /** In particular the text "(the)" has the key topic "the". */
  lemma TheInParentheses()
    ensures "the" in StopWords && Keywords("(the)") == ["the"]
  {
    assert "(" + "the" + ")" == "(the)";
    StopWordInParentheses("the");
  }

  /** A word made only of punctuation, such as "....", qualifies by length
      and cleans to the empty string, which then becomes a key topic. */
  lemma PunctuationOnlyWord()
    ensures Keywords("....") == [""]
  {
    var w := "....";
    assert Lower(w) == w;
    assert IsWord(w);
    assert Qualifies(w);
    TrimEmptyIffAllDropped(Lower(w), IsEdgePunct);
    KeywordsOfOneWord(w);
  }
}
