/** The summary field of `generate_basic_metadata_from_text`: the first two
    period-separated sentences, or the first 200 characters when the text has
    no sentence, with "..." appended to anything longer than 200 characters.
    Nothing is ever cut off. */
module Summary {
  import opened PyStr
  import opened Seqs

  const NoContent: string := "No text content extracted"

  /** Length above which "..." is appended, and length of the fallback. */
  const SummaryLimit: nat := 200

  const Ellipsis: string := "..."

  /** A sentence as `generate_basic_metadata_from_text` keeps it: non-empty,
      with no whitespace at either end and no period. */
  predicate IsSentence(s: string) {
    && s != []
    && !IsSpace(s[0]) && !IsSpace(s[|s| - 1])
    && '.' !in s
  }

  /** What one piece contributes to the list of kept sentences: its
      stripped form, unless that is empty. */
  function KeptPiece(p: string): seq<string> {
    if Strip(p) == [] then [] else [Strip(p)]
  }

  /** `[p.strip() for p in pieces if p.strip()]`. */
  function KeepStripped(ps: seq<string>): (ss: seq<string>)
    ensures |ss| <= |ps|
  {
    if ps == [] then [] else KeptPiece(ps[0]) + KeepStripped(ps[1..])
  }

  /** The kept sentences are the stripped forms of exactly the non-blank
      pieces, in order: a piece added at the end contributes its stripped
      form at the end, or nothing when it is blank. */
  lemma {:induction false} KeepStrippedAppend(ps: seq<string>, p: string)
    ensures KeepStripped(ps + [p]) == KeepStripped(ps) + KeptPiece(p)
  {
    if ps == [] {
      KeepStrippedCons(p, []);
      assert [] + [p] == [p] + [];
    } else {
      assert (ps + [p])[0] == ps[0] && (ps + [p])[1..] == ps[1..] + [p];
      KeepStrippedAppend(ps[1..], p);
      ConcatStep(KeepStripped(ps + [p]), KeepStripped(ps), KeptPiece(ps[0]),
                 KeepStripped(ps[1..] + [p]), KeepStripped(ps[1..]), KeptPiece(p));
    }
  }

  /** The kept sentences of a piece followed by more pieces. */
  lemma KeepStrippedCons(p: string, ps: seq<string>)
    ensures KeepStripped([p] + ps) == KeptPiece(p) + KeepStripped(ps)
  {
    assert ([p] + ps)[0] == p && ([p] + ps)[1..] == ps;
  }

  /** A piece is kept exactly when it is not blank. */
  lemma KeptPieceIffNotBlank(p: string)
    ensures KeptPiece(p) == [] <==> Blank(p)
  {
    TrimEmptyIffAllDropped(p, IsSpace);
  }

  /** Stripping period-free pieces and keeping the non-empty results yields
      sentences. */
  lemma {:induction false} KeptAreSentences(ps: seq<string>)
    requires forall j :: 0 <= j < |ps| ==> '.' !in ps[j]
    ensures forall i :: 0 <= i < |KeepStripped(ps)| ==> IsSentence(KeepStripped(ps)[i])
  {
    if ps != [] {
      var s := Strip(ps[0]);
      var rest := KeepStripped(ps[1..]);
      KeptAreSentences(ps[1..]);
      if s != [] {
        StrippedIsSentence(ps[0]);
        SentencesCons(s, rest);
      }
    }
  }

  /** A sentence followed by sentences is a list of sentences. */
  lemma SentencesCons(s: string, rest: seq<string>)
    requires IsSentence(s)
    requires forall i :: 0 <= i < |rest| ==> IsSentence(rest[i])
    ensures forall i :: 0 <= i < |[s] + rest| ==> IsSentence(([s] + rest)[i])
  {
    forall i | 0 <= i < |[s] + rest| ensures IsSentence(([s] + rest)[i]) {
      if i > 0 {
        assert ([s] + rest)[i] == rest[i - 1];
      }
    }
  }

  /** A period-free piece that does not strip to nothing strips to a
      sentence. */
  lemma StrippedIsSentence(p: string)
    requires '.' !in p && Strip(p) != []
    ensures IsSentence(Strip(p))
  {
    TrimEmptyIffAllDropped(p, IsSpace);
    TrimSubset(p, IsSpace, '.');
  }

  /** Nothing is kept exactly when every piece is blank. */
  lemma {:induction false} KeptEmptyIffBlank(ps: seq<string>)
    ensures KeepStripped(ps) == [] <==> AllBlank(ps)
  {
    if ps != [] {
      KeptEmptyIffBlank(ps[1..]);
      KeptEmptyStep(ps);
      KeptPieceIffNotBlank(ps[0]);
      AllBlankStep(ps);
    }
  }

  /** Nothing is kept from a list exactly when nothing is kept from its
      head or from its tail. */
  lemma KeptEmptyStep(ps: seq<string>)
    requires ps != []
    ensures KeepStripped(ps) == [] <==> KeptPiece(ps[0]) == [] && KeepStripped(ps[1..]) == []
  {
    var head := KeptPiece(ps[0]);
    var rest := KeepStripped(ps[1..]);
    assert |head + rest| == |head| + |rest|;
  }

  /** `[s.strip() for s in text.split('.') if s.strip()]`. */
  function Sentences(text: string): seq<string> {
    KeepStripped(SplitOn(text, '.'))
  }

  /** `summary_text`: the first two sentences joined by ". " with a final
      ".", or the first 200 characters when there is no sentence. */
  function SummaryText(text: string): string {
    var ss := Sentences(text);
    if ss != [] then Join(". ", Take(ss, 2)) + "." else Take(text, SummaryLimit)
  }

  /** The summary field for the (preprocessed) text. */
  function Summary(text: string): (r: string)
    ensures text == [] ==> r == NoContent
    ensures text != [] ==> SummaryText(text) <= r
    ensures text != [] ==> (|r| > |SummaryText(text)| <==> |SummaryText(text)| > SummaryLimit)
    ensures text != [] && |r| > |SummaryText(text)| ==> r[|SummaryText(text)|..] == Ellipsis
  {
    if text != [] then
      var st := SummaryText(text);
      if |st| > SummaryLimit then st + Ellipsis else st
    else NoContent
  }

  /** Every kept sentence is a genuine sentence: stripped, non-empty and
      without a period. */
  lemma SentencesAreSentences(text: string)
    ensures forall i :: 0 <= i < |Sentences(text)| ==> IsSentence(Sentences(text)[i])
  {
    KeptAreSentences(SplitOn(text, '.'));
  }

  /** A text has no sentence exactly when it is made of periods and
      whitespace alone. */
  lemma NoSentenceIffDotsAndSpaces(text: string)
    ensures Sentences(text) == [] <==> OnlyCharOrSpace(text, '.')
  {
    SplitOnBlank(text, '.');
    KeptEmptyIffBlank(SplitOn(text, '.'));
  }

  /** Periods in a ". "-join of period-free pieces: one per separator. */
  lemma {:induction false} JoinPeriods(ws: seq<string>)
    requires |ws| > 0
    requires forall i :: 0 <= i < |ws| ==> '.' !in ws[i]
    ensures CountChar(Join(". ", ws), '.') == |ws| - 1
  {
    if |ws| > 1 {
      JoinPeriods(ws[1..]);
      var rest := Join(". ", ws[1..]);
      assert Join(". ", ws) == ws[0] + ". " + rest;
      assert multiset(ws[0] + ". " + rest) == multiset(ws[0]) + multiset(". ") + multiset(rest);
      assert multiset(". ")['.'] == 1;
      assert multiset(ws[0])['.'] == 0;
    } else {
      assert multiset(ws[0])['.'] == 0;
    }
  }

  /** With at least one sentence, the summary text is the first sentence
      and, when there is one, ". " and the second, followed by a period. */
  lemma SummaryTextOfSentences(text: string)
    requires Sentences(text) != []
    ensures var st := SummaryText(text); var ss := Sentences(text);
      && (|ss| == 1 ==> st == ss[0] + ".")
      && (|ss| >= 2 ==> st == ss[0] + ". " + ss[1] + ".")
  {
    var ss := Sentences(text);
    assert SummaryText(text) == Join(". ", Take(ss, 2)) + ".";
    FirstTwoJoined(ss);
  }

  /** The first two of a list of sentences, joined by ". " and closed by a
      period. */
  lemma FirstTwoJoined(ss: seq<string>)
    requires ss != []
    ensures |ss| == 1 ==> Join(". ", Take(ss, 2)) + "." == ss[0] + "."
    ensures |ss| >= 2 ==> Join(". ", Take(ss, 2)) + "." == ss[0] + ". " + ss[1] + "."
  {
    if |ss| >= 2 {
      assert Take(ss, 2) == [ss[0], ss[1]];
      JoinTwo(". ", ss[0], ss[1]);
    } else {
      assert Take(ss, 2) == [ss[0]];
    }
  }

  /** With at least one sentence, the summary text holds one period per
      sentence kept (one or two) and ends with a period. */
  lemma SummaryOfSentences(text: string)
    requires Sentences(text) != []
    ensures var st := SummaryText(text);
      && st[|st| - 1] == '.'
      && CountChar(st, '.') == if |Sentences(text)| >= 2 then 2 else 1
  {
    var kept := Take(Sentences(text), 2);
    SentencesAreSentences(text);
    assert forall i :: 0 <= i < |kept| ==> '.' !in kept[i];
    JoinPeriods(kept);
    PeriodAfter(Join(". ", kept));
  }

  /** Joining two pieces puts the separator between them. */
  lemma JoinTwo(sep: string, a: string, b: string)
    ensures Join(sep, [a, b]) == a + sep + b
  {
    assert [a, b][1..] == [b];
  }

  /** Appending a period adds one period, which ends the result. */
  lemma PeriodAfter(j: string)
    ensures var r := j + "."; r[|r| - 1] == '.' && CountChar(r, '.') == CountChar(j, '.') + 1
  {
    assert multiset(j + ".") == multiset(j) + multiset(".");
  }

  /** A text of periods and whitespace alone is summarised by its first 200
      characters, never followed by "...". */
  lemma SummaryOfBlankText(text: string)
    requires text != []
    requires OnlyCharOrSpace(text, '.')
    ensures Summary(text) == Take(text, SummaryLimit)
    ensures |Summary(text)| <= SummaryLimit
  {
    NoSentenceIffDotsAndSpaces(text);
  }

  /** A string ending in a period, followed by "...", ends in four periods. */
  lemma EllipsisAfterPeriod(st: string)
    requires st != [] && st[|st| - 1] == '.'
    ensures var r := st + Ellipsis; r[|r| - 4..] == "...."
  {
    var r := st + Ellipsis;
    assert r[|r| - 4..] == [st[|st| - 1]] + Ellipsis;
  }

  /** The summary is at most 200 characters, or it is the untruncated summary
      text followed by "..." and so ends in four periods. */
  lemma LongSummaryEndsInFourPeriods(text: string)
    requires text != []
    ensures |Summary(text)| <= SummaryLimit || Summary(text)[|Summary(text)| - 4..] == "...."
  {
    var st := SummaryText(text);
    if |st| > SummaryLimit {
      assert Sentences(text) != [];
      SummaryOfSentences(text);
      EllipsisAfterPeriod(st);
    }
  }
}
