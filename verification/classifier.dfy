/** `classify_document_type`: a label chosen by case-insensitive substring
    matches against three fixed lexicons tried in a fixed order, with a
    word-count fallback when no lexicon matches. */
module Classifier {
  import opened PyStr

  datatype DocumentType =
    | Unknown
    | AcademicPaper
    | BusinessDocument
    | LiteraryWork
    | ShortDocument
    | GeneralDocument

  /** The string `classify_document_type` returns for each document type. */
  function Label(d: DocumentType): string {
    match d
    case Unknown => "Unknown"
    case AcademicPaper => "Academic Paper"
    case BusinessDocument => "Business Document"
    case LiteraryWork => "Literary Work"
    case ShortDocument => "Short Document"
    case GeneralDocument => "General Document"
  }

  const AcademicTerms: seq<string> := ["abstract", "introduction", "methodology", "conclusion", "references"]
  const BusinessTerms: seq<string> := ["executive summary", "business", "market", "strategy"]
  const LiteraryTerms: seq<string> := ["chapter", "novel", "story"]

  /** Texts with fewer words than this are short. */
  const ShortWordLimit: nat := 100

  /** Some term of the lexicon occurs in the lower-cased text. */
  ghost predicate Mentions(text: string, terms: seq<string>) {
    exists t :: t in terms && Occurs(Lower(text), t)
  }

  /** No lexicon matches the text. */
  ghost predicate NoLexicon(text: string) {
    && !Mentions(text, AcademicTerms)
    && !Mentions(text, BusinessTerms)
    && !Mentions(text, LiteraryTerms)
  }

  /** `any(word in lower for word in terms)`. */
  function AnyContained(lower: string, terms: seq<string>): (b: bool)
    ensures b <==> exists t :: t in terms && Occurs(lower, t)
  {
    if terms == [] then false
    else Contains(lower, terms[0]) || AnyContained(lower, terms[1..])
  }

  /** `classify_document_type(text)`. */
  function Classify(text: string): (d: DocumentType)
    ensures d == Unknown <==> text == []
    ensures d == AcademicPaper <==> text != [] && Mentions(text, AcademicTerms)
    ensures d == BusinessDocument <==>
              text != [] && !Mentions(text, AcademicTerms) && Mentions(text, BusinessTerms)
    ensures d == LiteraryWork <==>
              && text != []
              && !Mentions(text, AcademicTerms) && !Mentions(text, BusinessTerms)
              && Mentions(text, LiteraryTerms)
    ensures d == ShortDocument <==> text != [] && NoLexicon(text) && |Split(text)| < ShortWordLimit
    ensures d == GeneralDocument <==> text != [] && NoLexicon(text) && |Split(text)| >= ShortWordLimit
  {
    if text == [] then Unknown
    else
      var lower := Lower(text);
      if AnyContained(lower, AcademicTerms) then AcademicPaper
      else if AnyContained(lower, BusinessTerms) then BusinessDocument
      else if AnyContained(lower, LiteraryTerms) then LiteraryWork
      else if |Split(text)| < ShortWordLimit then ShortDocument
      else GeneralDocument
  }

  /** Position of a lexicon label in the order the lexicons are tried; the
      fallback labels come after all of them. */
  function Priority(d: DocumentType): nat {
    match d
    case AcademicPaper => 0
    case BusinessDocument => 1
    case LiteraryWork => 2
    case _ => 3
  }

  /** Lower-casing maps an occurrence of `sub` to an occurrence of its
      lower-cased form. */
  lemma OccursLower(s: string, sub: string)
    requires Occurs(s, sub)
    ensures Occurs(Lower(s), Lower(sub))
  {
    var i :| OccursAt(s, sub, i);
    assert Lower(s)[i..i + |sub|] == Lower(sub);
    assert OccursAt(Lower(s), Lower(sub), i);
  }

  /** A lexicon that matches a text still matches it with anything written
      before or after it. */
  lemma MentionsInContext(a: string, text: string, b: string, terms: seq<string>)
    requires Mentions(text, terms)
    ensures Mentions(a + text + b, terms)
  {
    var t :| t in terms && Occurs(Lower(text), t);
    OccursInContext(Lower(a), Lower(text), Lower(b), t);
    LowerAppend(a + text, b);
    LowerAppend(a, text);
  }

  /** Adding text before or after a document can only move its label earlier
      in the lexicon order: an academic paper stays an academic paper whatever
      else is added, a business document becomes at most an academic paper,
      and so on. */
  lemma ClassifyExtended(a: string, text: string, b: string)
    requires Priority(Classify(text)) < 3
    ensures Priority(Classify(a + text + b)) <= Priority(Classify(text))
  {
    var d := Classify(text);
    var big := a + text + b;
    if d == AcademicPaper {
      MentionsInContext(a, text, b, AcademicTerms);
    } else if d == BusinessDocument {
      MentionsInContext(a, text, b, BusinessTerms);
    } else {
      MentionsInContext(a, text, b, LiteraryTerms);
    }
  }

  /** Any spelling of "abstract" in any mix of cases makes the text an
      academic paper, whatever else it holds. */
  lemma AbstractMakesAcademic(text: string, word: string)
    requires Occurs(text, word) && Lower(word) == "abstract"
    ensures Classify(text) == AcademicPaper
  {
    OccursLower(text, word);
    assert "abstract" in AcademicTerms;
  }
}
