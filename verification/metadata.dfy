/** The metadata record: the empty schema of `create_metadata_schema` and the
    record `generate_basic_metadata_from_text` fills in from a text and a
    file name. What the function reads from its surroundings (the clock, the
    optional readability library and the three regular-expression scans) is
    passed in as an `Environment`. */
module Metadata {
  import opened PyStr
  import opened Preprocess
  import opened Classifier
  import opened Summary
  import opened Keywords
  import opened Entities
  import opened FileName

  datatype Option<T> = None | Some(value: T)

  datatype BasicInfo = BasicInfo(
    filename: string,
    fileType: string,
    fileSize: int,
    creationDate: string,
    processingDate: string)

  datatype ContentAnalysis = ContentAnalysis(
    wordCount: nat,
    characterCount: nat,
    documentType: string,
    readabilityScore: real)

  datatype SemanticData = SemanticData(
    summary: string,
    keyTopics: seq<string>,
    entities: map<string, seq<string>>)

  datatype TechnicalMetadata = TechnicalMetadata(
    extractionMethod: string,
    processingTime: real,
    confidenceScore: real)

  datatype Record = Record(
    basicInfo: BasicInfo,
    contentAnalysis: ContentAnalysis,
    semanticData: SemanticData,
    technicalMetadata: TechnicalMetadata)

  /** What the generator observes besides its arguments: the formatted
      processing date, the elapsed processing time, the Flesch reading ease
      (`None` when the library is missing or fails), and the matches of the
      three entity patterns on the preprocessed text. */
  datatype Environment = Environment(
    processingDate: string,
    elapsed: real,
    readability: Option<real>,
    matches: Matches)

  const ExtractionMethod: string := "Streamlit interface"

  /** Confidence reported for a text with words, and for one without. */
  const TextConfidence: real := 0.8
  const NoTextConfidence: real := 0.1

  /** `create_metadata_schema()`. */
  function DefaultRecord(): (r: Record)
    ensures r.basicInfo.filename == [] && r.basicInfo.fileType == [] && r.basicInfo.fileSize == 0
    ensures r.basicInfo.creationDate == [] && r.basicInfo.processingDate == []
    ensures r.contentAnalysis.wordCount == 0 && r.contentAnalysis.characterCount == 0
    ensures r.contentAnalysis.documentType == [] && r.contentAnalysis.readabilityScore == 0.0
    ensures r.semanticData.summary == [] && r.semanticData.keyTopics == []
    ensures r.semanticData.entities == map[]
    ensures r.technicalMetadata.extractionMethod == []
    ensures r.technicalMetadata.processingTime == 0.0 && r.technicalMetadata.confidenceScore == 0.0
  {
    Record(
      BasicInfo("", "", 0, "", ""),
      ContentAnalysis(0, 0, "", 0.0),
      SemanticData("", [], map[]),
      TechnicalMetadata("", 0.0, 0.0))
  }

  /** `generate_basic_metadata_from_text(text, filename)`. The counts are
      stated on the words of the raw text; the derived fields are the
      document type, summary, key topics and entities of the preprocessed
      text. */
  function Generate(text: string, filename: string, env: Environment): (r: Record)
    ensures r.basicInfo == DefaultRecord().basicInfo.(
              filename := filename,
              fileType := Suffix(filename),
              processingDate := env.processingDate)
    ensures r.contentAnalysis.wordCount == |Split(text)|
    ensures r.contentAnalysis.characterCount ==
              if Split(text) == [] then 0 else |NonSpace(text)| + |Split(text)| - 1
    ensures r.contentAnalysis.documentType == Label(Classify(Normalise(text)))
    ensures r.contentAnalysis.readabilityScore ==
              if Split(text) != [] && env.readability.Some? then env.readability.value else 0.0
    ensures r.semanticData.summary == Summary.Summary(Normalise(text))
    ensures r.semanticData.keyTopics == Keywords.Keywords(Normalise(text))
    ensures r.semanticData.entities == Entities.Entities(Normalise(text), env.matches)
    ensures r.technicalMetadata.extractionMethod == ExtractionMethod
    ensures r.technicalMetadata.processingTime == env.elapsed
    ensures r.technicalMetadata.confidenceScore ==
              if Split(text) == [] then NoTextConfidence else TextConfidence
  {
    var t := Normalise(text);
    var words := Split(t);
    NormaliseLength(text);
    var schema := DefaultRecord();
    var basic := schema.basicInfo.(
      filename := filename,
      fileType := Suffix(filename),
      processingDate := env.processingDate);
    var readability := if t != [] && env.readability.Some? then env.readability.value else 0.0;
    var content := ContentAnalysis(|words|, |t|, Label(Classify(t)), readability);
    var semantic := SemanticData(Summary.Summary(t), Keywords.Keywords(t), Entities.Entities(t, env.matches));
    var technical := TechnicalMetadata(
      ExtractionMethod,
      env.elapsed,
      if t != [] then TextConfidence else NoTextConfidence);
    Record(basic, content, semantic, technical)
  }

  /** A text without words (empty, or whitespace alone) yields the record for
      "no content": type "Unknown", the no-content summary, no topics, empty
      entity lists, zero counts and readability, and confidence 0.1. */
  lemma GenerateOfBlank(text: string, filename: string, env: Environment)
    requires Blank(text)
    ensures var r := Generate(text, filename, env);
      && r.contentAnalysis.wordCount == 0
      && r.contentAnalysis.characterCount == 0
      && r.contentAnalysis.documentType == "Unknown"
      && r.contentAnalysis.readabilityScore == 0.0
      && r.semanticData.summary == NoContent
      && r.semanticData.keyTopics == []
      && r.semanticData.entities == map[PersonKey := [], OrgKey := [], DateKey := [], PercentKey := []]
      && r.technicalMetadata.confidenceScore == NoTextConfidence
  {
    SplitEmptyIffBlank(text);
    var r := Generate(text, filename, env);
    var e := r.semanticData.entities;
    assert e.Keys == {PersonKey, OrgKey, DateKey, PercentKey};
  }

  /** Two texts with the same words give the same record: only the sequence
      of words matters, never the whitespace between them. */
  lemma GenerateDependsOnlyOnWords(a: string, b: string, filename: string, env: Environment)
    requires Split(a) == Split(b)
    ensures Generate(a, filename, env) == Generate(b, filename, env)
  {
    SplitKeepsNonSpace(a);
    SplitKeepsNonSpace(b);
  }

  /** Feeding the generator text it has already preprocessed changes
      nothing. */
  lemma GeneratePreprocessed(text: string, filename: string, env: Environment)
    ensures Generate(Normalise(text), filename, env) == Generate(text, filename, env)
  {
    GenerateDependsOnlyOnWords(Normalise(text), text, filename, env);
  }

  /** A text with words is at least as long, once preprocessed, as its word
      count, and its key topics and capped entity lists stay within their
      limits. */
  lemma GenerateBounds(text: string, filename: string, env: Environment)
    ensures var r := Generate(text, filename, env);
      && r.contentAnalysis.wordCount <= r.contentAnalysis.characterCount
      && |r.semanticData.keyTopics| <= TopicCount
      && |r.semanticData.entities[PersonKey]| <= PersonLimit
      && |r.semanticData.entities[DateKey]| <= DateLimit
  {
    var ws := Split(text);
    if ws != [] {
      SplitKeepsNonSpace(text);
      ConcatOfWords(ws);
    }
  }

  /** Each word contributes at least one character to the concatenation. */
  lemma {:induction false} ConcatOfWords(ws: seq<string>)
    requires AllWords(ws)
    ensures |Concat(ws)| >= |ws|
  {
    if ws != [] {
      ConcatOfWords(ws[1..]);
    }
  }

  /** A text whose type is "Short Document" has fewer than 100 words, and one
      whose type is "General Document" has at least 100. */
  lemma GenerateTypeByLength(text: string, filename: string, env: Environment)
    ensures var r := Generate(text, filename, env);
      && (r.contentAnalysis.documentType == "Short Document" ==> r.contentAnalysis.wordCount < ShortWordLimit)
      && (r.contentAnalysis.documentType == "General Document" ==> r.contentAnalysis.wordCount >= ShortWordLimit)
  {
    var d := Classify(Normalise(text));
    LabelInjective(d, ShortDocument);
    LabelInjective(d, GeneralDocument);
  }

  /** Distinct document types have distinct labels. */
  lemma LabelInjective(d: DocumentType, e: DocumentType)
    ensures Label(d) == Label(e) <==> d == e
  {
  }
}
