# Automated metadata generation: the text-analysis core in Dafny

This project models the pure text-analysis pipeline of the Streamlit
metadata generator (`streamlit_app.py`) and proves properties of it. The
pipeline has these parts:

- the whitespace normaliser `preprocess_text`;
- the lexicon-based `classify_document_type`;
- the empty record of `create_metadata_schema`;
- the deterministic part of `generate_basic_metadata_from_text`: the word and character counts, the period-split summary, the top-five keyword ranking and the entity dictionary;
- `Path(filename).suffix`, used for the record's file type;
- the choice of text extractor by file-name ending in the upload handler.

Modules, in dependency order:

| module | file | models |
|---|---|---|
| `PyStr` | pystr.dfy | The parts of Python `str` the pipeline uses: `split()`, `sep.join`, `strip`, `split(c)`, `lower()`, `in` and `endswith`. |
| `Seqs` | seqs.dfy | Duplicate-freedom, first occurrence, first-occurrence deduplication, and the `s[:n]` slice. |
| `Preprocess` | preprocess.dfy | `preprocess_text`. |
| `Classifier` | classifier.dfy | `classify_document_type` and its six labels. |
| `Summary` | summary.dfy | The summary field. |
| `Counter` | counter.dfy | `Counter(xs).most_common(n)` on strings. |
| `Keywords` | keywords.dfy | The key topics. |
| `Entities` | entities.dfy | The entity dictionary, given the regular-expression matches. |
| `FileName` | filename.dfy | `Path(name).name`, `Path(name).suffix`, and the extractor choice. |
| `Metadata` | metadata.dfy | The record, `create_metadata_schema` and `generate_basic_metadata_from_text`. |

`Counter.most_common(n)` is modelled by a computation that yields the same list as CPython's:

- the counter's keys are kept in first-occurrence order (dictionary insertion order);
- they are sorted stably by descending count;
- the first `n` are kept.

This arrangement is proved to match an independent ranking, `Counter.Precedes`: a more frequent word comes first, and among equally frequent words the one seen earlier comes first.

Python's `list(set(xs))` has no defined order. The model lists distinct matches in first-occurrence order. The contracts about the entity lists state only facts that hold for every order.

### Behaviour of the code worth knowing

These properties are proved about the code as written:

- **Stop words can be key topics.** The stop-word test looks at the word before its punctuation is stripped. So `(the)` qualifies and cleans to `the` (`Keywords.TheInParentheses`). This holds for every stop word (`Keywords.StopWordInParentheses`).
  - The comment at `streamlit_app.py:175` calls the topics "most frequent meaningful words", and line 177 builds a stop-word set for them, so excluding stop words was evidently meant. The model follows the code.
- **The empty string can be a key topic.** A word of punctuation alone, such as `....`, cleans to `""`, and `""` becomes a key topic (`Keywords.PunctuationOnlyWord`).
- **The summary is never truncated.** A summary text longer than 200 characters is kept whole, with `...` appended. Sentence summaries end in a period, so such a summary ends in four periods (`Summary.LongSummaryEndsInFourPeriods`).
  - The in-code comment "first 200 characters" describes only the fallback for texts without sentences.
- **Lexicon order decides overlapping matches.** An academic term anywhere wins over every other lexicon. Adding text can only move a label earlier in the lexicon order (`Classifier.ClassifyExtended`).

## Model

| member | source | states |
|---|---|---|
| PyStr.Split | streamlit_app.py:82 | Every piece `split()` yields is non-empty and free of whitespace. |
| PyStr.SplitJoin | streamlit_app.py:82 | Splitting words joined by single spaces gives back exactly those words. |
| PyStr.SplitKeepsNonSpace | streamlit_app.py:82 | The words of a text, concatenated, are exactly its non-whitespace characters in order: `split()` loses only whitespace. |
| PyStr.SplitEmptyIffBlank | streamlit_app.py:79-82 | `split()` finds no word exactly when every character is whitespace. |
| PyStr.SplitOfWord | streamlit_app.py:82 | A non-empty string without whitespace splits into itself alone. |
| PyStr.SplitAtSpace | streamlit_app.py:82 | Any whitespace character separates words: the words of `a`, a whitespace character and `b` are the words of `a` followed by those of `b`. |
| PyStr.JoinLength | streamlit_app.py:82 | A join's length is the total length of the pieces plus one separator per adjacent pair. |
| PyStr.Lower | streamlit_app.py:90 | `lower()` keeps the length and lower-cases each character on its own. |
| PyStr.Contains | streamlit_app.py:92 | `sub in s` holds exactly when `sub` occurs at some position of `s`. |
| PyStr.TrimStart | streamlit_app.py:178 | `lstrip` removes a prefix made only of stripped characters, and leaves none at the front. |
| PyStr.TrimEnd | streamlit_app.py:178 | `rstrip` removes a suffix made only of stripped characters, and leaves none at the back. |
| PyStr.TrimIsInfix | streamlit_app.py:169 | `strip` yields a contiguous piece of its input. |
| PyStr.TrimEmptyIffAllDropped | streamlit_app.py:169 | `strip` yields `""` exactly when every character is stripped; otherwise neither end of the result is a stripped character. |
| PyStr.TrimSubset | streamlit_app.py:169 | `strip` never introduces a character. |
| PyStr.SplitOn | streamlit_app.py:169 | `split('.')` yields at least one piece, and no piece holds a period. |
| PyStr.SplitOnJoin | streamlit_app.py:169 | Joining the pieces of `split(c)` with `c` gives back the input. |
| PyStr.SplitOnCount | streamlit_app.py:169 | `split(c)` yields one more piece than the input has occurrences of `c`. |
| PyStr.SplitOnBlank | streamlit_app.py:169 | All pieces of `split(c)` are blank exactly when the input holds only `c` and whitespace. |
| Seqs.Distinct | streamlit_app.py:179 | The counter's keys: duplicate-free, the same members as the input, in order of first occurrence, and no more of them than input entries. |
| Seqs.DistinctStep | streamlit_app.py:179 | Appending a value to a list appends it to the distinct values when it is new, and leaves them unchanged otherwise. |
| Seqs.Take | streamlit_app.py:170 | `s[:n]` is the prefix of `s` of length `n`, or all of `s` when it is shorter. |
| Seqs.NoDupCard | streamlit_app.py:190 | A duplicate-free list has as many entries as distinct values. |
| Seqs.NoDupWithin | streamlit_app.py:190 | A duplicate-free list drawn from another has at most as many entries as the other has distinct values. |
| Preprocess.Normalise | streamlit_app.py:77-83 | The output has no leading or trailing whitespace and words separated by exactly one space; it has the same words as the input; it is empty exactly when the input has no word. |
| Preprocess.JoinSplitSingleSpaced | streamlit_app.py:82 | Joining the words of a single-spaced string with one space gives that string back. |
| Preprocess.NormaliseFixpoints | streamlit_app.py:77-83 | Normalisation leaves a string unchanged exactly when it is already single-spaced. |
| Preprocess.NormaliseIdempotent | streamlit_app.py:82 | Normalising twice is the same as normalising once. |
| Preprocess.NormaliseLength | streamlit_app.py:148 | The normalised length is the number of non-whitespace characters plus one space between each pair of words, and 0 for a text without words. |
| Classifier.AnyContained | streamlit_app.py:92-96 | `any(word in lower for word in terms)` holds exactly when some term occurs in the lower-cased text. |
| Classifier.Classify | streamlit_app.py:85-101 | "Unknown" exactly for empty text. Otherwise: academic exactly when an academic term occurs; business exactly when no academic but a business term occurs; literary exactly when only a literary term occurs. Without any term, short exactly when there are fewer than 100 words, general otherwise. |
| Classifier.OccursLower | streamlit_app.py:90 | Lower-casing maps any occurrence of a string to an occurrence of its lower-cased form. |
| Classifier.ClassifyExtended | streamlit_app.py:92-97 | Surrounding a text that matches a lexicon with any text can only keep its label or move it earlier in the lexicon order. |
| Classifier.AbstractMakesAcademic | streamlit_app.py:90-93 | A text holding "abstract" in any mix of cases is an academic paper, whatever else it holds. |
| Summary.KeepStrippedAppend | streamlit_app.py:169 | The kept list of pieces with one more at the end is the kept list of the pieces followed by that piece's stripped form, or by nothing when it strips to "". |
| Summary.KeptPieceIffNotBlank | streamlit_app.py:169 | A piece contributes nothing exactly when it is blank. |
| Summary.KeptAreSentences | streamlit_app.py:169 | Stripping period-free pieces and keeping the non-empty results yields non-empty, stripped, period-free sentences. |
| Summary.KeptEmptyIffBlank | streamlit_app.py:169 | Nothing is kept exactly when every piece is blank. |
| Summary.StrippedIsSentence | streamlit_app.py:169 | A period-free piece that does not strip to nothing strips to a sentence. |
| Summary.SentencesAreSentences | streamlit_app.py:169 | Every sentence kept is non-empty, stripped and period-free. |
| Summary.NoSentenceIffDotsAndSpaces | streamlit_app.py:169-170 | A text has no sentence exactly when it is made of periods and whitespace alone. |
| Summary.JoinPeriods | streamlit_app.py:170 | Joining period-free pieces with ". " puts one period between each pair. |
| Summary.Summary | streamlit_app.py:167-173 | Empty text gives "No text content extracted". Otherwise the summary text is a prefix of the result, and the result is longer exactly when the summary text exceeds 200 characters; the extra part is then "...". |
| Summary.SummaryTextOfSentences | streamlit_app.py:170 | With one sentence the summary text is that sentence and a period; with two or more it is the first sentence, ". ", the second sentence and a period. |
| Summary.SummaryOfSentences | streamlit_app.py:170 | With a sentence, the summary text ends with a period and holds two periods when there are two or more sentences, one when there is a single sentence. |
| Summary.SummaryOfBlankText | streamlit_app.py:170-171 | A non-empty text of periods and whitespace is summarised by its first 200 characters, never followed by "...". |
| Summary.EllipsisAfterPeriod | streamlit_app.py:171 | A string ending in a period, followed by "...", ends in four periods. |
| Summary.LongSummaryEndsInFourPeriods | streamlit_app.py:170-171 | A summary is at most 200 characters long, or it ends in four periods. |
| Counter.MostCommon | streamlit_app.py:179-180 | At most `n` duplicate-free entries, all from the input, in descending count with ties by first occurrence. Every input value is listed when fewer than `n` are. Every value left out is outranked by every value listed. |
| Counter.PrefixOfRanked | streamlit_app.py:180 | The first `n` entries of any ranked arrangement of the distinct values have the `most_common(n)` properties. |
| Counter.InsertByCountElems | streamlit_app.py:180 | One insertion step adds exactly the inserted value. |
| Counter.InsertByCountRanked | streamlit_app.py:180 | Inserting a value seen before all others into a ranked list, stably by count, keeps it ranked. |
| Counter.SortByCountElems | streamlit_app.py:180 | The stable sort by count is a permutation of the keys. |
| Counter.SortByCountRanked | streamlit_app.py:180 | Sorting first-occurrence-ordered keys stably by descending count ranks them by count, then by first occurrence. |
| Keywords.CandidateSource | streamlit_app.py:178 | A value is a cleaned candidate exactly when it is the cleaned form of some word longer than three characters whose lower-case form is not a stop word. |
| Keywords.CandidatesAppend | streamlit_app.py:178 | The cleaned candidates of two word lists one after the other are the candidates of the first followed by those of the second. |
| Keywords.CandidateCount | streamlit_app.py:178-179 | The counter's count of a value is the number of positions holding a word longer than three characters, not a stop word in lower case, whose cleaned form is that value. |
| Keywords.Keywords | streamlit_app.py:176-182 | Empty text gives no topics. Otherwise: at most five duplicate-free topics, each a cleaned candidate, ranked by frequency with ties by first occurrence. All candidates are listed when fewer than five are, and every candidate left out is outranked by every topic. |
| Keywords.KeywordsFromWords | streamlit_app.py:178-180 | Every key topic is the lower-cased, end-stripped form of some word of the text that is longer than three characters and whose lower-case form is not a stop word. |
| Keywords.KeywordsOfOneWord | streamlit_app.py:178-180 | A one-word text whose word qualifies has that word's cleaned form as its only topic. |
| Keywords.CleanParenthesised | streamlit_app.py:178 | Cleaning a parenthesised run of lower-case letters leaves the letters. |
| Keywords.StopWordInParentheses | streamlit_app.py:177-178 | Every stop word written in parentheses is a text whose only key topic is that stop word. |
| Keywords.TheInParentheses | streamlit_app.py:177-178 | "the" is a stop word, yet the text "(the)" has the key topic "the". |
| Keywords.PunctuationOnlyWord | streamlit_app.py:178 | The text "...." has the empty string as its only key topic. |
| Entities.Dedupe | streamlit_app.py:198 | `list(set(xs))` is duplicate-free with exactly the members of `xs`. |
| Entities.DedupeCap | streamlit_app.py:190 | `list(set(xs))[:k]` has at most `k` duplicate-free entries from `xs`, and all of them when fewer than `k` are listed. |
| Entities.Entities | streamlit_app.py:185-200 | Exactly the keys PERSON, ORG, DATE and PERCENT. ORG is always empty, and all lists are empty for empty text. Every list is duplicate-free; PERSON has at most 5 entries and DATE at most 3. The lists hold matched values only: PERCENT all of them, PERSON and DATE all of them when under their caps. |
| Entities.CapNotReached | streamlit_app.py:190-194 | Whether a capped list falls short of its cap depends only on the set of values matched. |
| Entities.EntitiesIgnoreMatchOrder | streamlit_app.py:189-198 | Two scans with the same matched values, in any order and repetition, give the same PERCENT members, and the same PERSON and DATE members when under the caps. |
| FileName.Name | streamlit_app.py:139 | A path's name holds no slash and is never ".". |
| FileName.NameAfterDirectory | streamlit_app.py:139 | The name of `dir/name` is `name` for any directory part. |
| FileName.NameOfBareName | streamlit_app.py:139 | A file name without slashes is its own name. |
| FileName.LastIndexOf | streamlit_app.py:139 | `rfind` gives a position holding the character with none after it, or -1. |
| FileName.Suffix | streamlit_app.py:139 | The suffix is empty or a period followed by period-free, slash-free text, and it ends the name. It is non-empty exactly when the name does not end in a period and has a period after its first character. |
| FileName.SuffixOfStemAndExtension | streamlit_app.py:139 | The suffix of `stem.ext` is `.ext`. |
| FileName.ChooseExtractor | streamlit_app.py:259-264 | PDF exactly for names ending in ".pdf" in any case; DOCX exactly for ".docx"; raw decoding for every other name. |
| FileName.ExtensionsExclusive | streamlit_app.py:259-262 | No name ends with both ".pdf" and ".docx", so the order of the two tests does not matter. |
| FileName.ChooseExtractorIgnoresCase | streamlit_app.py:259-262 | A name and its lower-cased form get the same extractor. |
| FileName.ChooseExtractorByEnding | streamlit_app.py:259-262 | Anything written before the last five characters of a name does not change the extractor. |
| FileName.EndsWithAfter | streamlit_app.py:259 | Whether a string ends with something no longer than its last part depends on that part alone. |
| Metadata.DefaultRecord | streamlit_app.py:103-129 | Every string field is empty, every number 0, the topic list empty and the entity map empty. |
| Metadata.Generate | streamlit_app.py:131-207 | The basic info is the empty schema's, with the name, its suffix and the processing date filled in. Words and characters are counted on the normalised text. Type, summary, topics and entities come from the normalised text. Readability comes from the environment only for a text with words. The method is "Streamlit interface"; confidence is 0.8 with words and 0.1 without. |
| Metadata.GenerateOfBlank | streamlit_app.py:143-205 | A text without words gives zero counts, "Unknown", zero readability, the no-content summary, no topics, four empty entity lists and confidence 0.1. |
| Metadata.GenerateDependsOnlyOnWords | streamlit_app.py:143-149 | Two texts with the same words give the same record: spacing never matters. |
| Metadata.GeneratePreprocessed | streamlit_app.py:143 | Feeding the generator its own normalised text changes nothing. |
| Metadata.GenerateBounds | streamlit_app.py:146-194 | The character count is at least the word count; there are at most five topics, five persons and three dates. |
| Metadata.ConcatOfWords | streamlit_app.py:148 | Each word contributes at least one character. |
| Metadata.GenerateTypeByLength | streamlit_app.py:98-101 | A "Short Document" has fewer than 100 words and a "General Document" at least 100. |

## Left out

- The Streamlit user interface is not modelled: `main`, `display_metadata_results`, page configuration, session state and the one-time readability warning. They are presentation only.
- File input and output are not modelled: temporary files, the PDF and DOCX extractors, their error-message strings, and `check_dependencies`. They are disk I/O and foreign libraries. `FileName.ChooseExtractor` models only which extractor is chosen.
- The Flesch reading ease is not computed. The generator receives it as `Environment.readability`, where `None` stands for a missing or failing library.
- The clock is not modelled. The formatted processing date and the elapsed time are `Environment` fields.
- Regular-expression matching of the three entity patterns is not modelled. Their match lists are `Entities.Matches` inputs, so nothing is claimed about which strings the patterns match. For example, the percent pattern's trailing word boundary is not modelled.
- Entities.EntitiesIgnoreMatchOrder: states agreement of PERSON and DATE only below their caps, because which values survive a cap depends on the unspecified order of `list(set(...))`.
- Entities.Dedupe: lists values in first-occurrence order, which is one of the orders `list(set(...))` may produce; the contracts state only what holds for every order.
- PyStr.Split: its own contract says only that every piece is a word. That the pieces are the maximal runs of non-whitespace is stated by three lemmas instead: `PyStr.SplitEmptyIffBlank` (the empty string, like any blank string, has no words), `PyStr.SplitOfWord` (a word is its own only piece) and `PyStr.SplitAtSpace` (any whitespace character separates the pieces before it from those after it). Together they fix the result on every input.
- PyStr.Lower: folds only the ASCII letters. Python's `lower()` applies full Unicode case mapping, which is not modelled.
- FileName.Suffix: follows the rule of Python 3.12's `pathlib` (`PurePath.suffix`, a period at position `i` of the name with `0 < i < len(name) - 1`) on POSIX paths. Other Python versions and Windows path parsing are not modelled.
- JSON serialisation of the record and the 500-character text preview are not modelled. They are library calls and display.
- Metadata.Generate: takes the text as a string. A `None` text is not modelled; it takes the same path as the empty string.
- Python floats are not modelled: readability, processing time and confidence are `real` values. The schema's integer zeros for these fields are `0.0`.
- The file size and creation date are never filled in by the generator, and they stay at the schema's `0` and `""`.
