# Clinical notes: ingestion, field extraction and the query API, in Dafny

This project models the data path of IntraIntel's clinical-notes service:

- **Ingestion** (`Task3/ingest.py`). Each note of the loaded JSON list whose stripped text is not empty becomes one document. The document's text is the stripped note. Its metadata holds:
  - the patient id, name and age, as strings;
  - the diagnosis, treatment and follow-up, each found by `extract_field`'s three regular expressions;
  - the note itself, as `full_note`.
- **The query API** (`Task3/main.py`):
  - `find_by_diagnosis`, `most_common_treatment` and `debug_patients` scan every stored record and keep the first qualifying record of each patient.
  - `extract_diagnosis_from_query` pulls a diagnosis out of a question, with three regular expressions and then a list of medical terms.
  - `/query` routes a question to the diagnosis search, the treatment summary or the similarity search.
  - `/which_patients` refuses an empty diagnosis.
- **Text clean-up** (`Task1/services/text_processor.py`). `clean_text` normalises whitespace. The tail of `extract_keywords` removes a Markdown fence from the language model's answer and keeps at most 20 keywords.

The project is organised in modules:

| module | contents |
|---|---|
| `Wrappers` | `Option` and `Result` |
| `Text` | the Python `str` operations used: `isspace`, `lower`, `in`, `strip`, `find`, `rfind` |
| `Store` | a stored record and its metadata |
| `PatientScans` | the three scans |
| `QueryExtraction` | `extract_diagnosis_from_query` |
| `Api` | `/query` and `/which_patients` |
| `FieldExtraction` | `extract_field` |
| `Ingest` | the conversion loop of `ingest` |
| `TextProcessor` | `clean_text` and `extract_keywords` |

**The scans are methods with the source's loops.** Each loop keeps the `seen` set. Its contract ties the result to one specification, `FirstPerPatient`, which lists the indices of the records that:

- have metadata,
- pass the scan's test,
- and whose patient id occurs on no earlier such record.

The lemmas state what that specification guarantees.

**The regular expressions are modelled as Python's backtracking engine runs them:**

- the leftmost start wins;
- a lazy group grows one character at a time;
- a greedy `\s` run gives characters back one at a time;
- alternatives are tried in order.

The lemmas state the resulting "first that works" properties.

**A whitespace-only diagnosis matches every record.** `/which_patients` refuses only the empty string. A diagnosis of only spaces passes that guard, normalises to "", and "" occurs in every text, so every patient with metadata is listed. `PatientScans.BlankDiagnosisMatchesEveryone` proves this.

## Model

| member | source | states |
|---|---|---|
| Text.ContainsIff | Task3/main.py:44-45 | Python's `needle in hay` holds exactly when `needle` occurs at some index of `hay` |
| Text.Strip | Task3/main.py:25 | `strip()` gives the slice of the text after its leading whitespace, with no whitespace at either end and only whitespace cut from the end |
| Text.StripEmptyIff | Task3/ingest.py:56-57 | `strip()` leaves nothing exactly when the text is all whitespace |
| Text.LowerStripCommute | Task3/main.py:133 | `lower()` and `strip()` commute |
| Text.IndexOf | Task1/services/text_processor.py:35 | the position of the first newline, if any; none exactly when the text holds no newline |
| Text.RFind | Task1/services/text_processor.py:35 | the last index where the fence occurs, or none when it occurs nowhere |
| PatientScans.FirstUpTo | Task3/main.py:28-37 | the kept indices are increasing, each record kept has metadata, passes the test and has a patient id no earlier eligible record has, and every such record is kept |
| PatientScans.IsFirstBySeen | Task3/main.py:35-37 | the loop's `patient_id in seen_patients` test is exactly "an earlier eligible record has this patient id" |
| PatientScans.ScanStep | Task3/main.py:31-51 | one loop step: `seen` gains the record's id exactly when it is eligible, and the record is kept exactly when it is eligible and its id was not yet seen |
| PatientScans.FirstPerPatientDistinct | Task3/main.py:36-51 | no two kept records share a patient id |
| PatientScans.FirstPerPatientCovers | Task3/main.py:68-76 | every patient with an eligible record has a kept record at or before it |
| PatientScans.IsMatch | Task3/main.py:39-48 | the match test: the search term occurs in the lower-cased stored diagnosis or in the lower-cased `full_note` (the chunk's text when `full_note` is absent), or it is "headache" or "diabetes" and one of that term's variants occurs in the note; its consequences are stated by `DiagnosisMatchesFacts` and `BlankDiagnosisMatchesEveryone` |
| PatientScans.FindByDiagnosis | Task3/main.py:23-60 | the matches are, in scan order, the entries of the first matching record with metadata of every patient |
| PatientScans.DiagnosisMatchesFacts | Task3/main.py:31-58 | each match comes from a record with metadata that passes the match test for `lower(strip(diagnosis))`, and no patient id is listed twice |
| PatientScans.NormalizeIgnoresCaseAndSpace | Task3/main.py:25 | two diagnoses with the same `lower(strip(...))` are searched for in the same form and give the same match list |
| PatientScans.BlankDiagnosisMatchesEveryone | Task3/main.py:25-45 | a non-empty all-whitespace diagnosis normalises to "", matches every record with metadata, and lists every such patient |
| PatientScans.MostFrequentFrom | Task3/main.py:81 | the reported treatment is one of the collected ones and none occurs more often |
| PatientScans.MostCommonTreatment | Task3/main.py:62-86 | the error exactly when no treatment is collected; otherwise a collected treatment of maximal count, that count as frequency, and the number collected as `total_analyzed` |
| PatientScans.CollectedTreatmentsFacts | Task3/main.py:68-79 | every collected treatment is non-empty, there are at most as many as records, and none are collected exactly when no record with metadata has a treatment |
| PatientScans.DebugPatients | Task3/main.py:158-177 | the listing is, in scan order, the entry of each patient's first record with metadata and a non-empty id, and `total_patients` is its length |
| PatientScans.DebugEntries | Task3/main.py:165-177 | the specification of the listing: the entry (id, name, diagnosis, treatment) of each patient's first record with metadata and a non-empty id, in scan order; its properties are the two lemmas below |
| PatientScans.DebugEntriesDistinct | Task3/main.py:169-175 | for every store, the listing never holds the empty id and names each patient once |
| PatientScans.DebugEntriesCover | Task3/main.py:165-175 | the listing misses no patient with metadata and a non-empty id |
| QueryExtraction.GroupEndFacts | Task3/main.py:94-96 | the greedy `[^?]+` runs over non-'?' characters up to the first '?' or the end |
| QueryExtraction.GroupStartIsLargest | Task3/main.py:94-96 | `\s+([^?]+)` starts the group at the largest split of the whitespace run that lets the group match, and fails when there is none |
| QueryExtraction.VerbMatchIsFirst | Task3/main.py:94-96 | the verb alternation is tried in order: the first verb after which the pattern completes decides the group, and no such verb means no match there |
| QueryExtraction.LazyVerbAtIsFirst | Task3/main.py:94-96 | the lazy `.*?` stops at the first position where the rest matches, never crosses a newline, and fails when no position before a newline works |
| QueryExtraction.SearchFromIsLeftmost | Task3/main.py:100 | `re.search` reports the match at the leftmost start, and fails only when no start matches |
| QueryExtraction.Captured | Task3/main.py:100-102 | the captured group holds no '?' and only characters of the question |
| QueryExtraction.CapturedIsLeftmost | Task3/main.py:100-102 | the group is taken at the leftmost match and runs to the first '?' after its start |
| QueryExtraction.ArticleAtIsFirst | Task3/main.py:102 | the article pattern matches a word that stands whole at that position, the first such word in the order the, a, an |
| QueryExtraction.ArticleAtIsWord | Task3/main.py:102 | what the article pattern matches is one of the words |
| QueryExtraction.RemoveArticlesKeepsNonWords | Task3/main.py:102 | removing the articles deletes word characters only: every other character stays, in order |
| QueryExtraction.RemoveWordsKeepsNonWords | Task3/main.py:102 | the substitution of whole words made of word characters keeps every non-word character, in order |
| QueryExtraction.RemoveWordsKeepsChars | Task3/main.py:102 | every character of the substituted text comes from the original |
| QueryExtraction.RemoveArticles | Task3/main.py:102 | the article substitution as Python scans it: at each position the article pattern is tried, a match is deleted and the scan goes on after it, otherwise the character is kept; its properties are the lemmas below |
| QueryExtraction.RemoveArticlesLeavesNone | Task3/main.py:102 | the article pattern matches nowhere in the result of the substitution: no article is left standing as a whole word |
| QueryExtraction.RemoveArticlesSplit | Task3/main.py:102 | the substitution splits at any character that is no word character: `RemoveArticles(a + [c] + b) == RemoveArticles(a) + [c] + RemoveArticles(b)` |
| QueryExtraction.RemoveArticlesOfRun | Task3/main.py:102 | a run of word characters is deleted when it is "the", "a" or "an" and kept whole otherwise; with `RemoveArticlesSplit` this fixes the result on every text |
| QueryExtraction.RemoveWordsLeavesNone | Task3/main.py:102 | the substitution of whole words leaves none of them standing whole, because every deleted span is a whole run of word characters |
| QueryExtraction.NoWordUnchanged | Task3/main.py:102 | a text in which no article stands whole is left unchanged |
| QueryExtraction.CleanGroup | Task3/main.py:102 | `re.sub(article pattern, '', g.strip()).strip()` for a captured group `g`; its properties are the lemmas below |
| QueryExtraction.CleanGroupLeavesNone | Task3/main.py:102 | the article pattern matches nowhere in the cleaned group |
| QueryExtraction.CleanGroupKeepsChars | Task3/main.py:102 | every character of the cleaned group comes from the group |
| QueryExtraction.CleanGroupWithoutArticles | Task3/main.py:102 | a group in which the article pattern matches nowhere is only stripped: `CleanGroup(g) == Strip(g)` |
| QueryExtraction.CleanGroupDropsArticle | Task3/main.py:102 | an article, a space and a word that is no article clean to that word ("the flu" becomes "flu") |
| QueryExtraction.CleanGroupSettled | Task3/main.py:102 | a lower-case group without '?' cleans up to a diagnosis with no whitespace at either end |
| QueryExtraction.FirstCaptureIsFirst | Task3/main.py:99-102 | the patterns are tried in order and the first that matches gives the group; no group means no pattern matched |
| QueryExtraction.FirstTermIn | Task3/main.py:109-112 | the fallback loop over the medical terms; its properties are `FirstTermInIsFirst` and `FirstTermInEmpty` |
| QueryExtraction.FirstTermInIsFirst | Task3/main.py:109-112 | the fallback returns the first term the question contains, or "" when it contains none |
| QueryExtraction.FirstTermInEmpty | Task3/main.py:109-112 | with no empty term, the fallback gives "" exactly when the question contains no term |
| QueryExtraction.MedicalTermsSettled | Task3/main.py:105-107 | each fallback term is non-empty, lower case and has no whitespace at either end |
| QueryExtraction.ExtractDiagnosis | Task3/main.py:88-112 | `extract_diagnosis_from_query`: the cleaned group of the first pattern that matches the lower-cased question, or else the first medical term it contains, or ""; its properties are the three lemmas below |
| QueryExtraction.ExtractDiagnosisSettled | Task3/main.py:88-112 | every diagnosis extracted is lower case, holds no '?' and has no whitespace at either end |
| QueryExtraction.ExtractDiagnosisCascade | Task3/main.py:88-112 | the first matching pattern decides the answer even when its cleaned group is empty; only when none matches does the first contained medical term answer |
| QueryExtraction.ExtractDiagnosisEmpty | Task3/main.py:88-112 | the result is "" exactly when the first matching pattern's group cleans to nothing, or when no pattern matches and no medical term occurs |
| Api.Classify | Task3/main.py:136-148 | the branch for the normalised question: a diagnosis phrase wins, then "most" together with "treatment", then the similarity search |
| Api.DiagnosisAnswer | Task3/main.py:136-141 | the diagnosis branch: the guidance error when the extraction is empty, otherwise the extracted diagnosis with its matches and their count (stated by `DiagnosisAnswerFacts`) |
| Api.Query | Task3/main.py:130-156 | the branch is decided on `lower(strip(q))`: a diagnosis phrase gives the diagnosis answer (matches for the extracted diagnosis, or the guidance error); otherwise "most" and "treatment" give a correct treatment summary; otherwise the search results, at most k = 3 of them, or the failure message when the search raised |
| Api.NormalizeSettled | Task3/main.py:25 | an extracted diagnosis is unchanged by `find_by_diagnosis`'s own `lower().strip()` |
| Api.DiagnosisAnswerFacts | Task3/main.py:136-141 | the guidance error exactly when the extraction is empty; otherwise a settled diagnosis, its matches, and their count |
| Api.WhichPatients | Task3/main.py:119-124 | status 400 with "Provide ?diagnosis=..." exactly when the diagnosis is empty; otherwise the diagnosis as given, its matches and their count |
| FieldExtraction.LazyEndIsFirstStop | Task3/ingest.py:17-21 | the lazy group ends at the first place where the rest of the pattern matches, having grown only over characters it may hold, and fails when there is none |
| FieldExtraction.GreedyTakesMost | Task3/ingest.py:17-21 | `\s*` gives back whitespace one character at a time: the group starts after the largest count for which the rest matches |
| FieldExtraction.MatchAtSpaces | Task3/ingest.py:17-21 | at a match, `\s*` has consumed only whitespace after the label |
| FieldExtraction.MatchAtGroup | Task3/ingest.py:17-21 | at a match, the group holds only characters it may hold (no '.' in the third pattern) and ends at the first index where the rest matches |
| FieldExtraction.MatchAtGreedy | Task3/ingest.py:17-21 | starting the group after more of the whitespace run, the rest of the pattern matches at no end the group can reach over characters it may hold |
| FieldExtraction.LeftmostIsFirst | Task3/ingest.py:25 | scanning the start indices in turn reports the first that matches |
| FieldExtraction.SearchIsLeftmost | Task3/ingest.py:25 | `re.search` reports the match at the leftmost start, and fails only when the pattern matches at no start |
| FieldExtraction.GroupContent | Task3/ingest.py:27 | `match.group(1).strip().rstrip('.')`; its shape is stated by `TrimmedShape` and `GroupContentShape` |
| FieldExtraction.TrimmedShape | Task3/ingest.py:27 | `strip().rstrip('.')` leaves "" or a piece of the group that starts without whitespace and does not end with '.' |
| FieldExtraction.GroupContentShape | Task3/ingest.py:27 | the content of a group is "" or a substring of the text that starts without whitespace and does not end with '.' |
| FieldExtraction.FirstContentIsFirst | Task3/ingest.py:24-31 | patterns are tried in order; empty content does not stop the search; the result is the first other content, or "" |
| FieldExtraction.ExtractField | Task3/ingest.py:12-31 | `extract_field`: the three patterns tried in order, each searched case-insensitively with `.` crossing newlines; its properties are the lemmas below |
| FieldExtraction.ExtractFieldFirstNonEmpty | Task3/ingest.py:24-31 | `extract_field` returns the content of the first of its three patterns whose content is not empty, and "" exactly when there is none |
| FieldExtraction.PatternContentShape | Task3/ingest.py:25-27 | what each pattern contributes is "" or a substring of the text that starts without whitespace and does not end with '.' |
| FieldExtraction.ExtractFieldShape | Task3/ingest.py:12-31 | `extract_field` returns "" or a substring of the note that starts without whitespace and does not end with '.' |
| FieldExtraction.NoLabelNoField | Task3/ingest.py:15-31 | when `<field>:` occurs nowhere in the note, ignoring case, the field is "" |
| Ingest.AgeString | Task3/ingest.py:67 | `str(note.get("age", ""))`: "" for a missing age, "None" for null, the decimal form of an integer, a string as it is; the decimal form is stated by `Digits` and `DecimalRoundTrip` |
| Ingest.Digits | Task3/ingest.py:67 | `str(n)` of a natural number is non-empty, made of digits, and has a leading zero only for 0 |
| Ingest.DigitsRoundTrip | Task3/ingest.py:67 | reading back the digits of `str(n)` gives `n` |
| Ingest.DecimalRoundTrip | Task3/ingest.py:67 | `str(n)` of any integer reads back as `n`, with a '-' sign for a negative one |
| Ingest.KeptUpToSound | Task3/ingest.py:55-58 | every kept note is not blank, and no more notes are kept than there are |
| Ingest.KeptUpToComplete | Task3/ingest.py:55-58 | every note that is not blank is kept |
| Ingest.KeptUpToIncreasing | Task3/ingest.py:55-75 | the kept notes are in list order |
| Ingest.ConvertedIsProject | Task3/ingest.py:54-75 | the documents built note by note are the documents of the kept notes, in order |
| Ingest.BlankIffEmpty | Task3/ingest.py:56-58 | `if not content: continue` skips exactly the notes that are missing or all whitespace |
| Ingest.ConvertNotes | Task3/ingest.py:54-75 | one document per note that is not blank, built from that note, in the order of the notes |
| Ingest.MakeDocument | Task3/ingest.py:60-75 | the document built from the three extracted fields has the stripped note as its text and as `full_note`; its stored diagnosis is lower case and, when not empty, occurs in the lower-cased note; its treatment and follow-up are "" or pieces of the note that start without whitespace and do not end with '.' |
| Ingest.NoteBodyShape | Task3/ingest.py:56 | the text of a kept note is non-empty, has no whitespace at either end, and occurs in the raw note |
| Ingest.NoteMetadata | Task3/ingest.py:64-73 | the metadata dictionary of a note's document; its entries are stated by `MetadataFacts` |
| Ingest.MetadataFacts | Task3/ingest.py:64-73 | the metadata keep the stripped note as `full_note`, the given id and name or "" when missing, the age as a string, the lower-cased diagnosis or "", and the treatment and follow-up; the scans see the record as having metadata with that id |
| Ingest.DiagnosisStored | Task3/ingest.py:60-68 | the stored diagnosis is lower case and, when not empty, occurs in the lower-cased note |
| Ingest.ConvertedNotes | Task3/ingest.py:55-58 | a note is kept exactly when it is not blank, and it is blank exactly when its stripped text is empty |
| TextProcessor.CleanText | Task1/services/text_processor.py:11-16 | `clean_text`: "" for "", otherwise the stripped text with each whitespace run replaced by one space; its properties are the lemmas below |
| TextProcessor.CollapseSpaces | Task1/services/text_processor.py:15 | `re.sub(r'\s+', ' ', s)`: each maximal whitespace run becomes one space; its properties are the `Collapse` lemmas |
| TextProcessor.CollapseSingleSpaced | Task1/services/text_processor.py:15 | after `re.sub(r'\s+', ' ', ...)` every whitespace character is a plain space and no two are adjacent |
| TextProcessor.CollapseEnds | Task1/services/text_processor.py:15 | collapsing leaves the text empty only when it was empty, and keeps whether it starts or ends with whitespace |
| TextProcessor.CollapseLast | Task1/services/text_processor.py:15 | collapsing a non-empty text ends it with whitespace exactly when the text ended with whitespace |
| TextProcessor.CollapseKeepsText | Task1/services/text_processor.py:15 | collapsing keeps every non-whitespace character, in order |
| TextProcessor.CollapseFixesSingleSpaced | Task1/services/text_processor.py:15 | a single-spaced text is left unchanged by collapsing |
| TextProcessor.CollapseSplit | Task1/services/text_processor.py:15 | a maximal whitespace run between two stretches becomes one space and each side is collapsed on its own: `CollapseSpaces(a + w + b) == CollapseSpaces(a) + " " + CollapseSpaces(b)` |
| TextProcessor.CleanTextSplit | Task1/services/text_processor.py:11-16 | when the stripped text is `a + w + b` with `w` a maximal whitespace run, `clean_text` gives `CollapseSpaces(a) + " " + CollapseSpaces(b)` |
| TextProcessor.CleanTextShape | Task1/services/text_processor.py:11-16 | `clean_text` maps "" to ""; its result has no whitespace at either end, every whitespace character is a single plain space |
| TextProcessor.CleanTextKeepsText | Task1/services/text_processor.py:11-16 | `clean_text` keeps every non-whitespace character, in order |
| TextProcessor.CleanTextIdempotent | Task1/services/text_processor.py:11-16 | `clean_text(clean_text(x)) == clean_text(x)` |
| TextProcessor.UnfencedAnswerKept | Task1/services/text_processor.py:34 | an answer that does not start with a fence is evaluated as it is |
| TextProcessor.BeforeLast | Task1/services/text_processor.py:35 | `rsplit(sep, 1)[0]`: the text before the last `sep`, or all of it when `sep` does not occur (stated by `BeforeLastOfSuffix`) |
| TextProcessor.StripFence | Task1/services/text_processor.py:34-35 | the fence removal: an unfenced answer as it is, a fenced one cut after its first newline and before the last fence, then stripped; none for the IndexError (stated by `UnfencedAnswerKept`, `FencedAnswer`, `FencedAnswerWithoutNewlineRaises`) |
| TextProcessor.BeforeLastOfSuffix | Task1/services/text_processor.py:35 | `rsplit(sep, 1)[0]` keeps the text before the last `sep` |
| TextProcessor.FencedAnswer | Task1/services/text_processor.py:34-35 | a fenced answer becomes the stripped text between its first newline and the last fence after it |
| TextProcessor.FencedAnswerWithoutNewlineRaises | Task1/services/text_processor.py:35 | a fenced answer without a newline raises IndexError |
| TextProcessor.ExtractKeywords | Task1/services/text_processor.py:20-43 | the tail of `extract_keywords` with the model's answer and `eval` as parameters (stated by `ExtractKeywordsResult`) |
| TextProcessor.ExtractKeywordsResult | Task1/services/text_processor.py:20-43 | [] for empty text; at most 20 keywords; a prefix of the evaluated list: all of it when it has 20 or fewer, its first 20 items when it has more; [] when the answer is not a list; IndexError exactly for a fenced answer with no newline |

## Left out

- The vector index is not modelled: Chroma, the embeddings, the similarity ranking, and `add_documents`. A full scan is the sequence of records it returns. `Api.Query` receives the result of `similarity_search(q.q, k=3)` as a parameter, or `None` when it raised. It requires that result to hold at most k = 3 hits, as `similarity_search` promises. What that search returns for the raw question is not modelled.
- The text splitter between ingestion and the index is not modelled. Its chunks keep their note's metadata. A stored record is a chunk's text with those metadata. `find_by_diagnosis` falls back on the chunk's text only when `full_note` is missing, which never happens for a document built by `ingest`.
- File and JSON I/O is left out: the existence checks, `json.load`, the exits and messages of `ingest`, and the persistence step. The notes enter as a sequence of `RawNote`.
- A note's `note`, `patient_id` and `name` are taken to be strings when present. Other JSON types, on which `.strip()` raises or `str()` is not applied, are not modelled. An age is modelled as missing, null, an integer or a string. Every other JSON type of age (a floating-point number, a boolean, a list, an object), which `str()` also turns into a string, is not modelled.
- `lower()`, IGNORECASE and `\w` are modelled on ASCII only. Unicode case mappings and Unicode word characters are not modelled. Whitespace (`isspace`, `\s`, `strip()`) is CPython's full set.
- The language model call and Python's `eval` of its answer are parameters of `TextProcessor.ExtractKeywords`. The rest of `extract_keywords` before line 34 is the prompt and is not modelled.
- The root endpoint `/` and `/most_common_treatment`, which only returns `most_common_treatment()`, are not modelled separately.
- The `try`/`except` of `debug_patients` is not modelled: nothing in the modelled scan raises.
- In `debug_patients` the dictionary `patients` is held as its key set and its values in insertion order. The dictionary only ever gains absent keys, so these carry the same information.
- PatientScans.MostCommonTreatment: when several treatments share the maximal count, the contract leaves open which is reported. The method returns the first in collection order, which is what `Counter.most_common(1)` does.
- The endpoints' JSON shapes are datatypes. The `"intent"` tags of `/query` are the constructors of `QueryAnswer`.
