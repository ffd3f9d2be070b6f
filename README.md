# Nexus PDF Intelligence — a verified model of its core

Nexus PDF Intelligence is a single-page web application (`app.py`) that takes an
uploaded PDF and offers three workstreams: an executive summary built from
per-chunk abstractive summaries plus a list of "scope" keywords, ten
investigative questions about the document, and a page-range splitter. The
machine-learning models (a summarisation pipeline and a spaCy pipeline), the PDF
readers and the web UI are outside this model; what is modelled is the logic the
application itself contributes around them:

- **Export** — `clean_txt`, which makes the summary printable by the report's
  Latin-1 font: eight typographic characters get ASCII stand-ins, every other
  character outside ISO/IEC 8859-1 becomes `?`. The method runs the replacement
  loop over the ordered table and is proved equal to a per-character reference
  definition, about which idempotence, Latin-1 output and exact length are proved.
- **Keywords** — the ranking in `extract_scope_keywords`: nouns and proper nouns
  that are not stop words and are longer than four characters, ranked as
  `Counter(words).most_common(12)` ranks them (descending count, ties in order of
  first occurrence), upper-cased.
- **Session** — the session state (`st.session_state`) as a class: its initial
  values, the automatic reset when a file with a different name is uploaded,
  and the writes of the two actions.
- **Summary** — assembly of the summary from at most ten chunks, skipping chunks
  whose summarisation raises and numbering sections by chunk.
- **Sampling** — the five sampled pages (start, 25 %, 50 %, 75 %, end) whose text
  the question action feeds to spaCy.
- **Questions** — the subject pool (`list(dict.fromkeys(entities + concepts))`),
  the ten question templates, the fallback topics and the error message.

Shared modules: **Wrappers** (`Option`), **Seqs** (occurrence counts, first
occurrences, order-preserving deduplication) and **Text** (joining, decimal
numerals, prefixes, ASCII case mapping).

External models are parameters: the summariser is `summarize: string ->
Option<string>` (`None` where it raises), spaCy's tagger for the keywords is
`Option<string -> Option<seq<Token>>>` (outer `None`: the model failed to load;
inner `None`: the call raised), spaCy for the questions is `Option<string ->
Option<Analysis>>`, and page texts and text chunks are sequences of strings.

## Model

| member | source | states |
|---|---|---|
| Export.CleanTxt | app.py:58-61 | the replace loop over the eight-entry table in dict order, followed by the Latin-1 `replace` round trip, yields exactly the per-character reference `Cleaned(text)` |
| Export.CleanChar | app.py:59-61 | reference definition of what one character becomes: always Latin-1, three characters for the ellipsis and one otherwise |
| Export.Cleaned | app.py:58-61 | reference definition of the whole function, character by character: never shorter than its input |
| Export.Replace | app.py:60 | `text.replace(u, s)` for a one-character `u`: each occurrence of `u` is traded for `s`, so the length changes by `len(s) - 1` per occurrence |
| Export.Subst | app.py:59-60 | after the first k replacements a character is either still itself or has become an all-ASCII stand-in |
| Export.Latin1Replace | app.py:61 | `encode('latin-1','replace').decode('latin-1')` keeps the length of the text |
| Export.ReplaceStep | app.py:60 | one pass of `text.replace(u, s)` for table entry k takes the text from "first k entries applied" to "first k+1 entries applied" (stand-ins are ASCII, so later entries never rewrite them) |
| Export.EncodeAfterSubst | app.py:60-61 | after the whole table, the Latin-1 round trip gives the reference result |
| Export.CleanCharCases | app.py:59-61 | a Latin-1 character is kept, a table character gets its stand-in, any other character becomes one `?` |
| Export.CleanedIsLatin1 | app.py:58-61 | the output is entirely Latin-1 (printable by the core font) and is the input's length plus two per ellipsis |
| Export.CleanedConcat | app.py:58-61 | cleaning works character by character: it commutes with concatenation |
| Export.CleanedAt | app.py:58-61 | the image of input character i sits between the cleaned text before it and the cleaned text after it |
| Export.CleanedWithoutEllipsis | app.py:58-61 | without an ellipsis the output is aligned with the input position by position |
| Export.CleanedFixesLatin1 | app.py:61 | Latin-1 text is returned unchanged |
| Export.CleanedIdempotent | app.py:58-61 | cleaning already-cleaned text changes nothing |
| Seqs.Dedup | app.py:153 | `dict.fromkeys`: no repeats, and exactly the input's elements |
| Seqs.FirstIndex | app.py:55 | the position of the first occurrence (the `Counter` key order and tie-break) |
| Seqs.DedupKeepsFirstOccurrenceOrder | app.py:153 | deduplication lists the elements in order of first occurrence |
| Seqs.FirstIndexOfPrefix | app.py:153 | an element of the first part of a concatenation has its first occurrence there |
| Text.Join | app.py:113 | `"\n\n".join`: no parts give the empty string, one part gives itself |
| Text.JoinEmptyIff | app.py:113 | joining non-empty parts gives the empty string exactly when there are no parts |
| Text.Decimal | app.py:110 | the section and question numbers in f-strings are decimal numerals: non-empty, all digits, no leading zero |
| Text.DecimalRoundTrip | app.py:110 | reading a numeral back gives the number |
| Text.DecimalInjective | app.py:110 | distinct numbers have distinct numerals, so section labels identify their chunk |
| Text.Prefix | app.py:53 | `text[:n]`: a prefix of the text of length `min(len, n)` |
| Text.Lower | app.py:53 | ASCII `.lower()`: keeps the length and leaves no ASCII upper-case letter |
| Text.Upper | app.py:55 | ASCII `.upper()`: keeps the length and leaves no ASCII lower-case letter |
| Text.UpperInjectiveOnLower | app.py:55 | ASCII upper-casing of texts without ASCII upper-case letters never merges two different texts |
| Keywords.Candidates | app.py:54 | the candidate words are exactly the texts of the non-stop NOUN/PROPN tokens longer than four characters; a single token gives its text exactly when it is a candidate |
| Keywords.CandidatesConcat | app.py:54 | the comprehension is an order-preserving filter: the candidates of concatenated token lists are the concatenated candidates, so each candidate token contributes one occurrence, in token order |
| Keywords.Insert | app.py:55 | stable insertion adds one occurrence of the word and keeps every other element (as a multiset) |
| Keywords.SortByCount | app.py:55 | the stable sort by descending count is a permutation of its input (same multiset) |
| Keywords.InsertRanked | app.py:55 | inserting a word first seen after every listed word keeps `most_common` order |
| Keywords.SortByCountRanked | app.py:55 | sorting the distinct words in first-seen order yields `most_common` order: descending count, ties by first occurrence |
| Keywords.MostCommon | app.py:55 | `[w for w, count in Counter(words).most_common(n)]`: at most `n` words, each from the input |
| Keywords.MostCommonLeftOut | app.py:55 | of a ranked candidate list, every word `most_common(n)` leaves out ranks after every word it keeps |
| Keywords.MostCommonSpec | app.py:55 | `most_common(n)` returns `min(n, distinct)` distinct words from the input, ranked, and every word left out ranks after every word returned |
| Keywords.Uppercased | app.py:55 | the list comprehension upper-cases every keyword and keeps their number |
| Keywords.KeywordsFromTokens | app.py:54-55 | the keywords of a token list: never more than twelve |
| Keywords.KeywordsFromTokensSpec | app.py:54-55 | the keywords are the `most_common(12)` candidate words upper-cased in place: `min(12, distinct)` of them, ranked by descending count with ties by first occurrence, every left-out candidate ranking after every kept one; each is the upper-cased text of a candidate token, without repeats when the token texts have no ASCII upper-case letters |
| Keywords.ExtractScopeKeywords | app.py:50-56 | no keywords when spaCy is not loaded or raises on the lower-cased first 25000 characters; otherwise the keywords of its tokens as `KeywordsFromTokensSpec` ranks them; never more than twelve |
| Session.SessionState.constructor | app.py:15-18 | all three caches start empty and no file has been seen |
| Session.SessionState.OnUpload | app.py:78-84 | a file name other than the recorded one empties all caches, records the name and reruns; the same name changes nothing; no cache is ever held without a file |
| Session.SessionState.StoreAnalysis | app.py:113-114 | the summary action overwrites the summary and keyword caches and nothing else |
| Session.SessionState.StoreQuestions | app.py:156-174 | the question action overwrites the question cache and nothing else |
| Session.SessionState.RunSummaryAction | app.py:98-114 | the summary cache receives the blank-line join of the sections of the first ten chunks and the keyword cache the scope keywords of the space-joined page texts, at most twelve; the question cache and the file name are untouched |
| Session.SessionState.RunQuestionAction | app.py:136-174 | the question cache receives what the program stores, `Questions.QuestionCacheAsWritten` (the error message for a document without pages), which on every document with pages is what `Questions.QuestionCache` describes; the other caches are untouched |
| Summary.Limit | app.py:106 | `min(len(chunks), 10)` |
| Summary.SectionLabel | app.py:110 | `f"**Section {i+1}:** {s}"`: longer than the chunk summary, which it ends with |
| Summary.SectionsUpTo | app.py:105-111 | the sections of the first `k` chunks; every one is non-empty (it carries its label) |
| Summary.SectionsSpec | app.py:105-111 | the sections are exactly the chunks among the first ten whose summarisation succeeded, in chunk order, each labelled with its own 1-based chunk number |
| Summary.SectionsEmptyIff | app.py:105-111 | there are no sections exactly when every attempted chunk failed |
| Summary.AssembleSummary | app.py:105-113 | the loop hands the first `min(len, 10)` chunks to the model in order and returns the blank-line join of the sections; the summary is empty exactly when every call failed |
| Sampling.Intervals | app.py:141 | `[0, N//4, N//2, (3*N)//4, N-1]`: five points, all inside a document with pages, the last one -1 for a document without pages |
| Sampling.IntervalsSpec | app.py:141 | for a document with pages, five sample points from the first page to the last, non-decreasing, all inside the document |
| Sampling.PyIndex | app.py:145 | Python list indexing raises exactly outside `-len..len-1` |
| Sampling.SampleAsWritten | app.py:143-146 | reference for the loop as written: a page read raises (`None`) exactly when some sample point is below `-len(pages)` |
| Sampling.SampleEmptyIff | app.py:143-146 | with the intended guard the sample is empty exactly when every sample point inside the document lands on an empty page |
| Sampling.SampleTextAsWritten | app.py:141-146 | the sampling loop as written equals its reference `SampleAsWritten` (`None` when a page read raises) |
| Sampling.NoneAbsorbs | app.py:138-146 | once a page read has raised, the rest of the loop does not run |
| Sampling.SampleText | app.py:141-146 | the sampling loop with the guard `0 <= pg_num < total_pages` equals its reference `Sample` |
| Sampling.AsWrittenAgrees | app.py:144 | with non-negative sample points the written guard and the intended guard produce the same text |
| Sampling.AsWrittenAgreesWithPages | app.py:141-146 | for every document with pages the loop as written never raises and produces the intended sample |
| Sampling.AsWrittenFailsWithoutPages | app.py:141-145 | for a document without pages the written guard lets index -1 through and the read raises, where the intended loop yields the empty sample |
| Sampling.SampleEmptyDocument | app.py:144 | with the intended guard a document without pages contributes nothing |
| Sampling.SampleConcat | app.py:143-146 | the sample of concatenated index lists is the concatenation of their samples |
| Sampling.SampleOne | app.py:144-146 | one index contributes its page's text and a space, nothing for an empty page or an index outside the document |
| Sampling.SampleOfDocument | app.py:141-146 | the sample is the five sampled pages' texts in order, each followed by a space, empty pages skipped, repeats kept |
| Sampling.SampleOfOnePage | app.py:141-146 | a one-page document's text appears five times |
| Questions.LongerThan | app.py:149-150 | the length filters keep exactly the texts longer than the bound; a single text is kept exactly when it is long enough |
| Questions.LongerThanConcat | app.py:149-150 | the length filters keep order and multiplicity: filtering concatenated lists is concatenating the filtered lists |
| Questions.Pool | app.py:149-153 | the subject pool has no repeats and is no longer than the entities and noun chunks together |
| Questions.PoolMembers | app.py:149-153 | the pool holds exactly the entities longer than three characters and the noun chunks longer than five |
| Questions.PoolOrder | app.py:153 | the pool has no repeats and lists subjects in order of first occurrence in entities followed by noun chunks |
| Questions.PoolEntitiesFirst | app.py:149-153 | every long entity precedes every pool entry that is only a noun chunk |
| Questions.Item | app.py:157-171 | `f"{k}. {text}"`: starts with the number, a dot and a space, and ends with the question text |
| Questions.Numbering | app.py:157-171 | one numbered question per text |
| Questions.TemplateTexts | app.py:156-167 | ten template questions for a pool of at least ten subjects |
| Questions.FallbackTexts | app.py:170-171 | ten fallback questions, one per topic |
| Questions.MentionsMiddle | app.py:156-171 | a subject placed in a question is mentioned by it |
| Questions.MentionsInItem | app.py:156-171 | numbering a question keeps what it mentions |
| Questions.NumberingNumbered | app.py:157-171 | question k starts with `k. ` |
| Questions.QuestionsFor | app.py:155-171 | on either branch exactly ten questions, numbered 1 to 10 in order |
| Questions.TemplateSubjects | app.py:155-167 | with at least ten subjects, questions 1-9 mention subjects 1-10 (question 6 mentions two) and question 10 mentions subject 3 again |
| Questions.FallbackIgnoresPool | app.py:168-171 | with fewer than ten subjects the questions do not depend on the pool and question k mentions topic k |
| Questions.Outcome | app.py:148-174 | after spaCy has run, the error message exactly when it raised, otherwise the questions for the pool of its analysis |
| Questions.QuestionCache | app.py:138-174 | with the intended sampling guard (see Findings): the action stores the single error message exactly when spaCy is missing or raises, and otherwise the ten questions for the pool of its analysis |
| Questions.QuestionCacheAsWritten | app.py:138-174 | with the sampling guard as written: the error message exactly when the document has no pages or spaCy is missing or raises; on every document with pages the same as `QuestionCache` |

## Left out

- The Streamlit UI (layout, styling, buttons, spinners, the sidebar list of the first five keywords, `st.rerun`) is not modelled; `OnUpload` returns the rerun decision instead.
- Loading the summarisation and spaCy models (app.py:38-48) and running them are not modelled: their results are parameters, and a raised exception is `None`.
- Summarisation parameters (`max_length`, `min_length`, `truncation`) are not modelled; they are inside the summariser parameter.
- The text splitter (`RecursiveCharacterTextSplitter`, app.py:102-103) is not modelled; the chunks are an input to `AssembleSummary`.
- PDF reading and writing are I/O and are not modelled. This covers the full-text extraction (app.py:99-100), the page count (app.py:87-91), the FPDF report (app.py:126-131) and the page-range splitter (app.py:180-188). Page texts are an input, and `extract_text()` returning `None` is modelled as the empty string, which the loop skips in the same way.
- Sampling.SampleText: assumes pdfplumber and pypdf report the same number of pages, because both page lists come from the same file.
- Keywords.ExtractScopeKeywords: `.lower()` and `.upper()` are modelled for ASCII letters only, because Python's full Unicode case mapping (including characters whose case changes the length) has no counterpart here.
- Text.Lower: ASCII letters only; Python's `.lower()` also maps other letters and can change the length (`'İ'.lower()` has two characters), which is not modelled.
- Text.Upper: ASCII letters only; Python's `.upper()` also maps other letters and can change the length (`'ß'.upper() == 'SS'`), which is not modelled.
- Text.UpperInjectiveOnLower: holds for ASCII upper-casing only; Python's `.upper()` merges some distinct lower-case texts (`"straße"` and `"strasse"`).
- Questions.QuestionCache: uses the intended sampling guard (see Findings), so a document without pages gets the fallback questions there; as written that document stores the error message, which `Questions.QuestionCacheAsWritten` models. The session's question action stores `QuestionCacheAsWritten`, which agrees with `QuestionCache` on every document with pages.
- Keywords.KeywordsFromTokensSpec: keywords are proved free of repeats only when the token texts have no ASCII upper-case letters. The model does not tie spaCy's token texts to the lower-cased input.
- Export.CleanTxt: a Python `str` can hold lone surrogates, which Dafny `char` cannot. They would become `?` and are not modelled.
- The summary action's outer `except` (app.py:116-117) leaves the caches unchanged. It is covered by the caller not calling `StoreAnalysis`, not by a separate member.
- `app.py` has no extractive summariser; the per-chunk abstractive loop (app.py:105-113) is what is modelled.

## Findings

| source | as written | input that shows it | evidently intended | confidence | as-written member | corrected member |
|---|---|---|---|---|---|---|
| app.py:141-145 | the guard `if pg_num < total_pages` admits the fifth sample point `total_pages - 1`, which is -1 for a document whose page count is 0; `pdf.pages[-1]` then raises `IndexError`, so the question action stores the error message instead of the ten fallback questions | a PDF with zero pages (`total_pages == 0`, sample points `[0, 0, 0, 0, -1]`) | skip sample points outside `0 <= pg_num < total_pages`, giving the empty sample and then the fallback questions | not executed | Sampling.AsWrittenFailsWithoutPages | Sampling.SampleText |
