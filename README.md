# Text summarizer: the text pipeline around the models

The summarizer has two Python summarization modules, and both wrap machine-learning models in a small amount of deterministic text processing. This project models that text processing in Dafny and proves what it guarantees. The models themselves are not part of the model. They are passed in as function parameters: the transformers summarization pipeline, sumy's TextRank, NLTK's `sent_tokenize` and spaCy's sentence splitter.

`backend/summarizer.py` is the summarizer behind the Flask backend:

- `clean_text` deletes citation numbers like `[12]`, collapses each whitespace run to one space, deletes page markers like `Page 3 of 9`, deletes `http(s)://` links, and strips the result.
- `extract_key_sentences` keeps the `n` longest sentences, as ranked by `heapq.nlargest` on `(len(s), s)`.
- `abstractive_summarize` computes the `max_length`/`min_length` clamps. When the preselected text is longer than `MAX_CHARS` (3000), it packs sentences greedily into chunks, summarizes each chunk, and then summarizes the joined chunk summaries.

`summarizer.py` is the stand-alone variant:

- `clean_text` deletes only citation numbers.
- `decide_num_sentences` turns a word count into a sentence count for TextRank.
- `summarize` sends texts under 200 words straight to the sampling model, and longer ones through TextRank first.
- `fix_spacing` pulls `.`, `,`, `!` and `?` back onto the word before them.

Modules:

- `Text` (`text.dfy`): Python's whitespace class (`str.isspace`, which `\s`, `split()` and `strip()` share), `strip()`, `split()`, `" ".join`, and subsequences.
- `Regex` (`regex.dfy`): each `re.sub` of the cleaners, as a left-to-right scan. The scan deletes every leftmost, non-overlapping, greedy match. It also holds the whitespace collapse.
- `KeySentences` (`key_sentences.dfy`): Python's string and tuple order, the descending sort, and the `n` largest.
- `Chunking` (`chunking.dfy`): the chunk-packing loop of `abstractive_summarize`. It is an imperative method, proved against the specification function `Pack`.
- `BackendSummarizer` (`backend_summarizer.dfy`) and `Summarizer` (`summarizer.dfy`): the two modules' operations and the properties about them.

## Model

| member | source | states |
|---|---|---|
| Text.Strip | backend/summarizer.py:36 | `strip()` splits the text into leading whitespace, the result, and trailing whitespace. The result has no whitespace at either edge. It is empty exactly when the text is all whitespace. |
| Text.StripKeeps | backend/summarizer.py:36 | Text with no whitespace at either edge is its own `strip()`. |
| Text.StripKeepsPlainSpaces | backend/summarizer.py:36 | `strip()` brings in no whitespace other than `' '`. |
| Text.Words | summarizer.py:33 | Defines `split()` with no argument: drop leading whitespace, take the maximal non-whitespace run as the next word, and repeat on the rest. |
| Text.WordsShape | summarizer.py:33 | `split()` yields nonempty words that hold no whitespace. |
| Text.WordsSplit | summarizer.py:33 | `split()` breaks the text at every whitespace run and nowhere else: the words of `a + w + b`, for a nonempty whitespace run `w`, are the words of `a` followed by the words of `b`. |
| Text.WordsOfSpace | summarizer.py:33 | Text made only of whitespace has no words. |
| Text.WordsOfWord | summarizer.py:33 | A nonempty run without whitespace is exactly one word. With `WordsSplit` this fixes every word, and so the word count that `summarize` and `decide_num_sentences` rely on. |
| Text.WordsKeepVisible | summarizer.py:33 | The words of `split()`, put back together, are exactly the non-whitespace characters of the text, in order. |
| Text.Join | backend/summarizer.py:42 | Defines `sep.join(parts)`: the parts in order with `sep` between neighbours. `WordsOfJoin` is its partner. |
| Text.WordsOfJoin | summarizer.py:33 | `split()` undoes `" ".join(...)` on words: joining nonempty whitespace-free words with single spaces and splitting the result gives the same words back. |
| Regex.CitationLen | backend/summarizer.py:32 | A match of `\[\d+\]` at the front covers exactly a bracketed digit run. |
| Regex.CitationMatches | backend/summarizer.py:32 | Every citation at the front is matched in full, whatever follows it. |
| Regex.PageMarkerLen | backend/summarizer.py:34 | A match of `Page \d+ of \d+` at the front is a page marker. The second number is taken greedily, so no digit follows the match. |
| Regex.PageMarkerMatches | backend/summarizer.py:34 | Every page marker not followed by a further digit is matched in full. |
| Regex.UrlLen | backend/summarizer.py:35 | A match of `https?://\S+` at the front is a link and runs up to the next whitespace or the end. |
| Regex.UrlMatches | backend/summarizer.py:35 | Every link followed by whitespace or the end is matched in full. |
| Regex.UrlDeleted | backend/summarizer.py:35 | A link is deleted together with its run of non-whitespace, and the scan resumes right after it. |
| Regex.UrlFreeKept | backend/summarizer.py:35 | Text without an `h` passes the link substitution unchanged. |
| Regex.UrlPassLeavesNoUrl | backend/summarizer.py:35 | After the link pass no link is left anywhere in the text. Deleting a link never joins characters into a new one, because every deleted link ends at whitespace or at the end. |
| Regex.DeleteAll | backend/summarizer.py:32-35 | A substitution by `''` never lengthens the text. |
| Regex.DeleteAllDeletes | backend/summarizer.py:32-35 | A substitution by `''` only deletes: its result is a subsequence of its input. |
| Regex.DeleteAllIdentity | backend/summarizer.py:32-35 | The substitution leaves the text unchanged if and only if the pattern matches nowhere in it. |
| Regex.DeleteKeepsPlainSpaces | backend/summarizer.py:34-35 | Deleting matches from text whose only whitespace is `' '` leaves text whose only whitespace is `' '`. |
| Regex.CollapseSpaces | backend/summarizer.py:33 | Defines `re.sub(r'\s+', ' ', s)` as a scan that writes one `' '` for the last character of each whitespace run. Its properties are the `Collapse*` lemmas below. |
| Regex.CollapseShape | backend/summarizer.py:33 | After `re.sub(r'\s+', ' ', …)` every whitespace character is `' '` and none follows another. The result is empty only for empty input, and it starts with whitespace exactly when the input does. |
| Regex.CollapseKeepsVisible | backend/summarizer.py:33 | The collapse keeps every non-whitespace character, in order. |
| Regex.CollapseSingleSpaced | backend/summarizer.py:33 | Text that is already single-spaced is left unchanged. |
| Regex.CollapseIdempotent | backend/summarizer.py:33 | Collapsing twice gives the same text as collapsing once. |
| Regex.CollapseSplit | backend/summarizer.py:33 | The collapse works piecewise on text cut anywhere except inside a whitespace run. |
| Regex.CollapseAllSpace | backend/summarizer.py:33 | A nonempty whitespace run becomes a single `' '`. |
| Regex.CollapseLeadingRun | backend/summarizer.py:33 | A whitespace run in front of a non-space character becomes a single `' '`. |
| KeySentences.LexTotal | backend/summarizer.py:43-44 | Python's `str` order is total. |
| KeySentences.LexTransitive | backend/summarizer.py:43-44 | Python's `str` order is transitive. |
| KeySentences.Insert | backend/summarizer.py:44 | Inserting into a descending sequence keeps it descending. The result holds the old elements and the new one, each exactly as often as before. |
| KeySentences.SortDescending | backend/summarizer.py:44 | The result is in descending `(len(s), s)` order and is a permutation of the input. |
| KeySentences.PrefixOutranksRest | backend/summarizer.py:44 | The first `n` elements of a descending sequence outrank, and are at least as long as, every other element. |
| KeySentences.TopSentences | backend/summarizer.py:44 | Defines the strings of `heapq.nlargest(n, [(len(s), s) for s in sents])` as the first `n` of the descending sort. `TopSentencesSelect` states what they are. |
| KeySentences.TopSentencesSelect | backend/summarizer.py:43-44 | With more than `n` sentences, exactly `n` are kept. They come from the input, in descending `(len(s), s)` order. Each kept sentence is at least as long as every dropped one. |
| BackendSummarizer.CleanTextShape | backend/summarizer.py:30-36 | The cleaned text has no whitespace at either edge, and its only whitespace character is `' '`. |
| BackendSummarizer.PageTextIsMarker | backend/summarizer.py:34 | `Page d1 of d2`, for two digit strings, is a page marker. |
| BackendSummarizer.CollapseBrokenPage | backend/summarizer.py:33 | Each of the three whitespace runs in a page marker (after `Page`, before `of`, after `of`) collapses to one space, whatever the run holds (a line break, say) and however long it is. |
| BackendSummarizer.PageMarkerAcrossLines | backend/summarizer.py:33-34 | The collapse runs before page markers are looked for, so a marker broken at any or all of its three whitespace runs, by any non-empty runs, cleans to the empty text. |
| BackendSummarizer.MarkerBetweenWordsDeleted | backend/summarizer.py:34 | In `a`, space, marker, space, `b`, where `a` and `b` are one-character words that are not whitespace, `[`, `P` or `h`, the page-marker pass deletes the marker, whatever its numbers, and keeps both spaces. |
| BackendSummarizer.UrlDeletionLeavesDoubleSpace | backend/summarizer.py:35 | In `a`, space, link, space, `b`, where `a` and `b` are one-character words that are not whitespace, `[`, `P` or `h`, the link pass deletes the link, whatever it is, and keeps both spaces. |
| BackendSummarizer.DeletionLeavesDoubleSpace | backend/summarizer.py:32-36 | For one-character words `a`, `b` that are not whitespace, `[`, `P` or `h`, and any page numbers, `a Page 3 of 9 b` cleans to `a  b` (two spaces): nothing collapses whitespace after the deletion. |
| BackendSummarizer.CleanText | backend/summarizer.py:30-36 | Defines `clean_text`: the citation pass, the whitespace collapse, the page-marker pass and the link pass, in that order, then `strip()`. `CleanTextShape` states the result. |
| BackendSummarizer.ExtractKeySentences | backend/summarizer.py:38-45 | Defines `extract_key_sentences`. `ExtractKeySentencesSpec` states the result. |
| BackendSummarizer.ExtractKeySentencesSpec | backend/summarizer.py:38-45 | At most `n` sentences come back space-joined in their original order. With more, the result is the space-join of `n` input sentences in descending `(len(s), s)` order, each outranking every dropped one in that order. |
| BackendSummarizer.MaxLength | backend/summarizer.py:53 | `max_len` lies in [80, 250]: it is 80 for texts shorter than 160 characters, half the text length from 160 to 501 characters, and 250 from 500 characters on. |
| BackendSummarizer.MinLength | backend/summarizer.py:54 | `min_len` lies in [50, 80]: it is 50 when `max_len` is below 100, half of `max_len` from 100 to 161, and 80 from 160 on. |
| BackendSummarizer.LengthsOrdered | backend/summarizer.py:52-54 | For every text length, `50 <= min_len <= max_len <= 250`. |
| BackendSummarizer.Abstractive | backend/summarizer.py:47-93 | Defines what `abstractive_summarize` returns: one model call on a preselection of at most `MAX_CHARS` characters, otherwise the model on the joined chunk summaries with lengths 250 and 80. It specifies the method `AbstractiveSummarize`. |
| BackendSummarizer.AbstractiveSummarize | backend/summarizer.py:47-93 | It returns the single-shot summary of a preselection of at most `MAX_CHARS` characters. Otherwise it returns the summary of the joined chunk summaries, as the specification function `Abstractive` states. |
| BackendSummarizer.Summarize | backend/summarizer.py:95-98 | The result is the abstractive summary of the cleaned text. |
| Chunking.ChunkMaxLength | backend/summarizer.py:68 | A chunk's `max_length` is at most 200 and at most half the chunk's length: exactly half below 400 characters, and 200 from 400 on. |
| Chunking.Pack | backend/summarizer.py:64-75 | Defines the grouping of sentences into chunks after each sentence: a sentence closes the open chunk exactly when the chunk's length plus the sentence's length exceeds 3000. `PackPartition` and `PackRule` state what it does. |
| Chunking.ChunkTexts | backend/summarizer.py:64-84 | Defines the chunk texts handed to the model: every closed chunk, then the last one unless it is blank. `ChunkTextsBound` states their size. |
| Chunking.SummarizeChunks | backend/summarizer.py:61-84 | The loop returns one summary per chunk text of `ChunkTexts`, in order, each made with the chunk's own length parameters. |
| Chunking.ChunkTextAppend | backend/summarizer.py:75 | Adding a sentence to a chunk appends a space and the sentence. |
| Chunking.PackPartition | backend/summarizer.py:64-75 | Every sentence lands in exactly one chunk, in order: the closed chunks and the open one, concatenated, are the input. Only the very first chunk can be empty. |
| Chunking.PackRule | backend/summarizer.py:65-75 | Every sentence added to a chunk fitted: the chunk's length plus the sentence's length is at most 3000. A chunk was closed only because the next sentence did not fit. |
| Chunking.PackClosedGrows | backend/summarizer.py:64-73 | Once closed, a chunk is never changed: the closed chunks after a prefix of the input are a prefix of the final ones. |
| Chunking.ChunkLengthBound | backend/summarizer.py:65-75 | A chunk of two or more sentences, or the first chunk, is at most 3001 characters, because the joining space is not counted. |
| Chunking.ChunkTextsBound | backend/summarizer.py:64-84 | Every chunk text handed to the model is at most `MAX_CHARS + 1` characters, unless it is a single sentence that is over-long on its own. |
| Chunking.EmptyFirstChunk | backend/summarizer.py:63-73 | If the first sentence alone exceeds 3000 characters, the empty initial chunk is closed and handed to the model as the first chunk text. |
| Chunking.ChunkCanExceedBudget | backend/summarizer.py:63-77 | Sentences of 1499 and 1500 characters make one chunk of 3001 characters. |
| Chunking.ShortChunkLengthsInverted | backend/summarizer.py:68-69 | A chunk under 100 characters gets a `max_length` below its `min_length` of 50. |
| Summarizer.CleanTextDeletes | summarizer.py:24-26 | Citation removal only deletes characters, so it never lengthens the text. |
| Summarizer.CleanTextNoBracket | summarizer.py:26 | Text without `[` is returned unchanged. |
| Summarizer.CleanTextCitation | summarizer.py:26 | A bracketed nonempty digit run is deleted entirely. |
| Summarizer.CleanTextKeepsNonCitations | summarizer.py:26 | `[a]` and `[]` are left untouched. |
| Summarizer.CleanText | summarizer.py:24-26 | Defines `clean_text` as the citation pass shared with the backend cleaner. The lemmas above state what it does. |
| Summarizer.SpacedPunctLen | summarizer.py:30 | A match of `\s+([.,!?])` at the front is a nonempty whitespace run followed by one punctuation mark. |
| Summarizer.SpacedPunctMatches | summarizer.py:30 | Every nonempty whitespace run followed by `.`, `,`, `!` or `?` is matched in full, the mark included, whatever follows. |
| Summarizer.FixSpacing | summarizer.py:28-30 | The result never has whitespace immediately before `.`, `,`, `!` or `?`. It is never longer than the input, and it is empty only for empty input. |
| Summarizer.FixSpacingKeepsVisible | summarizer.py:30 | The fix deletes only whitespace: every other character is kept, in order. |
| Summarizer.FixSpacingIdentity | summarizer.py:30 | The fix changes the text if and only if some whitespace stands before a punctuation mark. |
| Summarizer.FixSpacingIdempotent | summarizer.py:30 | Fixing twice gives the same text as fixing once. |
| Summarizer.FixSpacingIsFilter | summarizer.py:30 | The fix equals a character-by-character filter that drops a position exactly when it is whitespace and its whitespace run is followed by `.`, `,`, `!` or `?`. Every other character is kept, in order. |
| Summarizer.FixSpacingDeletes | summarizer.py:30 | The fix only deletes characters: the result is a subsequence of the input. |
| Summarizer.SentencesForWordCount | summarizer.py:34 | The count lies in [3, 15], and equals `words // 100` for 300 to 1599 words. |
| Summarizer.SentencesMonotone | summarizer.py:34 | More words never ask for fewer sentences. |
| Summarizer.DecideNumSentences | summarizer.py:32-35 | The sentence count for a text lies in [3, 15]. |
| Summarizer.ExtractKeySentencesTextRank | summarizer.py:37-41 | Defines `extract_key_sentences_textrank` as the space-join of what TextRank returns. TextRank is a parameter, so nothing more is stated. |
| Summarizer.Summarize | summarizer.py:47-56 | The result never has whitespace before `.`, `,`, `!` or `?`. |
| Summarizer.SummarizeShortText | summarizer.py:47-51 | A cleaned text under 200 words goes to the model as it is, and TextRank is never consulted. |
| Summarizer.SummarizeLongText | summarizer.py:52-56 | A longer cleaned text is cut by TextRank to `decide_num_sentences(cleaned)` sentences, between 3 and 15. That count is 3 below 400 words, `words // 100` from 300 to 1599 words, and 15 from 1600 words up. Only those sentences reach the model. |

## Left out

- Loading models and resources at import time (NLTK downloads, `spacy.load`, `subprocess.check_call`, building `pipeline(...)`) is I/O and foreign code.
- The models and libraries are opaque, so they are function parameters. `sentTokenize` stands for NLTK's `sent_tokenize` and `sentences` for spaCy's `nlp(text).sents`. `Model` stands for the summarization pipeline together with the `[0]['summary_text']` lookup. `textRank` stands for sumy's parser, tokenizer and `TextRankSummarizer`, together with `str(sentence)`. `sample` stands for the sampling pipeline call. Nothing is stated about what any of them return.
- Summarizer.Summarize: `do_sample=True` makes the real model nondeterministic. Here `sample` is one fixed function, so two runs on the same text are not modelled as able to differ.
- Regex.CitationLen, Regex.PageMarkerLen: `\d` is modelled as the ASCII digits only. Python's `\d` on `str` also matches the other Unicode decimal digits.
- BackendSummarizer.MaxLength, BackendSummarizer.MinLength, Chunking.ChunkMaxLength: `int(x * 0.5)` is modelled as `x / 2` on non-negative integers, with no floating point.
- BackendSummarizer.DeletionLeavesDoubleSpace, BackendSummarizer.MarkerBetweenWordsDeleted, BackendSummarizer.UrlDeletionLeavesDoubleSpace: stated for one-character words on either side, which is enough to show that the two spaces survive; longer words are not covered.
- The Flask handlers, the document-text extraction, the launcher, and the React and Expo front ends are request plumbing and UI.
- The two `if __name__ == "__main__"` demonstration blocks print a summary of a fixed text.
