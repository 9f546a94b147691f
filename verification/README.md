# ITMO programme assistant: a Dafny model of its text and retrieval core

This is a model of the deterministic core of a Telegram Q&A bot. The bot answers questions about two
ITMO master's programmes: "AI" and "AI Product". The model covers five parts of that core:

- **Scraping.** Each programme page is turned into chunked records `{id, url, title, text}`. The
  chunker is `chunk_text`, the record id is `{slug}-{index}`, and the slug is the last segment of the
  URL (`src/scrape.py`).
- **Cleaning.** Page text is normalised: carriage returns become newlines, newline runs are squeezed,
  lines are stripped, lines shorter than two characters are dropped, whitespace inside a line is
  collapsed, and only the first occurrence of each line is kept (`clean_text`, `src/utils.py`).
- **Context packing.** Retrieved chunks are packed into the context given to the language model
  under a character budget (`_format_context`, `src/llm.py`).
- **Question routing.** Four routines decide what kind of question was asked (`src/domain.py`):
  - the recommendation-intent regexes;
  - the background-tag table;
  - programme detection, including the `\bai\b` word match;
  - the relevance gate, which compares the best retrieval score with a threshold.
- **Retrieval and recommendation.** The retriever takes similarity scores for the indexed chunk ids,
  ranks them and resolves the best ones against the document store (`Retriever.search`,
  `src/retriever.py`). The elective recommender filters records by programme, scores them with the
  keyword/tag heuristic, ranks them and cuts 400-character snippets (`src/recommender.py`).

Layout. Each module is one file:

- `Wrappers` holds `Option` and `Result`.
- `Seqs` holds sequence helpers and Python slicing with negative bounds.
- `Text` covers `str.isspace`, `lower`, `strip`, `split`/`join`, substring search and `re.sub`
  collapsing.
- `Ranking` holds the stable descending sort and the top-k cut, shared by both rankers.
- `Documents` holds the JSON record and `KeyError`.
- `Scrape`, `Clean`, `Context`, `Domain`, `Recommender` and `Retrieval` follow the source files.

Modelling choices:

- A record field the JSON may lack is an `Option`. Python's `d["key"]` on a missing key becomes
  `Failure(KeyError(key))`. `d.get("key", default)` and `(d.get("key") or "")` become `GetOr`.
- Similarity scores are mathematical reals, given as an input sequence next to the document ids.
- Python's stable `sorted(..., reverse=True)` / `list.sort` is an insertion sort. Its stability is
  stated score by score: for every score `v`, the elements with score `v` keep their order.
- The cut `[:top_k]` keeps Python's meaning for negative `top_k`.

Two places where the code does less than its names and comments suggest:

- **Context budget.** The parameter name `max_total_chars` (`src/llm.py:18`) suggests a bound on
  the whole context. The code only bounds the total length of the chunk pieces: the `"\n\n---\n\n"` separators are not
  counted. The model follows the code. `Context.FormatContextLength` gives the exact length (the taken pieces plus seven characters per
  separator between them), and
  `Context.FormatContextExceedsCap` exhibits an 11-character context under a cap of 4.
- **Programme filter.** The comment at `src/recommender.py:14` treats the programme as part of
  the id/title slug, as if the filter selected one programme. In the code the filter is a substring test on title, id and url, so `"ai"` also selects every record
  of the `ai_product` page. `Recommender.AiSelectsProductPage` states this.

## Model

| member | source | states |
|---|---|---|
| Seqs.FilterCount | src/utils.py:34 | a list comprehension with an `if` keeps every copy of each element that passes the test and no copy of one that fails |
| Seqs.PyTake | src/llm.py:28 | `ch[:budget]` is a prefix of `ch` of length `min(budget, len)` for a non-negative budget, and counts from the end for a negative one |
| Text.Lower | src/domain.py:33 | `lower()` keeps the length, leaves no ASCII or Cyrillic capital in the text, leaves every other character where it was, and turns each capital into a small letter of its own alphabet |
| Text.LowerCharOrder | src/domain.py:33 | within each run of capitals (`A`-`Z`, U+0400-U+040F, U+0410-U+042F) lower-casing keeps the order and the distances, so each capital goes to its own small letter |
| Text.LowerIdempotent | src/domain.py:33 | lower-casing an already lower-cased text changes nothing |
| Text.Strip | src/utils.py:33 | `strip()` yields a contiguous stretch of the input with no whitespace at either end, and only whitespace was removed around it |
| Text.StripEmpty | src/llm.py:24-26 | a chunk strips to nothing exactly when it consists only of whitespace, which is when the packer skips it |
| Text.StripAllUnchanged | src/llm.py:24 | stripping chunks that neither start nor end with whitespace leaves every chunk as it is |
| Text.Split | src/utils.py:33 | `split("\n")` yields at least one piece, no piece contains the separator, and joining the pieces gives the string back |
| Text.SplitJoin | src/utils.py:44 | the other half of the round trip: joining separator-free pieces with `"\n"` and splitting again gives the pieces back |
| Text.Squeeze | src/utils.py:32 | `re.sub(r"\n+", "\n", s)` never lengthens the text, keeps it non-empty and keeps a first or last character that is not a newline |
| Text.SqueezeSplit | src/utils.py:32 | a character that is not a newline splits the text: what lies before it and what lies after it are squeezed independently, and the character itself is kept |
| Text.SqueezeRun | src/utils.py:32 | a non-empty run of newlines becomes a single newline |
| Scrape.Windows | src/scrape.py:27-34 | the windows visited by the `while start < n` loop start inside the text; the first ends at `min(n, start + chunk_size)`, and there are none once `start >= n` |
| Scrape.WindowsShape | src/scrape.py:29-34 | for a positive chunk size every window is non-empty and at most `chunk_size` long, all windows but the last are full, and for a non-negative overlap the last one ends at `len(text)` |
| Scrape.WindowsStep | src/scrape.py:34 | each window after the first starts at `max(previous end - overlap, previous start + 1)` |
| Scrape.ChunkText | src/scrape.py:23-35 | an empty text gives no chunks; a non-empty text with a positive chunk size gives at least one chunk, each non-empty and at most `chunk_size` long |
| Scrape.ChunkSpans | src/scrape.py:26-34 | the chunks are exactly the slices of the windows, the first window starts at 0, and the windows have the shape stated by `WindowsShape` |
| Scrape.ChunkShortText | src/scrape.py:29-33 | a non-empty text no longer than the chunk size is returned as one chunk, itself |
| Scrape.WindowsCover | src/scrape.py:29-34 | with a non-negative overlap no character is skipped: every position of the text lies in some window |
| Scrape.ChunkOverlap | src/scrape.py:30-34 | when `0 <= overlap < chunk_size`, each chunk after the first begins with the last `overlap` characters of the chunk before it |
| Scrape.ChunkRoundTrip | src/scrape.py:23-35 | chunking loses nothing: dropping the last `overlap` characters of every chunk but the last and concatenating gives the original text |
| Scrape.ChunkTextLoop | src/scrape.py:23-35 | the imperative `while` loop with its `break` and `max(end - overlap, start + 1)` update yields the chunk list of the windows model |
| Scrape.Slug | src/scrape.py:46 | `url.rstrip("/").split("/")[-1]` is the last slash-free segment of the URL once trailing slashes are removed |
| Scrape.ParseChunkId | src/scrape.py:58 | reading an id back splits it at its last `-`; the part before is the slug and the digits after it the index |
| Scrape.ChunkIdRoundTrip | src/scrape.py:58 | `f"{slug}-{idx}"` can be parsed back into its slug and index, even when the slug itself contains `-` |
| Scrape.ChunkIdInjective | src/scrape.py:58 | two ids are equal only when both their slugs and indices are equal |
| Scrape.PageDocuments | src/scrape.py:54-63 | the i-th record's id reads back as the page's slug and the index i; the url is the page's and the title its slug; each text has 1 to 1000 characters, the texts are the page's chunks (size 1000, overlap 120), and stitching them gives the page text back |
| Scrape.DocumentIdShape | src/scrape.py:44-63 | every record of the store has an id naming the slug of one of the scraped pages |
| Scrape.DocumentIdsUnique | src/scrape.py:44-63 | when the pages' slugs differ, no two records of the store share an id |
| Clean.FirstOccurrences | src/utils.py:38-43 | deduplication keeps each distinct line exactly once and keeps nothing that was not in its input |
| Clean.FirstOccurrencesOrder | src/utils.py:38-43 | the kept lines appear in the order of their first occurrences |
| Clean.FirstOccurrencesOfDistinct | src/utils.py:38-43 | a list without repeated lines passes deduplication unchanged |
| Clean.DedupLoop | src/utils.py:38-43 | the `seen`-set loop computes exactly the first occurrences |
| Clean.CleanLines | src/utils.py:31-43 | every output line is clean: at least two characters, no surrounding whitespace, only single inner spaces and no line breaks. The lines are distinct, each comes from a stripped and collapsed source line, every line that survives the length filter is kept (only repeats are dropped), and they are in first-occurrence order |
| Clean.SurvivorsShape | src/utils.py:33-36 | every line that survives the length filter and the collapsing is clean, and comes from one source line stripped and collapsed |
| Clean.BlankLinesSqueezed | src/utils.py:32 | blank lines between two text lines are squeezed away: any non-empty run of newlines between two other characters becomes one newline |
| Clean.CleanTextShape | src/utils.py:44 | the cleaned text is the clean lines joined with `"\n"` (the final `strip()` removes nothing), and splitting it on `"\n"` gives those lines back |
| Clean.CleanTextEmpty | src/utils.py:29-44 | an empty page cleans to the empty string |
| Clean.CleanLinesOfClean | src/utils.py:29-44 | distinct clean lines joined with `"\n"` come back unchanged from the line pipeline |
| Clean.CleanTextIdempotent | src/utils.py:29-44 | cleaning an already cleaned text changes nothing |
| Context.Pieces | src/llm.py:21-30 | the pieces taken from the stripped chunks never total more than the remaining budget |
| Context.PiecesLineUp | src/llm.py:21-30 | the pieces are the non-blank stripped chunks in order: each piece is a non-empty prefix of its chunk, and only the last may be cut |
| Context.PiecesStopAtCap | src/llm.py:22-28 | when a non-blank chunk is left out or the last piece is cut short, the pieces fill the budget exactly |
| Context.PiecesFitAll | src/llm.py:21-30 | when the non-blank chunks fit in the budget, all of them are taken whole |
| Context.FormatContextEmpty | src/llm.py:18-32 | a non-positive cap, or chunks that are all blank, give the empty context |
| Context.FormatContextFits | src/llm.py:18-32 | when everything fits, the context is the stripped non-blank chunks joined by the separator |
| Context.FormatContextLength | src/llm.py:18-32 | the context is exactly as long as the taken pieces together plus one seven-character separator between each pair of them |
| Context.FormatContextBound | src/llm.py:18-32 | the context is at most the cap plus the separators between the taken pieces, and so at most the cap plus one separator per gap between non-blank chunks |
| Context.FormatContextExceedsCap | src/llm.py:27-32 | the separators are not charged to the budget, so the context can be longer than the cap |
| Context.PackLoop | src/llm.py:19-30 | the loop with its `break` when the total reaches the cap and its `continue` on a blank chunk takes exactly the pieces of the recursive model |
| Context.FormatContextLoop | src/llm.py:18-32 | the imperative version computes the same context as the model |
| Ranking.SortByDesc | src/recommender.py:36 | `sorted(..., reverse=True)` yields a permutation of its input in non-increasing score order |
| Ranking.SortStable | src/retriever.py:40 | the sort is stable: for every score, the elements with that score keep their relative order |
| Ranking.TopK | src/retriever.py:40-42 | sort-then-cut has Python's `[:k]` length (also for negative k), is ordered by score and is a sub-multiset of the input. Every element left out scores no higher than every element kept, and within each score class the kept elements are the first ones of the input |
| Ranking.TopKStableIn | src/recommender.py:36-37 | when the input is taken from a larger list in order, the kept elements of each score class keep their order from that larger list |
| Retrieval.IdToDoc | src/retriever.py:28 | building the id map fails with `KeyError("id")` exactly when a record has no id. Otherwise every record's id is a key, and each key maps to the last record carrying that id |
| Retrieval.IdToDocFound | src/retriever.py:28 | in a map built from the store every key is found, since each record has an id and so is never empty |
| Retrieval.Kept | src/retriever.py:42-45 | every ranked pair whose id is found in the map is kept, and nothing else; `KeptCount` adds how many copies |
| Retrieval.KeptCount | src/retriever.py:42-45 | a pair whose id is found keeps every one of its copies (ids may repeat in the index), and a pair whose id is not found keeps none |
| Retrieval.Resolve | src/retriever.py:42-55 | resolving fails exactly when some found record lacks a url or text. The error is the one raised on the first such record in ranking order: `KeyError("url")` when its url is missing (it is looked up first), else `KeyError("text")`. On success there is one chunk per kept pair, carrying the pair's id and score, the record's url and text, and its title or else the id |
| Retrieval.KeptSorted | src/retriever.py:40-45 | skipping ids that are not found keeps the score order |
| Retrieval.ResolveFacts | src/retriever.py:42-55 | a successful resolve returns no more chunks than pairs, in score order when the pairs were sorted, and its (id, score) pairs are exactly the kept ones |
| Retrieval.SearchFacts | src/retriever.py:30-55 | `search` returns at most `top_k` chunks and at most one per zipped pair, in non-increasing score order, each carrying an indexed id with its own similarity |
| Retrieval.SearchStable | src/retriever.py:39-45 | among results with equal scores the index order is kept |
| Retrieval.SearchSkipsAfterCut | src/retriever.py:42-45 | an id missing from the store is dropped after the cut, not replaced: the best pair is unknown, so `top_k=1` yields nothing although a lower pair resolves |
| Retrieval.SearchKeepsZeroScores | src/retriever.py:42-55 | a zero score is returned like any other; a record without title gets its id as title |
| Domain.MatchesAtIff | src/domain.py:12-16 | the greedy matcher agrees with the regex meaning of `word\s+word` (one or more whitespace characters between the words) at each position |
| Domain.SpacedTailIff | src/domain.py:12-16 | after the first word, skipping the whole whitespace run and then comparing succeeds exactly when some non-empty whitespace run is followed by the second word |
| Domain.ContainsPatternIff | src/domain.py:34 | the matcher finds a pattern exactly when `re.search` would find a match somewhere |
| Domain.IntentIff | src/domain.py:32-34 | the intent holds exactly when one of the seven patterns occurs in the lower-cased text |
| Domain.IntentIgnoresCase | src/domain.py:33 | the intent does not depend on letter case |
| Domain.IntentExample | src/domain.py:12 | "Что  выбрать?" is a recommendation request: two spaces match `\s+` and capitals are lowered |
| Domain.TagsFromSpec | src/domain.py:40-42 | a tag is produced exactly when one of its patterns is a substring. The tags come in table order, and there are no repeats when the table keys are distinct |
| Domain.ExtractBackgroundTagsSpec | src/domain.py:37-43 | for each of the ten tags, it is returned exactly when one of its patterns occurs in the lower-cased text; the result lists table keys in table order without repeats |
| Domain.TagsMatchInsideWords | src/domain.py:25 | patterns are plain substrings, so "Django" yields the `backend` tag through `"go"` |
| Domain.TagsExample | src/domain.py:19-20 | "У меня опыт Python и ML" yields the tags `python` and `ml` |
| Domain.TagsIgnoreCase | src/domain.py:38 | tag extraction does not depend on letter case |
| Domain.DetectProgramSpec | src/domain.py:46-52 | `ai_product` exactly when "product" or "продакт" occurs in the lower-cased text (which covers "ai product"); otherwise `ai` exactly when the word `ai` or "искусствен" occurs; otherwise none |
| Domain.DetectIgnoresCase | src/domain.py:47 | programme detection does not depend on letter case |
| Domain.DetectProgramWordBoundary | src/domain.py:50 | `\bai\b` needs word boundaries: "Email" names no programme, "Master AI" names `ai` |
| Domain.RelevanceSpec | src/domain.py:55-60 | the gate fails exactly when the top-1 search fails. It says yes exactly when the search returns one chunk scoring at least the threshold, and then some indexed similarity reaches the threshold |
| Domain.RelevanceMonotone | src/domain.py:60 | a question relevant at some threshold is relevant at every lower one |
| Domain.RelevanceLooksAtTopOnly | src/domain.py:57-60 | only the single best pair is looked at: when its id is unknown the question is judged irrelevant even at threshold 0 |
| Recommender.FilterByProgramSpec | src/recommender.py:13-15 | the filter keeps exactly the records whose title, id or url contains the programme, every copy of each, in their original order |
| Recommender.EmptyProgramKeepsAll | src/recommender.py:15 | the empty programme is a substring of everything, so nothing is filtered out |
| Recommender.AiSelectsProductPage | src/recommender.py:14-15 | every record scraped from the `ai_product` page passes the filter for `"ai"` |
| Recommender.CountIn | src/recommender.py:28-30 | the keyword count never exceeds the number of keywords |
| Recommender.CountInIsCardinality | src/recommender.py:28-33 | the loop's count equals the number of list positions whose word occurs in the text (duplicates in the list count twice) |
| Recommender.ScoreSpec | src/recommender.py:25-34 | the score is one point per keyword position and half a point per tag position occurring in the lower-cased text (missing text counts as empty), so it lies between 0 and 7 + tags/2 |
| Recommender.ScoreExample | src/recommender.py:25-34 | a repeated keyword scores once, a repeated tag scores once per list entry, and case is ignored |
| Recommender.Snippets | src/recommender.py:37 | the snippets fail with `KeyError("text")` exactly when a chosen record lacks its text. Otherwise there is one snippet per record: the first `min(400, len)` characters of its text |
| Recommender.SnippetsFail | src/recommender.py:37 | taking snippets fails exactly when some chosen record has no text |
| Recommender.RecommendSpec | src/recommender.py:18-38 | one snippet per chosen record, `top_k` of the filtered records with Python's slicing length. Each chosen record is from the store and matches the programme, and its snippet is a 400-character prefix. The chosen records are in non-increasing score order, and every left-out matching record scores no higher than every chosen one |
| Recommender.ChosenFromProgram | src/recommender.py:20 | anything chosen from the filtered records is a store record matching the programme |
| Recommender.RecommendStable | src/recommender.py:36 | records with equal scores are recommended in store order |
| Recommender.RecommendFails | src/recommender.py:37 | a recommendation fails exactly when one of the chosen records has no text |
| Recommender.RecommendNoProgram | src/recommender.py:18-38 | when no record matches the programme the recommendation is empty |

## Left out

- Network and files. Fetching pages (`fetch_url` and its retries), the HTML-to-text extraction with
  BeautifulSoup, and every file read or write (raw HTML, processed text, the JSON store, the joblib
  index) are not modelled. Pages enter as (url, readable text) pairs and the store as a sequence of
  records.
- Similarity computation. The TF-IDF vectoriser and the cosine computation in `Retriever.search` are
  floating-point numerics. Similarities are an input sequence of reals; NaN, infinities and rounding
  are not modelled.
- Language-model calls, the system prompt, the Telegram bot, configuration and the index builder
  (`bot.py`, `config.py`, `indexer.py`) are outside the modelled core.
- Text.Lower: handles ASCII and the basic Cyrillic capitals (U+0400-U+042F) only, not the rest of
  Unicode case mapping. These are the alphabets of the pattern tables.
- Domain.DetectProgram: the `\b` test treats ASCII letters, digits, `_` and the Cyrillic block as
  word characters, not all of Unicode.
- Documents.Doc: a field holding JSON `null` is modelled like an absent key. The code treats the two
  differently, site by site:
  - `d["id"]` (`src/retriever.py:28`), `meta["url"]` (`:49`) and `meta["text"]` (`:51`) pass a
    `null` through as `None` without error. The model raises `KeyError` there as for a missing key
    (`Retrieval.IdToDoc`, `Retrieval.Resolve`).
  - `meta.get("title", doc_id)` (`src/retriever.py:50`) returns `None` for a `null` title. The model
    uses the id.
  - `program in d.get(...)` (`src/recommender.py:15`) and `d["text"][:400]`
    (`src/recommender.py:37`) raise `TypeError` on a `null`. The model's filter reads it as `""`,
    and its snippets fail with `KeyError("text")`.
  - `(doc.get("text") or "")` (`src/recommender.py:26`) turns a `null` into `""`, as the model does.
- Scrape.ChunkRoundTrip: stated for `0 <= overlap < chunk_size` only. Outside that range the
  `start + 1` step or a negative overlap changes how neighbouring chunks overlap, and stitching by
  `overlap` is then not the inverse.
- Scrape.ChunkOverlap: stated for `0 <= overlap < chunk_size` only, for the same reason.
- Context.PackLoop: strips every chunk up front and then runs the loop. The source strips inside the
  loop, which gives the same result because stripping has no side effects.
- The recommender's `load_all_texts` and the retriever's constructor are modelled by their results
  only: the record sequence and `Retrieval.IdToDoc`.
