# Hybrid retrieval for the JDIH legal-document search engine

This project models the retrieval core of the JDIH search engine
(`Program_Search_Engine_JDIH.py`) in Dafny and proves properties of the model.
Given a user query, the engine returns a list of document ids. It searches two
corpora: *solutions*, which are help-desk articles with a category,
subcategory, title and content, and *regulations*, the JDIH legal documents
with an optional title (`judul`), source (`sumber`) and subject (`subjek`).
The id list merges two searches:

- a **lexical scan** (`search_dataset`). It finds the documents that contain the
  raw query as a whole word, ignoring case. Solutions are scanned first, then
  regulations, with a `max_results` cut-off (default 30);
- a **semantic ranking** (`search`). The query is spell-corrected token by token
  (`correct_typos`) and normalised (`preprocess_text`). Each document is scored
  against it, and each corpus is sorted by score, highest first. The engine
  returns the first `top_n` entries (default 10) of the corpus whose top score is
  higher; solutions win a tie.

`get_combined_ids` lists the lexical ids first and then the semantic ids not
yet listed. Each id appears once.

Modules, one per stage:

| file | module | what it holds |
|---|---|---|
| `wrappers.dfy` | `Wrappers` | `Option`, and `OrEmpty` for the `x or ''` idiom |
| `text.dfy` | `Text` | `preprocess_text`, and `str.split()` / `" ".join` as `Words` / `Join` |
| `typos.dfy` | `Typos` | `correct_typos` as a loop (`CorrectTypos`) |
| `lexical.dfy` | `Lexical` | documents, the `\b…\b` whole-word match, `search_dataset` as two loops |
| `ranking.dfy` | `Ranking` | the stable descending sort, `[:top_n]` and the choice of corpus in `search` |
| `combiner.dfy` | `Combiner` | the merge loops of `get_combined_ids` over the `seen_ids` set |
| `pipeline.dfy` | `Pipeline` | `search` and `get_combined_ids` end to end |

The code is modelled as written in several places:

- **The `max_results` cut-off uses `==` on the length of the whole result list.**
  Suppose the solutions alone reach `max_results`. Then the regulation loop
  appends before it tests, so the length passes `max_results` and the test never
  fires again: every matching regulation is returned.
  - `Lexical.SearchOverflowsWhenSolutionsFill` states this in general, and
    `Lexical.SearchOverflowExample` with `max_results = 1`.
  - A `max_results` below 1 is never reached either, so nothing is cut off
    (`Lexical.SearchUncappedBelowOne`).
- **The semantic ranking reads the first entry of both rankings**
  (`solutions_results[0]`, `jdih_results[0]`), so it faults when either corpus is
  empty. `Search`, `Select`, `CombinedIds` and `GetCombinedIds` therefore require
  both corpora to be non-empty. Treating an empty corpus as having the lowest
  possible top score would avoid the fault; the model follows the code, which
  does not do that.
- **Solution fields are read directly.** The code calls `re.search` on the
  solution fields with no `or ''`, unlike the regulation fields, so a missing
  solution field is a `TypeError` in the source. In the model a solution's fields
  are plain strings. Regulation fields are `Option<string>`, and a missing one
  reads as `''`.
- **Sorting is stable.** Every scored entry carries its original position
  (`Scored.pos`), so "equal scores keep corpus order" can be stated.

## Model

| member | source | states |
|---|---|---|
| Text.Lower | Program_Search_Engine_JDIH.py:14 | lowering keeps the length, maps each character through ASCII `lower`, leaves no upper-case letter, and is the identity on text without upper case |
| Text.RemovePunct | Program_Search_Engine_JDIH.py:15 | a character survives exactly when it was in the input and is not in `string.punctuation`; text without punctuation is unchanged |
| Text.RemovePunctChar | Program_Search_Engine_JDIH.py:15 | one punctuation character is deleted, any other character is kept |
| Text.RemovePunctAppend | Program_Search_Engine_JDIH.py:15 | removing punctuation from a concatenation removes it from each part; with the one-character case this fixes the result as the input minus its punctuation, order and repeats kept |
| Text.CollapseChars | Program_Search_Engine_JDIH.py:16 | after `re.sub(r'\s+', ' ', …)` every character is a plain space or a non-whitespace character of the input |
| Text.CollapseSingleSpaced | Program_Search_Engine_JDIH.py:16 | after collapsing, every whitespace character is a plain space and no two whitespace characters are adjacent |
| Text.CollapseOfSingleSpaced | Program_Search_Engine_JDIH.py:16 | collapsing leaves an already single-spaced string unchanged |
| Text.Strip | Program_Search_Engine_JDIH.py:16 | `strip()` returns the slice of its input left once a whitespace prefix and a whitespace suffix are cut off, and leaves no leading or trailing whitespace, so it cuts both runs whole; it keeps single spacing and is the identity on trimmed text |
| Text.PipelineIsNormalized | Program_Search_Engine_JDIH.py:14-16 | lowering, removing punctuation, collapsing and stripping together leave no upper case, no punctuation, only single plain spaces and no leading or trailing whitespace |
| Text.Preprocess | Program_Search_Engine_JDIH.py:11-17 | `None` gives `""`; every output has no upper case, no punctuation, only single plain spaces and no leading or trailing whitespace |
| Text.NormalizedIsFixpoint | Program_Search_Engine_JDIH.py:14-16 | a string that is already normalised is returned unchanged |
| Text.PreprocessIdempotent | Program_Search_Engine_JDIH.py:11-17 | preprocessing twice gives the same as preprocessing once |
| Text.Words | Program_Search_Engine_JDIH.py:27 | every piece returned by `split()` is non-empty and free of whitespace |
| Text.WordsOfJoin | Program_Search_Engine_JDIH.py:39 | splitting the `" ".join` of whitespace-free, non-empty tokens gives those tokens back |
| Text.WordsOfCollapse | Program_Search_Engine_JDIH.py:16 | collapsing whitespace runs does not change the `split()` tokens |
| Text.WordsOfStrip | Program_Search_Engine_JDIH.py:16 | stripping does not change the `split()` tokens |
| Text.PreprocessIsJoinOfWords | Program_Search_Engine_JDIH.py:14-16 | the preprocessed text is the lowered, punctuation-free text's tokens joined by single spaces |
| Typos.Corrections | Program_Search_Engine_JDIH.py:28-38 | one entry per token, in order |
| Typos.CorrectTypos | Program_Search_Engine_JDIH.py:25-40 | the second result is the input as given; the first is the single-space join of one entry per `split()` token |
| Typos.CorrectionCases | Program_Search_Engine_JDIH.py:30-38 | an all-digit token is kept; otherwise the first suggestion is used when there is one, else the token is kept |
| Typos.CorrectedWords | Program_Search_Engine_JDIH.py:27-39 | when the suggestions used are single words, the corrected query splits into exactly the per-token entries, and numeric tokens stay at their positions |
| Typos.NoSuggestionsKeepsTokens | Program_Search_Engine_JDIH.py:35-39 | with no suggestions the corrected query is the input's tokens joined by single spaces |
| Lexical.SearchFromFindsMatch | Program_Search_Engine_JDIH.py:129-137 | the left-to-right search from position `p` succeeds exactly when the pattern matches at some position from `p` on |
| Lexical.ContainsWordIff | Program_Search_Engine_JDIH.py:134-137 | `re.search` finds the keyword in a field exactly when the pattern matches at some position of it |
| Lexical.WholeWordMatch | Program_Search_Engine_JDIH.py:129 | for a keyword that begins and ends with a word character, a `\b`-delimited case-insensitive match is exactly an occurrence not flanked by word characters |
| Lexical.NoMatchInsideWord | Program_Search_Engine_JDIH.py:129 | `pajak` is not found inside `pajaknya` but is found in `Pajak daerah` |
| Lexical.HitsExactly | Program_Search_Engine_JDIH.py:133-137 | a document is among the hits of a corpus exactly when it is in the corpus and matches in one of its fields |
| Lexical.Cap | Program_Search_Engine_JDIH.py:139-140 | the cut-off keeps a prefix of the hits: exactly `n` of them when `1 <= n` and there are more than `n`, all of them when `n < 1` or when there are not more than `n` |
| Lexical.MatchSolution | Program_Search_Engine_JDIH.py:134-137 | the solution test holds exactly when the `\b`-delimited, case-insensitive pattern matches at some position of the category, subcategory, title or content |
| Lexical.MatchRegulation | Program_Search_Engine_JDIH.py:144-150 | the regulation test holds exactly when the pattern matches at some position of the title, source or subject, a missing field reading as `''` |
| Lexical.ScanSolutions | Program_Search_Engine_JDIH.py:133-140 | the solution loop returns the solution hits cut off at `max_results` |
| Lexical.ScanRegulations | Program_Search_Engine_JDIH.py:143-153 | the regulation loop appends the regulation hits, cut off where the whole list reaches `max_results`, with missing fields read as `''` |
| Lexical.SearchDataset | Program_Search_Engine_JDIH.py:128-155 | `search_dataset` returns the capped solution hits followed by the capped regulation hits |
| Lexical.SearchSound | Program_Search_Engine_JDIH.py:133-153 | every returned entry matches and comes from its own corpus |
| Lexical.CapIsPrefixScan | Program_Search_Engine_JDIH.py:138-140 | a capped hit list is the hit list of a prefix of the corpus that stops early only once it holds `n` hits |
| Lexical.SearchScansPrefixes | Program_Search_Engine_JDIH.py:133-153 | the result is the hits of a prefix of the solutions then the hits of a prefix of the regulations (corpus order; every skipped entry matches no field), and a scan stops early only at the cut-off |
| Lexical.SearchSolutionsFirst | Program_Search_Engine_JDIH.py:133-153 | no regulation precedes a solution, and at most `max_results` solutions are returned |
| Lexical.SearchBoundedWhenRoomLeft | Program_Search_Engine_JDIH.py:133-153 | when fewer than `max_results` solutions match, the result has at most `max_results` entries |
| Lexical.SearchOverflowsWhenSolutionsFill | Program_Search_Engine_JDIH.py:139-153 | when the solutions reach `max_results`, the result is the first `max_results` solution hits followed by every regulation hit |
| Lexical.SearchUncappedBelowOne | Program_Search_Engine_JDIH.py:139-153 | with `max_results < 1` every hit of both corpora is returned |
| Lexical.SearchOverflowExample | Program_Search_Engine_JDIH.py:139-153 | with `max_results = 1`, one matching solution and one matching regulation give two results |
| Ranking.Enumerate | Program_Search_Engine_JDIH.py:168-173 | entry `i` pairs document `i` with score `i` |
| Ranking.SortByScore | Program_Search_Engine_JDIH.py:176-177 | sorting is a permutation of its input |
| Ranking.InsertKeepsOrder | Program_Search_Engine_JDIH.py:176-177 | inserting an entry that was listed earlier in the corpus keeps a ranking in stable descending order |
| Ranking.SortIsStableDescending | Program_Search_Engine_JDIH.py:176-177 | sorting entries listed in corpus order gives descending scores with ties in corpus order |
| Ranking.Rank | Program_Search_Engine_JDIH.py:176-177 | a ranking is a permutation of the scored sub-corpus |
| Ranking.RankIsStableSort | Program_Search_Engine_JDIH.py:176-177 | a ranking is in stable descending order, lists every document once with its own score, and nothing else |
| Ranking.MaxScore | Program_Search_Engine_JDIH.py:178 | the maximum is one of the scores and no score exceeds it |
| Ranking.RankTopIsMax | Program_Search_Engine_JDIH.py:178 | the first entry of a ranking has the sub-corpus's highest score |
| Ranking.PyPrefix | Program_Search_Engine_JDIH.py:178 | `s[:n]` is a prefix of length `min(n, len(s))`, or `max(len(s) + n, 0)` for negative `n` |
| Ranking.PrefixOfRanking | Program_Search_Engine_JDIH.py:178 | a prefix of a ranking is ranked, and each kept entry ranks before every entry left out |
| Ranking.Select | Program_Search_Engine_JDIH.py:178 | the selection is a prefix of one of the two rankings |
| Ranking.SelectUsesOneCorpus | Program_Search_Engine_JDIH.py:178 | the selection holds solutions only exactly when the top solution score is at least the top regulation score, and regulations only otherwise |
| Ranking.SelectLength | Program_Search_Engine_JDIH.py:178 | the selection has `min(top_n, size of the chosen corpus)` entries |
| Ranking.SelectIsTopOfRanking | Program_Search_Engine_JDIH.py:176-178 | selected scores do not increase, equal scores keep corpus order, each entry is a document of the chosen corpus with its own score, and no left-out document ranks before a kept one |
| Combiner.DedupFromContains | Program_Search_Engine_JDIH.py:189-199 | a loop over `seen_ids` keeps an id exactly when it is in its input and was not seen before |
| Combiner.DedupFromAppend | Program_Search_Engine_JDIH.py:188-199 | running the loop over two lists in turn keeps the first list's new ids, then the second list's ids that neither the initial `seen_ids` nor the first list holds |
| Combiner.DedupSameIds | Program_Search_Engine_JDIH.py:185-201 | deduplication keeps exactly the ids of its input |
| Combiner.DedupNoDuplicates | Program_Search_Engine_JDIH.py:186-199 | no id appears twice |
| Combiner.DedupFirstOccurrenceOrder | Program_Search_Engine_JDIH.py:188-199 | ids are listed in the order of their first occurrence |
| Combiner.DedupKeepsHead | Program_Search_Engine_JDIH.py:189-192 | the first id of the input comes first |
| Combiner.DedupAppend | Program_Search_Engine_JDIH.py:188-199 | deduplicating two lists gives the first list deduplicated, then the second list's ids that are not in the first, each once, in order |
| Combiner.LexicalIds | Program_Search_Engine_JDIH.py:189-192 | one id per lexical result, `entry['id']`, in order |
| Combiner.SemanticIds | Program_Search_Engine_JDIH.py:195-196 | one id per semantic result, `result['data']['id']`, in order |
| Combiner.MergeUnseen | Program_Search_Engine_JDIH.py:195-199 | the second loop appends the semantic ids that `seen_ids`, holding the lexical ids, does not hold yet, each once, in rank order |
| Combiner.CombineIds | Program_Search_Engine_JDIH.py:185-201 | the two loops over `seen_ids` return the concatenated lexical and semantic ids, each kept at its first occurrence |
| Pipeline.SolutionText | Program_Search_Engine_JDIH.py:111-114 | a solution's embedding text is `title + " " + content` preprocessed, hence normalised |
| Pipeline.RegulationText | Program_Search_Engine_JDIH.py:115-125 | a regulation's embedding text joins its three fields, missing ones as `''`, and is normalised |
| Pipeline.QueryText | Program_Search_Engine_JDIH.py:159-163 | the query's embedding text is the corrected query preprocessed, hence normalised |
| Pipeline.SolutionScores | Program_Search_Engine_JDIH.py:164 | one score per solution: the similarity of the query text and its embedding text |
| Pipeline.RegulationScores | Program_Search_Engine_JDIH.py:165 | one score per regulation: the similarity of the query text and its embedding text |
| Pipeline.Search | Program_Search_Engine_JDIH.py:158-178 | `search` returns the selection over the scores of the corrected, normalised query |
| Pipeline.GetCombinedIds | Program_Search_Engine_JDIH.py:181-201 | `get_combined_ids` merges the lexical scan of the raw query (`max_results = 30`) with the semantic search (`top_n = 10`) |
| Pipeline.CombinedIdsMerge | Program_Search_Engine_JDIH.py:185-201 | the combined ids have no duplicate, are exactly the union of the lexical and semantic ids, and list the lexical ids in first-occurrence order followed by the unseen semantic ids in rank order |
| Pipeline.FirstLexicalHitLeads | Program_Search_Engine_JDIH.py:182-192 | when the lexical scan finds anything, its first hit's id is the first combined id |

## Left out

- Loading the corpora from PostgreSQL, including the `Tidak Berlaku` filter (Program_Search_Engine_JDIH.py:43-99). This is database I/O; the two corpora are inputs of the model.
- The sentence encoder (Program_Search_Engine_JDIH.py:108-125, 163) and `cosine_similarity` (Program_Search_Engine_JDIH.py:164-165). Both are a foreign model and floating-point numerics. They are represented by a given function `similarity` from the normalised query text and a document's normalised text to an integer score. NaN, rounding and float ties are not captured.
- SymSpell: building it, loading its dictionary file and the `lookup_compound` search (Program_Search_Engine_JDIH.py:20-22, 34). This is a foreign library; it is represented by a given function `lookup` from a token to the terms of its suggestions, best first.
- The `print` logging (Program_Search_Engine_JDIH.py:101-102, 160-161) and the interactive `input` loop (Program_Search_Engine_JDIH.py:204-218). They are console I/O.
- All of `API_Search_Engine.py`, which is HTTP plumbing. Its `response_ids == 0` test can never hold, because `get_combined_ids` always returns a list.
- Character classes:
  - `lower()`, `re.IGNORECASE`, `\w` and `\d` are modelled on ASCII only; Unicode case mapping and Unicode letters and digits are not modelled.
  - Whitespace is the full set of characters for which `str.isspace` holds.
  - `re.escape` needs no model, since the keyword is compared as literal text.
- Lexical.MatchSolution, Lexical.Matches and Pipeline.SolutionText: a solution field that is `None` makes the source raise `TypeError`, in `re.search` (Program_Search_Engine_JDIH.py:134-137) and in `article['title'] + " " + article['content']` (Program_Search_Engine_JDIH.py:112); solution fields are strings in the model, so this fault is not represented.
- Ranking.Select: requires both corpora to be non-empty, because the source indexes the first entry of each ranking; the same holds for `Pipeline.Search`, `Pipeline.CombinedIds` and `Pipeline.GetCombinedIds`.
- Ranking.SelectLength: stated for `top_n >= 0` only; the length for a negative `top_n` follows from `Ranking.PyPrefix`.
- Lexical.SearchDataset: the two loops of `search_dataset` are two methods, `ScanSolutions` and `ScanRegulations`, called one after the other.
- Combiner.CombineIds: the second loop of `get_combined_ids` is a method of its own, `MergeUnseen`, whose `seen_ids` starts as the lexical ids' set.
