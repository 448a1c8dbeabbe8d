# Article cleaning and per-category TF-IDF, modelled in Dafny

This project models the two data-processing steps of a small news-analysis
pipeline about coverage of the Trump family:

- the **cleaning step** (`clean_data.py`). It drops the news API's "[Removed]"
  placeholder articles, picks out the articles whose title names a family
  member just before "trump", and de-duplicates on (title, author). It then
  lists the distinct source names in sorted order and composes these into the
  filtered, remaining, removed and source-name lists.
- the **keyword step** (`tfidf.py`). It cleans titles and descriptions down to
  lower-case non-stop-words and builds one document per article. For every
  coding category it computes the term frequency of each document, the IDF of
  the category's own documents, and the per-document TF-IDF. It sums these in
  a `Counter` and keeps the counter's ten best words.

Modules, one per concern:

| module | file | what it holds |
|---|---|---|
| `Optional` | `optional.dfy` | `Option`, Python's `None` for a missing key |
| `Seqs` | `seqs.dfy` | order-preserving filter, subsequence, interleaving, first occurrence by key, `Distinct` |
| `Text` | `text.dfy` | Python `str` behaviour: whitespace class, ASCII `lower`, `strip`, `split`, `' '.join`, `count`, string order |
| `TrumpPattern` | `trump_pattern.dfy` | `re.search(r'(\w+)\s+trump', ...)` with leftmost, greedy-with-backtracking semantics |
| `CleanData` | `clean_data.dfy` | the four cleaning functions and their composition |
| `TextClean` | `text_clean.dfy` | `clean_text` and the `text` column |
| `TermFreq` | `term_freq.dfy` | `compute_tf` |
| `Idf` | `idf.dfy` | `compute_idf` and `compute_tfidf` |
| `Ranking` | `ranking.dfy` | `Counter.most_common(n)` as a stable descending sort cut after `n` |
| `CategoryScores` | `category_scores.dfy` | the `Counter` accumulation and `get_top_words_by_category` |

Three choices of the code shape the keyword step, and the model makes the same ones:

- the IDF is computed per category, from that category's documents only,
  not over the whole corpus;
- a word's category score is the sum of its per-document TF-IDF values, not
  their mean;
- ties among equal scores are broken by the counter's insertion order, which
  is the order of first occurrence of the words across the category's
  documents, taken in row order.

What the lemmas establish beyond the single-call contracts:

- The counter built by `Counter.update` holds, for every word, the
  independently defined sum `CategoryScore`. Its insertion order is the
  first occurrence of each word across the documents. So each category's
  list is exactly `most_common(10)` of that reference ranking
  (`CategoryTallyScores`, `CategoryTallyOrder`, `TopWordsOfDocs`).
- The kept list of the de-duplication equals the reference "first article of
  every key" (`RemoveDuplicatesKeepsFirst`), and de-duplication is idempotent. The
  contract of `RemoveDuplicates` itself ties the removed list to the reference
  "articles whose key occurred earlier" (`Seqs.RepeatsByKey`).
- `split` undoes the single-space `join` of tokens (`SplitJoin`), which makes
  `clean_text` idempotent (`CleanTextIdempotent`).
- The stable descending sort and the sorted source list are each determined
  by their specification (`StableSortUnique`, `AscendingUnique`).

## Model

| member | source | states |
|---|---|---|
| CleanData.RemoveRemovedArticles | clean_data.py:7-8 | keeps, in order and with multiplicity, exactly the articles whose stripped, lower-cased title is not "[removed]"; an article with no title is kept |
| CleanData.FilterArticles | clean_data.py:11-24 | keeps, in order and with multiplicity, exactly the articles whose title passes the family test; every kept lower-cased title contains "trump" exactly once |
| CleanData.FamilyTitleShape | clean_data.py:17-21 | in a kept title the captured word is a target name, and the "trump" right after it is the only occurrence of "trump" in the title |
| CleanData.NoMatchNotFamily | clean_data.py:18-19 | a title in which the pattern matches nowhere is never kept |
| TrumpPattern.Search | clean_data.py:18 | no match exactly when the pattern matches nowhere; otherwise the match at the leftmost start position, and the only match there |
| TrumpPattern.MatchAt | clean_data.py:18 | at one position: a match with the greedy word run and whitespace run, or a proof that no match starts there |
| TrumpPattern.MatchDetermined | clean_data.py:18 | a match starting at a given position has its group end and literal position fixed by the word and whitespace runs |
| Text.CountOccTwo | clean_data.py:21 | for a pattern whose first letter does not recur in it, two different occurrence positions make `count` at least 2 |
| CleanData.RemoveDuplicates | clean_data.py:27-43 | the input is an order-preserving merge of kept and removed; kept keys are pairwise distinct and cover every input key; the removed list is exactly the reference "articles whose key occurred earlier", in input order |
| CleanData.RemoveDuplicatesKeepsFirst | clean_data.py:32-41 | the kept list is exactly the first article of every (title, author) key, in input order |
| CleanData.RemoveDuplicatesIdempotent | clean_data.py:27-43 | de-duplicating the kept list again keeps everything and removes nothing |
| CleanData.ExtractSources | clean_data.py:46-54 | a strictly ascending list whose members are exactly the non-empty stripped source names |
| CleanData.AscendingUnique | clean_data.py:54 | two strictly ascending lists with the same members are equal, so the sorted source list is determined by the set of names |
| CleanData.ProcessArticles | clean_data.py:66-74 | all three steps run on the list without placeholders: "filtered" is the family filter of it; "removed" is what de-duplication drops from it, exactly the articles whose key occurred earlier, in input order; the source names are exactly its non-empty names, ascending. "remaining" is the de-duplicated list minus the filtered articles, in order, with distinct keys; every output article is a non-placeholder input article |
| CleanData.PipelineMembers | clean_data.py:66-72 | every list derived after placeholder removal holds only input articles that are not placeholders |
| Text.Strip | clean_data.py:8 | the result neither starts nor ends with whitespace, and it is a slice of the input with only whitespace outside it |
| Text.Split | tfidf.py:12 | every token is non-empty and free of whitespace, built from the input's characters; an all-whitespace string has no tokens |
| Text.SplitJoin | tfidf.py:17 | splitting the single-space join of whitespace-free tokens gives the tokens back |
| Text.SplitAround | tfidf.py:24 | splitting at a whitespace character splits the two sides separately |
| TextClean.ReplaceNonLetters | tfidf.py:10 | same length; ASCII letters and whitespace are left unchanged, and every other character becomes a space |
| TextClean.RawTokens | tfidf.py:10-12 | every token is a non-empty word of lower-case ASCII letters |
| TextClean.KeptWords | tfidf.py:15-16 | an order-preserving selection of the raw tokens: each non-stop-word as often as in the text, no stop word at all ("s" and "t" included) |
| TextClean.CleanText | tfidf.py:9-17 | the output is lower-case words separated by single spaces, and its split words are exactly the kept words; an empty text cleans to "" |
| TextClean.CleanTextIdempotent | tfidf.py:9-17 | cleaning a cleaned text changes nothing |
| TextClean.DocumentText | tfidf.py:22-24 | the words of the `text` column are the cleaned title's words followed by the cleaned description's; none is a stop word |
| TermFreq.ComputeTf | tfidf.py:28-33 | one entry exactly per word of the document, each in (0, 1]; an empty document gives an empty map |
| TermFreq.TfCounts | tfidf.py:30-32 | each frequency times the number of words is the word's occurrence count |
| TermFreq.TfSumsToOne | tfidf.py:28-33 | the frequencies of a non-empty document add up to 1 |
| Idf.Vocabulary | tfidf.py:39 | a word is in the vocabulary exactly when some document's split contains it |
| Idf.DocFreq | tfidf.py:41 | the count of containing documents is at most the number of documents, and at least 1 exactly for vocabulary words |
| Idf.ComputeIdf | tfidf.py:36-43 | one entry exactly per vocabulary word, valued `ln(N / (1 + df))` with `1 <= df <= N`, so the denominator is never below 2 |
| Idf.IdfAntitone | tfidf.py:42 | for a monotone logarithm and a fixed N, a word found in more documents never gets a larger IDF |
| Idf.ComputeTfidf | tfidf.py:46-47 | the same words as the TF map, each weighted by its IDF |
| CategoryScores.DocTfidf | tfidf.py:59-61 | a document's TF-IDF has exactly the document's words as keys; its requirement that the IDF cover those words holds for every document of the category, so no lookup fails |
| CategoryScores.Add | tfidf.py:62 | `counter[w] += x`: a new word joins the end of the order, and only `w`'s count changes, by `x` |
| CategoryScores.UpdateOrder | tfidf.py:58-62 | a counter that has seen the words `p` lists, after an update with `ks`, the first occurrences of `p + ks` |
| CategoryScores.UpdateScore | tfidf.py:62 | updating with distinct keys adds each key's value to its count once and leaves other words alone |
| CategoryScores.CategoryTallyOrder | tfidf.py:58-62 | the category counter lists its words in order of first occurrence across the category's documents |
| CategoryScores.CategoryTallyScores | tfidf.py:58-62 | every word's count in the category counter equals the reference score: the sum over the documents of the word's TF-IDF |
| CategoryScores.TallySnoc | tfidf.py:59-62 | one more document adds its own TF-IDF for each word to that word's count |
| CategoryScores.CategoryScoreFactor | tfidf.py:56-62 | a word's category score is its IDF times its summed term frequency (a sum, not a mean) |
| CategoryScores.TfTotalBounds | tfidf.py:59-60 | the summed term frequency is non-negative, positive exactly for vocabulary words, and at most the word's document frequency |
| Ranking.InsertDesc | tfidf.py:64 | inserting behind all entries with at least the new score keeps the list descending, adds exactly that entry, and keeps the order within equal scores |
| Ranking.SortDesc | tfidf.py:64 | descending, a permutation of the input, and stable: within each score, the input order |
| Ranking.StableSortUnique | tfidf.py:64 | descending orders that agree within every score group are equal, so the stable sort's result is determined |
| Ranking.MostCommon | tfidf.py:64 | `min(n, len)` entries, descending, drawn from the input; an omitted entry scores no more than any kept one; within each score the kept entries are the earliest |
| Ranking.MostCommonDistinct | tfidf.py:64 | entries with distinct words keep distinct words |
| CategoryScores.TopWordsOfDocs | tfidf.py:55-64 | exactly `most_common(10)` of the reference ranking, so ties go to the earlier-seen word: at most ten distinct vocabulary words, best first, each with its reference score; an omitted word scores no more than any listed one; fewer than ten only when every vocabulary word is listed |
| CategoryScores.EntriesRanked | tfidf.py:58-62 | the counter's items, in insertion order, are the category's words in order of first occurrence, each with its reference score |
| CategoryScores.DocsOf | tfidf.py:55 | one document per row coded `c`, in row order, each the row's `text`; some exactly when a row carries the coding |
| CategoryScores.CodedRows | tfidf.py:55 | exactly the rows coded `c`, as an order-preserving subsequence of the rows |
| CategoryScores.CodedRowsCount | tfidf.py:55 | each row coded `c` is selected as many times as it occurs among the rows, and no other row is selected |
| CategoryScores.Categories | tfidf.py:51 | every coding that occurs, each exactly once, in order of each coding's first row |
| CategoryScores.TopWordsByCategory | tfidf.py:50-66 | one list per occurring coding, each category appearing once with the top-ten list of its own documents |
| CategoryScores.TopWordsByCategoryOrder | tfidf.py:51-64 | the categories, and so the keys of the resulting dictionary, come in order of each coding's first row |
| CategoryScores.TopWordsByCategoryLists | tfidf.py:54-64 | a category's list is the top-ten list of that category's own documents; a coding no row carries has no list |
| CategoryScores.TopWordsLocal | tfidf.py:55-56 | a row of another category changes neither a category's documents nor its list |

## Left out

- File and JSON I/O, CSV reading with pandas, `argparse`, and `main`/`process_json_files` beyond the list composition at clean_data.py:66-74. Operations take and return values instead.
- `save_top_words_to_json` and `print_top_words`: output formatting only.
- The other scripts of the repository (fetching, random selection, sentiment analysis, plotting, CSV conversion) are not part of this model.
- `math.log` is the parameter `ln`. Only monotonicity is ever assumed of it, and only by `Idf.IdfAntitone`.
- `ENGLISH_STOP_WORDS` is the parameter `english`. Its 318 entries are not listed.
- Floating-point arithmetic: frequencies, IDF values and scores are exact reals, so rounding and summation order are not modelled.
- Text.Lower and Text.IsWordChar: `lower()` and the regex class `\w` are modelled on ASCII only. Python also lower-cases and matches non-ASCII letters and digits.
- Whitespace is the set of `str.isspace()` on `str` values. It is also used for the regex class `\s`, which on `str` patterns matches the same characters.
- Values of the wrong type make the scripts raise: a JSON null title or source name, a NaN title or description in the CSV, a `source` that is not an object. The model has no such values. `None` stands for a missing key, and also for a JSON null author, which the code maps to `""`.
- Article fields the cleaning never reads live in an uninterpreted `others` map. They matter only when whole articles are compared (clean_data.py:72).
- Counter.most_common: modelled as the stable descending sort `sorted(..., key=score, reverse=True)[:n]` that CPython's `Counter.most_common` performs. `heapq.nlargest`, used when `n` is given, returns the same list, including how it orders ties.
- Idf.ComputeIdf: a category with one document gives `ln(1/2)`, a negative IDF. The model keeps that value as the code computes it. Ranking by a negative weight is taken as it is.
- Rows whose `coding` is empty (read as NaN by pandas) are not modelled: `coding` is a string here. In the code such a NaN still shows up in `df['coding'].unique()` (tfidf.py:51). But `df['coding'] == NaN` selects no row (tfidf.py:55), so the output gains an extra category whose list is empty.
