# Inverted index and Stack Overflow analytics, modelled in Dafny

This project models the core of two small command-line tools.

**HW1: the inverted index.**
- `build_inverted_index` maps each whitespace-delimited term of a document collection to the set of ids of the documents that contain it.
- `InvertedIndex.query` is the conjunctive (AND) query over that map.
- `BinaryStoragePolicy.dump`/`load` store the map in a big-endian binary file.
  - A `>i` term count comes first.
  - Then each term follows as a `>H` byte length, the term's UTF-8 octets, a `>H` id count and `>H` ids.

**HW2: the Stack Overflow analytics tool.**
- Parsed posts are filtered into questions.
  - Only post type 1 with every attribute present and a non-empty title is kept.
  - Stop words are removed from the title.
- For each `(from, to, amount)` request, every distinct title word of each question whose year lies in `[from, to]` gets that question's score added.
- The word/score pairs are sorted by descending score, then by ascending word. The first `amount` of them are returned.

Modules, one per file:

| file | module | models |
|---|---|---|
| `wrappers.dfy` | `Wrappers` | `Option` and `Result` with early return |
| `seqs.dfy` | `Seqs` | the element set of a sequence, duplicate-freedom |
| `bytes.dfy` | `Bytes` | `struct` fields `>H`, `>i` and `>NH` |
| `utf8.dfy` | `Utf8` | `str.encode()` and strict `bytes.decode()` (UTF-8) |
| `tokenizer.dfy` | `Tokenizer` | argument-less `str.split()` |
| `inverted_index.dfy` | `InvertedIndex` | index building and the AND query |
| `binary_storage.dfy` | `BinaryStorage` | the binary dump/load codec |
| `word_order.dfy` | `WordOrder` | Python's `str` ordering |
| `questions.dfy` | `Questions` | post filtering and stop-word removal |
| `scoring.dfy` | `Scoring` | the per-request score dictionary |
| `ranking.dfy` | `Ranking` | sorting, cutting and the reply of each request |

Where Python leaves an order unspecified, the order is an explicit parameter.
- `Query` takes `order`, the iteration order of the set of known query terms.
- `Encode` takes `entries`, the items of the map in iteration order. Each posting set is listed as a sequence in the order the set yields it; `BinaryStorage.Enumerates` says when `entries` lists an index.

A Python dict is insertion-ordered, so the score dictionary of HW2 is an association list that keeps first-insertion order.

Behaviour that follows the code:
- The ids of a posting set are written in set-iteration order, not sorted.
- `load` reads no terms when the stored count is negative, because `range` of a negative number is empty.
- `load` ignores octets after the last term.
- A term stored twice keeps the posting set read last.
- A title made only of stop words is kept, with no words, because the stop-word filter runs after the empty-title check.
- A negative `amount` drops that many items from the end, as `list[:amount]` does.

## Model

| member | source | states |
|---|---|---|
| InvertedIndex.AddTerms | HW1/task_Margasov_Arsenii_inverted_index.py:287-288 | adding a document's terms adds exactly its terms as keys, and puts the document's id into the posting sets of those terms only |
| InvertedIndex.BuildCorrect | HW1/task_Margasov_Arsenii_inverted_index.py:283-288 | id `d` is in the posting set of `w` iff `w` is a term of a document with id `d`; `w` is a key iff some document contains it |
| InvertedIndex.BuildMatchesTerms | HW1/task_Margasov_Arsenii_inverted_index.py:283-288 | the same, with the terms given as the maximal whitespace-free runs of each text rather than by the tokenizer |
| InvertedIndex.BuildPostingsNonEmpty | HW1/task_Margasov_Arsenii_inverted_index.py:283-288 | every key of a built index has a non-empty posting set |
| InvertedIndex.AddTermsIgnoresRepeats | HW1/task_Margasov_Arsenii_inverted_index.py:287-288 | a term repeated within a document adds the id once: two term lists with the same elements give the same index |
| InvertedIndex.BuildBlankDocument | HW1/task_Margasov_Arsenii_inverted_index.py:283-288 | a document whose text is empty or all whitespace adds no key and no id |
| InvertedIndex.BuildOrderIrrelevant | HW1/task_Margasov_Arsenii_inverted_index.py:284 | the order in which the documents are visited does not change the index |
| InvertedIndex.QueryNoWords | HW1/task_Margasov_Arsenii_inverted_index.py:203-206 | an empty query returns no ids |
| InvertedIndex.QueryUnknownTerm | HW1/task_Margasov_Arsenii_inverted_index.py:203-206 | a query with a term that is not a key returns no ids, never a partial intersection |
| InvertedIndex.QueryIsIntersection | HW1/task_Margasov_Arsenii_inverted_index.py:207-213 | when the posting sets of all query terms share an id, the answer is exactly their intersection, for every iteration order |
| InvertedIndex.QuerySingleTerm | HW1/task_Margasov_Arsenii_inverted_index.py:207-213 | a query with one distinct known term returns exactly that term's posting set |
| InvertedIndex.QueryWithinLast | HW1/task_Margasov_Arsenii_inverted_index.py:207-213 | every returned id lies in the posting set of the last term the loop visits |
| InvertedIndex.QueryReseedCounterexample | HW1/task_Margasov_Arsenii_inverted_index.py:209-212 | for the posting sets a:{1}, b:{2}, c:{2} the intersection is empty, yet visiting a, b, c returns {2} |
| InvertedIndex.QueryOrderCounterexample | HW1/task_Margasov_Arsenii_inverted_index.py:207-213 | on the same index, visiting b, c, a returns the empty set, so the answer depends on set-iteration order |
| InvertedIndex.AndFold | HW1/task_Margasov_Arsenii_inverted_index.py:207-212 | intersecting without re-seeding keeps exactly the ids of the accumulator found under every remaining term |
| InvertedIndex.AndQuery | HW1/task_Margasov_Arsenii_inverted_index.py:203-213 | the corrected query returns `d` iff the query is non-empty and every query term is a key whose posting set holds `d` |
| InvertedIndex.QueryAgreesWithAndQuery | HW1/task_Margasov_Arsenii_inverted_index.py:203-213 | the query as written equals the corrected one when the corrected answer is non-empty or a term is unknown |
| Tokenizer.RunLength | HW1/task_Margasov_Arsenii_inverted_index.py:286 | the first term of a text ends at the first whitespace character, or at the end of the text |
| Tokenizer.SplitSound | HW1/task_Margasov_Arsenii_inverted_index.py:286 | every token `str.split()` yields is a maximal whitespace-free run of the text |
| Tokenizer.SplitComplete | HW1/task_Margasov_Arsenii_inverted_index.py:286 | every maximal whitespace-free run of the text is among the tokens |
| Tokenizer.SplitIsTerms | HW1/task_Margasov_Arsenii_inverted_index.py:286 | `w` is a token iff it is a maximal whitespace-free run of the text |
| Tokenizer.SplitEmpty | HW1/task_Margasov_Arsenii_inverted_index.py:286 | a text has no tokens iff it is empty or all whitespace |
| Bytes.BE16 | HW1/task_Margasov_Arsenii_inverted_index.py:107 | a `>H` field is two octets that read back as the value written |
| Bytes.BE32 | HW1/task_Margasov_Arsenii_inverted_index.py:103 | a `>i` field of a non-negative count is four octets that read back as the count |
| Bytes.ReadI32 | HW1/task_Margasov_Arsenii_inverted_index.py:125-126 | a `>i` read lies in the 32-bit signed range and is negative iff the top bit of the first octet is set |
| Bytes.ReadU16sBE16s | HW1/task_Margasov_Arsenii_inverted_index.py:110 | reading back a `>NH` run gives the ids written, in order |
| Utf8.Encode | HW1/task_Margasov_Arsenii_inverted_index.py:105 | a string encodes to between one and four octets per character |
| Utf8.DecodeEncode | HW1/task_Margasov_Arsenii_inverted_index.py:105 | strict decoding of an encoded string gives the string back |
| Utf8.DecodeCanonical | HW1/task_Margasov_Arsenii_inverted_index.py:132 | octets that decode are the encoding of their decoding, so no second spelling of a term is accepted |
| BinaryStorage.EncodePosting | HW1/task_Margasov_Arsenii_inverted_index.py:105-110 | writing one term succeeds iff its encoded length, its id count and each of its ids fit a `>H` field |
| BinaryStorage.RecordLayout | HW1/task_Margasov_Arsenii_inverted_index.py:107-110 | a term record holds its `>H` length, the term octets, the `>H` count and the `>H` ids at their offsets, `4 + L + 2C` octets in all |
| BinaryStorage.EncodePostingsSpec | HW1/task_Margasov_Arsenii_inverted_index.py:104-110 | writing the terms succeeds iff every term fits, and then takes the sum of the record sizes |
| BinaryStorage.EncodeLayout | HW1/task_Margasov_Arsenii_inverted_index.py:102-110 | a file is `4 + Σ(4 + L + 2C)` octets and its first four octets read as the term count |
| BinaryStorage.EncodeSucceedsIff | HW1/task_Margasov_Arsenii_inverted_index.py:102-110 | dumping an index succeeds iff it has at most 2^31-1 terms and every term's length, count and ids fit 0..65535, whatever the iteration order |
| BinaryStorage.ReadPostingEncoded | HW1/task_Margasov_Arsenii_inverted_index.py:128-136 | reading a written term record gives back the term and its ids, and leaves the octets after it |
| BinaryStorage.ReadPostingTruncated | HW1/task_Margasov_Arsenii_inverted_index.py:128-136 | reading any proper prefix of a term record fails as truncated |
| BinaryStorage.DecodePostingsEncoded | HW1/task_Margasov_Arsenii_inverted_index.py:127-137 | reading back the written records stores each term's id set, later terms overriding earlier ones |
| BinaryStorage.DecodePostingsTruncated | HW1/task_Margasov_Arsenii_inverted_index.py:127-136 | reading the records from any proper prefix of their octets fails as truncated |
| BinaryStorage.InsertAllSpec | HW1/task_Margasov_Arsenii_inverted_index.py:137 | with distinct terms, every term read maps to its id set and every other key is untouched |
| BinaryStorage.InsertAllEnumeration | HW1/task_Margasov_Arsenii_inverted_index.py:137 | storing the items of an index, listed in any iteration order, rebuilds that index |
| BinaryStorage.EnumerationSizes | HW1/task_Margasov_Arsenii_inverted_index.py:102-110 | the items of an index number as many as its keys, and each lists as many ids as its posting set holds |
| BinaryStorage.DecodeEncoded | HW1/task_Margasov_Arsenii_inverted_index.py:113-139 | loading a dumped file, with any octets appended, stores every written term with its id set |
| BinaryStorage.RoundTrip | HW1/task_Margasov_Arsenii_inverted_index.py:102-139 | an index whose fields all fit dumps without error, and loading the dump, with any octets appended, gives back the same keys with the same id sets |
| BinaryStorage.DecodeTruncated | HW1/task_Margasov_Arsenii_inverted_index.py:125-136 | loading any proper prefix of a dumped file fails as truncated |
| BinaryStorage.DecodeNegativeCount | HW1/task_Margasov_Arsenii_inverted_index.py:126-127 | a file whose count field is negative loads as the empty index |
| BinaryStorage.DecodeShort | HW1/task_Margasov_Arsenii_inverted_index.py:125-126 | a file shorter than its count field fails as truncated |
| WordOrder.WordLeReflexive | HW2/task_Margasov_Arsenii_stackoverflow_analytics.py:88 | every word compares `<=` to itself |
| WordOrder.WordLeAntisymmetric | HW2/task_Margasov_Arsenii_stackoverflow_analytics.py:88 | two words that are each `<=` the other are equal |
| WordOrder.WordLeTransitive | HW2/task_Margasov_Arsenii_stackoverflow_analytics.py:88 | the word order is transitive |
| WordOrder.WordLeTotal | HW2/task_Margasov_Arsenii_stackoverflow_analytics.py:88 | any two words are comparable |
| Questions.RemoveStopWords | HW2/task_Margasov_Arsenii_stackoverflow_analytics.py:71 | every non-stop word keeps its number of occurrences, and every stop word has none |
| Questions.ExtractKeeps | HW2/task_Margasov_Arsenii_stackoverflow_analytics.py:62-75 | a post is kept iff it has type 1, a score, a year and a title of at least one token; it keeps its year and score, and holds exactly the title's non-stop words |
| Questions.StopWordTitleKept | HW2/task_Margasov_Arsenii_stackoverflow_analytics.py:69-73 | a title made only of stop words is kept, with no words |
| Questions.Filter | HW2/task_Margasov_Arsenii_stackoverflow_analytics.py:60-75 | there are no more questions than posts, and no stop word is in any question |
| Questions.FilterIsKeptPosts | HW2/task_Margasov_Arsenii_stackoverflow_analytics.py:60-75 | a question is in the result iff some post yields it |
| Questions.FilterAppend | HW2/task_Margasov_Arsenii_stackoverflow_analytics.py:60-75 | the questions of two runs of posts are those of the first run followed by those of the second, so the result keeps the posts' order |
| Questions.FilterSingle | HW2/task_Margasov_Arsenii_stackoverflow_analytics.py:60-75 | one post yields exactly its own question, or nothing when it is skipped; with `Questions.FilterAppend` this fixes the result's order and multiplicity |
| Questions.FilterCount | HW2/task_Margasov_Arsenii_stackoverflow_analytics.py:60-75 | each question occurs in the result as many times as posts yield it, so two equal posts are both scored |
| Scoring.Bump | HW2/task_Margasov_Arsenii_stackoverflow_analytics.py:86 | `words_scores[word] += score` adds the score to that word alone, and the word becomes a key |
| Scoring.AddWordsSpec | HW2/task_Margasov_Arsenii_stackoverflow_analytics.py:83-87 | one question adds its score once to each distinct title word, however often the word repeats |
| Scoring.ScoresCorrect | HW2/task_Margasov_Arsenii_stackoverflow_analytics.py:78-87 | a word is a key iff an in-range question holds it; its score is the sum of the scores of the in-range questions holding it |
| Scoring.InRangeOnly | HW2/task_Margasov_Arsenii_stackoverflow_analytics.py:82 | the kept questions are all in `[from, to]`, and each in-range question is kept as often as it occurs |
| Scoring.OnlyInRangeCounts | HW2/task_Margasov_Arsenii_stackoverflow_analytics.py:81-82 | questions outside `[from, to]` do not change the scores |
| Scoring.EmptyTitleContributesNothing | HW2/task_Margasov_Arsenii_stackoverflow_analytics.py:81-87 | a question with no words changes no score |
| Ranking.KeyLeTotal | HW2/task_Margasov_Arsenii_stackoverflow_analytics.py:88 | any two items are ordered by the key `(-score, word)` |
| Ranking.KeyLeAntisymmetric | HW2/task_Margasov_Arsenii_stackoverflow_analytics.py:88 | two items with the same key are the same item |
| Ranking.Insert | HW2/task_Margasov_Arsenii_stackoverflow_analytics.py:88 | inserting into a sorted list keeps it sorted and adds exactly that item |
| Ranking.Sort | HW2/task_Margasov_Arsenii_stackoverflow_analytics.py:88 | the result is ordered by score descending, then word ascending, and is a permutation of the items |
| Ranking.SortedUnique | HW2/task_Margasov_Arsenii_stackoverflow_analytics.py:88 | two sorted arrangements of the same items are equal |
| Ranking.AnswerLength | HW2/task_Margasov_Arsenii_stackoverflow_analytics.py:88-89 | the reply has `min(amount, number of scored words)` items, and for a negative amount that many fewer |
| Ranking.AnswerIsPrefix | HW2/task_Margasov_Arsenii_stackoverflow_analytics.py:88 | the reply is sorted, and is the front of every sorted arrangement of the scores |
| Ranking.AnswerScores | HW2/task_Margasov_Arsenii_stackoverflow_analytics.py:81-88 | each reply word is distinct, is held by an in-range question, and carries the sum of those questions' scores |
| Ranking.AnswerIsTop | HW2/task_Margasov_Arsenii_stackoverflow_analytics.py:88 | a scored word left out of the reply ranks after every word in it |
| Ranking.Report | HW2/task_Margasov_Arsenii_stackoverflow_analytics.py:77-91 | there is one reply per request, in request order; each echoes its range, and its top list depends only on the questions and that request, never on earlier requests |
| Ranking.AnalyticsNoStopWords | HW2/task_Margasov_Arsenii_stackoverflow_analytics.py:71 | no stop word appears in any reply |

## Left out

- Command-line parsing, the `callback_*` and `process_*` drivers, `main` and `setup_parser`: these are argument and file plumbing.
- Reading and writing files, stdin and stdout: the codec works on octet sequences. The partly written file that a failed dump leaves behind is not modelled. `Encode` returns only the error.
- `load_documents` of both tools: file reading. Documents are given as `(id, text)` pairs after `int(idx)`. Questions are given as parsed posts, requests as parsed triples.
- `EncodedFileType`: argparse file opening.
- The `StoragePolicy` base class and the commented-out `JsonStoragePolicy`: they are never used.
- Logging, the stderr messages and the "not enough data" warning of HW2: these are output only.
- XML parsing with lxml, CSV reading, the `\w+` regex, `.lower()`, year extraction with `int(...[:4])` and JSON output.
  - A post is modelled with each attribute optional; a missing attribute stands for the `IndexError` branch.
  - The title is already tokenised and lower-cased.
  - A `ValueError` from `int()` on a malformed attribute is not modelled.
- `InvertedIndex.__eq__` compares the value lists in iteration order. The model uses equality of maps from terms to id sets instead, which is what the comparison is meant to decide.
- The `isinstance` assertion in `query`: the model's query always receives a sequence of terms.
- `query` returns `list(relevant_ids)` in set order. The model returns the set; the list has no duplicates, and its order is not modelled.
- The index is never modified by a query. In the model this holds by construction, since every operation is a pure function.
- Strings holding lone surrogates: a Dafny `char` is a Unicode scalar value. So the `UnicodeEncodeError` that `encode()` raises on such a term does not arise.
- Bytes.ReadI32: states only the signed range and when the value is negative. That a written count reads back exactly is `Bytes.BE32`.
- Utf8.Encode: states only the length bounds. The content is pinned down by `Utf8.DecodeEncode` and `Utf8.DecodeCanonical`.
- Questions.Filter: states only the size bound and the absence of stop words. Which questions it yields, how often and in what order is stated by `Questions.FilterIsKeptPosts`, `Questions.FilterCount`, `Questions.FilterAppend` and `Questions.FilterSingle`.

## Findings

| source | as written | input that shows it | evidently intended | confidence | as-written member | corrected member |
|---|---|---|---|---|---|---|
| HW1/task_Margasov_Arsenii_inverted_index.py:209-212 | when the intersection so far becomes empty, the next term's posting set re-seeds it | index a:{1}, b:{2}, c:{2} and query [a, b, c], visited in that order: the answer is {2}, though no document holds all three terms; visited as b, c, a the answer is {} | an AND query returns the ids found under every query term, independent of iteration order | not executed; follows from the loop's `len(relevant_ids) == 0` test | InvertedIndex.QueryReseedCounterexample | InvertedIndex.AndQuery |
