# TinySearchEngine core, modelled in Dafny

TinySearchEngine has three programs: a crawler, an indexer and a querier.
This project models the part of the indexer and the querier that does the
work:

- **Inverted index** (`common/index.c`). This is a map from word to a posting list (docID → count). The model covers:
  - creating an index and adding to it;
  - looking a word up;
  - the index file format, both the writer and the reader;
  - the query evaluator `index_search`. A query is a sequence of clauses separated by "or". A clause is a sequence of words; the optional "and" between them carries no weight. A clause scores the smallest count of its words, or 0 when one of its words is unknown. A document's score is the sum of its clause scores.
- **Tokenizer** (`common/word.c`). `parse_words` splits a line at white space with `strtok`.
- **Querier** (`querier/querier.c`). The model covers:
  - `parse_query`: lowercase in place, tokenize, check the syntax;
  - `verify_query`;
  - the merge sort (`mergeSort`/`merge`) over the parallel `scores`/`idxs` arrays;
  - which (score, docID) pairs `page_rank` shows, and in what order;
  - one pass of the `query` loop, joining these together.
- **Indexer** (`indexer/indexer.c`). `indexPage` skips short words, lowercases and adds. `indexBuild` hands out docIDs 1, 2, 3, … until the first missing page file.

Modules:

| module | file | contents |
|---|---|---|
| `CType` | `ctype.dfy` | `Option`; `isspace`, `isalpha`, `tolower` in the C locale; `strtok` (ISO/IEC 9899:2011 section 7.24.5.8) as the function `Tokens` and the method `Strtok` |
| `Word` | `word.dfy` | `parse_words` |
| `Scoring` | `scoring.dfy` | the index as a value (`Table`); the meaning of a query (`Score`) |
| `Codec` | `codec.dfy` | the index file: `%d` printing and `sscanf("%d")`, the line printer, the line reader, the load loop, the save/load round trip |
| `Index` | `index.dfy` | class `InvertedIndex`, whose `table` field the methods update in place |
| `Query` | `query.dfy` | `verify_query`, `parse_query` |
| `Ranker` | `ranker.dfy` | `mergeSort`/`merge` on two parallel arrays; `page_rank` |
| `Querier` | `querier.dfy` | one pass of the `query` loop |
| `Indexer` | `indexer.dfy` | `indexPage`, `indexBuild` |

In `index_search` (common/index.c:237-242), a word that is not in the index sets the running minimum to 0 and skips to the next "or". It leaves `init` alone. This makes no difference to any score, because the skip ends the clause.

A comment in the code itself (querier/querier.c:124) says that a query has fewer words than characters, and common/word.h:16 asks for a words array at least as long as the line. For a query of one non-white-space character (such as "a") the first is false, and the array then misses the slot for the terminator: see Findings.

`Indexer.IndexPage` lowercases each kept word in a character buffer with the same in-place loop as `parse_query` (`Query.LowerInPlace`), then adds it.

## Model

| member | source | states |
|---|---|---|
| CType.ToLower | querier/querier.c:287 | `tolower` leaves no upper-case letter, keeps letters letters, and changes nothing but 'A'..'Z' |
| CType.LowerIdempotent | indexer/indexer.c:197-202 | after lowercasing no upper-case letter is left, and lowercasing again changes nothing |
| CType.Tokens | common/word.c:23-27 | a line of n characters has at most (n + 1) / 2 `strtok` tokens |
| CType.TokWellFormed | common/word.c:23-27 | every token is non-empty and holds no delimiter |
| CType.TokConcat | common/word.c:23-27 | the tokens, put together, are exactly the line's non-delimiter characters, in order |
| CType.TokensSplit | common/word.c:23-27 | a delimiter splits the line: the tokens of `a`, delimiter, `b` are the tokens of `a` followed by those of `b`, so no token spans a delimiter |
| CType.TokensOfRun | common/word.c:23-27 | a non-empty stretch without delimiters is exactly one token, so a token is never cut inside a run of non-delimiters |
| CType.TokensOfJoin | common/index.c:108-119 | tokens joined by a delimiter split back into the same tokens |
| CType.Strtok | common/index.c:108-119 | one `strtok` call: NULL exactly when no token is left; otherwise it returns the next token, and the saved position moves past it |
| Word.WhitespaceIsSpace | common/word.c:20 | the delimiter string holds exactly the characters `isspace` accepts |
| Word.ParseWords | common/word.c:17-28 | `words[k]` is token k, NULL follows the last token, the counter grows by the number of tokens, and later slots are untouched |
| Word.TokensShape | common/word.c:20-27 | the stored words are non-empty, hold no white space, and together spell the line without its white space |
| Word.BlankLineHasNoTokens | common/word.c:23 | a line of only white space leaves `words[0]` NULL |
| Word.AsWrittenSlotsSufficeFromTwo | querier/querier.c:124-125 | `strlen(query)` slots hold the tokens and the terminator whenever the line has at least 2 characters |
| Word.AsWrittenSlotsOverflow | querier/querier.c:125 | the one-character query "a" needs 2 slots but gets 1 |
| Query.BadCharOfSpec | querier/querier.c:325-330 | the character check finds a character exactly when the word has a non-letter, and the character found is one |
| Query.FirstBadCharSpec | querier/querier.c:322-331 | the check over all words finds a character exactly when some word has a non-letter |
| Query.FirstAdjacentSpec | querier/querier.c:343-349 | the adjacency check finds a pair exactly when two neighbouring words are both operators, and returns such a pair |
| Query.VerifyAcceptsWellFormed | querier/querier.c:314-351 | `verify_query` accepts exactly the queries that have at least one word, only letters, no operator first or last, and no two operators side by side |
| Query.VerifyRejectionReason | querier/querier.c:317-349 | each rejection is justified: empty exactly when there are no words; a bad character lies in some word; an operator first or last; two neighbouring operators |
| Query.BadCharBeforeOperators | querier/querier.c:321-336 | the character check runs before the operator checks: "and dog2" is refused for '2' |
| Query.VerifyExamples | querier/querier.c:333-349 | "and dog", "dog or" and "dog and and cat" are refused; "dog and cat" and "dog or cat" are accepted |
| Query.VerifyLettersOnly | querier/querier.c:332-350 | once every character is a letter, the first, last and adjacency checks decide, in that order |
| Query.VerifyQuery | querier/querier.c:314-351 | the loops of `verify_query` over the NULL-terminated array give the verdict of `Verify` on the stored words |
| Query.CheckChars | querier/querier.c:325-330 | the character loop over one word returns its first non-letter, or none exactly when all are letters |
| Query.BadCharAt | querier/querier.c:325-330 | the first non-letter of a word is the one the loop stops at |
| Query.FirstBadCharAt | querier/querier.c:322-331 | the first word with a non-letter decides the bad character reported |
| Query.LowerInPlace | querier/querier.c:284-289 | the buffer afterwards is the lowercase form of the buffer before |
| Query.ParseQuery | querier/querier.c:280-310 | the line is lowercased in place; `words` holds its tokens and the terminator; the answer is true exactly when `verify_query` accepts them |
| Query.AcceptedWordsAreLowerLetters | querier/querier.c:284-300 | every word of an accepted query is non-empty, all letters, and lower-case |
| Query.TokensLower | querier/querier.c:284-294 | no token of a lowercased line has an upper-case letter |
| Scoring.CountsDetermineValid | common/index.c:190-202 | two indexes that keep the invariant and agree on every (word, docID) count are equal |
| Scoring.IndexOfOrFirst | common/index.c:229-240 | the first "or" is found: the position is it exactly when no "or" comes before and an "or" (or the end) is there |
| Scoring.TermsMembers | common/index.c:224-227 | a clause's weighted words are exactly its words other than "and" |
| Scoring.MinCountIsMin | common/index.c:244-253 | the running minimum is at most every word's count and equals one of them |
| Scoring.ClauseSnoc | common/index.c:222-256 | one more token adds a weighted word unless it is "and", and adds an unknown word exactly when it is one |
| Scoring.MinCountSnoc | common/index.c:250-253 | one more known word lowers the running minimum to its count when that is smaller |
| Scoring.RunningValue | common/index.c:257-258 | the running minimum at the end of a clause is the clause's value |
| Scoring.RunningStep | common/index.c:222-256 | "and" leaves the running state alone; an unknown word sets it to 0; a known word lowers the minimum, or starts it when `init` is false |
| Scoring.MissingStep | common/index.c:237-239 | a clause has an unknown word after one more token exactly when it had one before or the token is one |
| Scoring.MissingExtends | common/index.c:238-242 | an unknown word keeps its clause at 0 however far the clause extends |
| Scoring.ScoreOr | common/index.c:229-235 | the score of `p or s` is the score of `p` plus the score of `s` |
| Scoring.ScoreOfClause | common/index.c:222-259 | a query without "or" scores its single clause |
| Scoring.FlushClause | common/index.c:229-235 | the clauses before an "or" plus the clause that ends there make the score of the prefix |
| Scoring.CloseClause | common/index.c:229-259 | the closed clauses plus the running minimum make the score of the query read so far |
| Scoring.ScanOr | common/index.c:229-235 | at an "or" the running minimum is added to the closed clauses, and a new clause starts with no word seen |
| Scoring.ScanEnd | common/index.c:257-258 | at the end of the query, the closed clauses plus the running minimum are the document's score |
| Scoring.ClauseNonNegative | common/index.c:244-253 | a clause is worth at least 0 when no count is negative |
| Scoring.ScoreNonNegative | common/index.c:217-260 | no document's score is negative when no count is negative |
| Scoring.AndIsMin | common/index.c:224-253 | "a and b" scores min(count(a), count(b)) when both words are indexed |
| Scoring.UnknownWordZeroesClause | common/index.c:237-242 | an unknown word makes its clause worth 0 and leaves the other clauses alone |
| Index.Inserted | common/index.c:190-202 | one `index_add` raises the count of (w, docID) by 1 and changes no other count; w becomes a word of the index; the invariant is kept |
| Index.InsertedCommute | common/index.c:190-202 | two `index_add` calls give the same index in either order |
| Index.InvertedIndex.New | common/index.c:54-70 | NULL exactly when `size <= 0`, otherwise a fresh, empty index |
| Index.InvertedIndex.Find | common/index.c:181-185 | the word's posting list when the word is present, NULL (None) exactly when it is absent; reads the index only |
| Index.InvertedIndex.Add | common/index.c:190-202 | a new word gets `{docID: 1}`; a present word's count for docID grows by exactly 1; every other word and docID is unchanged; the invariant is kept |
| Index.InvertedIndex.Search | common/index.c:207-261 | slot d grows by the query's score for docID d + 1, for every d below `numDocs`; other slots are unchanged |
| Index.InvertedIndex.SearchDoc | common/index.c:218-259 | one document's pass adds exactly that document's score to its slot |
| Index.InvertedIndex.ScanToken | common/index.c:222-256 | one token of the scan keeps the scan invariant: closed clauses plus running minimum describe the prefix read |
| Index.InvertedIndex.ScanWord | common/index.c:223-255 | a token other than "or" extends the current clause and keeps the scan invariant |
| Index.InvertedIndex.SkipClause | common/index.c:240-242 | the skip stops at the next "or" or at the end, passing no "or" |
| Index.InvertedIndex.Load | common/index.c:97-140 | the table afterwards is the old table with every line of the file inserted in order |
| Index.InvertedIndex.ReadPairs | common/index.c:115-126 | the pair loop stores the tokens after the word two at a time, skipping a pair with a negative docID or count; an odd token at the end is ignored |
| Codec.ShowNat | common/index.c:169 | `%d` of a natural number is a non-empty string of digits |
| Codec.ShowInt | common/index.c:169 | `%d` prints a non-empty string of digits and a sign |
| Codec.DigitPrefix | common/index.c:121-122 | the longest prefix of digits: all digits, and the next character is not one |
| Codec.SkipSpace | common/index.c:121-122 | `sscanf` skips white space: what is left is empty or starts with a non-space |
| Codec.ShowNatValue | common/index.c:169 | the printed digits have the number's value |
| Codec.ScanShowInt | common/index.c:121-122 | `sscanf("%d")` of what `%d` printed gives the number back |
| Codec.IndexOfNewline | common/index.c:106 | the line reader stops at the first newline |
| Codec.ReadLinesCons | common/index.c:106 | a line without a newline, followed by one, is read back as that line |
| Codec.PairsTextTokens | common/index.c:165-170 | the printed pairs are the pair tokens, each after a space |
| Codec.ScanPairTokens | common/index.c:119-126 | reading printed pairs back stores each pair in order |
| Codec.ParsePrintedLine | common/index.c:108-126 | the printed line of a word parses back to the word and the same pairs, when no docID or count is negative and the word is non-empty and holds no space or newline |
| Codec.InsertAllListing | common/index.c:125 | storing a listing of distinct docIDs rebuilds exactly those docIDs with those counts |
| Codec.PostingsRoundTrip | common/index.c:119-126 | a posting list printed in any order loads back to the same posting list |
| Codec.ReadSavedLines | common/index.c:154-163 | the reader splits the saved file into exactly one line per word |
| Codec.NoNewlineInLine | common/index.c:158-162 | a word's line holds no newline before its end |
| Codec.EntriesTableKeys | common/index.c:128 | the loaded words are exactly the saved words |
| Codec.LoadSavedLines | common/index.c:106-132 | loading the saved lines inserts each word with its posting list |
| Codec.EntriesTableValues | common/index.c:128 | each loaded word carries its saved posting list |
| Codec.EntryOfIndex | common/index.c:125-128 | each word of the index loads with its own posting list |
| Codec.EntriesTableIsIndex | common/index.c:154-170 | a saved listing of the index describes exactly the index |
| Codec.SaveLoadRoundTrip | common/index.c:75-140 | loading what `index_save` wrote gives back the same word → docID → count map, in whatever order the hash table and counters were visited, for every index with no negative docID or count (the only ones `counters` can hold) and whose words are non-empty and hold no space or newline |
| Codec.ScanPairsStorable | common/index.c:119-126 | the pair loop stores only pairs `counters_set` accepts: no negative docID or count |
| Codec.LoadLinesStorable | common/index.c:97-140 | loading any lines into an index without negative docIDs or counts keeps it so |
| Codec.LoadedNonNegative | common/index.c:97-140 | the index loaded from any file has no negative count, so `Querier.QueryScoresNonNegative` applies to it |
| Ranker.Merge | querier/querier.c:254-274 | the merge has as many entries as both halves |
| Ranker.MergePerm | querier/querier.c:254-274 | the merge loses and invents no entry |
| Ranker.MergeSorted | querier/querier.c:254-274 | merging two sorted halves gives a sorted sequence |
| Ranker.MergeFilter | querier/querier.c:255 | on a tie the left entry goes first, so the entries of each score keep their order |
| Ranker.FilterAppend | querier/querier.c:241-248 | the entries of score v in two parts are those of the first part, then those of the second |
| Ranker.Sort | querier/querier.c:214-225 | the sort keeps the number of entries |
| Ranker.SortPerm | querier/querier.c:214-225 | the sort is a permutation of its input |
| Ranker.SortSorted | querier/querier.c:214-225 | the sort orders its input by score, ascending |
| Ranker.SortStable | querier/querier.c:214-275 | the sort is stable: the entries of each score keep their relative order |
| Ranker.MergeLex | querier/querier.c:254-266 | merging two halves with lower docIDs on the left keeps the (score, docID) order |
| Ranker.LeftHeadFirst | querier/querier.c:255-259 | when the left head is taken, it comes before all that follows in (score, docID) order |
| Ranker.RightHeadFirst | querier/querier.c:260-264 | when the right head is taken, it comes before all that follows in (score, docID) order |
| Ranker.SortLex | querier/querier.c:159-165 | with docIDs numbered consecutively, the sort orders by score and, among equal scores, by docID |
| Ranker.MergeAdvance | querier/querier.c:254-266 | one step of the merge loop writes the smaller head (the left on a tie), and the rest to write is the merge of the rest |
| Ranker.MergeHalves | querier/querier.c:230-275 | slots l..r hold the merge of the old slots l..m and m + 1..r; other slots are unchanged |
| Ranker.CopyOut | querier/querier.c:241-248 | the temporary arrays hold the segment's scores and docIDs |
| Ranker.MergeBack | querier/querier.c:251-274 | the three write-back loops put the merge into slots l..r and touch nothing else |
| Ranker.MergeHeads | querier/querier.c:254-266 | the first loop writes the merge's prefix until one half is used up |
| Ranker.CopyTail | querier/querier.c:267-274 | each tail loop writes the rest of its half as the merge continues |
| Ranker.SortStep | querier/querier.c:217-224 | sorting both halves in place and merging them sorts the segment, leaving other slots alone |
| Ranker.MergeSort | querier/querier.c:214-225 | slots l..r are sorted by score (the same permutation as `Sort`), docIDs move along, and other slots are unchanged |
| Ranker.Numbered | querier/querier.c:159-163 | before the sort, slot d pairs the score with docID d + 1 |
| Ranker.SortedPairs | querier/querier.c:165 | the sort keeps the number of entries |
| Ranker.SortedPairsSpec | querier/querier.c:159-165 | after the sort, the pairs are the numbered scores, ordered by score and, among equal scores, by docID |
| Ranker.WalkSpec | querier/querier.c:174-206 | the printing loop takes slots i, i - 1, … while positive, and on sorted pairs that is every positive slot up to i |
| Ranker.TopIsMax | querier/querier.c:165-168 | the top slot after the sort holds the largest score |
| Ranker.RankNoMatch | querier/querier.c:167-171 | "No documents match" exactly when there are no documents or the largest score is 0 |
| Ranker.RankOrder | querier/querier.c:174-206 | the documents are shown from the highest score down, and equal scores from the highest docID down |
| Ranker.RankMembers | querier/querier.c:156-206 | the documents shown are exactly those of positive score, each with its own score |
| Ranker.WalkExactly | querier/querier.c:182-206 | on a sorted rearrangement, the walk from the top takes exactly the entries of positive score |
| Ranker.WalkedFrom | querier/querier.c:182 | every walked entry has positive score and is an input entry |
| Ranker.PositiveWalked | querier/querier.c:182-205 | every entry of positive score is walked |
| Ranker.PageRank | querier/querier.c:156-209 | the result is `Rank` of the scores, and the array afterwards holds the sorted scores |
| Ranker.NumberDocs | querier/querier.c:159-163 | a fresh `idxs` numbered 1..size |
| Ranker.WalkDown | querier/querier.c:174-206 | the printed pairs are the walk down from the top slot |
| Ranker.AsWrittenWalkReadsBelow | querier/querier.c:182 | the guard as written reads slot -1 exactly when every slot down to 0 is positive |
| Ranker.AsWrittenReadsOutside | querier/querier.c:166-182 | as written, `page_rank` reads outside the array exactly when there are no documents, or when the top score is not 0 and every score is positive |
| Ranker.AsWrittenReadsExamples | querier/querier.c:166-182 | no documents reads slot -1; one document of score 3 reads slots 0, 0, -1 |
| Ranker.WalkReadsWithin | querier/querier.c:182 | with `i >= 0` checked first, the walk reads only slots 0..i |
| Ranker.ReadsWithin | querier/querier.c:167-182 | with the empty case checked first and the guard reordered, every slot read is inside the array |
| Querier.QueryScores | querier/querier.c:136-141 | one score per document |
| Querier.QueryScoresNonNegative | querier/querier.c:136-141 | in an index with no negative count, every document scores at least 0 |
| Querier.SlotsSuffice | querier/querier.c:125 | one slot per character plus one for the terminator holds the tokens and the terminator of any line |
| Querier.ScoreAll | querier/querier.c:136-141 | the scores array holds, for each document, 0 plus the query's score |
| Querier.Answer | querier/querier.c:122-143 | the line is lowercased. An empty or refused query gives nothing; an accepted one gives `Rank` of the documents' query scores |
| Indexer.Occurrences | indexer/indexer.c:189-206 | a word occurs in a page at most as often as the page has words, and only if it is lower-case with at least 3 characters |
| Indexer.PageAddedCounts | indexer/indexer.c:182-210 | after `indexPage`, each (w, docID) count has grown by the page words of length ≥ 3 whose lowercase form is w; other documents' counts are unchanged; the new words are exactly those that occur |
| Indexer.PageSkips | indexer/indexer.c:190-202 | a word shorter than 3 characters, or one with an upper-case letter, never reaches the index |
| Indexer.PageAddedValid | indexer/indexer.c:182-210 | `indexPage` keeps the index invariant |
| Indexer.IndexPage | indexer/indexer.c:182-210 | the index afterwards is the old index with the page's kept words added under docID, in order |
| Indexer.PagesBelowBound | indexer/indexer.c:112 | a directory holding pages 1..n has at least n pages, so the docID loop ends |
| Indexer.FirstMissingFrom | indexer/indexer.c:112-174 | the first docID from k up that names no page: every docID before it names one |
| Indexer.FirstMissing | indexer/indexer.c:79-168 | `indexBuild` stops at the first docID from 1 up with no page file; every docID before it has one |
| Indexer.Built | indexer/indexer.c:111-174 | before the first page (docID 1) nothing has been added; its counts are stated by `BuiltCount` |
| Indexer.BuiltCount | indexer/indexer.c:79-174 | after `indexBuild`, each (w, d) count has grown by w's occurrences in page d for docIDs 1..n - 1, and by nothing for any other docID |
| Indexer.BuiltValid | indexer/indexer.c:79-174 | `indexBuild` keeps the index invariant |
| Indexer.InsertedSavable | common/index.c:190-202 | one `index_add` of a letter word under a docID of at least 0 keeps every word savable and every docID and count non-negative |
| Indexer.PageAddedSavable | indexer/indexer.c:182-210 | `indexPage` of a page of letter words keeps the index within what the index file format carries |
| Indexer.BuiltSavable | indexer/indexer.c:75-177 | `indexBuild` over pages of letter words keeps the index within what the index file format carries |
| Indexer.BuildSaveLoad | indexer/indexer.c:75-177 | the index `indexBuild` makes from pages of letter words, saved in any order, loads back to the same index |
| Indexer.IndexBuild | indexer/indexer.c:75-177 | the index afterwards is the old index with pages 1, 2, … added in turn under their docIDs, up to the first missing page |

## Left out

- Files, standard input and output, and `isatty` are left out. A page directory is a map from docID to the words of the page. An index file is a string, and a query line is a character array. The printed messages are not modelled; `page_rank` returns what it would show.
- Reading a page file into words is left out. `webpage_getNextWord` and the HTML reading in `indexBuild` (indexer/indexer.c:116-161) are not part of this model; a page is given as its sequence of words.
- The URL read and `fopen` per document in `page_rank` (querier/querier.c:183-204) are left out. A missing document file prints a different line for that docID; the model shows every walked entry the same way.
- The crawler, `common/pagedir.c`, the `main` functions, the argument checks and `num_docs_crawled` are left out. They are I/O or command-line handling. The number of documents is a parameter.
- `index_delete`, `mem_malloc` and `free` are left out. Memory is managed by Dafny.
- libcs50 is not part of this model. `hashtable` and `counters` are maps, with no buckets or hash function. Its documented contract is kept: `counters_add` and `counters_set` refuse a negative key or count (`Codec.CounterSetAccepts`). `hashtable_iterate` and `counters_iterate` visit in an order the saver takes as a parameter. `hashtable_insert` refuses a word already present, so the first line of a word wins on load.
- Index.InvertedIndex.Add: requires `docID >= 0` and always succeeds. libcs50's `counters_add` refuses negative keys, and every caller passes a docID of at least 1.
- Index.InvertedIndex.Load: an empty line parses to no word and inserts nothing. A `sscanf` that reads no number leaves the previous value, a pair before any value was read is not stored, and a pair with a negative docID or count is ignored as `counters_set` ignores it. The model uses `Option` for "never assigned", because the C variable would be uninitialised.
- Characters are Dafny `char` values, not C bytes. `strlen`, `isalpha`, `isspace` and `tolower` are modelled on the characters the C locale classifies; a byte of a multi-byte encoding is not modelled, and for ASCII input the two agree.
- Word.ParseWords, Query.ParseQuery, Querier.Answer: the tokens are kept as separate string values, not as pointers into the line. The NUL characters `strtok` writes over the delimiter after each token are not modelled. So the buffer these contracts state is the buffer after the lowercasing loop; the C buffer also has those delimiters overwritten ("Dog cat" ends as "dog", NUL, "cat"). common/word.h:22 says the original string is unchanged, which `strtok` contradicts.
- Codec.SaveLoadRoundTrip, Codec.ParsePrintedLine: the round trip needs every word to be non-empty and free of spaces and newlines. `index_itr` prints the word with `%s`, so a word "a b" would load back as "a", and an empty word would let the first docID be read as the word. libcs50's `webpage_getNextWord` yields only runs of letters, so the indexer's words meet this. The model's `Indexer.IndexPage` accepts any string as a page word, so it can build an index outside the round trip; `Indexer.BuildSaveLoad` covers pages of letter words.
- C `int` overflow is not modelled. Counts, scores and docIDs are unbounded integers; a 32-bit count or score sum that wraps is out of scope.

## Findings

| source | as written | input that shows it | evidently intended | confidence | as-written member | corrected member |
|---|---|---|---|---|---|---|
| querier/querier.c:125 | `char* words[strlen(query)]` gives one slot per character. `parse_words` needs one per token plus the NULL terminator | the one-character query "a": one token and a terminator need 2 slots, but 1 is allocated, so the terminator is written past the array | one slot per character plus one (`strlen(query) + 1`) | high; not executed | Word.AsWrittenSlotsOverflow | Querier.Answer |
| querier/querier.c:182 | `while (scores[i] > 0 && i >= 0)` reads `scores[i]` before testing `i >= 0` | every score positive, for example one document of score 3: the loop reads slot 0, then slot -1 | test `i >= 0` first | high; not executed | Ranker.AsWrittenReadsOutside | Ranker.ReadsWithin |
| querier/querier.c:168 | `scores[size-1]` is read even when `size` is 0 | a page directory with no documents (`numDocs` = 0): slot -1 is read | an empty document set is "No documents match" | high; not executed | Ranker.AsWrittenReadsExamples | Ranker.PageRank |
