# A verified model of the core of a small C search engine

The system is a three-stage search engine over a web site:

- the **crawler** fetches pages breadth-first from a seed URL, down to a given depth;
- the **indexer** builds an inverted index (word → list of (document, frequency) postings) and saves it as text;
- the **query engine** reads the index back, parses a query line of keywords separated by `OR`, and ranks the documents.

All three stages share one data structure: the `DICTIONARY` of `util/dictionary.c`. It is a single doubly linked list of nodes, and an array of `MAX_HASH_SLOT` (10000) bucket pointers points into it. Each bucket pointer points at the first node of the contiguous run of nodes whose keys hash, by djb2, into that bucket.

This project models that core in Dafny and proves what it does.

| file | module | models |
|---|---|---|
| `hash.dfy` | `Hash` | `hash1`: djb2 over a C string, on 64-bit `unsigned long` with wrap-around |
| `text.dfy` | `Wrappers`, `Text` | the text conventions the files use: whitespace tokens, ASCII lower-casing, `%d` decimal numbers, the digit test |
| `dictionary_spec.dfy` | `DictionarySpec` | the dictionary read as a sequence of entries in list order; `Insert`, `Lookup` and `SetValue` on it; the shape invariant (unique keys, one contiguous run per bucket, bucket heads) |
| `dictionary.dfy` | `Dictionaries` | the `DICTIONARY` as a class: an arena of nodes (`keys`, `data`, `next`, `prev`, with -1 for NULL), `start`, `end` and the bucket array `hash[]`; `initializeDict`, `hash`, `addData`, `getData` |
| `index_spec.dfy` | `IndexSpec` | posting lists; what `updateIndex` does to them; the text `saveFile` writes; what `readIndex` builds from it |
| `indexer.dfy` | `Indexer` | `updateIndex`, `saveFile` and `readIndex` as methods over a `Dictionary<seq<Posting>>` |
| `query_spec.dfy` | `QuerySpec` | parsing a query line into groups; the rank of a document (the best, over groups, of the group's summed frequencies); the answer, a stable sort by decreasing rank |
| `query.dfy` | `QueryEngine` | `pullQueries`, `buildResults` with its `results[]` and `temp_counts[]` arrays, `sortResults` with its bubble sort, and one round of the query loop |
| `crawler_spec.dfy` | `CrawlerSpec` | the crawler's URL dictionary as entries of `UrlNode(url, depth, visited)`; the first waiting URL at a depth; adding a page's links; the `http://www.cs.dartmouth.edu` prefix filter; the depth argument check; one visit |
| `crawler.dfy` | `Crawlers` | `allDigits`, the depth check in `main`, and a `Crawler` class holding the URL dictionary and `url_list`, with `getAddressFromTheLinksToBeVisited`, `setURLasVisited`, `updateListLinkToBeVisited`, `extractURLs` and `main`'s depth loops |

Each imperative operation is a method proved against a specification function. For example, `Dictionary.AddData` ensures `Contents == Insert(old(Contents), key, value)`. The lemmas about those specification functions then state what the program promises:

- a lookup after an insert;
- the frequency count after a sequence of `updateIndex` calls;
- reading back a saved index;
- the ranking answer;
- the crawl's progress.

## Model

| member | source | states |
|---|---|---|
| Hash.Hash1 | util/hash.c:14-20 | the loop returns djb2 of the string up to its first NUL, a value below 2^64 |
| Hash.Djb2Append | util/hash.c:17-18 | one more character c turns the hash h into (33·h + c) mod 2^64 |
| Hash.ShiftFormAgrees | util/hash.c:18 | `(hash << 5) + hash + c`, with the shift truncated to 64 bits, equals the step 33·h + c mod 2^64 |
| Hash.EmptyIsSeed | util/hash.c:15 | the empty string hashes to the seed 5381 |
| Hash.StopsAtNul | util/hash.c:17 | the characters after the first NUL do not take part in the hash |
| Hash.CStrOfNulFree | util/hash.c:17 | a string with no NUL is hashed whole |
| Hash.FoldAppend | util/hash.c:17-18 | the hash of s + [c] is one step applied to the hash of s |
| Text.Tokens | util/dictionary.c:203-210 | every token `%s` reads is a non-empty run of non-space characters |
| Text.TokensOfWord | util/dictionary.c:203 | a word followed by a separator is the first token of the text |
| Text.Lower | index/indexer.c:245-246 | the normalized word has the same length and no upper-case ASCII letter; each upper-case letter becomes the letter 32 code points above it, and every other character is unchanged |
| Text.LowerIdempotent | index/indexer.c:245-246 | lower-casing twice is lower-casing once |
| Text.DecNatRoundTrip | crawler/crawler.c:147 | reading back the decimal digits written for n gives n |
| Text.IntRoundTrip | index/indexer.c:212 | reading back a number written with `%d`, negative ones included, gives that number |
| DictionarySpec.Bucket | util/dictionary.c:13-16 | a key's bucket is below MAX_HASH_SLOT |
| DictionarySpec.Lookup | util/dictionary.c:159-176 | a lookup finds a value exactly when the key is in the dictionary |
| DictionarySpec.LastOfBucket | util/dictionary.c:105-124 | the last node of a bucket's run is in that bucket, and no later node is |
| DictionarySpec.HeadIsFirst | util/dictionary.c:105-110 | a bucket pointer is NULL exactly when no key falls into that bucket; otherwise no earlier node is in that bucket |
| DictionarySpec.EndOfRun | util/dictionary.c:119-124 | the walk that stops where the next node leaves the bucket stops at the bucket's last node, and every node of the bucket lies in the run it walked |
| DictionarySpec.RunMiss | util/dictionary.c:105-124 | a key absent from its bucket's run is absent from the whole dictionary |
| DictionarySpec.SpliceWellFormed | util/dictionary.c:126-132 | linking a new key after the last node of its bucket keeps keys unique, runs contiguous and bucket heads right |
| DictionarySpec.SpliceUnique | util/dictionary.c:126-132 | splicing in a key that is not present keeps the keys unique |
| DictionarySpec.AppendWellFormed | util/dictionary.c:137-152 | appending a key whose bucket is empty at the tail, and pointing the bucket at it, keeps the dictionary well formed |
| DictionarySpec.LookupAt | util/dictionary.c:159-176 | with unique keys, looking up the key of any node gives that node's data |
| DictionarySpec.LookupSomeAt | util/dictionary.c:159-176 | a key that is present is found at some node, whose data the lookup returns |
| DictionarySpec.LookupInsert | util/dictionary.c:89-156 | after an insert, the new key maps to the new value unless the key was already present, and every other key is unchanged |
| DictionarySpec.LookupSplice | util/dictionary.c:126-132 | a new node spliced in at any position adds exactly its key |
| DictionarySpec.InsertSplices | util/dictionary.c:126-132 | inserting a new key whose bucket is non-empty puts it right after that bucket's last node |
| DictionarySpec.InsertAppends | util/dictionary.c:137-152 | inserting into an empty bucket puts the key at the tail of the list |
| DictionarySpec.LookupSetValue | util/dictionary.c:159-176 | writing through the node of a present key changes that key's value only |
| DictionarySpec.SameKeysWellFormed | util/dictionary.c:159-176 | changing data without touching keys keeps the dictionary well formed |
| Dictionaries.HashSlot | util/dictionary.c:13-16 | `hash()` is djb2 of the key reduced modulo MAX_HASH_SLOT |
| Dictionaries.Dictionary.constructor | util/dictionary.c:70-83 | a new dictionary is empty, with every bucket NULL, and well formed |
| Dictionaries.Dictionary.FindInRun | util/dictionary.c:105-124 | the bucket walk finds the key exactly when it is present; otherwise it stops at the bucket's last node |
| Dictionaries.Dictionary.Last | util/dictionary.c:137-152 | the walk along `next` from `start` stops at the last node of the list |
| Dictionaries.Dictionary.AddData | util/dictionary.c:89-156 | returns 1 and changes nothing when the key is present; otherwise returns 0 and the contents become `Insert` of the key and data, and the dictionary stays well formed |
| Dictionaries.Dictionary.GetData | util/dictionary.c:159-176 | returns NULL exactly when the key is absent; otherwise a node of the list holding the key, whose data is what `Lookup` finds |
| Dictionaries.Dictionary.SetData | util/dictionary.c:159-176 | writing a node's data changes that key's value only, and keys and links stay as they were |
| Dictionaries.Dictionary.LinkAfter | util/dictionary.c:126-132 | the pointer surgery inserts the new node right after the given list position |
| Dictionaries.Dictionary.LinkAtTail | util/dictionary.c:137-152 | a node for a key whose bucket is empty goes at the tail of the list |
| Dictionaries.Dictionary.LinkAfterTail | util/dictionary.c:141-147 | in a non-empty list, the new node follows the old tail |
| Dictionaries.Dictionary.LinkFirst | util/dictionary.c:148-151 | in an empty list, the new node becomes the whole list |
| IndexSpec.AddPosting | index/indexer.c:254-275 | every posting after an occurrence is for the new document or was there before |
| IndexSpec.AddPostingHit | index/indexer.c:256-264 | when the document already has a posting, the first such posting's frequency goes up by one and nothing else changes |
| IndexSpec.AddPostingMiss | index/indexer.c:266-275 | when the document has no posting, (document, 1) is appended at the end |
| IndexSpec.AddPostingFreq | index/indexer.c:254-275 | an occurrence adds exactly 1 to the document's total frequency and leaves every other document's total unchanged |
| IndexSpec.AddPostingUnique | index/indexer.c:254-275 | a list holding each document at most once still does so after an occurrence |
| IndexSpec.PostingsIndexAdd | index/indexer.c:228-280 | `updateIndex` changes the postings of that word only, and the word is in the index afterwards |
| IndexSpec.IndexAddNonEmpty | index/indexer.c:239-248 | every word of the index keeps a non-empty posting list |
| IndexSpec.BuildIndexCounts | index/indexer.c:226-280 | after any sequence of `updateIndex` calls, each word's list holds each document once, with frequency equal to the number of calls for that word and document |
| IndexSpec.PairsTextSnoc | index/indexer.c:210-214 | one more posting appends "id freq " to the pairs text |
| IndexSpec.TokensOfIndex | index/indexer.c:189-219 | the saved text splits into exactly the tokens: word, count, then the pairs, line by line |
| IndexSpec.ParsePairTokens | util/dictionary.c:208-210 | reading the pair tokens back gives the posting list |
| IndexSpec.ParseIndexTokens | util/dictionary.c:203-235 | reading the saved tokens gives back each word's record |
| IndexSpec.PostingsAppend | util/dictionary.c:222-233 | one pair read appends the posting to that word's list only |
| IndexSpec.PostingsAddPairs | util/dictionary.c:208-234 | reading a line appends its pairs, in order, to that word's list |
| IndexSpec.HasKeyAddPairs | util/dictionary.c:208-234 | after a line, the word is present exactly when it was before or the line had a pair |
| IndexSpec.PostingsLoad | util/dictionary.c:203-235 | after the file is read, each word's list is its old list followed by all pairs of its lines, in file order |
| IndexSpec.HasKeyLoad | util/dictionary.c:203-235 | after reading, a word is present exactly when it was present before or some line of the file gave it a pair |
| IndexSpec.LoadRecordsOf | util/dictionary.c:203-235 | reading back the records of a well-formed index, after any prefix of it, rebuilds that index node for node |
| IndexSpec.LoadOne | util/dictionary.c:222-233 | a new word's line becomes one new node at the tail of the list |
| IndexSpec.ReadAfterSave | index/indexer.c:177-224 | `readIndex` of the text `saveFile` writes parses to the saved records and rebuilds the same entries in the same order, so saving again writes the same text |
| IndexSpec.SavedTokensParse | index/indexer.c:189-219 | the tokens of the saved text parse as the records of the index |
| IndexSpec.LoadSaved | util/dictionary.c:194-235 | loading the records of a well-formed index into an empty dictionary gives that index |
| IndexSpec.RecordStep | util/dictionary.c:203-210 | the header and pairs of one line are read at the positions the parse found |
| IndexSpec.LoadNonEmpty | util/dictionary.c:222-233 | reading keeps every word's posting list non-empty |
| IndexSpec.LowerKey | index/indexer.c:246 | lower-casing a key keeps it a valid key |
| Indexer.UpdateIndex | index/indexer.c:228-280 | returns 0; the index becomes `IndexAdd` of the lower-cased word and document, stays well formed and keeps non-empty lists |
| Indexer.CountOccurrence | index/indexer.c:250-275 | for a word already present, only that word's list changes, and it records one more occurrence |
| Indexer.AddToPostings | index/indexer.c:254-275 | the walk over a non-empty list gives `AddPosting` of it |
| Indexer.SaveFile | index/indexer.c:177-224 | the text written is `IndexText` of the contents, in list order |
| Indexer.WriteLine | index/indexer.c:191-216 | one line: the word, the counted number of postings, then "id freq" for each posting |
| Indexer.ReadIndex | util/dictionary.c:180-241 | a fresh, well-formed dictionary holding `Load` of the records parsed from the tokens, with non-empty lists |
| Indexer.ReadPairs | util/dictionary.c:208-234 | the pair loop appends the line's postings to the word |
| Indexer.ReadPair | util/dictionary.c:221-233 | one pair is appended at the end of the word's list, or starts a new word node |
| QuerySpec.SplitOr | queryengine/queryfuncs.c:96-133 | a line always splits into at least one group |
| QuerySpec.JoinSplit | queryengine/queryfuncs.c:96-133 | rejoining the groups with "OR" gives back the line |
| QuerySpec.SplitOrPieces | queryengine/queryfuncs.c:96-120 | there is one more group than there are "OR"s, and no group holds "OR" |
| QuerySpec.SplitOrWords | queryengine/queryfuncs.c:123-133 | every keyword of a group is a word of the line |
| QuerySpec.ReadWord | queryengine/queryfuncs.c:96-133 | an "OR" closes the current group; any other word is added, lower-cased, to it |
| QuerySpec.ReadQuit | queryengine/queryfuncs.c:89-93 | "q" at the start of a group makes the line a quit command |
| QuerySpec.ReadEnd | queryengine/queryfuncs.c:143-177 | at the end of the line, an empty current group makes the line invalid; otherwise the groups are the closed groups plus the current one |
| QuerySpec.GroupsCount | queryengine/queryfuncs.c:96-177 | a valid line has one group per "OR" plus one, and its last group is non-empty |
| QuerySpec.ParseKeywords | queryengine/queryfuncs.c:123-133 | the keywords of a valid line contain no NUL |
| QuerySpec.FreqPositive | queryengine/queryfuncs.c:209-237 | a document's summed frequency is positive exactly when it has a posting |
| QuerySpec.GroupScorePositive | queryengine/queryfuncs.c:205-240 | a group ranks a document above zero exactly when one of its keywords has a posting for it |
| QuerySpec.BestIsMax | queryengine/queryfuncs.c:250-262 | a document's rank is at least each group's score, and a positive rank is some group's score |
| QuerySpec.BuildIndexPositive | index/indexer.c:239-275 | every frequency in an index built by `updateIndex` calls is at least 1: a new posting starts at 1 and an occurrence adds 1 |
| QuerySpec.AddPostingPositive | index/indexer.c:254-275 | an occurrence keeps every frequency of a list positive |
| QuerySpec.BestUnindexed | queryengine/queryfuncs.c:209 | keywords missing from the index rank every document 0 |
| QuerySpec.PostingsOfIndexInRange | queryengine/queryfuncs.c:209-220 | with document ids below MAX_NUM_FILES, every posting indexes `results[]` and has a positive frequency |
| QuerySpec.TouchedRanking | queryengine/queryfuncs.c:278-289 | the collect loop gathers exactly the documents with positive rank, with their ranks, in id order |
| QuerySpec.RankingIdsAscending | queryengine/queryfuncs.c:278-289 | the collected documents have distinct ids in ascending order |
| QuerySpec.StableTies | queryengine/queryfuncs.c:291-308 | a stable sort of documents in id order keeps equal ranks in id order |
| QuerySpec.SwapArranged | queryengine/queryfuncs.c:298-304 | swapping neighbours whose left rank is lower keeps a permutation that keeps ties in order |
| QuerySpec.SwapMultiset | queryengine/queryfuncs.c:298-304 | a swap keeps the multiset of results |
| QuerySpec.ArrangedSorted | queryengine/queryfuncs.c:291-308 | a tie-keeping permutation in descending rank order is a stable sort |
| QuerySpec.AdjacentDescending | queryengine/queryfuncs.c:306-307 | a pass with no swap leaves the array sorted by decreasing rank |
| QuerySpec.PassStep | queryengine/queryfuncs.c:296-305 | each comparison of a pass keeps the sorted suffix and the lowest rank met so far moving right |
| QuerySpec.Answer | queryengine/queryfuncs.c:183-311 | a stable sort of what `sortResults` collects after `buildResults` is the answer: each positively ranked document once, with its rank, highest first, ties by id |
| QuerySpec.SortedRanking | queryengine/queryfuncs.c:271-311 | the sorted results hold exactly the positively ranked documents, once each, and break ties by increasing id |
| QuerySpec.ParseEmptyLine | queryengine/queryfuncs.c:143-158 | an empty line is invalid |
| QuerySpec.ParseTrailingOr | queryengine/queryengine_test.c:161-172 | a line ending in "OR" is invalid |
| QuerySpec.ParseQuitExamples | queryengine/queryfuncs.c:89-93 | "q", alone or opening a later group, quits |
| QuerySpec.ParseGroups | queryengine/queryfuncs.c:162-177 | a valid line's groups are its lower-cased pieces |
| QuerySpec.SplitOrNoOr | queryengine/queryfuncs.c:123-133 | a line without "OR" is one group |
| QuerySpec.SplitOrConcat | queryengine/queryfuncs.c:96-120 | splitting at an "OR" concatenates the two sides' groups |
| QuerySpec.ParseUpperExample | queryengine/queryengine_test.c:196-214 | an upper-case keyword is lower-cased |
| QuerySpec.ParseOneGroupExamples | queryengine/queryengine_test.c:220-264 | "cat" and "cat dog", without "OR", each form a single group |
| QuerySpec.ParseLateQuit | queryengine/queryfuncs.c:89-93 | a "q" that does not open a group is an ordinary keyword, so "cat q" is one group |
| QuerySpec.ParseTwoGroupsExample | queryengine/queryengine_test.c:271-293 | "cat OR dog" is two groups |
| QuerySpec.ParseThreeGroups | queryengine/queryengine_test.c:300-330 | a line with two "OR"s gives three groups in order |
| QuerySpec.WordsRead | queryengine/queryfuncs.c:84-93 | the words `pullQueries` reads stop at the first "q" that is the first word or follows an "OR", and run to the end of the line when there is none |
| QueryEngine.PullQueries | queryengine/queryfuncs.c:67-178 | returns 1, -1 or 0 as the line quits, is invalid or has groups, and, with 0, the groups of lower-cased keywords; it returns 1 exactly when it stops at a "q" before the end of the line |
| QueryEngine.BuildResults | queryengine/queryfuncs.c:183-266 | afterwards each document with a positive rank has its rank in `results` and -1 in `temp_counts`, and every other document keeps its result and has 0 |
| QueryEngine.EvalGroup | queryengine/queryfuncs.c:199-262 | one group merges its summed scores into the ranks kept so far |
| QueryEngine.AddPostings | queryengine/queryfuncs.c:209-240 | walking a keyword's postings adds them to the running sums |
| QueryEngine.CountPosting | queryengine/queryfuncs.c:220-240 | a posting adds its frequency to its document's sum, restarting a count an earlier group marked -1 |
| QueryEngine.Finalize | queryengine/queryfuncs.c:250-262 | closing a group raises each met document's rank to the larger of the old rank and its sum |
| QueryEngine.SettlePage | queryengine/queryfuncs.c:252-261 | one page: a met page takes the larger rank and is marked -1 |
| QueryEngine.SortResults | queryengine/queryfuncs.c:271-311 | returns n with `sorted_results[..n]` a stable sort, by decreasing rank, of the collected documents; all counts are reset to 0 |
| QueryEngine.Collect | queryengine/queryfuncs.c:278-289 | gathers, in id order, every document with a nonzero count (after `buildResults`, exactly those marked -1), and resets its count |
| QueryEngine.CollectPage | queryengine/queryfuncs.c:280-288 | one page of the gathering loop |
| QueryEngine.BubbleSort | queryengine/queryfuncs.c:291-308 | the bubble sort leaves its first n entries a stable descending sort of their old contents and the rest untouched |
| QueryEngine.BubblePass | queryengine/queryfuncs.c:293-307 | one pass grows the sorted suffix by one; a pass without swaps means the array is sorted |
| QueryEngine.Compare | queryengine/queryfuncs.c:298-304 | one comparison swaps neighbours only when the left rank is lower |
| QueryEngine.Exchange | queryengine/queryfuncs.c:300-302 | the swap exchanges the two neighbours and keeps the permutation |
| QueryEngine.AnswerLine | queryengine/query.c:152-186 | a round reports the parse code; when the line is valid, `sorted_results[..n]` is the answer; and `temp_counts` is all 0 again |
| CrawlerSpec.FirstWaitingIsFirst | crawler/crawler.c:243-266 | the address returned is the first URL in list order that is unvisited and at the given depth; NULL means no such URL |
| CrawlerSpec.NoneWaiting | crawler/crawler.c:199-215 | no address is returned exactly when no URL waits at the depth |
| CrawlerSpec.FirstWaitingFound | crawler/crawler.c:243-266 | a returned address is a key of the dictionary whose node waits at the depth |
| CrawlerSpec.CountSetVisited | crawler/crawler.c:269-275 | marking a URL visited lowers the number waiting at its depth by one when it was waiting, and changes no other count |
| CrawlerSpec.SetVisitedMatch | crawler/crawler.c:269-275 | marking visited keeps each node's URL equal to its key |
| CrawlerSpec.CountInsert | crawler/crawler.c:279-300 | inserting a URL raises the waiting count at a depth by one exactly when the URL is new and its node waits at that depth |
| CrawlerSpec.AddUrlsCount | crawler/crawler.c:279-300 | adding a page's URLs at one depth leaves the waiting count at every other depth unchanged |
| CrawlerSpec.AddUrlsLookup | crawler/crawler.c:279-300 | after the update a URL maps to its old node if it was present, to a new unvisited node at the given depth if it is in `url_list`, and to nothing otherwise |
| CrawlerSpec.AddUrlsUnique | crawler/crawler.c:279-300 | the update keeps URLs unique |
| CrawlerSpec.AddUrlsMatch | crawler/crawler.c:279-300 | the update keeps each node's URL equal to its key |
| CrawlerSpec.KeepPrefixedMembers | crawler/crawler.c:304-335 | `url_list` holds exactly the page's URLs that start with URL_PREFIX, and no more of them than the page has |
| CrawlerSpec.DepthCheckAccepts | crawler/crawler.c:147-161 | any depth from 0 to MAX_DEPTH written in digits is accepted as that depth |
| CrawlerSpec.DepthCheckRefuses | crawler/crawler.c:157-161 | a depth above MAX_DEPTH is refused |
| CrawlerSpec.EmptyDepthAccepted | crawler/crawler.c:147-161 | an empty depth argument passes `allDigits` and `atoi` reads it as 0 |
| CrawlerSpec.DistinctSnoc | crawler/crawler.c:199-215 | logging a URL not logged before keeps the log free of repeats |
| CrawlerSpec.VisitedMeans | crawler/crawler.c:269-275 | a URL is in the visited set exactly when its node is marked visited |
| CrawlerSpec.AddUrlsVisited | crawler/crawler.c:279-300 | adding URLs marks nothing visited |
| CrawlerSpec.VisitedSetVisited | crawler/crawler.c:269-275 | marking a URL visited adds exactly that URL to the visited set |
| CrawlerSpec.SeededState | crawler/crawler.c:166-196 | after the seed is set up, only the seed is visited, nothing waits at depth 0, and URLs match their keys |
| CrawlerSpec.VisitProgress | crawler/crawler.c:199-215 | visiting a waiting URL logs a URL not logged before, lowers the waiting count at its depth by one, and leaves the other depths' counts (except depth + 1) unchanged |
| CrawlerSpec.VisitMatch | crawler/crawler.c:199-215 | a visit keeps each node's URL equal to its key |
| CrawlerSpec.InsertWithin | crawler/crawler.c:288-295 | offering an unvisited node marks nothing deeper visited |
| CrawlerSpec.AddUrlsWithin | crawler/crawler.c:279-300 | adding links, all unvisited, marks nothing deeper visited |
| CrawlerSpec.SetValueWithin | crawler/crawler.c:269-275 | marking visited a node found at depth at most d keeps every visited node within d |
| CrawlerSpec.SeededWithin | crawler/crawler.c:166-196 | after the seed is set up, no visited node is deeper than 0 |
| CrawlerSpec.VisitWithin | crawler/crawler.c:199-210 | a round on a URL waiting at d marks nothing deeper than d visited |
| CrawlerSpec.VisitLookup | crawler/crawler.c:199-210 | a round keeps every node and its depth, and leaves the URL handed out visited |
| CrawlerSpec.VisitFoundAt | crawler/crawler.c:199-210 | the URL handed out at d joins the URLs logged at d, each still a node found at d |
| Crawlers.AllDigitsFlag | crawler/crawler.c:339-346 | returns 1 exactly when every character is a digit (the empty string included), otherwise 0 |
| Crawlers.CheckDepth | crawler/crawler.c:147-161 | the depth argument is accepted, with its value, exactly as `DepthCheck` says |
| Crawlers.Crawler.constructor | crawler/crawler.c:180 | a crawler starts with an empty URL dictionary and an empty `url_list` |
| Crawlers.Crawler.GetAddress | crawler/crawler.c:243-266 | the walk from `start` returns the first waiting URL at the depth, or NULL |
| Crawlers.Crawler.SetURLasVisited | crawler/crawler.c:269-275 | only the URL's node changes, and it is marked visited |
| Crawlers.Crawler.UpdateList | crawler/crawler.c:279-300 | every URL of `url_list` is offered to `addData` as an unvisited node at the depth, in order |
| Crawlers.Crawler.Offer | crawler/crawler.c:285-297 | one URL is inserted as a new unvisited node at the depth unless it is present |
| Crawlers.Crawler.ExtractURLs | crawler/crawler.c:304-335 | `url_list` becomes the page's URLs that start with URL_PREFIX, in page order, and the dictionary is untouched |
| Crawlers.Crawler.Visit | crawler/crawler.c:201-214 | a visit marks the URL visited and, when the page is fetched, adds its prefixed links at depth + 1; the log grows by a new URL and the count of waiting URLs at the visited depth drops by one |
| Crawlers.Crawler.LinkSeed | crawler/crawler.c:172-190 | the seed becomes the only node, unvisited at depth 0 |
| Crawlers.Crawler.Bootstrap | crawler/crawler.c:166-196 | after setting up the seed, the dictionary is `Seeded`: the seed is visited at depth 0, and its page's prefixed links wait at depth 1 |
| Crawlers.Crawler.Crawl | crawler/crawler.c:124-230 | returns 1 with no visits exactly when the depth argument is refused; otherwise returns 0 after visiting the seed first, never visiting a URL twice, leaving no URL waiting at any depth up to the maximum, and marking visited (so fetching) no URL found deeper than the maximum: every logged URL's node has depth at most the maximum |
| Crawlers.Crawler.CrawlLevels | crawler/crawler.c:199-225 | the outer loop leaves no URL waiting at any depth up to the maximum, extending the log without repeats, and marks visited no node deeper than the maximum |
| Crawlers.Crawler.CrawlDepth | crawler/crawler.c:199-215 | the inner loop visits URLs at one depth until none waits there or at any lower depth; every URL it logs has a node found at that depth, and nothing deeper is marked visited |
| Crawlers.Crawler.Round | crawler/crawler.c:201-214 | one round logs exactly the returned address, turns the dictionary into `CrawlerSpec.Visit` of it (mark visited, then offer the page's links at the next depth), keeps the log free of repeats, the lower depths empty and the crawl within the depth, and returns the next first waiting URL at the depth |

## Left out

- Files and I/O: `fopen`, `fprintf`, `fscanf` and `fclose`. Files are strings or token sequences, and reading assumes the well-formed text `saveFile` writes.
- Fetching pages with `wget`, `GetHTML`/`getPage`, saving pages to disk, `sleep`, `chdir` and the argument-count checks in `main`. The page fetch together with link extraction is a pure function parameter, `fetch: string -> Option<seq<string>>`.
- `GetNextURL`, `getNextWord` and the HTML parsing behind them are not part of this model. `extractURLs` receives the URLs of a page as a sequence.
- `NormalizeWord` is not part of this model. It is modelled as ASCII lower-casing (`Text.Lower`).
- Memory management is left out: `malloc` failure, `free`, `cleanDict`, `cleanIndex` and `BZERO`. The `url_list` strings freed after `updateListLinkToBeVisited` are not modelled; the model keeps `urlList` until the next page replaces it.
- `printResults`, the query loop's prompt and `printf` logging are left out. `Crawl` instead returns the URLs it marked visited, in the order they were handed out, with the seed first, whether or not their fetch succeeded. This is not the "Logged url" output: the source prints that only after a successful `getPage` (crawler/crawler.c:205-218), and never for the seed.
- Document lists (`DocumentNode` chains) and `URLNODE` records are values stored in the dictionary. Writing through a node pointer becomes `SetData` on the node's data. Two nodes never share a list, so no aliasing is modelled.
- The dictionary's `end` pointer is kept, but the model proves only that it is NULL exactly when the list is empty. `addData` writes `end` and never reads it; it finds the tail by walking from `start`, and so does the model. Nothing else in the core reads `end`.
- Hash.Hash1: the source adds `char` values, which are signed on common platforms. The model takes each character's code as a non-negative number, so bytes above 127 are not modelled.
- IndexSpec.AddPosting: document frequencies are unbounded integers. Overflow of `int` is not modelled.
- CrawlerSpec.DepthCheck: `atoi` overflow on very long digit strings is not modelled; digits are read as an unbounded natural.
- Capacity limits are preconditions, not modelled failures:
  - `url_list` holds at most MAX_URL_PER_PAGE (1000) URLs (`PageOk`);
  - keys are shorter than KEY_LENGTH (2049);
  - the words `pullQueries` reads form at most MAX_NUM_QUERIES groups, each with fewer than MAX_NUM_KEYWORDS words, and every word is shorter than MAX_KEYWORD_LENGTH (`WithinLimits`). The words read are those before the first "q" that opens a group, or the whole line (`WordsRead`, queryengine/queryfuncs.c:84-93); words after that "q" are never read, so they are not bound. A prefix that ends in "OR" is counted with an empty last group, so the bound on the number of groups is one stricter than the C code there;
  - document ids are below MAX_NUM_FILES (`DocsInRange`).
  - a word `readIndex` reads fits its 500-character buffer (util/dictionary.c:198), i.e. has at most 499 characters (`IsIndexWord`); `IndexSpec.ReadAfterSave` assumes this of every key.
- The query engine requires an index whose frequencies are all positive (`PositiveFreqs`). `QuerySpec.BuildIndexPositive` proves this for any index built by `updateIndex`. An index file read by `readIndex` can contain 0 or negative frequencies, and the source accepts it. On such a file a 0 frequency after a -1 mark resets the count to 0 (queryengine/queryfuncs.c:236-237). The model treats it as not well formed and does not cover it.
- Crawlers.Crawler.SetURLasVisited requires the URL to be present. The source would dereference NULL otherwise, and `main` only calls it on URLs `getAddressFromTheLinksToBeVisited` returned.
- QueryEngine.BuildResults requires `temp_counts` to be all zero on entry. On the first line this is an assumption. `temp_counts` is an uninitialized local (queryengine/query.c:106), and `BZERO(temp_counts, MAX_NUM_FILES)` (queryengine/query.c:184) clears only MAX_NUM_FILES bytes, so the first `buildResults` reads indeterminate values. From the second line on, the array is all zero because `sortResults` resets every nonzero entry, and `AnswerLine` ensures this.
- QueryEngine.PullQueries: the `num_queries` value left behind on the quit and invalid paths is not modelled; those paths return no groups.
- `printResults` prints every sorted result (queryengine/queryfuncs.c:326), though the header comment of queryengine/query.c:11-13 speaks of the top ten. The model keeps all of them, as the code does.
- The comment above `allDigits` (crawler/crawler.c:337-338) says the opposite of what the code returns. The model follows the code: 1 when every character is a digit. As a result, an empty depth argument is accepted as depth 0.
- The seed is linked into the empty dictionary by hand in `main` (crawler/crawler.c:183-189). `LinkSeed` models this, and it gives the same list as `addData` on an empty dictionary.
- Crawlers.Crawler.Crawl requires the seed's page to be fetched and every fetched page to satisfy `PageOk`. If the seed fetch fails, the source passes NULL to `extractURLs`, whose `strlen` is then undefined.
