# wiki-4 link graph: ingestion and shortest-path search, modelled in Dafny

wiki-4 turns a Wikipedia XML dump into a graph of pages and links, then searches that graph for the shortest chain of links between two articles. The work is split across three programs:

- `src/bin/process_data.rs` reads the dump line by line. It cuts each record into a title and a body and extracts the body's `[[...]]` links. Redirects, forbidden namespaces and the "See also" / "References" sections get special treatment. Each page is buffered as a row `(id, title, is_redirect)`, and each of its links as a row `(source_id, destination_id)`. The buffers are flushed into two tables in batches of 1000 rows. A failed batch is retried row by row.
- `src/main.rs` finds a shortest chain between two titles. It uses a breadth-first search over the stored links, with a visited table that maps each page to the page it came from, then prints the chain with an arrow after every page but the last.
- `src/bin/find_average.rs` repeats that search for random pairs of titles. It counts found searches, the pages on their chains, and searches that found nothing.

All three share one identity scheme: a page's id is a hash of its ASCII-lowercased title.

The project is split into these modules:

| module | file | models |
|---|---|---|
| `Text` | `text.dfy` | the `str` operations the programs rely on (`find`, `trim`, `split('#').nth(0)`), over `seq<char>` |
| `TitleIdentity` | `identity.dfy` | `Page::from_title` and the id of a title |
| `LinkExtraction` | `links.dfy` | `get_links_from_body`, as recursive functions, with one lemma per filter |
| `CorpusScan` | `corpus.dfy` | the title and body loops of `main` in `process_data.rs`: as functions over the dump's lines, and as the loops themselves |
| `BatchInsert` | `batch.dfy` | the abstract store: the multi-row statement, the row-by-row retry, the split into whole batches plus a remainder, and the loops of the flush |
| `Ingestor` | `db.dfy` | the `DB` class: `new`, `cache`, `write_pages_to_db`, `write_links_to_db` |
| `ProcessData` | `ingest.dfy` | `main` of `process_data.rs` as a whole |
| `LinkGraph` | `graph.dfy` | the link graph, `LinkedPage` and its identity by `page`, the visited table as a map |
| `PathFinder` | `bfs.dfy` | the breadth-first search, shared by both pathfinders |
| `PathDisplay` | `display.dfy` | `to_titlecase`, `fmt_title`, `count` and `unwind` |
| `PathPrograms` | `programs.dfy` | `main` of `src/main.rs`, and one trial of `src/bin/find_average.rs` with its counters |

How the model represents the program:

- **Tables.** A table is a map from primary key to row.
  - `pages` is keyed by id, and the first row inserted for an id stays.
  - `links` is keyed by the whole `(source_id, destination_id)` pair, so it is the set of stored edges.
  - A multi-row `INSERT` either stores all its rows or fails at its first bad row and leaves the table as it was.
  - Failures other than a primary-key conflict (disk full, busy, and so on) come from the database engine. They are a parameter: a function from a row to the error that inserting it would raise, if any.
- **Printed errors.** The messages a flush prints are kept as a log. The log shows which failures are reported, and that unique-key errors on `links` are not.
- **Hash.** The hash is a parameter (`Hasher`), so two different titles may still collide.
- **Graph and page lookups.** The graph is a map from a source id to its destinations, in the order the query returns them. A missing key means no out-edges. The pathfinders' `pages` lookups are a map from an id to `(title, is_redirect)`.

The search is proved correct:

- when it reports the target, the predecessor chain is a path from the start with the fewest hops;
- when it gives up, the visited ids are exactly the ids reachable from the start.

Its termination follows from the finiteness of the set of ids the graph mentions.

A start and a target whose titles differ only in ASCII case share one id. The search never goal-tests the start, so it never reports such a pair found (`PathPrograms.SameTitleNotFound`). `src/main.rs` takes both titles from its command line and does not compare them, so it answers "no more pages" for such a pair. `src/bin/find_average.rs` cannot draw such a pair: both of its titles are rows of `pages`, which holds one row per id, and the second must differ from the first.

Where the code and the design description of the repository differ, the model follows the code:

- **Title filter.** A title is rejected when a forbidden pattern occurs anywhere in it, not only at its start.
- **Section cut.** The scan is cut at the first "See also" header whenever one exists, even when a "References" header comes earlier. "References" is used only when no "See also" is present.
- **Redirect links.** A redirect yields at most one link. It yields none when its target is in a forbidden namespace.
- **Empty frontier.** The search never pops an empty frontier. It tests for emptiness after each expansion.
- **Arrows.** Every page of a printed chain except the target is marked by its own redirect flag. The target is printed with no arrow.
- **Pages without a row.** A page on the chain without a `pages` row makes `unwind` panic; its title is not simply left out.

## Model

| member | source | states |
|---|---|---|
| Text.FindFrom | src/bin/process_data.rs:477 | the first occurrence of the pattern at or after a position, and none before it; `None` exactly when it occurs nowhere from there |
| Text.Find | src/bin/process_data.rs:459 | `str::find`: the first occurrence of the pattern, or `None` when it occurs nowhere |
| Text.FindChar | src/bin/process_data.rs:74 | the first position holding the character, the character absent before it; `None` exactly when it is absent |
| Text.BeforeChar | src/bin/process_data.rs:462 | `split(c).nth(0)`: a prefix of the input without `c`, followed in the input by `c` when `c` occurs, and the whole input otherwise |
| Text.TrimIsMiddle | src/bin/process_data.rs:461 | `trim` keeps exactly a middle slice between a white-space prefix and a white-space suffix, and the kept text neither starts nor ends with white space |
| Text.TrimAllSpace | src/bin/process_data.rs:489 | `trim` yields the empty string exactly when every character is white space |
| Text.TrimKeepsOut | src/bin/process_data.rs:462 | a character missing from the input is missing from its trimmed form |
| Text.TrimIdempotent | src/bin/process_data.rs:462 | trimming a trimmed string changes nothing |
| TitleIdentity.AsciiLower | src/bin/process_data.rs:384 | `to_ascii_lowercase` on one character: `A`-`Z` moved to `a`-`z`, every other character unchanged |
| TitleIdentity.Lower | src/main.rs:151 | `make_ascii_lowercase`: the same length, and each character lowercased on its own |
| TitleIdentity.FromTitle | src/main.rs:149-157 | the page's id is the id of its title, and its redirect flag is the one given |
| TitleIdentity.LowerIdempotent | src/main.rs:151 | lowercasing a lowercased title changes nothing |
| TitleIdentity.LowerEqualIff | src/main.rs:151 | two titles lowercase to the same string exactly when they differ only in ASCII case |
| TitleIdentity.CaseInsensitive | src/main.rs:149-157 | titles that differ only in ASCII case get the same id and the same `Page` |
| TitleIdentity.IdOfLowered | src/bin/process_data.rs:383-386 | hashing the lowercased title, as `cache` does, gives the id `from_title` gives to the original title |
| LinkExtraction.PrefixInIff | src/bin/process_data.rs:463-467 | the forbidden-pattern loop rejects a string exactly when some pattern is a prefix of it |
| LinkExtraction.MarkerHasNoClose | src/bin/process_data.rs:459-461 | the first `]]` of a redirect body lies after the marker, so the target slice is well defined |
| LinkExtraction.ScanLimit | src/bin/process_data.rs:475 | the scan ends at the first "See also" if there is one, else at the first "References" if there is one, else at the end of the body |
| LinkExtraction.NextOpen | src/bin/process_data.rs:477 | the next `[[` at or after a position, none skipped; `None` when there is no later one |
| LinkExtraction.NextOpenIsFind | src/bin/process_data.rs:477 | the `[[` search is the general first-occurrence search |
| LinkExtraction.LinkEndFrom | src/bin/process_data.rs:479-480 | the first vertical bar or `]` at or after a position, none before it; `None` when there is none |
| LinkExtraction.LinkEndAgrees | src/bin/process_data.rs:479-486 | the program's `min` of the first vertical bar and the first `]` (or whichever exists) is the first character that is either |
| LinkExtraction.Emit | src/bin/process_data.rs:490-501 | a candidate is kept exactly when it has no forbidden prefix and does not start with `#`; a kept one is cut before its first `#` and then holds no `#` and no forbidden prefix |
| LinkExtraction.GetLinksFromBody | src/bin/process_data.rs:457-511 | an error exactly for a redirect body without `]]`, with the message naming the title; the redirect flag is set exactly for redirect bodies; a redirect has at most one link |
| LinkExtraction.RedirectLink | src/bin/process_data.rs:458-468 | a redirect with `]]` yields the flag and either no link (the target has a forbidden prefix) or exactly the target: the text between the marker and the first `]]`, trimmed, cut at `#`, trimmed again |
| LinkExtraction.TrimmedClean | src/bin/process_data.rs:461-462 | a piece without `#`, once trimmed, has no `#` and neither starts nor ends with white space |
| LinkExtraction.RedirectTargetClean | src/bin/process_data.rs:461-462 | the redirect target holds no `#` and neither starts nor ends with white space; it may be empty |
| LinkExtraction.UnterminatedRedirect | src/bin/process_data.rs:469-471 | a redirect body without `]]` is the per-record error "Getting redirect link from '<title>' failed" |
| LinkExtraction.Matches | src/bin/process_data.rs:477 | every match of `match_indices("[[")` holds `[[` and lies after the starting position |
| LinkExtraction.MatchesGreedy | src/bin/process_data.rs:477 | `[[` matches are greedy and non-overlapping: a position is a match exactly when `[[` occurs there and the position before it is not a match |
| LinkExtraction.TakeIsCandidate | src/bin/process_data.rs:478-503 | a match yields a link exactly when it is terminated by a later vertical bar or `]` and its trimmed text up to there passes the filters |
| LinkExtraction.LinksByPosition | src/bin/process_data.rs:477-507 | the k-th link is the filtered candidate of the k-th link-yielding match |
| LinkExtraction.PositionsIncrease | src/bin/process_data.rs:477-507 | the positions of the matches that yield links strictly increase |
| LinkExtraction.LinksInOrder | src/bin/process_data.rs:477-507 | links come in document order, and a repeated link is kept each time |
| LinkExtraction.PositionsExactly | src/bin/process_data.rs:477-507 | a position yields a link exactly when it is a match whose step takes a link |
| LinkExtraction.UnterminatedLater | src/bin/process_data.rs:504-506 | once a `[[` has no later vertical bar or `]`, no later `[[` has one either |
| LinkExtraction.LinkPositionsExactly | src/bin/process_data.rs:477-507 | a position yields a link exactly when it is a match, is terminated, and its candidate survives the filters |
| LinkExtraction.CandidateClean | src/bin/process_data.rs:489-503 | a link taken at a match has no forbidden prefix, holds no `#`, vertical bar or `]`, and does not start with white space |
| LinkExtraction.ScanClean | src/bin/process_data.rs:477-507 | when every step yields only clean links, so does the whole scan |
| LinkExtraction.LinksClean | src/bin/process_data.rs:477-509 | every link of a non-redirect body is clean |
| LinkExtraction.ExtractedClean | src/bin/process_data.rs:457-511 | no extracted link, redirect or not, has a forbidden prefix or holds `#` |
| LinkExtraction.NoOpenNoLinks | src/bin/process_data.rs:477 | a text without `[[` yields no links |
| LinkExtraction.StopsAtUnterminated | src/bin/process_data.rs:504-506 | if the next `[[` is unterminated, no link is extracted from there on |
| LinkExtraction.SectionCut | src/bin/process_data.rs:475-476 | a non-redirect body yields the links of its prefix up to the cut, and that prefix holds no "See also" (or, if there is none, no "References") |
| CorpusScan.FindLine | src/bin/process_data.rs:30-44 | the first line at or after a position that starts with the tag, and none of the lines before it starts with it; `None` when no line does |
| CorpusScan.TitleOf | src/bin/process_data.rs:46 | the title is the line without the length of both tags |
| CorpusScan.BodyFrom | src/bin/process_data.rs:77-91 | the body ends on a line at or after the text line |
| CorpusScan.NextRecord | src/bin/process_data.rs:28-93 | a skipped or read record moves the scan strictly forward and stays within the input |
| CorpusScan.TitleRoundTrip | src/bin/process_data.rs:46 | cutting the title out of a title line gives back what was put between the tags |
| CorpusScan.TitleBetweenTags | src/bin/process_data.rs:46 | a title line that ends with `</title>` is the opening tag, the title and the closing tag |
| CorpusScan.BodyIsJoin | src/bin/process_data.rs:74-91 | the body is the text after `>` followed by the next lines, joined by newlines, up to the first line ending in `</text>` with that tag removed; the read panics exactly when no such line exists |
| CorpusScan.ForbiddenTitleSkipped | src/bin/process_data.rs:50-54 | a title with a forbidden pattern anywhere in it skips the record right after its title line, before its body is read |
| CorpusScan.UnterminatedRedirectSkipped | src/bin/process_data.rs:95-101 | a redirect body without `]]` adds no article and the scan continues with the next record |
| CorpusScan.IngestClean | src/bin/process_data.rs:28-104 | every cached article has a title without forbidden patterns and links without a forbidden prefix or `#`, and a redirect has at most one link |
| CorpusScan.SeekLine | src/bin/process_data.rs:30-44 | the loop looking for a tag line finds the line `FindLine` specifies |
| CorpusScan.ReadBody | src/bin/process_data.rs:77-91 | the body loop yields the body `BodyFrom` specifies, or panics where it does |
| CorpusScan.ReadRecord | src/bin/process_data.rs:28-93 | one round of the main loop up to the body yields the record `NextRecord` specifies |
| BatchInsert.WholeBatches | src/bin/process_data.rs:209-211 | the batchable prefix is a whole number of batches, and fewer than a batch of rows remain after it |
| BatchInsert.SplitPoint | src/bin/process_data.rs:209-211 | `len - len % batch_size` is the length of the batchable prefix |
| BatchInsert.WholeOfProduct | src/bin/process_data.rs:209-211 | for q batches plus fewer than a batch of rows, the batchable prefix is the q batches |
| BatchInsert.InsertEachAppend | src/bin/process_data.rs:256-269 | inserting two runs of rows one by one is inserting the first run, then the second |
| BatchInsert.RetryIsEach | src/bin/process_data.rs:223-248 | the row-by-row retry stores what inserting the rows one at a time stores |
| BatchInsert.BatchSuccessIsEach | src/bin/process_data.rs:220 | a batch statement that succeeds stores every row of the batch, as inserting them one at a time would |
| BatchInsert.BatchSuccessStores | src/bin/process_data.rs:220 | a batch statement that succeeds stores each of its rows as it is, under its key |
| BatchInsert.RunBatchIsEach | src/bin/process_data.rs:219-252 | one batch, failing or not, stores what inserting its rows one at a time stores |
| BatchInsert.RunBatchesIsEach | src/bin/process_data.rs:214-253 | the whole batches store what inserting the rows they cover one at a time stores |
| BatchInsert.FlushIsEach | src/bin/process_data.rs:189-279 | a flush leaves the table as inserting its rows one at a time would: batching, failures and retries do not change what is stored |
| BatchInsert.InsertEachKeeps | src/bin/process_data.rs:152-157 | stored rows are never replaced, and every newly stored key comes from a submitted row stored under it |
| BatchInsert.InsertEachStores | src/bin/process_data.rs:256-269 | every submitted row's key ends up stored, unless the engine refused that row |
| BatchInsert.FirstWins | src/bin/process_data.rs:152-157 | the first insertable row with a new key is the one stored for it; later rows with that key do not replace it |
| BatchInsert.InsertEachStoresOnlyClean | src/bin/process_data.rs:256-269 | a newly stored row is one the engine accepted |
| BatchInsert.RetryNoSilentLoss | src/bin/process_data.rs:223-248 | in the row-by-row retry, each row is stored as it is; or its key holds another row and the key conflict is printed with the row (or is quiet); or the engine refused it and that error is printed with the row (or is quiet); every row stored before is kept unchanged |
| BatchInsert.RetryExtends | src/bin/process_data.rs:223-248 | the row-by-row retry never replaces or removes a stored row |
| BatchInsert.RunBatchExtends | src/bin/process_data.rs:219-249 | one batch never replaces or removes a stored row |
| BatchInsert.RunBatchNoSilentLoss | src/bin/process_data.rs:219-249 | in one batch, each row is stored as it is, or its key conflict or engine error is printed with the row (or is quiet); every row stored before is kept unchanged |
| BatchInsert.RunBatchesExtends | src/bin/process_data.rs:214-253 | the whole batches never replace or remove a stored row |
| BatchInsert.AccountedJoin | src/bin/process_data.rs:214-270 | the batches followed by the remainder account for the rows of both, when the second run keeps what the first stored |
| BatchInsert.RunBatchesNoSilentLoss | src/bin/process_data.rs:214-253 | in the whole batches, each row is stored as it is, or its key conflict or engine error is printed with the row (or is quiet); every row stored before is kept unchanged |
| BatchInsert.FlushNoSilentLoss | src/bin/process_data.rs:189-279 | after a flush, each buffered row is stored as it is; or its key holds another row and the conflict is printed with the row (or is quiet); or the engine refused it and the error is printed with the row (or is quiet); every row stored before the flush is kept unchanged |
| BatchInsert.RetryQuiet | src/bin/process_data.rs:322-348 | the quiet row-by-row retry prints no unique-key error |
| BatchInsert.RunBatchQuiet | src/bin/process_data.rs:317-349 | a quiet batch prints no unique-key error |
| BatchInsert.RunBatchesQuiet | src/bin/process_data.rs:312-353 | the quiet whole batches print no unique-key error |
| BatchInsert.FlushQuiet | src/bin/process_data.rs:287-380 | the link flush prints no unique-key error |
| BatchInsert.FlushEmpty | src/bin/process_data.rs:192-195 | flushing an empty buffer changes no table and prints nothing |
| BatchInsert.DuplicateIsNoop | src/bin/process_data.rs:170-177 | inserting an edge already stored changes nothing and prints nothing |
| BatchInsert.InsertOneByOne | src/bin/process_data.rs:256-269 | the loop of single-row statements gives the table and the log of the row-by-row specification |
| BatchInsert.ExecuteOrRetry | src/bin/process_data.rs:220-249 | one batch statement, with its notice and retry on failure, gives the table and log of one batch |
| BatchInsert.RunFullBatch | src/bin/process_data.rs:219-252 | running the collected `params` advances the state from the batches before it to the batches up to it |
| BatchInsert.RunBatchesStep | src/bin/process_data.rs:214-253 | one more whole batch extends the batches' table and log by that batch's |
| BatchInsert.WriteBatches | src/bin/process_data.rs:214-253 | the `for data in batchable` loop gives the table and log specified for the whole batches |
| BatchInsert.TakeRow | src/bin/process_data.rs:214-252 | one iteration adds the row to `params`, and a full batch is run and collection restarted |
| BatchInsert.WriteRows | src/bin/process_data.rs:207-270 | the batch loop followed by the remainder loop gives the table and log of the flush specification |
| BatchInsert.FlushOf | src/bin/process_data.rs:209-270 | the flush is the whole batches followed by the row-by-row remainder |
| BatchInsert.BatchesOfPrefix | src/bin/process_data.rs:209-211 | batches depend only on the rows they cover |
| Ingestor.EdgesOfRows | src/bin/process_data.rs:390-396 | one edge row per link, in order, from the page's id to the id of the lowercased link |
| Ingestor.EdgesCaseInsensitive | src/bin/process_data.rs:383-395 | the edge rows of a page do not change when its title differs only in ASCII case |
| Ingestor.DB.constructor | src/bin/process_data.rs:137-187 | both tables dropped and re-created empty, both buffers empty, the sizes as given |
| Ingestor.DB.WritePagesToDb | src/bin/process_data.rs:189-279 | the page table is the result of flushing the buffer, every failure is printed, the buffer is emptied, the link side is unchanged, and consistency is kept |
| Ingestor.DB.PagesFlushKeepsConsistent | src/bin/process_data.rs:189-279 | a page flush keeps the page table equal to inserting every row written so far one at a time, and every written row either stored as it is or printed with its error (an id conflict included) |
| Ingestor.DB.LaterSpellingPrinted | src/bin/process_data.rs:237-243 | a page row whose id an earlier accepted row already holds (another spelling of the title, or a hash collision) is printed with its failure, not dropped |
| Ingestor.DB.WriteLinksToDb | src/bin/process_data.rs:287-380 | the link table is the result of the quiet flush of the buffer, the buffer is emptied, the page side is unchanged, and consistency is kept |
| Ingestor.DB.LinksFlushKeepsConsistent | src/bin/process_data.rs:287-380 | a link flush keeps the link table equal to inserting every edge written so far one at a time, with only non-unique failures printed |
| Ingestor.DB.BufferArticle | src/bin/process_data.rs:383-396 | the page row of the title and, in link order, one edge row per link are appended to the buffers; tables, logs and flushed rows are left alone |
| Ingestor.DB.Cache | src/bin/process_data.rs:382-404 | one page row (the id of the lowercased title, the original title, the flag) and one edge row per link, in order, are buffered; a buffer that stays below its threshold is only extended and its table and log are untouched, and a buffer that reaches it is flushed with the new rows (the page buffer printing every failure, the link buffer quiet) and emptied |
| ProcessData.PageRowsOfArticles | src/bin/process_data.rs:388 | the i-th page row holds the id, the original-case title and the flag of the i-th article |
| ProcessData.LinkRowsFromArticles | src/bin/process_data.rs:390-396 | every edge's source is the id of a cached article's title |
| ProcessData.IngestRead | src/bin/process_data.rs:95-104 | a record read in full contributes its cached article (if its body parses), then the rest of the run |
| ProcessData.CacheArticle | src/bin/process_data.rs:104 | one `cache` call extends what the database has been given by one article, and keeps its tables consistent |
| ProcessData.ProcessDump | src/bin/process_data.rs:11-125 | the count is the number of articles cached; the rows given to the database are those of the cached articles in order; unless the run panicked, both buffers are flushed; each table agrees with the rows written to it |
| LinkGraph.Insert | src/main.rs:107 | `HashSet::insert` reports success exactly for a new page; existing entries are kept, and a new page gets its predecessor |
| LinkGraph.SamePageSameEntry | src/main.rs:219-231 | two `LinkedPage`s with the same page are one member: the second insert fails and the first entry's predecessor stays |
| LinkGraph.TreeGrow | src/main.rs:107 | a new page one level below a visited page keeps the predecessor entries a tree |
| LinkGraph.Chain | src/main.rs:198-216 | following predecessors from a page ends at a root; the chain has one page per level and ends at the page |
| PathFinder.ChainIsPath | src/main.rs:107 | the predecessor chain of a visited page is a path from the start |
| PathFinder.LevelUp | src/main.rs:83-88 | once every page of a level is expanded, every path one hop longer ends at a visited page |
| PathFinder.ExhaustedReachesAll | src/main.rs:120-123 | when every visited page is expanded, every path from the start ends at a visited page |
| PathFinder.RootedGrow | src/main.rs:107 | the start stays the only page without a predecessor, and every predecessor entry is a graph edge |
| PathFinder.NewTree | src/main.rs:107 | a new destination of the popped page keeps the table a search tree rooted at the start |
| PathFinder.NewOptimal | src/main.rs:104-117 | a newly discovered page has no shorter path from the start |
| PathFinder.NewEntry | src/main.rs:107-117 | a new destination keeps the tree, the optimal levels and the completeness up to the current level |
| PathFinder.NewWaiting | src/main.rs:117 | a new destination that is not the target joins the back of the frontier and the search invariant holds |
| PathFinder.ClosePage | src/main.rs:106-118 | once all destinations of the popped page are visited, it is closed |
| PathFinder.Discover | src/main.rs:107-117 | one destination: an already visited page is skipped, so its entry and the frontier stay the same; the target, when new, is reported found with the popped page as predecessor; any other new page is queued |
| PathFinder.Advance | src/main.rs:106-118 | one more destination handled keeps the loop invariant of the expansion |
| PathFinder.Expand | src/main.rs:104-118 | all destinations of the popped page: existing entries are kept, and the target is found with the popped page as predecessor, or the popped page is closed |
| PathFinder.Started | src/main.rs:78-83 | the seed alone, with no predecessor, in the table and the frontier satisfies the search invariant |
| PathFinder.PopFront | src/main.rs:88 | `pop_front` keeps the invariant, with the head now popped |
| PathFinder.NextLevel | src/main.rs:88 | a frontier whose head is one level further moves the search to the next level |
| PathFinder.Round | src/main.rs:88-123 | one round keeps the tree; it finds the target (never the start), or leaves every visited page closed with nothing waiting, or keeps the invariant while visiting more pages or leaving fewer waiting |
| PathFinder.ChainShortest | src/main.rs:104-117 | the chain of a visited page is a path from the start with the fewest hops |
| PathFinder.ReachesAll | src/main.rs:120-123 | with every visited page closed, every page reachable from the start is visited |
| PathFinder.Search | src/main.rs:78-124 | the search ends; a found target differs from the start and its chain is a shortest path; otherwise every reachable page is visited, so the target is unreachable or is the start |
| PathFinder.VisitedIsReachable | src/main.rs:120-123 | when the search gives up, the visited pages are exactly those reachable from the start |
| PathDisplay.AsciiUpper | src/main.rs:25 | `to_uppercase().next()` on ASCII: `a`-`z` moved to `A`-`Z`, every other character unchanged |
| PathDisplay.TitlecaseFromAt | src/main.rs:15-35 | each character of the result is determined by the character and whether a space, or the start, precedes it |
| PathDisplay.TitlecaseAt | src/main.rs:15-35 | `to_titlecase` keeps the length and exactly the spaces, uppercases each word's first character and leaves every other character as it was |
| PathDisplay.TitlecaseSameId | src/main.rs:15-35 | for a title whose word-initial characters are ASCII, the displayed title differs from the stored one only in ASCII case, so it names the same page |
| PathDisplay.ToTitlecase | src/main.rs:15-35 | the character loop with its `capitalise` flag computes the titlecased name |
| PathDisplay.FmtTitle | src/main.rs:187-196 | the titlecased title followed by five characters: ` =?=>` exactly for a redirect, ` --->` exactly otherwise |
| PathDisplay.Count | src/bin/find_average.rs:282-287 | `count` is the number of pages on the chain, one more than the hops |
| PathDisplay.LinesCons | src/main.rs:210 | one more formatted line and a newline in front of the text of the rest of the chain |
| PathDisplay.Unwind | src/main.rs:198-216 | `unwind` prints the chain from start to target joined by newlines, with arrows, or panics when a page of the chain has no row |
| PathDisplay.LinesAt | src/main.rs:198-216 | one line per page: each page but the last formatted with its arrow, the last titlecased only |
| PathDisplay.PathShape | src/bin/find_average.rs:299-317 | the printed path has `count` lines; the last is the target's titlecased title; each other line ends with ` =?=>` exactly when its page is a redirect |
| PathPrograms.Route | src/main.rs:61-124 | "No more pages!" exactly when no path leads from the start to a different target; otherwise the chain is a shortest path, printed in full or ending in a panic at a page without a row |
| PathPrograms.Trial | src/bin/find_average.rs:152-210 | each trial either adds one found search and the chain's page count, or adds one to not found, exactly when the target is unreachable; a panic while printing leaves the counters as they were |
| PathPrograms.SameTitleNotFound | src/main.rs:50-62 | two command-line titles that differ only in ASCII case get one id, and the search never finds that id's page from itself |

## Left out

- Reading the dump file, `fs::rename` and the SQLite connection: the dump's lines are an input sequence and the tables are maps. PRAGMAs, statements, transactions and `commit().unwrap()` are not modelled.
- Read errors of the line iterator (`Some(Err(e))`, src/bin/process_data.rs:33-36, 61-64): the input is a sequence of lines that can always be read.
- All printing other than the failure log of a flush: progress messages, timing, the ETA, `num_format` and `hhmmss`.
- `DefaultHasher`, SipHash and the `from_ne_bytes` reinterpretation: the hash is a parameter, a function from a lowercased title to a 64-bit id.
- The `pages` and `links` queries of the pathfinders (`get_links`, `SELECT title, is_redirect`): they are a graph map and a `pages` map given as inputs.
- The random pair selection and the reopening of the database in src/bin/find_average.rs:46-85: a trial takes its two titles as inputs. The command-line arguments and default titles of src/main.rs:44-59: `Route` takes its two titles as inputs.
- The `not_found.txt` append and the floating-point rolling average of src/bin/find_average.rs:197-204 and 221.
- The `count` of pages searched in both pathfinders: it only feeds the progress messages.
- The 32-bit `count` of articles and the `usize` counters: they are unbounded here, since wrap-around would need over four billion articles.
- PathDisplay.AsciiUpper: only ASCII letters are uppercased; `to_uppercase` on other letters (and the characters it expands to) is not modelled.
- PathDisplay.TitlecaseSameId: proved only for titles whose word-initial characters are ASCII; a word starting with a non-ASCII letter ("Café élan" shown as "Café Élan") may be displayed with a title whose id differs.
- Rust's byte offsets and `is_char_boundary` tests are character positions here; every marker searched for is ASCII.
- PathDisplay.Unwind: requires the visited table to be a predecessor tree, as the search builds it, so the `unwrap` on `others.get` in src/main.rs:212 never panics; only a missing `pages` row is modelled as a panic.
- PathDisplay.Count: requires the same tree, so the `unwrap` in src/bin/find_average.rs:286 cannot fail.
- Ingestor.DB.Cache: the agreement of each table with the rows written to it is stated as kept (if it held before, it holds after) rather than as part of `Valid()`.
- Ingestor.DB.WritePagesToDb: the same agreement is stated as kept, not as part of `Valid()`.
- Ingestor.DB.WriteLinksToDb: the same agreement is stated as kept, not as part of `Valid()`.
- Panics (a title line shorter than both tags, a text line without `>`, end of input inside a body) end the scan in a `Panicked` outcome rather than being excluded by preconditions; the rows still buffered are then never written.
- `src/bin/count_references.rs` and `src/bin/read_file.rs` are not part of this model, nor is the commented-out `resolve_links`.
