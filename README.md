# wikiparse, modelled in Dafny

This project models the sequential core of `wikiparse`, a set of tools that
index a Wikipedia XML dump. The dump is one large file of `<page>` records.
The modelled parts are:

- **The span scanner** `page_generator` of the coordinate indexer
  (`GeoScanner`, `geo_scanner.dfy`). It cuts the dump into contiguous
  `[start, end)` byte spans, each ending where a line holding `<page>`
  begins. After each yield it seeks back, so the `<page>` line that closed a
  span is read again into the next span. A sampled scan stops once the
  number of spans exceeds a fraction of 21,000,000.
- **The coordinate indexer** `Indexer` (`GeoIndexer`, `geo_indexer.dfy`).
  `get_offsets` and `get_raw` read a stored span. `load` keeps the spans
  whose page holds a coordinate template, with insert-or-ignore semantics.
  `create_title_db` rebuilds the title table, where the first page with a
  given title wins.
- **The page-offset scan** `getSizeAndMakeOffsets` of the dump reader
  (`DumpOffsets`, `dump_offsets.dfy`). It numbers the `<page>` lines and
  records the byte offset of each line's first `<page>`. It resumes from a
  stored page's offset and commits whenever its byte counter is a multiple
  of 100,000.
- **The dump reader** `Dump` (`WikiDump`, `dump.dfy`). This covers
  `get_offset` and `get_raw`, and `get_page_contents` with the
  `get_page_length` cache. It also covers the body of `__init__`: it sets
  the size, backfills titles and commits.
- **Template discovery** `get_tags` and `_get_starting_indices`
  (`SyntaxParser`, `syntax_parser.dfy`).
- **Frequency counting** (`Tokenize`, `tokenize.dfy`): `lookup`, the
  counting loop of `get_token_counts`, and the `DictStorage` and
  `DataFrameStorage` updates.
- `Text` (`text.dfy`) holds the shared vocabulary:
  - bytes;
  - Python's `find`/`index` and `in` on byte strings;
  - the file's line iterator;
  - `seek` + `read`;
  - `str(int)` and its inverse.

How things are represented:

- The dump is an in-memory `seq<bv8>`. A file cursor is an explicit
  position.
- A line runs up to and including its newline, or to the end of the file.
- SQL tables and shelves are `map` fields keyed by their primary key.
- `commit` is an entry appended to a log, recording what triggered it.
- The XML parser, `tag_finder`, `page_to_geographic_db` and
  `coord_string_to_dict` are not shown here. Each one is a function-typed
  constant of the class that uses it.

The model follows the code as written. These behaviours are worth knowing:

- `page_generator` yields the preamble. When the first `<page>` line starts
  after byte 0, the bytes before it come out as the first span, and `load`
  stores it as page 0 if it holds a coordinate tag and its extraction finds
  coordinate text. It is not discarded (`GeoScanner.PreambleIsFirstSpan`).
- `getSizeAndMakeOffsets` uses a plain `INSERT`, so a page number that is
  already taken ends the scan with an error. Duplicates are not ignored.
- The scan resumes from `MAX(page_num)` at that page's stored offset. The
  line it lands in still holds that `<page>`, so the offset is recorded
  again under the next page number. `get_raw` of the page before the
  resumed one then reads zero bytes (`WikiDump.ResumeEmptiesPage`).
- `get_offset` raises a plain `Exception`, never a `KeyError`. So the
  end-of-file branch of `get_raw` never runs, and the last page cannot be
  read (`WikiDump.FreshScanReadsPages`).
- A fresh `Dump(..., build_index=True)` backfills titles up to position
  `size - 1`. That position needs the offset of page `size + 1`, which does
  not exist. Its error handler calls `get_raw` again, which raises again,
  so when the dump has at least one page, `__init__` fails, at that last
  position at the latest (`WikiDump.Dump.FreshBuildFails`).
- A page that parses but has no `<title>` element raises `AttributeError`.
  This ends the backfill and `create_title_db`; it is not skipped.
- `get_tags` appends `'\|'` (backslash, bar) unconditionally. The test
  `tag[-1] != '\|'` compares one character with two. As a regular
  expression, `\|` matches a literal `|`. An empty tag fails at `tag[-1]`.

## Model

| member | source | states |
|---|---|---|
| Text.IndexOfFromSpec | wikiparse/syntax_parser.py:13 | `find(pat, i)` returns the first occurrence at or after `i`, or -1 exactly when there is none |
| Text.IndexOfSpec | wikiparse/indexer.py:99-101 | `find` is -1 exactly when `pat in s` is false; otherwise it is the first position where `pat` occurs (`index`) |
| Text.LineEnd | wikiparse/indexer.py:92 | a line read at `p` ends just after the first newline at or after `p`, or at the end of the file, and holds no other newline |
| Text.ReadAt | wikiparse/indexer.py:243-247 | `seek(pos); read(n)` fails exactly when `n < -1`; it gives `data[pos..pos+n]` when that lies in the file, the rest of the file for `n == -1`, nothing past the end, and never more than `n` bytes |
| Text.DecimalRoundTrip | wikiparse/indexer.py:274-277 | `int(str(n)) == n` for the cache keys `str(index)` |
| Text.DecimalStringInjective | wikiparse/indexer.py:274-277 | different indices have different cache keys |
| DumpOffsets.LineMarkerIsIndex | wikiparse/indexer.py:99-101 | the byte-wise marker search of a line agrees with `b'<page>' in line` and `line.index(b'<page>')` |
| DumpOffsets.PageOffsetSpec | wikiparse/indexer.py:101 | the marker search finds the first `<page>` inside the range, or -1 exactly when there is none |
| DumpOffsets.GetSizeAndMakeOffsets | wikiparse/indexer.py:73-113 | the loop computes the resumed scan: it seeks to the stored offset of `current_page` (0 without a row), inserts one row per `<page>` line, fails on a taken page number, and commits at 100,000-byte multiples |
| DumpOffsets.OffsetScanStep | wikiparse/indexer.py:92-105 | one line of the scan: no marker leaves the page counter alone; a marker inserts the next page with `idx + line.index(b'<page>')` or fails when that number is taken |
| DumpOffsets.ScanCountsMarkers | wikiparse/indexer.py:92-113 | the scan succeeds exactly when no page number it assigns is taken, and then returns the start page plus the number of `<page>` lines |
| DumpOffsets.ScanNumbersMarkers | wikiparse/indexer.py:99-101 | a successful scan adds exactly the rows `page+1 .. page+n`, the k-th holding the k-th recorded offset, with empty title and coordinates |
| DumpOffsets.ScanKeepsRows | wikiparse/indexer.py:95-101 | rows present before the scan are kept unchanged |
| DumpOffsets.LinesCommitAtBoundaries | wikiparse/indexer.py:102-105 | over lines with increasing ends, commits happen only at line ends that are multiples of 100,000, in increasing order |
| DumpOffsets.ScanCommitsAtBoundaries | wikiparse/indexer.py:102-105 | the scan commits only when its byte counter is a multiple of 100,000, at strictly increasing offsets within the file |
| DumpOffsets.MarkerInLine | wikiparse/indexer.py:101 | a recorded offset is a `<page>` of the file that lies wholly inside its line |
| DumpOffsets.MarkersAreOccurrences | wikiparse/indexer.py:99-102 | every recorded offset is the start of a `<page>` at or after where the scan began |
| DumpOffsets.MarkersIncrease | wikiparse/indexer.py:99-102 | recorded offsets strictly increase, each at least six bytes past the previous |
| DumpOffsets.ResumeRepeatsOffset | wikiparse/indexer.py:83-101 | a scan resumed at the j-th recorded offset records that offset again first, then every later one |
| DumpOffsets.ResumeAtMarker | wikiparse/indexer.py:90-101 | seeking into a line at its first `<page>` records the same offsets as reading the line from its start |
| DumpOffsets.ReadFromMarker | wikiparse/indexer.py:90-92 | the line read after seeking to a marker ends where the original line ends and begins with `<page>` |
| DumpOffsets.FreshScan | wikiparse/indexer.py:83-113 | a scan from page 0 into an empty table starts at byte 0, returns the number of `<page>` lines, and stores exactly the pages 1 .. n, page k holding the offset of the k-th `<page>` line |
| DumpOffsets.ResumeRecordsOffsetAgain | wikiparse/indexer.py:83-113 | resuming at a stored page whose offset is the j-th recorded marker keeps that page's row, stores the same offset again under the next page number, and returns the page plus the number of markers from the j-th on |
| WikiDump.RawIn | wikiparse/indexer.py:238-252 | `get_raw` over a table succeeds exactly when rows `n+1` and `n+2` exist, the start is not negative and the length is at least -1; for offsets in order within the file it reads exactly the bytes between them |
| WikiDump.OffsetIn | wikiparse/indexer.py:254-260 | `get_offset` over a table: the stored offset exactly when a row exists, otherwise an error |
| WikiDump.MaxKey | wikiparse/indexer.py:180-182 | `MAX(page_num)` is a stored page number and no stored number is larger |
| WikiDump.FirstAbort | wikiparse/indexer.py:203-213 | the backfill takes steps up to the first one that aborts: none before it aborts, and the one at it does |
| WikiDump.BackfilledRows | wikiparse/indexer.py:218-221 | the backfill only sets titles: row `p+1` takes the title of a Write at position `p`; every other row, page number and offset is kept |
| WikiDump.BackfillCommitsAt | wikiparse/indexer.py:223-224 | the backfill commits exactly at positions that are multiples of 1000 where it wrote a title |
| WikiDump.BackfillKeepsRaw | wikiparse/indexer.py:218-221 | `get_raw` reads the same bytes before and after any part of the backfill |
| WikiDump.FreshScanReadsPages | wikiparse/indexer.py:238-260 | after a fresh scan, `get_raw(n)` succeeds exactly for `0 <= n <= pages-2` and reads from the (n+1)-th `<page>` line's marker up to the (n+2)-th, beginning with `<page>`; the last page fails |
| WikiDump.ResumeEmptiesPage | wikiparse/indexer.py:177-186 | after resuming from a stored page, `get_raw` of the page before it reads zero bytes |
| WikiDump.Dump.constructor | wikiparse/indexer.py:133-163 | the stores are opened with their current contents and nothing is committed yet |
| WikiDump.Dump.GetOffset | wikiparse/indexer.py:254-260 | the stored offset of a page exactly when its row exists |
| WikiDump.Dump.GetRaw | wikiparse/indexer.py:238-252 | succeeds exactly when rows `n+1` and `n+2` exist with a non-negative start and `offset(n+2) - offset(n+1) >= -1` (a shorter length makes `read` raise); for offsets in order within the file it reads exactly `data[offset(n+1)..offset(n+2)]` |
| WikiDump.Dump.GetPageContents | wikiparse/indexer.py:266-269 | a result exactly when the page is readable and its revision text parses, and then that text |
| WikiDump.Dump.GetPageLength | wikiparse/indexer.py:271-278 | a cached length is returned unchanged; otherwise the text's length is computed, stored under `str(index)` and returned, and errors leave the cache alone |
| WikiDump.Dump.StepAt | wikiparse/indexer.py:206-221 | a backfill position aborts exactly when the page cannot be read or parses without a `<title>` element, a missing row `i+1` or `i+2` aborts, and a written title is the page's parsed `<title>` |
| WikiDump.Dump.BackfillAt | wikiparse/indexer.py:206-225 | one backfill position: an unreadable page or a missing `<title>` aborts, a parse error skips, a title is written into row `i+1`, and a commit follows at multiples of 1000 |
| WikiDump.Dump.Steps | wikiparse/indexer.py:203 | one step per position of `[num_page_titles, size)` |
| WikiDump.Dump.NextStep | wikiparse/indexer.py:203-221 | part way through the backfill, the step at the next position is the one it had before the backfill began |
| WikiDump.Dump.BackfillTitles | wikiparse/indexer.py:200-225 | the loop takes every step up to the first abort, leaving the rows and commits that those steps produce, and returns that abort's error if any |
| WikiDump.Dump.FreshBuildFails | wikiparse/indexer.py:195-210 | on a fresh dump with at least one page, the scan returns the page count, no row has a title, and the backfill's last step aborts, so `__init__` fails |
| WikiDump.Dump.MaxPageNum | wikiparse/indexer.py:180-182 | the loop returns the largest stored page number |
| WikiDump.Dump.EnsureSize | wikiparse/indexer.py:172-189 | the size comes from the shelf; otherwise it comes from the scan resumed at `MAX(page_num)` (0 when empty) and is stored when the scan succeeds |
| WikiDump.Dump.Init | wikiparse/indexer.py:133-232 | `__init__` after opening the stores: a failed scan ends it; otherwise titles are backfilled from `num_page_titles` when asked, and the final commit happens only if no step aborted |
| GeoScanner.NoLineStartInside | wikiparse/geo_indexer.py:17 | no line begins strictly inside another line |
| GeoScanner.ExtendScan | wikiparse/geo_indexer.py:18-22 | appending a span that starts at the previous end, reads its bytes, and ends at a `<page>` line with none inside keeps the spans well-formed |
| GeoScanner.SkipLine | wikiparse/geo_indexer.py:26-27 | the else branch adds the line to the open span and keeps the scan state |
| GeoScanner.YieldSpan | wikiparse/geo_indexer.py:18-22 | the yield branch closes the open span at the `<page>` line and keeps the scan state |
| GeoScanner.FinishScan | wikiparse/geo_indexer.py:17-25 | leaving the loop at end of file or at the sample check gives a complete scan |
| GeoScanner.PageGenerator | wikiparse/geo_indexer.py:12-27 | the yields are a complete scan: non-empty spans in the file that carry exactly their bytes, contiguous from 0, each ending at a `<page>` line with none inside, and stopped only by end of file or the sample check |
| GeoScanner.NothingWithoutLaterMarker | wikiparse/geo_indexer.py:17-27 | nothing is yielded exactly when no `<page>` line begins after byte 0 |
| GeoScanner.SpansAgree | wikiparse/geo_indexer.py:17-22 | two well-formed scans of the same file agree span by span |
| GeoScanner.ScanIsDeterministic | wikiparse/geo_indexer.py:12-27 | scanning an unchanged file twice with the same sample gives identical spans |
| GeoScanner.NotShorter | wikiparse/geo_indexer.py:23-25 | a complete scan is never shorter than another complete scan of the same file |
| GeoScanner.NextSpanStartsAtEnd | wikiparse/geo_indexer.py:22 | a longer well-formed scan continues where a shorter one ends |
| GeoScanner.ScanCoversPrefix | wikiparse/geo_indexer.py:13-27 | the yielded bytes, in order, are exactly the file up to the last span's end; what follows is never yielded |
| GeoScanner.PreambleIsFirstSpan | wikiparse/geo_indexer.py:17-22 | bytes before a first `<page>` line after byte 0 form the first span; with `<page>` on the first line there is no empty preamble span |
| GeoIndexer.InsertOrIgnore | wikiparse/geo_indexer.py:107-113 | an insert whose key collision is swallowed adds the key and keeps any existing row |
| GeoIndexer.Indexer.constructor | wikiparse/geo_indexer.py:32-59 | the stores are opened with their current contents and nothing is committed yet |
| GeoIndexer.Indexer.GetOffsets | wikiparse/geo_indexer.py:84-90 | the stored `(start, end)` exactly when the row exists, otherwise an error |
| GeoIndexer.Indexer.GetRaw | wikiparse/geo_indexer.py:73-78 | succeeds exactly when the row exists with a non-negative start and `end - start >= -1`; with a row inside the file it reads exactly `data[start..end]`, `end - start` bytes |
| GeoIndexer.Indexer.RawIn | wikiparse/geo_indexer.py:73-78 | `get_raw` over a table: the same success condition, and the span's bytes when it lies in the file |
| GeoIndexer.Indexer.TitleOf | wikiparse/geo_indexer.py:149-160 | a title is derived only for a page that has a row |
| GeoIndexer.Indexer.GetPageNumbers | wikiparse/geo_indexer.py:92-94 | every page number whose coordinates display "inline,title", each exactly once |
| GeoIndexer.Indexer.TitleStopFrom | wikiparse/geo_indexer.py:148-169 | the title pass stops at the first page with no `<title>` or whose insert hits a storage error, or after the last page |
| GeoIndexer.Indexer.CreateTitleDb | wikiparse/geo_indexer.py:137-175 | the title table is rebuilt from empty over the query order up to the stop; commits happen at positions that are multiples of 1000; the pass ends in error exactly when it stopped at a page without `<title>` |
| GeoIndexer.Indexer.LoadStep | wikiparse/geo_indexer.py:100-129 | one span of `load`: the tag count grows on a tag, a kept span is inserted-or-ignored into both tables at its position, and the commit condition is checked |
| GeoIndexer.Indexer.IndexSpans | wikiparse/geo_indexer.py:100-130 | the loop leaves the tables, the tag count and the commits that the span-by-span definitions give |
| GeoIndexer.Indexer.Load | wikiparse/geo_indexer.py:96-135 | `load` scans the dump, indexes the kept spans, sets `size` to the tag count, commits, and rebuilds titles, passing on their error |
| GeoIndexer.Indexer.IndexedAfterRows | wikiparse/geo_indexer.py:106-113 | `indices` holds exactly the old rows plus the kept spans under their 0-based position; old rows are never overwritten |
| GeoIndexer.Indexer.CoordsAfterRows | wikiparse/geo_indexer.py:114-124 | the same for the `coords` table |
| GeoIndexer.Indexer.TagCountCountsTagged | wikiparse/geo_indexer.py:102-103 | `coords_count`, and so `size`, is the number of spans that passed the tag check, whether or not coordinates were found |
| GeoIndexer.Indexer.ScanCommitsAtBatches | wikiparse/geo_indexer.py:128-129 | `load` commits only at counter values that are multiples of 1000 and have been reached |
| GeoIndexer.Indexer.TitlesKept | wikiparse/geo_indexer.py:160-171 | a title is stored exactly when some handled page yields it |
| GeoIndexer.Indexer.TitlesUnseen | wikiparse/geo_indexer.py:160-171 | a title no handled page yields is not stored |
| GeoIndexer.Indexer.TitlesStep | wikiparse/geo_indexer.py:149-171 | one page of the title pass: skipped without a title, otherwise insert-or-ignore of its span |
| GeoIndexer.Indexer.TitlesFirstWins | wikiparse/geo_indexer.py:162-171 | for a duplicate title, the row of the first page that yields it is kept |
| GeoIndexer.Indexer.TitlesMatchIndex | wikiparse/geo_indexer.py:160-166 | every stored title row names a page whose indexed span it copies and whose bytes yield that title |
| GeoIndexer.Indexer.TitleCommitsAtBatches | wikiparse/geo_indexer.py:172-174 | the title pass commits at strictly increasing handled positions that are multiples of 1000 |
| SyntaxParser.StartingIndices | wikiparse/syntax_parser.py:4-5 | every start is an occurrence of the pattern, starts come in ascending order without overlap, and there are none exactly when the pattern does not occur |
| SyntaxParser.Matches | wikiparse/syntax_parser.py:5 | every match start is an occurrence at or after the scan start, and matches do not overlap and come in ascending order |
| SyntaxParser.MatchesCover | wikiparse/syntax_parser.py:5 | no occurrence is skipped: each one is a match or lies inside an earlier match |
| SyntaxParser.MatchesEmpty | wikiparse/syntax_parser.py:4-5 | there is no match exactly when the pattern does not occur |
| SyntaxParser.SliceEnd | wikiparse/syntax_parser.py:14 | a slice end within the string is kept, a negative one counts from the end, and the result is clamped |
| SyntaxParser.Slice | wikiparse/syntax_parser.py:14 | every slice is a substring of the input |
| SyntaxParser.TagAtClosed | wikiparse/syntax_parser.py:13-14 | with a later `}}`, the kept text runs from the match to just before the first `}}` and holds no `}}` |
| SyntaxParser.TagAtOpen | wikiparse/syntax_parser.py:13-14 | without a later `}}`, `string[idx:idx-1]` is empty, except at position 0 where it is all but the last character |
| SyntaxParser.TagAtStartsWithMatch | wikiparse/syntax_parser.py:9-14 | a closed match keeps text that begins with `tag|` when the tag holds no `}}` |
| SyntaxParser.GetTags | wikiparse/syntax_parser.py:7-15 | fails exactly on an empty tag; otherwise returns one text per match of `tag + "|"`, in match order |
| Tokenize.Lookup | wikiparse/tokenize.py:81-85 | the stored frequency exactly when the word is present and its count exceeds the threshold, otherwise -1 |
| Tokenize.LookupThresholds | wikiparse/tokenize.py:81-85 | for any two thresholds, a word found at the higher one is found with the same value at the lower one, and a word missing at the lower one is missing at the higher one |
| Tokenize.TotalRemove | wikiparse/tokenize.py:101-109 | the sum of the counts does not depend on the order of the keys |
| Tokenize.TotalUpdate | wikiparse/tokenize.py:105-108 | changing one count changes the sum by the difference |
| Tokenize.GetTokenCounts | wikiparse/tokenize.py:101-109 | the keys are exactly the distinct tokens, each maps to its number of occurrences, and the counts sum to the number of tokens |
| Tokenize.DictStorage.constructor | wikiparse/tokenize.py:40-42 | an empty dictionary and a zero count |
| Tokenize.DictStorage.Update | wikiparse/tokenize.py:44-48 | each word of the set gains exactly 1 (from 0 when absent), other words are unchanged, and `count` grows by 1 |
| Tokenize.DataFrameStorage.constructor | wikiparse/tokenize.py:51-54 | an empty storage whose counters agree |
| Tokenize.DataFrameStorage.WriteOut | wikiparse/tokenize.py:63-68 | succeeds exactly when frames are pending; then they become the next file, `dfs_count` grows by 1 and `dfs` is emptied; with none pending, `concat` fails and nothing changes |
| Tokenize.DataFrameStorage.Update | wikiparse/tokenize.py:56-61 | the frame is appended, and on every 10,000th update the batch is written out; the counters stay consistent and no frame is lost or reordered |
| Tokenize.DataFrameStorage.Finish | wikiparse/tokenize.py:74-79 | pending frames are written out if there are any, which empties the pending list and advances the file counter by one; with none pending, concatenation fails, no file is written and the counter stays; the row count and received frames are unchanged |
| Tokenize.WrittenAfter | wikiparse/tokenize.py:56-68 | after n updates from fresh, `dfs_count = n / 10000`, `len(dfs) = n % 10000`, and the files hold the first `n - n % 10000` frames |

## Left out

- File handles, `open`, `os.path` and `os.mkdir` are left out. The dump is a byte sequence and reads are slices.
- SQLite connections, SQL text, `shelve` and `commit` durability are left out. Tables are maps and a commit is a log entry.
- The `rows_in_db` query and its printing are left out. `num_page_titles` is modelled as the number of rows with a non-empty title.
- XML parsing (`xml.etree`) is an opaque function. So are `tag_finder`, `page_to_geographic_db` and `coord_string_to_dict` from `pipeline_utils`, which is not part of this model. The decimal-degree conversion therefore does not appear.
- The dump reader's `get_raw` and `get_page_contents` work on bytes:
  - `.decode('utf-8')` and `.encode('utf8')` are not modelled;
  - a decode failure would, like an unreadable page, end the title backfill, because its handler calls `get_raw` again;
  - `parseTitle` returns a string title, so the NULL title of an empty `<title/>` is not modelled.
- The end-of-file branch of the dump reader's `get_raw` (the `KeyError` handler with its `.*</page>` regex) is left out. It cannot run, because `get_offset` never raises `KeyError`.
- `get_page_index`, `get_page` and `get_page_contents_by_title` are left out. They read `self.page_titles`, which is never assigned.
- `get_page_by_index` is left out. It only wraps `get_raw` in a `Page` object, and `Page` objects are left out (next line).
- `Page` objects and their regex tables are left out, as are the module-level dump discovery (`dumpfile_name`, `all_prefixes`, `load_dumps`) and the link and category regexes. They need a regex engine and directory listings.
- The always-false `is` comparisons in `getSizeAndMakeOffsets` are left out. Only the `in` branch is modelled.
- The sample fraction is a `real`. Floating-point rounding of `PAGES_ESTIMATE * sample` is not modelled.
- GeoIndexer.Indexer.CreateTitleDb: the storage error (`OperationalError`) on an insert is a parameter, the position `faultAt`. It is not derived from the database. The query order is any order that lists each selected page number once.
- GeoIndexer.Indexer.GetRaw: works on bytes, and its `.decode('utf-8')` is not modelled. The source also raises on a span that is not valid UTF-8, so its "succeeds exactly when" holds only for spans that decode. GeoIndexer.Indexer.RawIn has the same gap.
- GeoIndexer.Indexer.Load: `page.decode('utf-8')` is not modelled. A tagged span that is not valid UTF-8 makes `load` raise before `size` is set and before the title pass, but the model indexes it. Spans made of whole lines of a UTF-8 dump always decode.
- GeoIndexer.Indexer.Load: the final progress print divides by the last span index `i`. It fails when fewer than two spans are yielded, and that failure is not modelled. The `DROP TABLE` error handling is not modelled either.
- SyntaxParser.GetTags: the tag is matched as literal text. Regex metacharacters inside a tag are not interpreted.
- Tokenize.GetTokenCounts: takes the token list as input. `tokenize_page`, with nltk, `re.sub` and lower-casing, is not modelled.
- Threads, the lock, `queue`, `random`, `pickle`, pandas frames, CSV writing, time estimates (`time_left`, `printable_time_left`) and all `print`/`time.time()` bookkeeping are left out. `make_tfidf_df`, `create_doc_freq` and `create_tfidf` are orchestration over these.
