/** The coordinate indexer (`Indexer` in geo_indexer.py): it stores the spans
    of pages that carry coordinate templates, the parsed coordinates, and a
    title table, over abstract tables. SQL tables are maps keyed by their
    primary key; `commit` is an entry in a log of the counter that triggered it. */
module GeoIndexer {
  import opened Text
  import opened GeoScanner

  /** A row of the `indices` table: `(title, coords, page_num, start_idx, end_idx)`,
      keyed by `page_num`. */
  datatype IndexRow = IndexRow(title: string, coords: string, start: int, end: int)

  /** A row of the `coords` table, keyed by `page_num`: the page title and the
      attributes that the coordinate text converts to. */
  datatype CoordRow = CoordRow(title: string, attrs: map<string, string>)

  /** A row of the `titles` table, keyed by `title`. */
  datatype TitleRow = TitleRow(start: int, end: int, pageNum: int)

  /** What the page-to-database extraction returns for one page. */
  datatype GeoExtract = GeoExtract(title: string, coords: string)

  /** An INSERT whose key-collision error is caught and ignored: a present
      key keeps its row. */
  function InsertOrIgnore<K, V>(m: map<K, V>, k: K, v: V): (r: map<K, V>)
    ensures r.Keys == m.Keys + {k}
    ensures k in m ==> r[k] == m[k]
    ensures k !in m ==> r[k] == v
    ensures forall j :: j in m && j != k ==> r[j] == m[j]
  {
    if k in m then m else m[k := v]
  }

  const INLINE_TITLE: string := "inline,title"

  /** The coordinate row's `display` column holds "inline,title". */
  predicate IsInlineTitle(row: CoordRow)
  {
    "display" in row.attrs && row.attrs["display"] == INLINE_TITLE
  }

  /** The page numbers the `coords` query selects. */
  function InlineTitlePages(coords: map<int, CoordRow>): set<int>
  {
    set k | k in coords && IsInlineTitle(coords[k])
  }

  /** A possible row order of `SELECT page_num FROM coords WHERE
      display="inline,title"`: every selected page number exactly once. */
  ghost predicate IsQueryOrder(coords: map<int, CoordRow>, order: seq<int>)
  {
    (forall i, j :: 0 <= i < j < |order| ==> order[i] != order[j]) &&
    (forall x :: x in order <==> x in InlineTitlePages(coords))
  }

  /** The `load` pass commits whenever its coordinate counter is a multiple of this. */
  const LOAD_BATCH: int := 1_000

  /** The title pass commits whenever its position is a multiple of this. */
  const TITLE_BATCH: int := 1_000

  class Indexer {
    /** The dump file, read through `xml_file`. */
    const data: seq<byte>
    /** Whether a page's bytes hold a coordinate tag. */
    const tagFinder: seq<byte> -> bool
    /** The page's title and coordinate text. */
    const extract: seq<byte> -> GeoExtract
    /** The attributes that a coordinate text converts to. */
    const coordAttrs: string -> map<string, string>
    /** The XML parse of a page's text and its `<title>`; bytes that are not
        UTF-8 count as a parse error. */
    const parseTitle: seq<byte> -> TitleParse

    var indices: map<int, IndexRow>
    var coords: map<int, CoordRow>
    var titles: map<string, TitleRow>
    /** The metadata shelf's `size` entry, None while unset. */
    var size: Option<int>
    var commits: seq<int>

    /** Opens the stores; a table that does not exist yet is created empty. */
    constructor (data: seq<byte>, tagFinder: seq<byte> -> bool, extract: seq<byte> -> GeoExtract,
                 coordAttrs: string -> map<string, string>, parseTitle: seq<byte> -> TitleParse,
                 indices: map<int, IndexRow>, coords: map<int, CoordRow>,
                 titles: map<string, TitleRow>, size: Option<int>)
      ensures this.data == data && this.tagFinder == tagFinder && this.extract == extract
      ensures this.coordAttrs == coordAttrs && this.parseTitle == parseTitle
      ensures this.indices == indices && this.coords == coords && this.titles == titles
      ensures this.size == size && this.commits == []
    {
      this.data, this.tagFinder, this.extract := data, tagFinder, extract;
      this.coordAttrs, this.parseTitle := coordAttrs, parseTitle;
      this.indices, this.coords, this.titles := indices, coords, titles;
      this.size, this.commits := size, [];
    }

    /** `get_offsets`: the stored span of a page; fails when no row exists. */
    function GetOffsets(pageNum: int): (r: Result<(int, int)>)
      reads this`indices
      ensures r.Ok? <==> pageNum in indices
      ensures r.Ok? ==> r.value == (indices[pageNum].start, indices[pageNum].end)
    {
      if pageNum in indices then Ok((indices[pageNum].start, indices[pageNum].end))
      else Err("cannot get idx for page")
    }

    /** `get_raw`: seek to the stored start and read `end - start` bytes. */
    function GetRaw(pageNum: int): (r: Result<seq<byte>>)
      reads this`indices
      ensures r.Ok? <==> (pageNum in indices && 0 <= indices[pageNum].start &&
        indices[pageNum].end - indices[pageNum].start >= -1)
      ensures pageNum in indices && 0 <= indices[pageNum].start <= indices[pageNum].end <= |data| ==>
        r == Ok(data[indices[pageNum].start..indices[pageNum].end]) &&
        |r.value| == indices[pageNum].end - indices[pageNum].start
    {
      RawIn(indices, pageNum)
    }

    /** `get_raw` over a given `indices` table: no row, a negative start
        and a length below -1 fail; otherwise the bytes of the span, cut
        at the end of the file. */
    function RawIn(rows: map<int, IndexRow>, pageNum: int): (r: Result<seq<byte>>)
      ensures r.Ok? <==> pageNum in rows && 0 <= rows[pageNum].start && rows[pageNum].end - rows[pageNum].start >= -1
      ensures r.Ok? && rows[pageNum].start <= rows[pageNum].end <= |data| ==>
        r.value == data[rows[pageNum].start..rows[pageNum].end]
    {
      if pageNum !in rows then Err("cannot get idx for page")
      else if rows[pageNum].start < 0 then Err("negative seek position")
      else ReadAt(data, rows[pageNum].start, rows[pageNum].end - rows[pageNum].start)
    }

    /** The title the title pass derives for a page: None when its bytes
        cannot be read or do not parse, or when they have no `<title>`. */
    function TitleOf(rows: map<int, IndexRow>, pageNum: int): (t: Option<string>)
      ensures t.Some? ==> pageNum in rows
    {
      match RawIn(rows, pageNum)
      case Err(_) => None
      case Ok(raw) =>
        match parseTitle(raw)
        case Title(t) => Some(t)
        case _ => None
    }

    /** The page's bytes parse but have no `<title>` element: reading the
        title's text raises, and nothing catches it. */
    predicate NoTitle(rows: map<int, IndexRow>, pageNum: int)
    {
      RawIn(rows, pageNum).Ok? && parseTitle(RawIn(rows, pageNum).value).NoTitleElement?
    }

    /** `get_page_numbers`: the selected page numbers, in an order the
        storage engine chooses. */
    method GetPageNumbers() returns (nums: seq<int>)
      ensures IsQueryOrder(coords, nums)
    {
      var rest := InlineTitlePages(coords);
      nums := [];
      while exists k | k in rest :: true
        invariant forall i, j :: 0 <= i < j < |nums| ==> nums[i] != nums[j]
        invariant forall x :: x in InlineTitlePages(coords) <==> x in nums || x in rest
        invariant forall x :: x in nums ==> x !in rest
        decreases |rest|
      {
        var k :| k in rest;
        nums := nums + [k];
        rest := rest - {k};
      }
    }

    /** The span was kept by `load`: it holds a coordinate tag and its
        extraction found coordinate text. */
    predicate Recorded(sp: Span)
    {
      tagFinder(sp.bytes) && extract(sp.bytes).coords != ""
    }

    /** The `indices` table after `load` has seen the first `n` spans. */
    function IndexedAfter(start: map<int, IndexRow>, spans: seq<Span>, n: nat): map<int, IndexRow>
      requires n <= |spans|
    {
      if n == 0 then start
      else
        var m := IndexedAfter(start, spans, n - 1);
        var sp := spans[n - 1];
        if Recorded(sp) then
          InsertOrIgnore(m, n - 1, IndexRow(extract(sp.bytes).title, extract(sp.bytes).coords, sp.start, sp.end))
        else m
    }

    /** The `coords` table after `load` has seen the first `n` spans. */
    function CoordsAfter(start: map<int, CoordRow>, spans: seq<Span>, n: nat): map<int, CoordRow>
      requires n <= |spans|
    {
      if n == 0 then start
      else
        var m := CoordsAfter(start, spans, n - 1);
        var sp := spans[n - 1];
        if Recorded(sp) then
          InsertOrIgnore(m, n - 1, CoordRow(extract(sp.bytes).title, coordAttrs(extract(sp.bytes).coords)))
        else m
    }

    /** `coords_count` after the first `n` spans: how many held a coordinate tag. */
    function TagCount(spans: seq<Span>, n: nat): nat
      requires n <= |spans|
    {
      if n == 0 then 0
      else TagCount(spans, n - 1) + (if tagFinder(spans[n - 1].bytes) then 1 else 0)
    }

    /** The counters at which `load` committed while seeing the first `n` spans. */
    function ScanCommits(spans: seq<Span>, n: nat): seq<int>
      requires n <= |spans|
    {
      if n == 0 then []
      else ScanCommits(spans, n - 1) + (if TagCount(spans, n) % LOAD_BATCH == 0 then [TagCount(spans, n)] else [])
    }

    /** The `titles` table after the title pass has handled `order[..n]`. */
    function TitlesAfter(rows: map<int, IndexRow>, order: seq<int>, n: nat): map<string, TitleRow>
      requires n <= |order|
    {
      if n == 0 then map[]
      else
        var m := TitlesAfter(rows, order, n - 1);
        var pn := order[n - 1];
        match TitleOf(rows, pn)
        case None => m
        case Some(t) => InsertOrIgnore(m, t, TitleRow(rows[pn].start, rows[pn].end, pn))
    }

    /** The title pass ends at position `i`: the page there has no
        `<title>`, or the insert of its title fails with a storage error. */
    predicate Halts(rows: map<int, IndexRow>, order: seq<int>, faultAt: Option<nat>, i: nat)
      requires i < |order|
    {
      NoTitle(rows, order[i]) || (faultAt == Some(i) && TitleOf(rows, order[i]).Some?)
    }

    /** Where the title pass ends, looking from position `i`: the first
        position where it halts, or after the last page number. */
    function TitleStopFrom(rows: map<int, IndexRow>, order: seq<int>, faultAt: Option<nat>, i: nat): (n: nat)
      requires i <= |order|
      ensures i <= n <= |order|
      ensures forall k :: i <= k < n ==> !Halts(rows, order, faultAt, k)
      ensures n < |order| ==> Halts(rows, order, faultAt, n)
      decreases |order| - i
    {
      if i == |order| || Halts(rows, order, faultAt, i) then i
      else TitleStopFrom(rows, order, faultAt, i + 1)
    }

    /** Where the title pass ends. */
    function TitleStop(rows: map<int, IndexRow>, order: seq<int>, faultAt: Option<nat>): (n: nat)
      ensures n <= |order|
    {
      TitleStopFrom(rows, order, faultAt, 0)
    }

    /** The positions at which the title pass committed while handling `order[..n]`. */
    function TitleCommits(rows: map<int, IndexRow>, order: seq<int>, n: nat): seq<int>
      requires n <= |order|
    {
      if n == 0 then []
      else
        var batch := if TitleOf(rows, order[n - 1]).Some? && (n - 1) % TITLE_BATCH == 0 then [n - 1] else [];
        TitleCommits(rows, order, n - 1) + batch
    }

    /** One position of the title pass before it has stopped: either it
        halts here, or the tables and the commit log advance by this page. */
    lemma TitlePassStep(rows: map<int, IndexRow>, order: seq<int>, faultAt: Option<nat>, i: nat)
      requires i < |order| && i <= TitleStop(rows, order, faultAt)
      ensures Halts(rows, order, faultAt, i) <==> i == TitleStop(rows, order, faultAt)
      ensures TitleOf(rows, order[i]).None? ==>
        TitlesAfter(rows, order, i + 1) == TitlesAfter(rows, order, i) &&
        TitleCommits(rows, order, i + 1) == TitleCommits(rows, order, i)
      ensures TitleOf(rows, order[i]).Some? ==>
        TitlesAfter(rows, order, i + 1) ==
          InsertOrIgnore(TitlesAfter(rows, order, i), TitleOf(rows, order[i]).value,
                         TitleRow(rows[order[i]].start, rows[order[i]].end, order[i])) &&
        TitleCommits(rows, order, i + 1) == TitleCommits(rows, order, i) + (if i % TITLE_BATCH == 0 then [i] else [])
    {
      TitlesStep(rows, order, i);
    }

    /** `create_title_db`: rebuild `titles` from empty, walking the selected
        page numbers in query order. A page whose bytes cannot be read or do
        not parse is skipped; a duplicate title keeps its first row; a
        storage error on the insert at position `faultAt` ends the pass
        quietly; a page without a `<title>` element ends it with an error. */
    method CreateTitleDb(faultAt: Option<nat>) returns (r: Result<()>, ghost order: seq<int>)
      modifies this`titles, this`commits
      ensures IsQueryOrder(coords, order)
      ensures var stop := TitleStop(indices, order, faultAt);
        titles == TitlesAfter(indices, order, stop) &&
        commits == old(commits) + TitleCommits(indices, order, stop) &&
        (r.Err? <==> stop < |order| && NoTitle(indices, order[stop]))
    {
      var rows := indices;
      titles := map[];
      ghost var commits0 := commits;
      var pageNumbers := GetPageNumbers();
      order := pageNumbers;
      ghost var stop := TitleStop(rows, order, faultAt);
      for i := 0 to |pageNumbers|
        invariant i <= stop
        invariant titles == TitlesAfter(rows, order, i)
        invariant commits == commits0 + TitleCommits(rows, order, i)
      {
        var pageNum := pageNumbers[i];
        TitlePassStep(rows, order, faultAt, i);
        var raw := RawIn(rows, pageNum);
        if raw.Err? {
          continue;
        }
        var tree := parseTitle(raw.value);
        if tree.NotXml? {
          continue;
        }
        if tree.NoTitleElement? {
          return Err("'NoneType' object has no attribute 'text'"), order;
        }
        ghost var batch := if i % TITLE_BATCH == 0 then [i] else [];
        if faultAt == Some(i) {
          assert !NoTitle(rows, order[i]);
          return Ok(()), order;
        }
        var row := rows[pageNum];
        if tree.title !in titles {
          titles := titles[tree.title := TitleRow(row.start, row.end, pageNum)];
        }
        if i % TITLE_BATCH == 0 {
          commits := commits + [i];
        }
        ConcatAssoc(commits0, TitleCommits(rows, order, i), batch);
      }
      r := Ok(());
    }

    /** One span of the `load` loop. */
    lemma LoadStep(start: map<int, IndexRow>, cstart: map<int, CoordRow>, spans: seq<Span>, i: nat)
      requires i < |spans|
      ensures TagCount(spans, i + 1) == TagCount(spans, i) + (if tagFinder(spans[i].bytes) then 1 else 0)
      ensures !Recorded(spans[i]) ==>
        IndexedAfter(start, spans, i + 1) == IndexedAfter(start, spans, i) &&
        CoordsAfter(cstart, spans, i + 1) == CoordsAfter(cstart, spans, i)
      ensures Recorded(spans[i]) ==>
        var sp := spans[i];
        IndexedAfter(start, spans, i + 1) ==
          InsertOrIgnore(IndexedAfter(start, spans, i), i, IndexRow(extract(sp.bytes).title, extract(sp.bytes).coords, sp.start, sp.end)) &&
        CoordsAfter(cstart, spans, i + 1) ==
          InsertOrIgnore(CoordsAfter(cstart, spans, i), i, CoordRow(extract(sp.bytes).title, coordAttrs(extract(sp.bytes).coords)))
      ensures ScanCommits(spans, i + 1) == ScanCommits(spans, i) +
        (if TagCount(spans, i + 1) % LOAD_BATCH == 0 then [TagCount(spans, i + 1)] else [])
    {
    }

    /** The loop of `load` over the scanned spans: index each span whose page
        has coordinate text under its position, count the tagged spans, and
        commit whenever the count is a multiple of LOAD_BATCH. */
    method IndexSpans(pages: seq<Span>) returns (coordsCount: nat)
      modifies this`indices, this`coords, this`commits
      ensures indices == IndexedAfter(old(indices), pages, |pages|)
      ensures coords == CoordsAfter(old(coords), pages, |pages|)
      ensures coordsCount == TagCount(pages, |pages|)
      ensures commits == old(commits) + ScanCommits(pages, |pages|)
    {
      ghost var indices0, coords0, commits0 := indices, coords, commits;
      coordsCount := 0;
      for i := 0 to |pages|
        invariant indices == IndexedAfter(indices0, pages, i)
        invariant coords == CoordsAfter(coords0, pages, i)
        invariant coordsCount == TagCount(pages, i)
        invariant commits == commits0 + ScanCommits(pages, i)
      {
        LoadStep(indices0, coords0, pages, i);
        ghost var batch := if TagCount(pages, i + 1) % LOAD_BATCH == 0 then [TagCount(pages, i + 1)] else [];
        var page := pages[i];
        if tagFinder(page.bytes) {
          coordsCount := coordsCount + 1;
          var dataExtract := extract(page.bytes);
          if dataExtract.coords != "" {
            if i !in indices {
              indices := indices[i := IndexRow(dataExtract.title, dataExtract.coords, page.start, page.end)];
            }
            var coordsDict := CoordRow(dataExtract.title, coordAttrs(dataExtract.coords));
            if i !in coords {
              coords := coords[i := coordsDict];
            }
          }
        }
        if coordsCount % LOAD_BATCH == 0 {
          commits := commits + [coordsCount];
        }
        ConcatAssoc(commits0, ScanCommits(pages, i), batch);
      }
    }

    /** `load`: scan the dump, keep the spans whose page carries coordinate
        text (under the span's 0-based position), record how many spans held
        a coordinate tag as `size`, then rebuild the title table. */
    method Load(sample: real, faultAt: Option<nat>) returns (r: Result<()>, ghost spans: seq<Span>, ghost order: seq<int>)
      modifies this`indices, this`coords, this`titles, this`size, this`commits
      ensures IsPageScan(data, sample, spans)
      ensures indices == IndexedAfter(old(indices), spans, |spans|)
      ensures coords == CoordsAfter(old(coords), spans, |spans|)
      ensures size == Some(TagCount(spans, |spans|))
      ensures IsQueryOrder(coords, order)
      ensures titles == TitlesAfter(indices, order, TitleStop(indices, order, faultAt))
      ensures commits == old(commits) + ScanCommits(spans, |spans|) + [TagCount(spans, |spans|)]
                         + TitleCommits(indices, order, TitleStop(indices, order, faultAt))
      ensures var stop := TitleStop(indices, order, faultAt);
        r.Err? <==> stop < |order| && NoTitle(indices, order[stop])
    {
      var pages := PageGenerator(data, 0, sample);
      spans := pages;
      var coordsCount := IndexSpans(pages);
      size := Some(coordsCount);
      commits := commits + [coordsCount];
      r, order := CreateTitleDb(faultAt);
    }

    /** `load` never overwrites a stored row, and after the first `n` spans the
        table holds exactly the old rows and the recorded spans, each under
        its position in the scan with its extracted title, coordinates and span. */
    lemma {:induction false} IndexedAfterRows(start: map<int, IndexRow>, spans: seq<Span>, n: nat)
      requires n <= |spans|
      ensures forall k :: k in IndexedAfter(start, spans, n) <==> k in start || (0 <= k < n && Recorded(spans[k]))
      ensures forall k :: k in start ==> IndexedAfter(start, spans, n)[k] == start[k]
      ensures forall k :: 0 <= k < n && k !in start && Recorded(spans[k]) ==>
        IndexedAfter(start, spans, n)[k] ==
          IndexRow(extract(spans[k].bytes).title, extract(spans[k].bytes).coords, spans[k].start, spans[k].end)
    {
      if n > 0 {
        IndexedAfterRows(start, spans, n - 1);
      }
    }

    /** The same for the `coords` table. */
    lemma {:induction false} CoordsAfterRows(start: map<int, CoordRow>, spans: seq<Span>, n: nat)
      requires n <= |spans|
      ensures forall k :: k in CoordsAfter(start, spans, n) <==> k in start || (0 <= k < n && Recorded(spans[k]))
      ensures forall k :: k in start ==> CoordsAfter(start, spans, n)[k] == start[k]
      ensures forall k :: 0 <= k < n && k !in start && Recorded(spans[k]) ==>
        CoordsAfter(start, spans, n)[k] ==
          CoordRow(extract(spans[k].bytes).title, coordAttrs(extract(spans[k].bytes).coords))
    {
      if n > 0 {
        CoordsAfterRows(start, spans, n - 1);
      }
    }

    /** The positions among the first `n` spans whose page holds a coordinate tag. */
    function TaggedPositions(spans: seq<Span>, n: nat): set<int>
      requires n <= |spans|
    {
      set k | 0 <= k < n && tagFinder(spans[k].bytes)
    }

    /** `coords_count`, and so `size`, counts the spans that passed the tag
        check, whether or not their extraction found coordinates. */
    lemma {:induction false} TagCountCountsTagged(spans: seq<Span>, n: nat)
      requires n <= |spans|
      ensures TagCount(spans, n) == |TaggedPositions(spans, n)|
    {
      if n > 0 {
        TagCountCountsTagged(spans, n - 1);
        var prev := TaggedPositions(spans, n - 1);
        if tagFinder(spans[n - 1].bytes) {
          assert TaggedPositions(spans, n) == prev + {n - 1};
        } else {
          assert TaggedPositions(spans, n) == prev;
        }
      }
    }

    /** Every commit of the scan happens at a multiple of LOAD_BATCH that the
        counter has reached. */
    lemma {:induction false} ScanCommitsAtBatches(spans: seq<Span>, n: nat)
      requires n <= |spans|
      ensures forall j :: 0 <= j < |ScanCommits(spans, n)| ==>
        ScanCommits(spans, n)[j] % LOAD_BATCH == 0 && 0 <= ScanCommits(spans, n)[j] <= TagCount(spans, n)
    {
      if n > 0 {
        ScanCommitsAtBatches(spans, n - 1);
      }
    }

    /** `order[j]` is the first handled page that yields its title. */
    predicate FirstOfTitle(rows: map<int, IndexRow>, order: seq<int>, j: nat)
      requires j < |order|
    {
      TitleOf(rows, order[j]).Some? &&
      forall i :: 0 <= i < j ==> TitleOf(rows, order[i]) != TitleOf(rows, order[j])
    }

    /** The title pass keeps a title exactly when some handled page yields it. */
    lemma {:induction false} TitlesKept(rows: map<int, IndexRow>, order: seq<int>, n: nat)
      requires n <= |order|
      ensures forall t :: t in TitlesAfter(rows, order, n) <==> exists j :: 0 <= j < n && TitleOf(rows, order[j]) == Some(t)
    {
      if n > 0 {
        TitlesKept(rows, order, n - 1);
      }
    }

    /** A title that no handled page yields is not stored. */
    lemma {:induction false} TitlesUnseen(rows: map<int, IndexRow>, order: seq<int>, n: nat)
      requires n <= |order|
      ensures forall t :: (forall j :: 0 <= j < n ==> TitleOf(rows, order[j]) != Some(t)) ==>
        t !in TitlesAfter(rows, order, n)
    {
      if n > 0 {
        TitlesUnseen(rows, order, n - 1);
      }
    }

    /** One page of the title pass. */
    lemma TitlesStep(rows: map<int, IndexRow>, order: seq<int>, i: nat)
      requires i < |order|
      ensures TitleOf(rows, order[i]).None? ==> TitlesAfter(rows, order, i + 1) == TitlesAfter(rows, order, i)
      ensures TitleOf(rows, order[i]).Some? ==>
        TitlesAfter(rows, order, i + 1) ==
          InsertOrIgnore(TitlesAfter(rows, order, i), TitleOf(rows, order[i]).value,
                         TitleRow(rows[order[i]].start, rows[order[i]].end, order[i]))
    {
    }

    /** `m` stores the row of page `order[j]` under the title that page yields. */
    predicate StoresRowOf(m: map<string, TitleRow>, rows: map<int, IndexRow>, order: seq<int>, j: nat)
      requires j < |order|
    {
      match TitleOf(rows, order[j])
      case None => true
      case Some(t) => t in m && m[t] == TitleRow(rows[order[j]].start, rows[order[j]].end, order[j])
    }

    /** A duplicate title keeps the row of the first page that yields it. */
    lemma {:induction false} TitlesFirstWins(rows: map<int, IndexRow>, order: seq<int>, n: nat)
      requires n <= |order|
      ensures forall j :: 0 <= j < n && FirstOfTitle(rows, order, j) ==>
        StoresRowOf(TitlesAfter(rows, order, n), rows, order, j)
    {
      if n > 0 {
        TitlesFirstWins(rows, order, n - 1);
        TitlesUnseen(rows, order, n - 1);
        TitlesStep(rows, order, n - 1);
        var m, m' := TitlesAfter(rows, order, n - 1), TitlesAfter(rows, order, n);
        forall j | 0 <= j < n && FirstOfTitle(rows, order, j)
          ensures StoresRowOf(m', rows, order, j)
        {
          if j < n - 1 {
            assert StoresRowOf(m, rows, order, j);
          } else {
            assert TitleOf(rows, order[j]).value !in m;
          }
        }
      }
    }

    /** Every stored title row names a page whose indexed span it copies and
        whose bytes yield that title. */
    lemma {:induction false} TitlesMatchIndex(rows: map<int, IndexRow>, order: seq<int>, n: nat)
      requires n <= |order|
      ensures forall t :: t in TitlesAfter(rows, order, n) ==>
        var r := TitlesAfter(rows, order, n)[t];
        r.pageNum in rows && TitleOf(rows, r.pageNum) == Some(t) &&
        r.start == rows[r.pageNum].start && r.end == rows[r.pageNum].end
    {
      if n > 0 {
        TitlesMatchIndex(rows, order, n - 1);
      }
    }

    /** The title pass commits at strictly increasing positions, each a
        multiple of TITLE_BATCH among those handled. */
    lemma {:induction false} TitleCommitsAtBatches(rows: map<int, IndexRow>, order: seq<int>, n: nat)
      requires n <= |order|
      ensures forall j :: 0 <= j < |TitleCommits(rows, order, n)| ==>
        TitleCommits(rows, order, n)[j] % TITLE_BATCH == 0 && 0 <= TitleCommits(rows, order, n)[j] < n
      ensures forall i, j :: 0 <= i < j < |TitleCommits(rows, order, n)| ==>
        TitleCommits(rows, order, n)[i] < TitleCommits(rows, order, n)[j]
    {
      if n > 0 {
        TitleCommitsAtBatches(rows, order, n - 1);
      }
    }
  }
}
