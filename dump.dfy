/** The dump reader (`Dump` in indexer.py): it opens the `indices` table,
    fills it with page offsets when the dump's size is not known yet,
    backfills page titles, reads a page's bytes between two stored offsets
    and caches page lengths. Tables and shelves are maps; `commit` is an
    entry in a log saying what triggered it. */
module WikiDump {
  import opened Text
  import opened DumpOffsets

  /** A commit of the database connection: by the offset scan at a byte
      count, by the title backfill at a page position, or the closing one. */
  datatype Commit = AtByte(offset: int) | AtPage(page: int) | Closing

  /** What the backfill does at one page position. */
  datatype Step = Write(title: string) | Skip | Abort(msg: string)

  /** The backfill commits whenever its position is a multiple of this. */
  const TITLE_BATCH: int := 1_000

  function AtBytes(offsets: seq<int>): (cs: seq<Commit>)
    ensures |cs| == |offsets|
    ensures forall k :: 0 <= k < |offsets| ==> cs[k] == AtByte(offsets[k])
  {
    seq(|offsets|, k requires 0 <= k < |offsets| => AtByte(offsets[k]))
  }

  /** `get_offset` over a given `indices` table: the stored offset of a
      page, or the plain exception raised when there is no row. */
  function OffsetIn(rows: map<int, DumpRow>, pageNum: int): (r: Result<int>)
    ensures r.Ok? <==> pageNum in rows
    ensures r.Ok? ==> r.value == rows[pageNum].idx
  {
    if pageNum in rows then Ok(rows[pageNum].idx) else Err("cannot get idx for page")
  }

  /** `get_raw` over a given `indices` table: seek to the offset of page
      `pageNum + 1` and read up to the offset of page `pageNum + 2`. The
      missing-row exception is not a `KeyError`, so the end-of-file branch
      never runs and a missing second row fails the read; so do a negative
      start and a length below -1. */
  function RawIn(data: seq<byte>, rows: map<int, DumpRow>, pageNum: int): (r: Result<seq<byte>>)
    ensures r.Ok? <==> (pageNum + 1 in rows && pageNum + 2 in rows && rows[pageNum + 1].idx >= 0 &&
      rows[pageNum + 2].idx - rows[pageNum + 1].idx >= -1)
    ensures r.Ok? ==> var s, e := rows[pageNum + 1].idx, rows[pageNum + 2].idx;
      s <= e <= |data| ==> r.value == data[s..e] && |r.value| == e - s
  {
    match OffsetIn(rows, pageNum + 1)
    case Err(msg) => Err(msg)
    case Ok(start) =>
      if start < 0 then Err("negative seek position")
      else
        match OffsetIn(rows, pageNum + 2)
        case Err(msg) => Err(msg)
        case Ok(end) => ReadAt(data, start, end - start)
  }

  /** The `UPDATE indices SET title=? WHERE page_num=?`: no row, no change. */
  function SetTitle(rows: map<int, DumpRow>, pageNum: int, title: string): map<int, DumpRow>
  {
    if pageNum in rows then rows[pageNum := rows[pageNum].(title := title)] else rows
  }

  /** The page numbers of rows with a non-empty title. */
  function TitledPages(rows: map<int, DumpRow>): set<int>
  {
    set k | k in rows.Keys && rows[k].title != ""
  }

  /** `SELECT MAX(page_num) FROM indices` on a non-empty table. */
  ghost function MaxKey(rows: map<int, DumpRow>): (k: int)
    requires exists k :: k in rows
    ensures k in rows && forall j :: j in rows ==> j <= k
  {
    var x :| x in rows;
    MaxExists(rows.Keys, x);
    var k :| k in rows && forall j :: j in rows ==> j <= k; k
  }

  lemma MaxExists(s: set<int>, x: int)
    requires x in s
    ensures exists k :: k in s && forall j :: j in s ==> j <= k
    decreases |s|
  {
    var rest := s - {x};
    if y :| y in rest {
      MaxExists(rest, y);
      var z :| z in rest && forall j :: j in rest ==> j <= z;
      var k := if x < z then z else x;
      assert forall j :: j in s ==> j == x || j in rest;
      assert k in s && forall j :: j in s ==> j <= k;
    } else {
      assert forall j :: j in s ==> j == x || j in rest;
    }
  }

  /** The page the offset scan resumes from: the largest page number stored,
      or 0 for an empty table. */
  ghost function StartPage(rows: map<int, DumpRow>): int
  {
    if exists k :: k in rows then MaxKey(rows) else 0
  }

  /** The `indices` table after the backfill took the first `n` of `steps`,
      `steps[k]` being its step at position `from + k`: a title read at
      position `p` goes into row `p + 1`. */
  function Backfilled(rows: map<int, DumpRow>, from: int, steps: seq<Step>, n: nat): map<int, DumpRow>
    requires n <= |steps|
  {
    if n == 0 then rows
    else
      var m := Backfilled(rows, from, steps, n - 1);
      match steps[n - 1]
      case Write(t) => SetTitle(m, from + n, t)
      case _ => m
  }

  /** The commit after the step `st` at position `p`: one after a title
      written at a multiple of TITLE_BATCH. */
  function BatchCommit(p: int, st: Step): seq<Commit>
  {
    if st.Write? && p % TITLE_BATCH == 0 then [AtPage(p)] else []
  }

  /** The commits of the backfill while taking the first `n` of `steps`. */
  function BackfillCommits(from: int, steps: seq<Step>, n: nat): seq<Commit>
    requires n <= |steps|
  {
    if n == 0 then [] else BackfillCommits(from, steps, n - 1) + BatchCommit(from + n - 1, steps[n - 1])
  }

  /** How many steps the backfill takes before one aborts it. */
  function FirstAbort(steps: seq<Step>): (n: nat)
    ensures n <= |steps|
    ensures forall k :: 0 <= k < n ==> !steps[k].Abort?
    ensures n < |steps| ==> steps[n].Abort?
  {
    if |steps| == 0 || steps[0].Abort? then 0 else 1 + FirstAbort(steps[1..])
  }

  /** The first abort is at `n` when none comes before it and the steps end
      or abort there. */
  lemma FirstAbortIs(steps: seq<Step>, n: nat)
    requires n <= |steps| && forall k :: 0 <= k < n ==> !steps[k].Abort?
    requires n == |steps| || steps[n].Abort?
    ensures FirstAbort(steps) == n
  {
  }

  /** Taking the step at position `p`. */
  lemma BackfillNext(rows: map<int, DumpRow>, from: int, steps: seq<Step>, n: nat, p: int)
    requires n < |steps| && p == from + n
    ensures Backfilled(rows, from, steps, n + 1) ==
      if steps[n].Write? then SetTitle(Backfilled(rows, from, steps, n), p + 1, steps[n].title)
      else Backfilled(rows, from, steps, n)
    ensures BackfillCommits(from, steps, n + 1) == BackfillCommits(from, steps, n) + BatchCommit(p, steps[n])
  {
  }

  /** Row by row, the backfill only sets titles: row `p + 1` takes the title
      of a Write at position `p`, and every other row, every page number and
      every offset is kept. */
  lemma {:induction false} BackfilledRows(rows: map<int, DumpRow>, from: int, steps: seq<Step>, n: nat)
    requires n <= |steps|
    ensures forall k :: k in Backfilled(rows, from, steps, n) <==> k in rows
    ensures forall k :: k in rows ==>
      Backfilled(rows, from, steps, n)[k] ==
        if from < k <= from + n && steps[k - from - 1].Write?
        then rows[k].(title := steps[k - from - 1].title) else rows[k]
  {
    if n > 0 {
      BackfilledRows(rows, from, steps, n - 1);
    }
  }

  /** The backfill commits exactly at the positions that are multiples of
      TITLE_BATCH and where it wrote a title. */
  lemma {:induction false} BackfillCommitsAt(from: int, steps: seq<Step>, n: nat)
    requires n <= |steps|
    ensures forall c :: c in BackfillCommits(from, steps, n) <==>
      c.AtPage? && from <= c.page < from + n && c.page % TITLE_BATCH == 0 && steps[c.page - from].Write?
  {
    if n > 0 {
      BackfillCommitsAt(from, steps, n - 1);
    }
  }

  /** Reading a page after part of the backfill gives the same bytes as
      before it: titles do not move offsets. */
  lemma BackfillKeepsRaw(data: seq<byte>, rows: map<int, DumpRow>, from: int, steps: seq<Step>, n: nat, i: int)
    requires n <= |steps|
    ensures RawIn(data, Backfilled(rows, from, steps, n), i) == RawIn(data, rows, i)
  {
    BackfilledRows(rows, from, steps, n);
  }

  /** After a scan of the whole file into an empty table, `get_raw(n)`
      reads exactly the bytes from the `n + 1`-th `<page>` to the
      `n + 2`-th, which begin with `<page>`; it fails for every other `n`,
      the last page included. */
  lemma FreshScanReadsPages(data: seq<byte>, commits: seq<int>, pn: int)
    ensures var rows := ResumedScan(data, map[], commits, 0).rows;
      var ms := Markers(data, 0);
      (RawIn(data, rows, pn).Ok? <==> 0 <= pn && pn + 2 <= |ms|) &&
      (0 <= pn && pn + 2 <= |ms| ==>
        ms[pn] + |PAGE| <= ms[pn + 1] <= |data| &&
        RawIn(data, rows, pn).value == data[ms[pn]..ms[pn + 1]] &&
        OccursAt(RawIn(data, rows, pn).value, PAGE, 0))
  {
    FreshScan(data, commits);
    var ms := Markers(data, 0);
    if 0 <= pn && pn + 2 <= |ms| {
      MarkersAreOccurrences(data, 0);
      MarkersIncrease(data, 0);
      var s, e := ms[pn], ms[pn + 1];
      assert OccursAt(data, PAGE, e);
      assert data[s..e][0..|PAGE|] == data[s..s + |PAGE|];
    }
  }

  /** Resuming the scan from a stored page whose offset is a `<page>` of the
      file stores that offset again under the next page number, so reading
      the page before the resumed one gives no bytes at all. */
  lemma ResumeEmptiesPage(data: seq<byte>, rows: map<int, DumpRow>, commits: seq<int>, page: int, j: nat)
    requires j < |Markers(data, 0)| && page in rows && rows[page].idx == Markers(data, 0)[j]
    requires Free(rows, page, |Markers(data, 0)| - j)
    ensures RawIn(data, ResumedScan(data, rows, commits, page).rows, page - 1) == Ok([])
  {
    ResumeRecordsOffsetAgain(data, rows, commits, page, j);
  }

  class Dump {
    /** The dump file. */
    const data: seq<byte>
    /** The XML parse of a page's bytes and its `<title>`. */
    const parseTitle: seq<byte> -> TitleParse
    /** The revision text of a page's bytes, or None when they do not parse
        or have no text. */
    const pageContents: seq<byte> -> Option<seq<byte>>

    var indices: map<int, DumpRow>
    /** The metadata shelf's `size` entry, None while unset. */
    var size: Option<int>
    /** The `page_lengths` shelf, keyed by `str(index)`. */
    var pageLengths: map<string, int>
    var commits: seq<Commit>

    /** Opens the stores; a table or shelf that does not exist yet is empty. */
    constructor (data: seq<byte>, parseTitle: seq<byte> -> TitleParse, pageContents: seq<byte> -> Option<seq<byte>>,
                 indices: map<int, DumpRow>, size: Option<int>, pageLengths: map<string, int>)
      ensures this.data == data && this.parseTitle == parseTitle && this.pageContents == pageContents
      ensures this.indices == indices && this.size == size && this.pageLengths == pageLengths
      ensures this.commits == []
    {
      this.data, this.parseTitle, this.pageContents := data, parseTitle, pageContents;
      this.indices, this.size, this.pageLengths := indices, size, pageLengths;
      this.commits := [];
    }

    /** `get_offset`: the stored offset of a page; fails when there is no row. */
    function GetOffset(pageNum: int): (r: Result<int>)
      reads this`indices
      ensures r.Ok? <==> pageNum in indices
      ensures r.Ok? ==> r.value == indices[pageNum].idx
    {
      OffsetIn(indices, pageNum)
    }

    /** `get_raw`: the bytes from the offset of page `pageNum + 1` to that
        of page `pageNum + 2`. */
    function GetRaw(pageNum: int): (r: Result<seq<byte>>)
      reads this`indices
      ensures r.Ok? <==> (pageNum + 1 in indices && pageNum + 2 in indices && indices[pageNum + 1].idx >= 0 &&
        indices[pageNum + 2].idx - indices[pageNum + 1].idx >= -1)
      ensures r.Ok? ==> var s, e := indices[pageNum + 1].idx, indices[pageNum + 2].idx;
        s <= e <= |data| ==> r.value == data[s..e] && |r.value| == e - s
    {
      RawIn(data, indices, pageNum)
    }

    /** `get_page_contents`: the revision text of a page. */
    function GetPageContents(index: int): (r: Result<seq<byte>>)
      reads this`indices
      ensures r.Ok? ==> GetRaw(index).Ok? && pageContents(GetRaw(index).value) == Some(r.value)
      ensures GetRaw(index).Ok? && pageContents(GetRaw(index).value).Some? ==> r.Ok?
    {
      match GetRaw(index)
      case Err(msg) => Err(msg)
      case Ok(raw) =>
        match pageContents(raw)
        case None => Err("no revision text")
        case Some(text) => Ok(text)
    }

    /** `get_page_length`: the length cached under `str(index)`, or else
        the length of the page's text, which is then cached. */
    method GetPageLength(index: int) returns (r: Result<int>)
      modifies this`pageLengths
      ensures var key := DecimalString(index);
        if key in old(pageLengths) then r == Ok(old(pageLengths)[key]) && pageLengths == old(pageLengths)
        else match GetPageContents(index)
          case Err(msg) => r == Err(msg) && pageLengths == old(pageLengths)
          case Ok(text) => r == Ok(|text|) && pageLengths == old(pageLengths)[key := |text|]
      ensures r.Ok? ==> DecimalString(index) in pageLengths && pageLengths[DecimalString(index)] == r.value
    {
      var key := DecimalString(index);
      if key in pageLengths {
        return Ok(pageLengths[key]);
      }
      var contents := GetPageContents(index);
      if contents.Err? {
        return Err(contents.msg);
      }
      var length := |contents.value|;
      pageLengths := pageLengths[key := length];
      r := Ok(length);
    }

    /** What the backfill does at position `i`: a page that cannot be read
        ends `__init__` (its error handler reads the page again and raises
        again), a parse error skips the position, a missing `<title>`
        element ends `__init__`, and otherwise the title is written. */
    function StepAt(rows: map<int, DumpRow>, i: int): (st: Step)
      ensures st.Abort? <==> RawIn(data, rows, i).Err? || parseTitle(RawIn(data, rows, i).value).NoTitleElement?
      ensures st.Write? ==> RawIn(data, rows, i).Ok? && parseTitle(RawIn(data, rows, i).value) == Title(st.title)
      ensures i + 1 !in rows || i + 2 !in rows ==> st.Abort?
    {
      match RawIn(data, rows, i)
      case Err(msg) => Abort(msg)
      case Ok(raw) =>
        match parseTitle(raw)
        case NotXml => Skip
        case NoTitleElement => Abort("'NoneType' object has no attribute 'text'")
        case Title(t) => Write(t)
    }

    /** One position of the title backfill: read page `i`, parse it, and
        write its title into row `i + 1`, committing at every
        TITLE_BATCH-th position. */
    method BackfillAt(i: int) returns (r: Result<()>)
      modifies this`indices, this`commits
      ensures var st := StepAt(old(indices), i);
        (r.Err? <==> st.Abort?) && (st.Abort? ==> r.msg == st.msg) &&
        indices == (if st.Write? then SetTitle(old(indices), i + 1, st.title) else old(indices)) &&
        commits == old(commits) + BatchCommit(i, st)
    {
      var raw := GetRaw(i);
      if raw.Err? {
        return Err(raw.msg);
      }
      var parsed := parseTitle(raw.value);
      if parsed.NotXml? {
        return Ok(());
      }
      if parsed.NoTitleElement? {
        return Err("'NoneType' object has no attribute 'text'");
      }
      indices := SetTitle(indices, i + 1, parsed.title);
      if i % TITLE_BATCH == 0 {
        commits := commits + [AtPage(i)];
      }
      r := Ok(());
    }

    /** The backfill's step at every position of `[from, limit)`, each on
        the table as it stood before the backfill. */
    function Steps(rows: map<int, DumpRow>, from: int, limit: int): (s: seq<Step>)
      ensures |s| == if from < limit then limit - from else 0
    {
      if from < limit then seq(limit - from, k requires 0 <= k < limit - from => StepAt(rows, from + k)) else []
    }

    lemma StepAtPosition(rows: map<int, DumpRow>, from: int, limit: int, p: int)
      requires from <= p < limit
      ensures Steps(rows, from, limit)[p - from] == StepAt(rows, p)
    {
    }

    /** Part way through the backfill, the step at the next position is the
        one it had on the table before the backfill. */
    lemma NextStep(rows: map<int, DumpRow>, from: int, limit: int, n: nat, p: int)
      requires from <= p < limit && n == p - from
      ensures StepAt(Backfilled(rows, from, Steps(rows, from, limit), n), p) == Steps(rows, from, limit)[n]
    {
      StepAtPosition(rows, from, limit, p);
      BackfillKeepsRaw(data, rows, from, Steps(rows, from, limit), n, p);
    }

    /** The title backfill of `__init__`: for every position `i` in
        `[from, limit)`, write the title of page `i` into row `i + 1`,
        until a step aborts. */
    method BackfillTitles(from: int, limit: int) returns (r: Result<()>)
      modifies this`indices, this`commits
      ensures var steps := Steps(old(indices), from, limit);
        var n := FirstAbort(steps);
        indices == Backfilled(old(indices), from, steps, n) &&
        commits == old(commits) + BackfillCommits(from, steps, n) &&
        r == if n < |steps| then Err(steps[n].msg) else Ok(())
    {
      ghost var rows0, commits0 := indices, commits;
      ghost var steps := Steps(rows0, from, limit);
      ghost var n: nat := 0;
      var i := from;
      while i < limit
        invariant from <= i && n == i - from && n <= |steps|
        invariant forall k :: 0 <= k < n ==> !steps[k].Abort?
        invariant indices == Backfilled(rows0, from, steps, n)
        invariant commits == commits0 + BackfillCommits(from, steps, n)
        decreases limit - i
      {
        NextStep(rows0, from, limit, n, i);
        var res := BackfillAt(i);
        if res.Err? {
          FirstAbortIs(steps, n);
          return res;
        }
        BackfillNext(rows0, from, steps, n, i);
        ConcatAssoc(commits0, BackfillCommits(from, steps, n), BatchCommit(i, steps[n]));
        i, n := i + 1, n + 1;
      }
      FirstAbortIs(steps, n);
      r := Ok(());
    }

    /** On a dump with no stored size and an empty table, `__init__` with
        `build_index` scans the whole file, starts the backfill at position
        0 and ends with an error at the last position at the latest: the
        row after the last page does not exist. */
    lemma FreshBuildFails()
      requires 0 < |Markers(data, 0)|
      ensures var ph := SizePhase(map[], None);
        var ms := Markers(data, 0);
        var steps := Steps(ph.rows, 0, |ms|);
        ph.result == Ok(|ms|) && TitledPages(ph.rows) == {} &&
        steps[|ms| - 1] == Abort("cannot get idx for page") && FirstAbort(steps) < |steps|
    {
      var ms := Markers(data, 0);
      var rows := ResumedScan(data, map[], [], 0).rows;
      FreshScan(data, []);
      assert StartPage(map[]) == 0;
      assert forall k :: k in rows ==> rows[k].title == "";
      StepAtPosition(rows, 0, |ms|, |ms| - 1);
      assert |ms| + 1 !in rows;
    }

    /** Where `__init__` gets the dump's size: from the metadata shelf, or
        else by scanning for offsets, resuming after the largest stored page. */
    ghost function SizePhase(rows: map<int, DumpRow>, size: Option<int>): ScanOutcome
    {
      if size.Some? then ScanOutcome(Ok(size.value), rows, [])
      else ResumedScan(data, rows, [], StartPage(rows))
    }

    /** `SELECT MAX(page_num) FROM indices`. */
    method MaxPageNum() returns (mx: int)
      requires exists k :: k in indices
      ensures mx == MaxKey(indices)
    {
      var keys := indices.Keys;
      var k0 :| k0 in keys;
      mx := k0;
      keys := keys - {k0};
      while exists k | k in keys :: true
        invariant keys <= indices.Keys && mx in indices
        invariant forall k :: k in indices && k !in keys ==> k <= mx
        decreases |keys|
      {
        var k :| k in keys;
        if k > mx {
          mx := k;
        }
        keys := keys - {k};
      }
    }

    /** The size step of `__init__`: the size from the metadata shelf, or
        else the outcome of the offset scan, stored in the shelf when it
        succeeds. */
    method EnsureSize() returns (r: Result<int>)
      modifies this`indices, this`size, this`commits
      ensures var ph := SizePhase(old(indices), old(size));
        r == ph.result && indices == ph.rows && commits == old(commits) + AtBytes(ph.commits) &&
        size == if r.Ok? then Some(r.value) else old(size)
    {
      if size.Some? {
        return Ok(size.value);
      }
      var start := 0;
      if exists k | k in indices :: true {
        start := MaxPageNum();
      }
      var res, rows', scanCommits := GetSizeAndMakeOffsets(data, indices, [], start);
      indices := rows';
      commits := commits + AtBytes(scanCommits);
      if res.Ok? {
        size := Some(res.value);
      }
      r := res;
    }

    /** `Dump.__init__` once the stores are open: set the size if it is
        unknown, backfill the titles when `buildIndex` asks for it and
        titles are missing, and commit. The result is the size, or the
        exception that ended `__init__`. */
    method Init(buildIndex: bool) returns (r: Result<int>)
      modifies this`indices, this`size, this`commits
      ensures var ph := SizePhase(old(indices), old(size));
        var scanned := old(commits) + AtBytes(ph.commits);
        if ph.result.Err? then
          r == Err(ph.result.msg) && indices == ph.rows && size == old(size) && commits == scanned
        else
          var sz := ph.result.value;
          var from := |TitledPages(ph.rows)|;
          var steps := if buildIndex then Steps(ph.rows, from, sz) else [];
          var n := FirstAbort(steps);
          size == Some(sz) &&
          indices == Backfilled(ph.rows, from, steps, n) &&
          commits == scanned + BackfillCommits(from, steps, n) + (if n == |steps| then [Closing] else []) &&
          r == if n == |steps| then Ok(sz) else Err(steps[n].msg)
    {
      var res := EnsureSize();
      if res.Err? {
        return Err(res.msg);
      }
      var sz := res.value;
      var from := |TitledPages(indices)|;
      if buildIndex && from < sz {
        var b := BackfillTitles(from, sz);
        if b.Err? {
          return Err(b.msg);
        }
      }
      commits := commits + [Closing];
      r := Ok(sz);
    }
  }
}
