/** The page-offset scan of the dump reader (`getSizeAndMakeOffsets` in
    indexer.py): it walks the dump line by line from a stored offset, counts
    pages and records, for every line holding `<page>`, the byte offset of
    that marker under the next page number. */
module DumpOffsets {
  import opened Text

  /** A row of the dump reader's `indices` table: `(title, coords, page_num, idx)`,
      keyed by `page_num`. */
  datatype DumpRow = DumpRow(title: string, coords: string, idx: int)

  /** When the scan's byte counter is a multiple of this, it commits. */
  const COMMIT_BYTES: int := 100_000

  /** One line of the dump as the scan reads it: where it starts, where it
      ends, and where in it the first `<page>` is (-1 when it holds none). */
  datatype LineInfo = LineInfo(start: nat, end: nat, marker: int)

  /** The lines the file's line iterator returns once positioned at `p`. */
  function Lines(data: seq<byte>, p: nat): seq<LineInfo>
    decreases |data| - p
  {
    if p >= |data| then []
    else [LineInfo(p, LineEnd(data, p), LineMarker(data, p))] + Lines(data, LineEnd(data, p))
  }

  /** `<page>` starts at position `k` of the file, compared byte by byte. */
  predicate PageAt(data: seq<byte>, k: int)
  {
    0 <= k && k + 6 <= |data| &&
    data[k] == PAGE[0] && data[k + 1] == PAGE[1] && data[k + 2] == PAGE[2] &&
    data[k + 3] == PAGE[3] && data[k + 4] == PAGE[4] && data[k + 5] == PAGE[5]
  }

  /** The first `<page>` wholly inside `data[q..e)`, as an offset from `p`,
      or -1 when there is none. */
  function PageOffset(data: seq<byte>, p: nat, q: nat, e: nat): int
    requires e <= |data|
    decreases e - q
  {
    if q + 6 > e then -1
    else if PageAt(data, q) then q - p
    else PageOffset(data, p, q + 1, e)
  }

  /** Where the line read at `p` holds its first `<page>`, or -1 when it holds none. */
  function LineMarker(data: seq<byte>, p: nat): int
    requires p < |data|
  {
    PageOffset(data, p, p, LineEnd(data, p))
  }

  lemma PageAtOccurs(data: seq<byte>, k: int)
    ensures PageAt(data, k) <==> OccursAt(data, PAGE, k)
  {
    if 0 <= k && k + 6 <= |data| {
      var s := data[k..k + 6];
      assert forall i :: 0 <= i < 6 ==> s[i] == data[k + i];
      if PageAt(data, k) {
        assert s == PAGE;
      }
    }
  }

  lemma {:induction false} PageOffsetSpec(data: seq<byte>, p: nat, q: nat, e: nat)
    requires p <= q && e <= |data|
    ensures PageOffset(data, p, q, e) == -1 <==> forall k :: q <= k && k + 6 <= e ==> !PageAt(data, k)
    ensures var r := PageOffset(data, p, q, e);
      r != -1 ==> q <= p + r && p + r + 6 <= e && PageAt(data, p + r)
    ensures var r := PageOffset(data, p, q, e);
      r != -1 ==> forall k :: q <= k < p + r ==> !PageAt(data, k)
    decreases e - q
  {
    if q + 6 <= e && !PageAt(data, q) {
      PageOffsetSpec(data, p, q + 1, e);
    }
  }

  lemma OccursInLine(data: seq<byte>, p: nat, j: nat)
    requires p < |data| && j + 6 <= |LineAt(data, p)|
    ensures OccursAt(LineAt(data, p), PAGE, j) <==> PageAt(data, p + j)
  {
    var e := LineEnd(data, p);
    assert data[p..e][j..j + 6] == data[p + j..p + j + 6];
    PageAtOccurs(data, p + j);
  }

  /** The marker found for a line is Python's `b'<page>' in line` and
      `line.index(b'<page>')`. */
  lemma LineMarkerIsIndex(data: seq<byte>, p: nat)
    requires p < |data|
    ensures var line := LineAt(data, p);
      (LineMarker(data, p) >= 0 <==> Contains(line, PAGE)) &&
      (Contains(line, PAGE) ==> LineMarker(data, p) == IndexOf(line, PAGE))
  {
    var line, e := LineAt(data, p), LineEnd(data, p);
    PageOffsetSpec(data, p, p, e);
    IndexOfSpec(line, PAGE);
    forall j | 0 <= j <= |line| - 6
      ensures OccursAt(line, PAGE, j) <==> PageAt(data, p + j)
    {
      OccursInLine(data, p, j);
    }
    if LineMarker(data, p) >= 0 {
      assert OccursAt(line, PAGE, LineMarker(data, p));
    }
  }

  /** The offsets recorded for the lines `ls`: the absolute position of the
      first `<page>` of every line that holds one. */
  function Recorded(ls: seq<LineInfo>): seq<nat>
  {
    if |ls| == 0 then []
    else (if ls[0].marker >= 0 then [ls[0].start + ls[0].marker] else []) + Recorded(ls[1..])
  }

  /** The marker offsets a scan records reading lines from position `p`. */
  function Markers(data: seq<byte>, p: nat): seq<nat>
  {
    Recorded(Lines(data, p))
  }

  /** What the scan leaves behind: its result (the last page number, or the
      failure that ended it), the table and the commit log. */
  datatype ScanOutcome = ScanOutcome(result: Result<int>, rows: map<int, DumpRow>, commits: seq<int>)

  /** The rest of the scan over the lines `ls` when the page counter is
      `page` and the table is `rows`. The insert is a plain INSERT into a
      table keyed by page number, so a number already present raises and
      ends the scan. After each line the byte counter is that line's end. */
  function ScanLines(ls: seq<LineInfo>, page: int, rows: map<int, DumpRow>, commits: seq<int>): ScanOutcome
  {
    if |ls| == 0 then ScanOutcome(Ok(page), rows, commits)
    else
      var l := ls[0];
      var commits' := if l.end % COMMIT_BYTES == 0 then commits + [l.end] else commits;
      if l.marker < 0 then ScanLines(ls[1..], page, rows, commits')
      else if page + 1 in rows then ScanOutcome(Err("UNIQUE constraint failed: indices.page_num"), rows, commits)
      else ScanLines(ls[1..], page + 1, rows[page + 1 := DumpRow("", "", l.start + l.marker)], commits')
  }

  /** The scan once the file is positioned at `p`. */
  function OffsetScan(data: seq<byte>, p: nat, page: int, rows: map<int, DumpRow>, commits: seq<int>): ScanOutcome
  {
    ScanLines(Lines(data, p), page, rows, commits)
  }

  /** Where `getSizeAndMakeOffsets` seeks before scanning: the offset stored
      for `currentPage`, or byte 0 when there is no such row. */
  function ResumeOffset(rows: map<int, DumpRow>, currentPage: int): int
  {
    if currentPage in rows then rows[currentPage].idx else 0
  }

  /** The whole of `getSizeAndMakeOffsets(f, db, current_page)`: a negative
      stored offset makes the seek fail before anything is read. */
  function ResumedScan(data: seq<byte>, rows: map<int, DumpRow>, commits: seq<int>, currentPage: int): ScanOutcome
  {
    var start := ResumeOffset(rows, currentPage);
    if start < 0 then ScanOutcome(Err("negative seek position"), rows, commits)
    else OffsetScan(data, start, currentPage, rows, commits)
  }

  /** `getSizeAndMakeOffsets(f, db, current_page)`: resume at the offset stored
      for `currentPage` (byte 0 when there is none) and scan to the end of
      the file. */
  method GetSizeAndMakeOffsets(data: seq<byte>, rows: map<int, DumpRow>, commits: seq<int>, currentPage: int)
    returns (r: Result<int>, rows': map<int, DumpRow>, commits': seq<int>)
    ensures ScanOutcome(r, rows', commits') == ResumedScan(data, rows, commits, currentPage)
  {
    var idx := if currentPage in rows then rows[currentPage].idx else 0;
    if idx < 0 {
      return Err("negative seek position"), rows, commits;
    }
    var page := currentPage;
    rows', commits' := rows, commits;
    ghost var start := idx;
    while idx < |data|
      invariant 0 <= idx
      invariant OffsetScan(data, idx, page, rows', commits') == OffsetScan(data, start, currentPage, rows, commits)
      decreases |data| - idx
    {
      var line := LineAt(data, idx);
      OffsetScanStep(data, idx, page, rows', commits');
      LineMarkerIsIndex(data, idx);
      if Contains(line, PAGE) {
        page := page + 1;
        if page in rows' {
          return Err("UNIQUE constraint failed: indices.page_num"), rows', commits';
        }
        rows' := rows'[page := DumpRow("", "", idx + IndexOf(line, PAGE))];
      }
      idx := idx + |line|;
      if idx % COMMIT_BYTES == 0 {
        commits' := commits' + [idx];
      }
    }
    r := Ok(page);
  }

  /** One line of the scan. */
  lemma OffsetScanStep(data: seq<byte>, p: nat, page: int, rows: map<int, DumpRow>, commits: seq<int>)
    requires p < |data|
    ensures var m, e := LineMarker(data, p), LineEnd(data, p);
      var commits' := if e % COMMIT_BYTES == 0 then commits + [e] else commits;
      OffsetScan(data, p, page, rows, commits) ==
        if m < 0 then OffsetScan(data, e, page, rows, commits')
        else if page + 1 in rows then ScanOutcome(Err("UNIQUE constraint failed: indices.page_num"), rows, commits)
        else OffsetScan(data, e, page + 1, rows[page + 1 := DumpRow("", "", p + m)], commits')
  {
    var ls := Lines(data, p);
    assert ls[1..] == Lines(data, LineEnd(data, p));
  }

  /** None of the page numbers `page + 1` .. `page + n` is taken in `rows`. */
  predicate Free(rows: map<int, DumpRow>, page: int, n: int)
  {
    forall k :: page < k <= page + n ==> k !in rows
  }

  lemma FreeStep(rows: map<int, DumpRow>, page: int, n: nat, row: DumpRow)
    requires page + 1 !in rows
    ensures Free(rows[page + 1 := row], page + 1, n) <==> Free(rows, page, n + 1)
  {
    var rows' := rows[page + 1 := row];
    assert forall k :: page + 1 < k ==> (k in rows' <==> k in rows);
  }

  /** The scan succeeds exactly when none of the page numbers it assigns is
      taken, and then returns the start page plus the number of `<page>` lines. */
  lemma {:induction false} ScanCountsMarkers(ls: seq<LineInfo>, page: int, rows: map<int, DumpRow>, commits: seq<int>)
    ensures var out := ScanLines(ls, page, rows, commits);
      (out.result.Ok? <==> Free(rows, page, |Recorded(ls)|)) &&
      (out.result.Ok? ==> out.result.value == page + |Recorded(ls)|)
  {
    if |ls| > 0 {
      var l := ls[0];
      var commits' := if l.end % COMMIT_BYTES == 0 then commits + [l.end] else commits;
      if l.marker < 0 {
        ScanCountsMarkers(ls[1..], page, rows, commits');
      } else if page + 1 !in rows {
        var row := DumpRow("", "", l.start + l.marker);
        ScanCountsMarkers(ls[1..], page + 1, rows[page + 1 := row], commits');
        FreeStep(rows, page, |Recorded(ls[1..])|, row);
      }
    }
  }

  /** `out` is `rows` plus the rows `page + 1` .. `page + |ms|`, the k-th
      of them holding the k-th offset of `ms`, with empty title and
      coordinates. */
  ghost predicate Numbered(rows: map<int, DumpRow>, page: int, ms: seq<nat>, out: map<int, DumpRow>)
  {
    (forall k :: k in out <==> k in rows || page < k <= page + |ms|) &&
    (forall k :: page < k <= page + |ms| ==> k in out && out[k] == DumpRow("", "", ms[k - page - 1]))
  }

  /** A successful scan adds one row per recorded offset, numbered
      consecutively after the start page, with empty title and coordinates. */
  lemma {:induction false} ScanNumbersMarkers(ls: seq<LineInfo>, page: int, rows: map<int, DumpRow>, commits: seq<int>)
    requires Free(rows, page, |Recorded(ls)|)
    ensures Numbered(rows, page, Recorded(ls), ScanLines(ls, page, rows, commits).rows)
  {
    if |ls| > 0 {
      var l := ls[0];
      var commits' := if l.end % COMMIT_BYTES == 0 then commits + [l.end] else commits;
      if l.marker < 0 {
        assert Recorded(ls) == Recorded(ls[1..]);
        assert ScanLines(ls, page, rows, commits) == ScanLines(ls[1..], page, rows, commits');
        ScanNumbersMarkers(ls[1..], page, rows, commits');
      } else {
        var ms' := Recorded(ls[1..]);
        assert Recorded(ls) == [l.start + l.marker] + ms';
        var row := DumpRow("", "", l.start + l.marker);
        var rows' := rows[page + 1 := row];
        FreeStep(rows, page, |ms'|, row);
        ScanNumbersMarkers(ls[1..], page + 1, rows', commits');
        ScanKeepsRows(ls[1..], page + 1, rows', commits');
        assert ScanLines(ls, page, rows, commits) == ScanLines(ls[1..], page + 1, rows', commits');
        NumbersAfterHit(rows, page, l.start + l.marker, ms', ScanLines(ls[1..], page + 1, rows', commits').rows);
      }
    }
  }

  /** The rows after a `<page>` line at offset `x`, from those after the
      rest of the lines. */
  lemma NumbersAfterHit(rows: map<int, DumpRow>, page: int, x: nat, ms': seq<nat>, out: map<int, DumpRow>)
    requires page + 1 !in rows && page + 1 in out && out[page + 1] == DumpRow("", "", x)
    requires Numbered(rows[page + 1 := DumpRow("", "", x)], page + 1, ms', out)
    ensures Numbered(rows, page, [x] + ms', out)
  {
    var ms := [x] + ms';
    forall k | page < k <= page + |ms| ensures k in out && out[k] == DumpRow("", "", ms[k - page - 1]) {
      if k > page + 1 {
        assert ms[k - page - 1] == ms'[k - (page + 1) - 1];
      }
    }
  }

  /** The scan never changes or removes a row that was there before it. */
  lemma {:induction false} ScanKeepsRows(ls: seq<LineInfo>, page: int, rows: map<int, DumpRow>, commits: seq<int>)
    ensures var out := ScanLines(ls, page, rows, commits);
      forall k :: k in rows ==> k in out.rows && out.rows[k] == rows[k]
  {
    if |ls| > 0 {
      var l := ls[0];
      var commits' := if l.end % COMMIT_BYTES == 0 then commits + [l.end] else commits;
      if l.marker < 0 {
        ScanKeepsRows(ls[1..], page, rows, commits');
      } else if page + 1 !in rows {
        ScanKeepsRows(ls[1..], page + 1, rows[page + 1 := DumpRow("", "", l.start + l.marker)], commits');
      }
    }
  }

  /** `c1` is `c0` followed by commits at strictly increasing offsets in
      `(lo, hi]`, each a multiple of COMMIT_BYTES. */
  predicate CommitsExtend(c0: seq<int>, c1: seq<int>, lo: int, hi: int)
  {
    |c0| <= |c1| && c1[..|c0|] == c0 &&
    (forall j :: |c0| <= j < |c1| ==> c1[j] % COMMIT_BYTES == 0 && lo < c1[j] <= hi) &&
    (forall i, j :: |c0| <= i < j < |c1| ==> c1[i] < c1[j])
  }

  lemma CommitsExtendTrans(c0: seq<int>, c1: seq<int>, c2: seq<int>, lo: int, mid: int, hi: int)
    requires lo <= mid <= hi
    requires CommitsExtend(c0, c1, lo, mid) && CommitsExtend(c1, c2, mid, hi)
    ensures CommitsExtend(c0, c2, lo, hi)
  {
    assert c2[..|c0|] == c1[..|c1|][..|c0|];
    forall i, j | |c0| <= i < j < |c2| ensures c2[i] < c2[j] {
      if i < |c1| && |c1| <= j {
        assert c2[i] == c1[i];
      } else if j < |c1| {
        assert c2[i] == c1[i] && c2[j] == c1[j];
      }
    }
    forall j | |c0| <= j < |c2| ensures c2[j] % COMMIT_BYTES == 0 && lo < c2[j] <= hi {
      if j < |c1| {
        assert c2[j] == c1[j];
      }
    }
  }

  lemma CommitAfterLine(commits: seq<int>, p: int, e: int)
    requires p < e
    ensures CommitsExtend(commits, if e % COMMIT_BYTES == 0 then commits + [e] else commits, p, e)
  {
    assert (commits + [e])[..|commits|] == commits;
  }

  /** The line ends of `ls` strictly increase and lie in `(lo, hi]`. */
  predicate EndsWithin(ls: seq<LineInfo>, lo: int, hi: int)
  {
    (forall i :: 0 <= i < |ls| ==> lo < ls[i].end <= hi) &&
    (forall i, j :: 0 <= i < j < |ls| ==> ls[i].end < ls[j].end)
  }

  lemma {:induction false} LinesEndWithin(data: seq<byte>, p: nat)
    ensures EndsWithin(Lines(data, p), p, |data|)
    decreases |data| - p
  {
    if p < |data| {
      LinesEndWithin(data, LineEnd(data, p));
    }
  }

  /** Over lines whose ends increase within `(lo, hi]`, the scan commits
      only at line ends that are multiples of COMMIT_BYTES, in increasing order. */
  lemma {:induction false} LinesCommitAtBoundaries(ls: seq<LineInfo>, lo: int, hi: int, page: int, rows: map<int, DumpRow>, commits: seq<int>)
    requires EndsWithin(ls, lo, hi)
    ensures CommitsExtend(commits, ScanLines(ls, page, rows, commits).commits, lo, hi)
  {
    if |ls| > 0 {
      var l := ls[0];
      var commits' := if l.end % COMMIT_BYTES == 0 then commits + [l.end] else commits;
      if l.marker < 0 || page + 1 !in rows {
        var page' := if l.marker >= 0 then page + 1 else page;
        var rows' := if l.marker >= 0 then rows[page + 1 := DumpRow("", "", l.start + l.marker)] else rows;
        assert EndsWithin(ls[1..], l.end, hi) by {
          forall i | 0 <= i < |ls[1..]| ensures l.end < ls[1..][i].end {
            assert ls[1..][i] == ls[i + 1];
          }
        }
        LinesCommitAtBoundaries(ls[1..], l.end, hi, page', rows', commits');
        CommitAfterLine(commits, lo, l.end);
        CommitsExtendTrans(commits, commits', ScanLines(ls[1..], page', rows', commits').commits, lo, l.end, hi);
      } else {
        assert ScanLines(ls, page, rows, commits).commits == commits;
      }
    }
  }

  /** The scan commits only when its byte counter, the end of the line just
      read, is a multiple of COMMIT_BYTES, at strictly increasing offsets
      past its start and within the file. */
  lemma ScanCommitsAtBoundaries(data: seq<byte>, p: nat, page: int, rows: map<int, DumpRow>, commits: seq<int>)
    ensures CommitsExtend(commits, OffsetScan(data, p, page, rows, commits).commits, p, |data|)
  {
    LinesEndWithin(data, p);
    LinesCommitAtBoundaries(Lines(data, p), p, |data|, page, rows, commits);
  }

  /** The first `<page>` of a line is a `<page>` of the file, within that line. */
  lemma MarkerInLine(data: seq<byte>, p: nat)
    requires p < |data| && LineMarker(data, p) >= 0
    ensures OccursAt(data, PAGE, p + LineMarker(data, p))
    ensures p + LineMarker(data, p) + |PAGE| <= LineEnd(data, p)
  {
    PageOffsetSpec(data, p, p, LineEnd(data, p));
    PageAtOccurs(data, p + LineMarker(data, p));
  }

  /** Every recorded offset is the start of a `<page>` in the file, at or
      after where the scan began. */
  lemma {:induction false} MarkersAreOccurrences(data: seq<byte>, p: nat)
    ensures forall j :: 0 <= j < |Markers(data, p)| ==>
      p <= Markers(data, p)[j] && OccursAt(data, PAGE, Markers(data, p)[j])
    decreases |data| - p
  {
    if p < |data| {
      MarkersAreOccurrences(data, LineEnd(data, p));
      MarkersStep(data, p);
      if LineMarker(data, p) >= 0 {
        MarkerInLine(data, p);
      }
    }
  }

  /** The recorded offsets strictly increase, each at least a whole marker
      past the one before. */
  lemma {:induction false} MarkersIncrease(data: seq<byte>, p: nat)
    ensures forall i, j :: 0 <= i < j < |Markers(data, p)| ==> Markers(data, p)[i] + |PAGE| <= Markers(data, p)[j]
    decreases |data| - p
  {
    if p < |data| {
      var e := LineEnd(data, p);
      MarkersIncrease(data, e);
      MarkersAreOccurrences(data, e);
      MarkersStep(data, p);
      if LineMarker(data, p) >= 0 {
        MarkerInLine(data, p);
      }
    }
  }

  /** Resuming a scan at a recorded offset records that offset again first
      and then every later one: the line that the seek lands in still
      holds its `<page>`, which is now at the start of what is read. */
  lemma {:induction false} ResumeRepeatsOffset(data: seq<byte>, p: nat, j: nat)
    requires j < |Markers(data, p)|
    ensures Markers(data, Markers(data, p)[j]) == Markers(data, p)[j..]
    decreases |data| - p
  {
    assert p < |data|;
    var e := LineEnd(data, p);
    var ms, me := Markers(data, p), Markers(data, e);
    if LineMarker(data, p) >= 0 && j == 0 {
      ResumeAtMarker(data, p);
      var m := p + LineMarker(data, p);
      assert ms[0] == m;
      assert Markers(data, m) == ms;
      assert ms[0..] == ms;
      assert Markers(data, ms[0]) == ms;
    } else if LineMarker(data, p) >= 0 {
      MarkersHit(data, p);
      ResumeRepeatsOffset(data, e, j - 1);
      ConsSuffix(ms, p + LineMarker(data, p), me, j);
      assert Markers(data, ms[j]) == ms[j..];
    } else {
      MarkersStep(data, p);
      ResumeRepeatsOffset(data, e, j);
      assert Markers(data, ms[j]) == ms[j..];
    }
  }

  /** Dropping `j` elements of `[x] + me` drops `j - 1` of `me`. */
  lemma ConsSuffix(ms: seq<nat>, x: nat, me: seq<nat>, j: nat)
    requires ms == [x] + me && 0 < j < |ms|
    ensures ms[j] == me[j - 1] && ms[j..] == me[j - 1..]
  {
  }

  /** The scan resumed at the first `<page>` of a line records the same
      offsets as the scan from the start of that line. */
  lemma ResumeAtMarker(data: seq<byte>, p: nat)
    requires p < |data| && LineMarker(data, p) >= 0
    ensures Markers(data, p + LineMarker(data, p)) == Markers(data, p)
    ensures Markers(data, p)[0] == p + LineMarker(data, p)
  {
    var m, e := p + LineMarker(data, p), LineEnd(data, p);
    ReadFromMarker(data, p);
    MarkersHit(data, m);
    MarkersHit(data, p);
  }

  /** Reading from the first `<page>` of a line gives the rest of that line,
      which now begins with `<page>`. */
  lemma ReadFromMarker(data: seq<byte>, p: nat)
    requires p < |data| && LineMarker(data, p) >= 0
    ensures var m := p + LineMarker(data, p);
      m < |data| && LineEnd(data, m) == LineEnd(data, p) && LineMarker(data, m) == 0
  {
    var m := p + LineMarker(data, p);
    PageOffsetSpec(data, p, p, LineEnd(data, p));
    SameLineEnd(data, p, m);
    assert PageOffset(data, m, m, LineEnd(data, m)) == 0;
  }

  /** A line holding `<page>` contributes its marker's offset. */
  lemma MarkersHit(data: seq<byte>, q: nat)
    requires q < |data| && LineMarker(data, q) >= 0
    ensures Markers(data, q) == [q + LineMarker(data, q)] + Markers(data, LineEnd(data, q))
    ensures Markers(data, q)[0] == q + LineMarker(data, q)
  {
    MarkersStep(data, q);
  }

  /** One line of the marker list. */
  lemma MarkersStep(data: seq<byte>, q: nat)
    requires q < |data|
    ensures Markers(data, q) ==
      if LineMarker(data, q) >= 0 then [q + LineMarker(data, q)] + Markers(data, LineEnd(data, q))
      else Markers(data, LineEnd(data, q))
  {
    var ls := Lines(data, q);
    assert ls[1..] == Lines(data, LineEnd(data, q));
  }

  /** A position inside a line ends where that line ends. */
  lemma {:induction false} SameLineEnd(data: seq<byte>, p: nat, q: nat)
    requires p < |data| && p <= q < LineEnd(data, p)
    ensures LineEnd(data, q) == LineEnd(data, p)
    decreases q - p
  {
    if p < q {
      SameLineEnd(data, p + 1, q);
    }
  }
  /** A scan of the whole file into an empty table numbers the `<page>`
      lines 1, 2, ...: it returns their count and stores under page `k` the
      offset of the `k`-th. */
  lemma FreshScan(data: seq<byte>, commits: seq<int>)
    ensures var out := ResumedScan(data, map[], commits, 0);
      var ms := Markers(data, 0);
      out.result == Ok(|ms|) &&
      (forall k :: k in out.rows <==> 1 <= k <= |ms|) &&
      (forall k :: 1 <= k <= |ms| ==> out.rows[k] == DumpRow("", "", ms[k - 1]))
  {
    var ls := Lines(data, 0);
    assert ResumedScan(data, map[], commits, 0) == ScanLines(ls, 0, map[], commits);
    FreshScanLines(ls, commits);
  }

  lemma FreshScanLines(ls: seq<LineInfo>, commits: seq<int>)
    ensures var out := ScanLines(ls, 0, map[], commits);
      var ms := Recorded(ls);
      out.result == Ok(|ms|) &&
      (forall k :: k in out.rows <==> 1 <= k <= |ms|) &&
      (forall k :: 1 <= k <= |ms| ==> out.rows[k] == DumpRow("", "", ms[k - 1]))
  {
    var ms := Recorded(ls);
    assert Free(map[], 0, |ms|);
    ScanCountsMarkers(ls, 0, map[], commits);
    ScanNumbersMarkers(ls, 0, map[], commits);
  }

  /** Resuming at a page whose stored offset is the `j`-th offset recorded
      for the file records that same offset again, under the next page
      number, and then the later ones: the resumed scan ends one page
      beyond the number of `<page>` lines it has not yet counted. */
  lemma ResumeRecordsOffsetAgain(data: seq<byte>, rows: map<int, DumpRow>, commits: seq<int>, page: int, j: nat)
    requires j < |Markers(data, 0)| && page in rows && rows[page].idx == Markers(data, 0)[j]
    requires Free(rows, page, |Markers(data, 0)| - j)
    ensures var out := ResumedScan(data, rows, commits, page);
      out.result == Ok(page + |Markers(data, 0)| - j) &&
      page in out.rows && out.rows[page] == rows[page] &&
      page + 1 in out.rows && out.rows[page + 1].idx == rows[page].idx
  {
    var ms := Markers(data, 0);
    ResumeRepeatsOffset(data, 0, j);
    var ls := Lines(data, ms[j]);
    assert Recorded(ls) == ms[j..];
    ScanCountsMarkers(ls, page, rows, commits);
    ScanNumbersMarkers(ls, page, rows, commits);
    ScanKeepsRows(ls, page, rows, commits);
    var out := ScanLines(ls, page, rows, commits);
    assert out.rows[page + 1] == DumpRow("", "", ms[j..][0]);
  }
}
