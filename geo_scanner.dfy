/** The span scanner of the coordinate indexer (`page_generator`): it walks
    the dump line by line and cuts it into contiguous `[start, end)` spans,
    each ending where a line holding `<page>` begins. */
module GeoScanner {
  import opened Text

  /** The expected number of pages in a full dump; a sampled scan stops
      after a fraction of it. */
  const PAGES_ESTIMATE: int := 21_000_000

  /** One yielded triple `(start_idx, end_idx, bytes)`. */
  datatype Span = Span(start: int, end: int, bytes: seq<byte>)

  /** Where the scan's next span would start: the end of the last span. */
  function LastEnd(spans: seq<Span>): int
  {
    if spans == [] then 0 else spans[|spans| - 1].end
  }

  /** Every span is non-empty, lies in the file and carries exactly its bytes. */
  ghost predicate SpansRead(data: seq<byte>, spans: seq<Span>)
  {
    forall i :: 0 <= i < |spans| ==>
      0 <= spans[i].start < spans[i].end <= |data| &&
      spans[i].bytes == data[spans[i].start..spans[i].end]
  }

  /** The first span starts at byte 0 and each next one where the previous ended. */
  ghost predicate Contiguous(spans: seq<Span>)
  {
    (|spans| > 0 ==> spans[0].start == 0) &&
    forall i :: 0 < i < |spans| ==> spans[i].start == spans[i - 1].end
  }

  /** Each span ends where a `<page>` line begins, and no `<page>` line
      begins strictly inside a span. */
  ghost predicate CutAtMarkers(data: seq<byte>, spans: seq<Span>)
  {
    (forall i :: 0 <= i < |spans| ==> IsMarkerLine(data, spans[i].end)) &&
    (forall i, p :: 0 <= i < |spans| && spans[i].start < p < spans[i].end ==> !IsMarkerLine(data, p))
  }

  /** The sample check made after the `k`-th yielded span. */
  predicate StopsAfter(k: int, sample: real)
  {
    sample < 1.0 && (k as real) > (PAGES_ESTIMATE as real) * sample
  }

  /** The scan stopped because of the sample check after its last span. */
  predicate Stopped(spans: seq<Span>, sample: real)
  {
    |spans| > 0 && StopsAfter(|spans|, sample)
  }

  /** The scan did not stop at an earlier span, and unless the sample check
      stopped it, no `<page>` line begins after the last span's end: the
      bytes from the last `<page>` line to the end of the file are dropped. */
  ghost predicate EndedRight(data: seq<byte>, spans: seq<Span>, sample: real)
  {
    (forall k :: 1 <= k < |spans| ==> !StopsAfter(k, sample)) &&
    (!Stopped(spans, sample) ==> forall p :: IsMarkerLine(data, p) ==> p <= LastEnd(spans))
  }

  /** What `page_generator(f, sample=sample)` yields for a file holding `data`. */
  ghost predicate IsPageScan(data: seq<byte>, sample: real, spans: seq<Span>)
  {
    SpansRead(data, spans) && Contiguous(spans) && CutAtMarkers(data, spans) && EndedRight(data, spans, sample)
  }

  /** No line begins strictly inside the line that starts at `p`. */
  lemma NoLineStartInside(data: seq<byte>, p: nat, q: int)
    requires p < |data| && p < q < LineEnd(data, p)
    ensures !IsMarkerLine(data, q)
  {
    assert data[q - 1] != NL;
  }

  /** Appending a span that starts where the scan left off, ends at a
      `<page>` line and holds none inside keeps the scan well-formed. */
  lemma ExtendScan(data: seq<byte>, spans: seq<Span>, sp: Span)
    requires SpansRead(data, spans) && Contiguous(spans) && CutAtMarkers(data, spans)
    requires LastEnd(spans) == sp.start
    requires 0 <= sp.start < sp.end <= |data| && sp.bytes == data[sp.start..sp.end]
    requires IsMarkerLine(data, sp.end)
    requires forall p :: sp.start < p < sp.end ==> !IsMarkerLine(data, p)
    ensures SpansRead(data, spans + [sp]) && Contiguous(spans + [sp]) && CutAtMarkers(data, spans + [sp])
    ensures LastEnd(spans + [sp]) == sp.end
  {
    ExtendRead(data, spans, sp);
    ExtendContiguous(spans, sp);
    ExtendCut(data, spans, sp);
  }

  lemma ExtendRead(data: seq<byte>, spans: seq<Span>, sp: Span)
    requires SpansRead(data, spans)
    requires 0 <= sp.start < sp.end <= |data| && sp.bytes == data[sp.start..sp.end]
    ensures SpansRead(data, spans + [sp])
  {
    var s := spans + [sp];
    assert forall i :: 0 <= i < |spans| ==> s[i] == spans[i];
  }

  lemma ExtendContiguous(spans: seq<Span>, sp: Span)
    requires Contiguous(spans) && LastEnd(spans) == sp.start && 0 <= sp.start
    ensures Contiguous(spans + [sp]) && LastEnd(spans + [sp]) == sp.end
  {
    var s := spans + [sp];
    assert forall i :: 0 <= i < |spans| ==> s[i] == spans[i];
  }

  lemma ExtendCut(data: seq<byte>, spans: seq<Span>, sp: Span)
    requires CutAtMarkers(data, spans)
    requires IsMarkerLine(data, sp.end)
    requires forall p :: sp.start < p < sp.end ==> !IsMarkerLine(data, p)
    ensures CutAtMarkers(data, spans + [sp])
  {
    var s := spans + [sp];
    assert forall i :: 0 <= i < |spans| ==> s[i] == spans[i];
  }

  /** The state of `page_generator` at the head of its loop, with the file
      cursor at `endIdx`: the yields so far form a well-formed scan that
      ends at `startIdx`, and no `<page>` line begins after `startIdx`
      among the bytes read into the open span `[startIdx, endIdx)`. */
  ghost predicate ScanState(data: seq<byte>, sample: real, spans: seq<Span>, startIdx: int, endIdx: int)
  {
    0 <= startIdx <= endIdx <= |data| &&
    (endIdx == |data| || IsLineStart(data, endIdx)) &&
    SpansRead(data, spans) && Contiguous(spans) && CutAtMarkers(data, spans) &&
    LastEnd(spans) == startIdx &&
    (forall p :: startIdx < p < endIdx ==> !IsMarkerLine(data, p)) &&
    (forall k :: 1 <= k < |spans| ==> !StopsAfter(k, sample))
  }

  /** The else branch: the line read at `endIdx` joins the open span. */
  lemma SkipLine(data: seq<byte>, sample: real, spans: seq<Span>, startIdx: int, endIdx: int)
    requires 0 <= endIdx < |data|
    ensures ScanState(data, sample, spans, startIdx, endIdx) &&
            (startIdx == endIdx || !Contains(LineAt(data, endIdx), PAGE)) ==>
            ScanState(data, sample, spans, startIdx, LineEnd(data, endIdx))
  {
    forall p | endIdx < p < LineEnd(data, endIdx) {
      NoLineStartInside(data, endIdx, p);
    }
  }

  /** The yield branch: the open span is closed at the `<page>` line at `endIdx`. */
  lemma YieldSpan(data: seq<byte>, sample: real, spans: seq<Span>, startIdx: int, endIdx: int)
    requires 0 <= startIdx < endIdx < |data|
    ensures ScanState(data, sample, spans, startIdx, endIdx) && !Stopped(spans, sample) &&
            Contains(LineAt(data, endIdx), PAGE) ==>
            ScanState(data, sample, spans + [Span(startIdx, endIdx, data[startIdx..endIdx])], endIdx, endIdx)
  {
    if ScanState(data, sample, spans, startIdx, endIdx) && !Stopped(spans, sample) &&
       Contains(LineAt(data, endIdx), PAGE) {
      ExtendScan(data, spans, Span(startIdx, endIdx, data[startIdx..endIdx]));
    }
  }

  /** Leaving the loop, at the end of the file or after the sample check
      fired, the yields form the scan. */
  lemma FinishScan(data: seq<byte>, sample: real, spans: seq<Span>, startIdx: int, endIdx: int)
    ensures ScanState(data, sample, spans, startIdx, endIdx) && (endIdx == |data| || Stopped(spans, sample)) ==>
            IsPageScan(data, sample, spans)
  {
  }

  /** `page_generator`: the generator's yields, collected in order. The file
      cursor `pos` is explicit: after a yield it is put back to `end_idx`, so
      the `<page>` line that closed a span is read again and, now that
      `start_idx == end_idx`, counted into the next span. The `current_page`
      argument is ignored, as the source resets it to 0. */
  method PageGenerator(data: seq<byte>, currentPage: int, sample: real) returns (spans: seq<Span>)
    ensures IsPageScan(data, sample, spans)
  {
    var startIdx, endIdx := 0, 0;
    var page := 0;
    var pos := 0;
    spans := [];
    while pos < |data|
      invariant pos == endIdx && page == |spans|
      invariant ScanState(data, sample, spans, startIdx, endIdx) && !Stopped(spans, sample)
      decreases |data| - pos, if startIdx == endIdx then 0 else 1
    {
      var line := LineAt(data, pos);
      pos := pos + |line|;
      if Contains(line, PAGE) && startIdx != endIdx {
        pos := startIdx;
        page := page + 1;
        var read := ReadAt(data, pos, endIdx - startIdx);
        assert read == Ok(data[startIdx..endIdx]);
        var chunk := read.value;
        pos := pos + |chunk|;
        YieldSpan(data, sample, spans, startIdx, endIdx);
        spans := spans + [Span(startIdx, endIdx, chunk)];
        startIdx := endIdx;
        if StopsAfter(page, sample) {
          break;
        }
      } else {
        SkipLine(data, sample, spans, startIdx, endIdx);
        endIdx := endIdx + |line|;
      }
    }
    FinishScan(data, sample, spans, startIdx, endIdx);
  }

  /** A scan yields nothing exactly when no `<page>` line begins after
      byte 0: a file without `<page>`, or whose only `<page>` line is its
      first, yields no span. */
  lemma NothingWithoutLaterMarker(data: seq<byte>, sample: real, spans: seq<Span>)
    requires IsPageScan(data, sample, spans)
    ensures spans == [] <==> forall p :: 0 < p ==> !IsMarkerLine(data, p)
  {
    if spans != [] {
      assert IsMarkerLine(data, spans[0].end);
    }
  }

  /** Two well-formed scans of the same file agree span by span: each span
      ends at the first `<page>` line after its start. */
  lemma {:induction false} SpansAgree(data: seq<byte>, s1: seq<Span>, s2: seq<Span>, i: nat)
    requires SpansRead(data, s1) && Contiguous(s1) && CutAtMarkers(data, s1)
    requires SpansRead(data, s2) && Contiguous(s2) && CutAtMarkers(data, s2)
    requires i < |s1| && i < |s2|
    ensures s1[i] == s2[i]
  {
    if i > 0 {
      SpansAgree(data, s1, s2, i - 1);
    }
    var e1, e2 := s1[i].end, s2[i].end;
    assert IsMarkerLine(data, e1) && IsMarkerLine(data, e2);
    assert s1[i].start == s2[i].start;
    assert s2[i].start < e1 < e2 ==> !IsMarkerLine(data, e1);
    assert s1[i].start < e2 < e1 ==> !IsMarkerLine(data, e2);
  }

  /** Scanning an unchanged file twice, with the same sample fraction,
      yields the same spans: no duplicates, identical offsets. */
  lemma ScanIsDeterministic(data: seq<byte>, sample: real, s1: seq<Span>, s2: seq<Span>)
    requires IsPageScan(data, sample, s1) && IsPageScan(data, sample, s2)
    ensures s1 == s2
  {
    NotShorter(data, sample, s1, s2);
    NotShorter(data, sample, s2, s1);
    forall i | 0 <= i < |s1| ensures s1[i] == s2[i] {
      SpansAgree(data, s1, s2, i);
    }
  }

  /** A scan cannot stop short of another scan of the same file: it stops
      only at the sample check, which the other scan would have obeyed
      too, or at the last `<page>` line, past which the other has no end. */
  lemma NotShorter(data: seq<byte>, sample: real, s1: seq<Span>, s2: seq<Span>)
    requires IsPageScan(data, sample, s1) && IsPageScan(data, sample, s2)
    ensures |s2| <= |s1|
  {
    NextSpanStartsAtEnd(data, s1, s2);
  }

  /** A longer well-formed scan continues where a shorter one ends. */
  lemma NextSpanStartsAtEnd(data: seq<byte>, s1: seq<Span>, s2: seq<Span>)
    requires SpansRead(data, s1) && Contiguous(s1) && CutAtMarkers(data, s1)
    requires SpansRead(data, s2) && Contiguous(s2) && CutAtMarkers(data, s2)
    ensures |s1| < |s2| ==> s2[|s1|].start == LastEnd(s1)
  {
    if 0 < |s1| < |s2| {
      SpansAgree(data, s1, s2, |s1| - 1);
    }
  }

  /** The yielded bytes, concatenated in order, are the file up to the end
      of the last span: nothing is skipped or repeated, and what follows
      the last span (the last page onwards, in a full scan) is never yielded. */
  lemma {:induction false} ScanCoversPrefix(data: seq<byte>, spans: seq<Span>)
    requires SpansRead(data, spans) && Contiguous(spans)
    ensures 0 <= LastEnd(spans) <= |data|
    ensures Concat(spans) == data[..LastEnd(spans)]
  {
    if spans != [] {
      var init := spans[..|spans| - 1];
      assert forall i :: 0 <= i < |init| ==> init[i] == spans[i];
      ScanCoversPrefix(data, init);
      var last := spans[|spans| - 1];
      assert LastEnd(init) == last.start;
      assert data[..last.end] == data[..last.start] + data[last.start..last.end];
    }
  }

  /** The yielded bytes, in order. */
  function Concat(spans: seq<Span>): seq<byte>
  {
    if spans == [] then [] else Concat(spans[..|spans| - 1]) + spans[|spans| - 1].bytes
  }

  /** When the file's first `<page>` line starts past byte 0, the bytes
      before it come out as a span of their own (the preamble), and it is
      the first span. A file whose first line holds `<page>` has no such span. */
  lemma PreambleIsFirstSpan(data: seq<byte>, sample: real, spans: seq<Span>, m: int)
    requires IsPageScan(data, sample, spans)
    requires IsMarkerLine(data, m) && forall p :: 0 < p < m ==> !IsMarkerLine(data, p)
    ensures m > 0 ==> |spans| > 0 && spans[0].start == 0 && spans[0].end == m
    ensures m == 0 && |spans| > 0 ==> spans[0].start == 0 && spans[0].end > m
  {
    if m > 0 {
      assert |spans| > 0;
      var e := spans[0].end;
      assert IsMarkerLine(data, e);
      assert 0 < e < m ==> !IsMarkerLine(data, e);
      assert spans[0].start < m < e ==> !IsMarkerLine(data, m);
    }
  }
}
