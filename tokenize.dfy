/** Word-frequency counting: document-frequency lookup, the per-page term
    counts, and the two storages the worker threads fill. */
module Tokenize {

  /** How many data frames `DataFrameStorage` holds before writing them out. */
  const FRAME_BATCH: nat := 10_000

  /** `lookup`: the document frequency of `word`, or -1 when the word is
      missing or not more frequent than `threshold` (10 unless given). */
  function Lookup(word: string, wikipedia: map<string, int>, threshold: int): (r: int)
    ensures word in wikipedia && wikipedia[word] > threshold ==> r == wikipedia[word]
    ensures !(word in wikipedia && wikipedia[word] > threshold) ==> r == -1
  {
    if word in wikipedia && wikipedia[word] > threshold then wikipedia[word] else -1
  }

  /** A word found at one threshold is found, with the same frequency, at
      every lower threshold; a word missing at one threshold is missing at
      every higher one. */
  lemma LookupThresholds(word: string, wikipedia: map<string, int>, low: int, high: int)
    requires low <= high
    ensures Lookup(word, wikipedia, high) != -1 ==> Lookup(word, wikipedia, low) == Lookup(word, wikipedia, high)
    ensures Lookup(word, wikipedia, low) == -1 ==> Lookup(word, wikipedia, high) == -1
  {
  }

  /** The sum of the values of a map. */
  ghost function Total(m: map<string, int>): int
    decreases |m|
  {
    if m == map[] then 0
    else
      var k :| k in m;
      m[k] + Total(m - {k})
  }

  /** The sum does not depend on which key is taken first. */
  lemma {:induction false} TotalRemove(m: map<string, int>, k: string)
    requires k in m
    ensures Total(m) == m[k] + Total(m - {k})
    decreases |m|
  {
    var j :| j in m && Total(m) == m[j] + Total(m - {j});
    if j != k {
      TotalRemove(m - {j}, k);
      TotalRemove(m - {k}, j);
      assert m - {j} - {k} == m - {k} - {j};
    }
  }

  /** Setting the value of `k` to `v` changes the sum by the difference. */
  lemma TotalUpdate(m: map<string, int>, k: string, v: int)
    ensures Total(m[k := v]) == Total(m) - (if k in m then m[k] else 0) + v
  {
    TotalRemove(m[k := v], k);
    assert m[k := v] - {k} == m - {k};
    if k in m {
      TotalRemove(m, k);
    } else {
      assert m - {k} == m;
    }
  }

  /** The counting loop of `get_token_counts`, on the page's tokens: the
      keys are the distinct tokens, each counted as often as it occurs,
      and the counts add up to the number of tokens. */
  method GetTokenCounts(tokens: seq<string>) returns (wordfreq: map<string, int>)
    ensures forall w :: w in wordfreq <==> w in tokens
    ensures forall w :: w in wordfreq ==> wordfreq[w] == multiset(tokens)[w]
    ensures Total(wordfreq) == |tokens|
  {
    wordfreq := map[];
    for i := 0 to |tokens|
      invariant forall w :: w in wordfreq <==> w in tokens[..i]
      invariant forall w :: w in wordfreq ==> wordfreq[w] == multiset(tokens[..i])[w]
      invariant Total(wordfreq) == i
    {
      var token := tokens[i];
      assert tokens[..i + 1] == tokens[..i] + [token];
      TotalUpdate(wordfreq, token, if token in wordfreq then wordfreq[token] + 1 else 1);
      if token !in wordfreq {
        wordfreq := wordfreq[token := 1];
      } else {
        wordfreq := wordfreq[token := wordfreq[token] + 1];
      }
    }
    assert tokens[..|tokens|] == tokens;
  }

  /** `defaultdict(int)` read: a missing word counts 0. */
  function Get(d: map<string, int>, w: string): int
  {
    if w in d then d[w] else 0
  }

  /** The document-frequency storage: how many pages contain each word. */
  class DictStorage {
    var dict: map<string, int>
    /** Pages stored so far. */
    var count: int

    constructor ()
      ensures dict == map[] && count == 0
    {
      dict := map[];
      count := 0;
    }

    /** `update`: add one to every word of the page's word set. */
    method Update(wordset: set<string>)
      modifies this
      ensures count == old(count) + 1
      ensures forall w :: w in dict <==> w in old(dict) || w in wordset
      ensures forall w :: w in wordset ==> dict[w] == Get(old(dict), w) + 1
      ensures forall w :: w in old(dict) && w !in wordset ==> dict[w] == old(dict)[w]
    {
      var d, rest := dict, wordset;
      while exists w | w in rest :: true
        invariant rest <= wordset
        invariant forall w :: w in d <==> w in dict || (w in wordset && w !in rest)
        invariant forall w :: w in wordset && w !in rest ==> d[w] == Get(dict, w) + 1
        invariant forall w :: w in dict && (w !in wordset || w in rest) ==> d[w] == dict[w]
        decreases |rest|
      {
        var w :| w in rest;
        d := d[w := Get(d, w) + 1];
        rest := rest - {w};
      }
      dict := d;
      count := count + 1;
    }
  }

  /** The TF-IDF storage: data frames are collected and written out to a
      new CSV file every FRAME_BATCH updates. */
  class DataFrameStorage<Frame> {
    var dfs: seq<Frame>
    var count: int
    var dfsCount: int
    /** The CSV files written so far, `tfidf_0.csv`, `tfidf_1.csv`, ...:
        each is the concatenation of the frames it was written from. */
    var written: seq<seq<Frame>>
    /** Every frame handed to `update`, in order. */
    ghost var received: seq<Frame>

    /** Counters and files agree: full batches were written out, the rest
        is pending, and nothing was lost or reordered. */
    ghost predicate Valid()
      reads this
    {
      0 <= count && |received| == count &&
      dfsCount == |written| == count / FRAME_BATCH && |dfs| == count % FRAME_BATCH &&
      (forall k :: 0 <= k < |written| ==> |written[k]| == FRAME_BATCH) &&
      Flatten(written) + dfs == received
    }

    constructor ()
      ensures Valid() && received == [] && written == []
    {
      dfs, count, dfsCount, written, received := [], 0, 0, [], [];
    }

    /** `_write_out`: write the pending frames to the next file and start
        a new batch. Concatenating no frames raises before anything is
        written, so with nothing pending it fails and changes nothing. */
    method WriteOut() returns (ok: bool)
      modifies this
      ensures ok <==> old(dfs) != []
      ensures ok ==> written == old(written) + [old(dfs)] && dfsCount == old(dfsCount) + 1 && dfs == []
      ensures !ok ==> written == old(written) && dfsCount == old(dfsCount) && dfs == old(dfs)
      ensures count == old(count) && received == old(received)
    {
      if dfs == [] {
        return false;
      }
      written := written + [dfs];
      dfsCount := dfsCount + 1;
      dfs := [];
      return true;
    }

    /** `update`: take one frame, writing out at every FRAME_BATCH-th. */
    method Update(df: Frame)
      requires Valid()
      modifies this
      ensures Valid() && received == old(received) + [df]
      ensures count % FRAME_BATCH == 0 ==> written == old(written) + [old(dfs) + [df]] && dfs == []
      ensures count % FRAME_BATCH != 0 ==> written == old(written) && dfs == old(dfs) + [df]
    {
      dfs := dfs + [df];
      count := count + 1;
      received := received + [df];
      FlattenSnoc(written, dfs);
      if count % FRAME_BATCH == 0 {
        var _ := WriteOut();
      }
    }

    /** `finish`: write out what is pending; concatenating no frames fails,
        so with nothing pending no file is written. */
    method Finish()
      requires Valid()
      modifies this
      ensures Flatten(written) == received
      ensures old(dfs) == [] ==> written == old(written)
      ensures old(dfs) != [] ==> written == old(written) + [old(dfs)]
      ensures dfs == [] && count == old(count) && received == old(received)
      ensures dfsCount == old(dfsCount) + (if old(dfs) != [] then 1 else 0)
    {
      if dfs != [] {
        FlattenSnoc(written, dfs);
      }
      var _ := WriteOut();
    }
  }

  /** The frames of the written files, in order. */
  function Flatten<T>(files: seq<seq<T>>): seq<T>
  {
    if |files| == 0 then [] else Flatten(files[..|files| - 1]) + files[|files| - 1]
  }

  lemma FlattenSnoc<T>(files: seq<seq<T>>, f: seq<T>)
    ensures Flatten(files + [f]) == Flatten(files) + f
  {
    assert (files + [f])[..|files|] == files;
  }

  /** After `n` updates of a fresh storage, `n / FRAME_BATCH` files of
      FRAME_BATCH frames each were written and `n % FRAME_BATCH` frames
      wait: the counters follow from the invariant. */
  lemma WrittenAfter<Frame>(s: DataFrameStorage<Frame>)
    requires s.Valid()
    ensures s.dfsCount == s.count / FRAME_BATCH && |s.dfs| == s.count % FRAME_BATCH
    ensures |Flatten(s.written)| == s.count - s.count % FRAME_BATCH
  {
    FlattenLength(s.written, FRAME_BATCH);
  }

  lemma {:induction false} FlattenLength<T>(files: seq<seq<T>>, size: nat)
    requires forall k :: 0 <= k < |files| ==> |files[k]| == size
    ensures |Flatten(files)| == |files| * size
  {
    if |files| > 0 {
      FlattenLength(files[..|files| - 1], size);
    }
  }
}
