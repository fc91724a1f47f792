/** Discovery of coordinate templates in wikitext: every occurrence of a
    tag followed by `|`, cut just before the first `}}` after it. */
module SyntaxParser {
  import opened Text

  /** The closing braces of a template. */
  const CLOSE: string := "}}"

  /** `t` occurs somewhere in `s`. */
  predicate IsSubstring(t: string, s: string)
  {
    exists a | 0 <= a <= |s| - |t| :: OccursAt(s, t, a)
  }

  /** The start of every match of `pat` at or after `i`, as `re.finditer`
      reports them: scanning left to right, each match found resumes the
      scan at its end, so matches never overlap. */
  function Matches(s: string, pat: string, i: nat): (r: seq<nat>)
    requires 0 < |pat|
    ensures forall k :: 0 <= k < |r| ==> i <= r[k] && OccursAt(s, pat, r[k])
    ensures forall k :: 0 <= k < |r| - 1 ==> r[k] + |pat| <= r[k + 1]
    decreases |s| - i
  {
    IndexOfFromSpec(s, pat, i);
    var j := IndexOfFrom(s, pat, i);
    if j == -1 then [] else [j] + Matches(s, pat, j + |pat|)
  }

  /** `_get_starting_indices`: where `pat` matches in `s`. */
  function StartingIndices(s: string, pat: string): (r: seq<nat>)
    requires 0 < |pat|
    ensures forall k :: 0 <= k < |r| ==> OccursAt(s, pat, r[k])
    ensures forall k :: 0 <= k < |r| - 1 ==> r[k] + |pat| <= r[k + 1]
    ensures r == [] <==> !Contains(s, pat)
  {
    MatchesEmpty(s, pat, 0);
    Matches(s, pat, 0)
  }

  /** Position `j` lies inside one of the matches starting at `r`. */
  predicate Covered(r: seq<nat>, width: nat, j: int)
  {
    exists k :: 0 <= k < |r| && r[k] <= j < r[k] + width
  }

  lemma CoveredCons(m: nat, rest: seq<nat>, width: nat, j: int)
    requires Covered(rest, width, j) || m <= j < m + width
    ensures Covered([m] + rest, width, j)
  {
    var r := [m] + rest;
    if m <= j < m + width {
      assert r[0] <= j < r[0] + width;
    } else {
      var k :| 0 <= k < |rest| && rest[k] <= j < rest[k] + width;
      assert r[k + 1] == rest[k];
    }
  }

  /** No occurrence is skipped: an occurrence at or after `i` is a match
      or lies inside an earlier match. */
  lemma {:induction false} MatchesCover(s: string, pat: string, i: nat, j: nat)
    requires 0 < |pat| && i <= j && OccursAt(s, pat, j)
    ensures Covered(Matches(s, pat, i), |pat|, j)
    decreases |s| - i
  {
    IndexOfFromSpec(s, pat, i);
    var m := IndexOfFrom(s, pat, i);
    var rest := Matches(s, pat, m + |pat|);
    assert Matches(s, pat, i) == [m] + rest;
    if m + |pat| <= j {
      MatchesCover(s, pat, m + |pat|, j);
    }
    CoveredCons(m, rest, |pat|, j);
  }

  /** There is no match exactly when `pat` does not occur from `i` on. */
  lemma MatchesEmpty(s: string, pat: string, i: nat)
    requires 0 < |pat|
    ensures Matches(s, pat, i) == [] <==> forall j :: i <= j ==> !OccursAt(s, pat, j)
  {
    IndexOfFromSpec(s, pat, i);
  }

  /** Where a slice `s[a:b]` ends: a negative `b` counts from the end, and
      the result is clamped to the string. */
  function SliceEnd(len: nat, b: int): (e: nat)
    ensures e <= len
    ensures 0 <= b <= len ==> e == b
    ensures b + len < 0 ==> e == 0
  {
    if b < 0 then (if b + len < 0 then 0 else b + len)
    else if b > len then len else b
  }

  /** Python's `s[a:b]` for `0 <= a <= len(s)`. */
  function Slice(s: string, a: nat, b: int): (r: string)
    requires a <= |s|
    ensures IsSubstring(r, s)
  {
    var e := SliceEnd(|s|, b);
    var r := if a < e then s[a..e] else [];
    assert OccursAt(s, r, if a < e then a else 0);
    r
  }

  /** The text `get_tags` keeps for a match at `idx`:
      `string[idx:idx + string[idx:].find('}}')]`. */
  function TagAt(s: string, idx: nat): string
    requires idx <= |s|
  {
    Slice(s, idx, idx + IndexOf(s[idx..], CLOSE))
  }

  /** `}}` at `j`, character by character. */
  lemma CloseAt(s: string, j: int)
    ensures OccursAt(s, CLOSE, j) <==> 0 <= j && j + 2 <= |s| && s[j] == '}' && s[j + 1] == '}'
  {
    if 0 <= j && j + 2 <= |s| {
      assert |s[j..j + 2]| == 2;
      assert s[j..j + 2][0] == s[j] && s[j..j + 2][1] == s[j + 1];
    }
  }

  /** A `}}` in the piece `u` of `s` that starts at `off` is a `}}` of `s`. */
  lemma CloseInPiece(s: string, u: string, off: nat, x: int)
    requires off + |u| <= |s| && u == s[off..off + |u|]
    ensures OccursAt(u, CLOSE, x) ==> OccursAt(s, CLOSE, off + x)
    ensures 0 <= x && x + 2 <= |u| && OccursAt(s, CLOSE, off + x) ==> OccursAt(u, CLOSE, x)
  {
    CloseAt(u, x);
    CloseAt(s, off + x);
    if 0 <= x && x + 2 <= |u| {
      assert u[x] == s[off + x] && u[x + 1] == s[off + x + 1];
    }
  }

  /** When `}}` follows the match, the kept text runs from the match to
      just before the first `}}`, and no `}}` starts inside it. */
  lemma TagAtClosed(s: string, idx: nat)
    requires idx <= |s| && Contains(s[idx..], CLOSE)
    ensures var t := TagAt(s, idx);
      idx + |t| + 2 <= |s| && t == s[idx..idx + |t|] && OccursAt(s, CLOSE, idx + |t|) &&
      (forall j :: idx <= j < idx + |t| ==> !OccursAt(s, CLOSE, j)) &&
      !Contains(t, CLOSE)
  {
    var rest := s[idx..];
    IndexOfSpec(rest, CLOSE);
    var e := IndexOf(rest, CLOSE);
    assert 0 <= e && e + 2 <= |rest|;
    var t := TagAt(s, idx);
    assert t == s[idx..idx + e];
    CloseInPiece(s, rest, idx, e);
    forall j | idx <= j < idx + e
      ensures !OccursAt(s, CLOSE, j)
    {
      CloseInPiece(s, rest, idx, j - idx);
    }
    forall a | 0 <= a <= |t| - 2
      ensures !OccursAt(t, CLOSE, a)
    {
      CloseInPiece(s, t, idx, a);
    }
  }

  /** When no `}}` follows the match, `find` answers -1 and the slice
      `string[idx:idx-1]` is empty, except at position 0, where it is the
      whole text but its last character. */
  lemma TagAtOpen(s: string, idx: nat)
    requires idx <= |s| && !Contains(s[idx..], CLOSE)
    ensures TagAt(s, idx) == if idx == 0 && 0 < |s| then s[..|s| - 1] else []
  {
    IndexOfSpec(s[idx..], CLOSE);
  }

  /** A match of `tag|` that is closed by a later `}}` keeps text that
      begins with `tag|`, provided the tag itself holds no `}}`. */
  lemma TagAtStartsWithMatch(s: string, tag: string, idx: nat)
    requires idx <= |s| && OccursAt(s, tag + "|", idx)
    requires Contains(s[idx..], CLOSE) && !Contains(tag, CLOSE)
    ensures tag + "|" <= TagAt(s, idx)
  {
    var pat := tag + "|";
    TagAtClosed(s, idx);
    var t := TagAt(s, idx);
    var n := |t|;
    assert s[idx..idx + |pat|] == pat;
    assert s[idx + |tag|] == '|' by {
      assert s[idx..idx + |pat|][|tag|] == pat[|tag|];
    }
    CloseAt(s, idx + n);
    if n + 2 <= |tag| {
      assert s[idx..idx + |pat|][n] == tag[n] && s[idx..idx + |pat|][n + 1] == tag[n + 1];
      CloseAt(tag, n);
      assert false;
    }
    assert |pat| <= n;
    forall k | 0 <= k < |pat|
      ensures t[k] == pat[k]
    {
      assert t[k] == s[idx + k] == s[idx..idx + |pat|][k];
    }
    assert t[..|pat|] == pat;
  }

  /** `get_tags`: the text kept for every match of the tag followed by `|`,
      in the order of the matches. `tag[-1]` fails on an empty tag; a
      one-character `tag[-1]` never equals the two-character `'\|'`, so
      the `|` is appended even to a tag that already ends in one. */
  method GetTags(s: string, tag: string) returns (r: Result<seq<string>>)
    ensures r.Err? <==> tag == []
    ensures r.Ok? ==> var idxs := StartingIndices(s, tag + "|");
      |r.value| == |idxs| && forall k :: 0 <= k < |idxs| ==> r.value[k] == TagAt(s, idxs[k])
  {
    if |tag| == 0 {
      return Err("string index out of range");
    }
    var pat := tag + "|";
    var idxs := StartingIndices(s, pat);
    var tags: seq<string> := [];
    for k := 0 to |idxs|
      invariant |tags| == k
      invariant forall m :: 0 <= m < k ==> tags[m] == TagAt(s, idxs[m])
    {
      var idx := idxs[k];
      var ending := IndexOf(s[idx..], CLOSE);
      tags := tags + [Slice(s, idx, idx + ending)];
    }
    r := Ok(tags);
  }
}
