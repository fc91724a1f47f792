/** Shared vocabulary of the model: bytes, Python's substring search on
    `bytes`/`str`, line splitting of a binary file and `seek` + `read`. */
module Text {

  type byte = bv8

  datatype Option<+T> = None | Some(value: T)

  datatype Result<+T> = Ok(value: T) | Err(msg: string)

  /** What the XML parser makes of a page's bytes: its `<title>` text, a
      parse error, or a document without a `<title>` element. */
  datatype TitleParse = Title(title: string) | NotXml | NoTitleElement

  const NL: byte := 10

  /** The literal `<page>` marker, as bytes. */
  const PAGE: seq<byte> := [60, 112, 97, 103, 101, 62]

  /** `pat` occurs in `s` starting at index `j`. */
  predicate OccursAt<T(==)>(s: seq<T>, pat: seq<T>, j: int)
  {
    0 <= j && j + |pat| <= |s| && s[j..j + |pat|] == pat
  }

  /** `pat in s`, Python's substring test. */
  predicate Contains<T(==)>(s: seq<T>, pat: seq<T>)
  {
    exists j | 0 <= j <= |s| - |pat| :: OccursAt(s, pat, j)
  }

  /** Python's `s.find(pat, i)`: the first occurrence at or after `i`, or -1. */
  function IndexOfFrom<T(==)>(s: seq<T>, pat: seq<T>, i: nat): int
    decreases |s| - i
  {
    if i + |pat| > |s| then -1
    else if s[i..i + |pat|] == pat then i
    else IndexOfFrom(s, pat, i + 1)
  }

  /** `find` returns the first occurrence at or after `i`, or -1 when there is none. */
  lemma {:induction false} IndexOfFromSpec<T>(s: seq<T>, pat: seq<T>, i: nat)
    ensures var r := IndexOfFrom(s, pat, i);
      (r == -1 || (i <= r && OccursAt(s, pat, r))) &&
      (r == -1 ==> forall j :: i <= j ==> !OccursAt(s, pat, j)) &&
      (r != -1 ==> forall j :: i <= j < r ==> !OccursAt(s, pat, j))
    decreases |s| - i
  {
    if i + |pat| <= |s| && s[i..i + |pat|] != pat {
      IndexOfFromSpec(s, pat, i + 1);
    }
  }

  /** Python's `s.find(pat)`; `s.index(pat)` when the result is not -1. */
  function IndexOf<T(==)>(s: seq<T>, pat: seq<T>): int
  {
    IndexOfFrom(s, pat, 0)
  }

  /** `find` answers -1 exactly when `pat in s` is false, and otherwise the
      first position where `pat` occurs. */
  lemma IndexOfSpec<T>(s: seq<T>, pat: seq<T>)
    ensures IndexOf(s, pat) == -1 <==> !Contains(s, pat)
    ensures IndexOf(s, pat) != -1 ==>
      OccursAt(s, pat, IndexOf(s, pat)) && forall j :: 0 <= j < IndexOf(s, pat) ==> !OccursAt(s, pat, j)
  {
    IndexOfFromSpec(s, pat, 0);
  }

  /** Where the line that starts at `p` ends: just after the first newline
      at or after `p`, or at the end of the file. */
  function LineEnd(data: seq<byte>, p: nat): (e: nat)
    requires p < |data|
    ensures p < e <= |data|
    ensures e == |data| || data[e - 1] == NL
    ensures forall k :: p <= k < e - 1 ==> data[k] != NL
    decreases |data| - p
  {
    if data[p] == NL || p + 1 == |data| then p + 1 else LineEnd(data, p + 1)
  }

  /** Position `p` begins a physical line of the file. */
  predicate IsLineStart(data: seq<byte>, p: int)
  {
    p == 0 || (0 < p <= |data| && data[p - 1] == NL)
  }

  /** The line that the file's line iterator returns when positioned at `p`. */
  function LineAt(data: seq<byte>, p: nat): (line: seq<byte>)
    requires p < |data|
    ensures 0 < |line| && line == data[p..LineEnd(data, p)]
  {
    data[p..LineEnd(data, p)]
  }

  /** A physical line of the file begins at `p` and contains `<page>`. */
  predicate IsMarkerLine(data: seq<byte>, p: int)
  {
    0 <= p < |data| && IsLineStart(data, p) && Contains(LineAt(data, p), PAGE)
  }

  /** `f.seek(pos); f.read(n)` on a binary file: `n == -1` reads to the
      end, any other negative `n` raises `ValueError`, and reads stop at
      the end of the file. */
  function ReadAt(data: seq<byte>, pos: nat, n: int): (r: Result<seq<byte>>)
    ensures r.Ok? <==> -1 <= n
    ensures 0 <= n && pos + n <= |data| ==> r == Ok(data[pos..pos + n])
    ensures n == -1 && pos <= |data| ==> r == Ok(data[pos..])
    ensures -1 <= n && |data| <= pos ==> r == Ok([])
    ensures r.Ok? ==> |r.value| <= |data| && (0 <= n ==> |r.value| <= n)
  {
    var from := if pos <= |data| then pos else |data|;
    if n < -1 then Err("read length must be non-negative or -1")
    else if n == -1 || from + n > |data| then Ok(data[from..])
    else Ok(data[from..from + n])
  }

  /** Python's `str(n)` for an integer. */
  function DecimalString(n: int): (s: string)
    ensures 0 < |s|
    ensures n < 0 <==> s[0] == '-'
    decreases if n < 0 then 1 - n else n
  {
    if n < 0 then "-" + DecimalString(-n)
    else if n < 10 then [Digit(n)]
    else DecimalString(n / 10) + [Digit(n % 10)]
  }

  function Digit(d: int): (c: char)
    requires 0 <= d < 10
    ensures '0' <= c <= '9'
  {
    ('0' as int + d) as char
  }

  /** Python's `int(s)` on the strings `str` produces. */
  function ParseDecimal(s: string): int
  {
    if 0 < |s| && s[0] == '-' then -ParseDigits(s[1..]) else ParseDigits(s)
  }

  function ParseDigits(s: string): int
  {
    if |s| == 0 then 0 else 10 * ParseDigits(s[..|s| - 1]) + (s[|s| - 1] as int - '0' as int)
  }

  /** `int(str(n)) == n`. */
  lemma {:induction false} DecimalRoundTrip(n: int)
    ensures ParseDecimal(DecimalString(n)) == n
    decreases if n < 0 then 1 - n else n
  {
    if n < 0 {
      DecimalRoundTrip(-n);
      assert ("-" + DecimalString(-n))[1..] == DecimalString(-n);
    } else if n >= 10 {
      DecimalRoundTrip(n / 10);
      var s := DecimalString(n / 10);
      ParseDigitsSnoc(s, n % 10);
      var t := s + [Digit(n % 10)];
      assert s[0] != '-' && DecimalString(n) == t && t[0] == s[0];
      assert ParseDigits(s) == n / 10;
      assert ParseDecimal(t) == ParseDigits(t) == 10 * (n / 10) + n % 10;
    } else {
      ParseDigitsSnoc([], n);
      assert [] + [Digit(n)] == DecimalString(n);
    }
  }

  lemma ParseDigitsSnoc(s: string, d: int)
    requires 0 <= d < 10
    ensures ParseDigits(s + [Digit(d)]) == 10 * ParseDigits(s) + d
  {
    var t := s + [Digit(d)];
    assert t[..|t| - 1] == s;
  }

  /** Different integers have different decimal strings. */
  lemma DecimalStringInjective(m: int, n: int)
    ensures DecimalString(m) == DecimalString(n) ==> m == n
  {
    DecimalRoundTrip(m);
    DecimalRoundTrip(n);
  }

  /** Concatenation regroups freely. */
  lemma ConcatAssoc<T>(a: seq<T>, b: seq<T>, c: seq<T>)
    ensures a + (b + c) == (a + b) + c
  {
  }
}
