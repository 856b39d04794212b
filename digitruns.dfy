/** Runs of decimal digits, and the two digit patterns the extractors use:
    `re.finditer(r'\d{6,10}', s)` (worker.py) and `re.search(r'\d{6,}', s)`
    (App.py). */
module DigitRuns {
  import opened Chars
  import opened Optional

  /** A half-open range `[start, end)` of positions in a string. */
  datatype Span = Span(start: nat, end: nat)

  function Min(a: int, b: int): int {
    if a <= b then a else b
  }

  /** Number of consecutive digits starting at position `p`. */
  function DigitRunLen(s: string, p: nat): (n: nat)
    requires p <= |s|
    ensures p + n <= |s|
    decreases |s| - p
  {
    if p < |s| && IsDigit(s[p]) then 1 + DigitRunLen(s, p + 1) else 0
  }

  /** The run holds only digits and is not followed by one. */
  lemma {:induction false} DigitRunSpec(s: string, p: nat)
    requires p <= |s|
    ensures forall k :: p <= k < p + DigitRunLen(s, p) ==> IsDigit(s[k])
    ensures p + DigitRunLen(s, p) < |s| ==> !IsDigit(s[p + DigitRunLen(s, p)])
    decreases |s| - p
  {
    if p < |s| && IsDigit(s[p]) {
      DigitRunSpec(s, p + 1);
    }
  }

  /** No position in `[a, b)` starts six consecutive digits. */
  predicate NoLongRunIn(s: string, a: nat, b: nat) {
    forall q :: a <= q < b && q <= |s| ==> DigitRunLen(s, q) < 6
  }

  /** `\d{6,10}` matches at `c.start` and, being greedy, ends at `c.end`. */
  predicate IsIdChunk(s: string, c: Span) {
    && c.start <= |s|
    && DigitRunLen(s, c.start) >= 6
    && c.end == c.start + Min(10, DigitRunLen(s, c.start))
  }

  /** `cs` is what `re.finditer(r'\d{6,10}', s[p..])` yields: every match
      is greedy and starts at or after the end of the previous one, and no
      position skipped over (before the first match, between matches, after
      the last) starts six digits. */
  predicate IsIdScan(s: string, p: nat, cs: seq<Span>) {
    && (forall i :: 0 <= i < |cs| ==> IsIdChunk(s, cs[i]) && p <= cs[i].start && cs[i].end <= |s|)
    && (forall i :: 0 < i < |cs| ==> cs[i - 1].end <= cs[i].start)
    && (forall i :: 0 < i < |cs| ==> NoLongRunIn(s, cs[i - 1].end, cs[i].start))
    && (cs == [] ==> NoLongRunIn(s, p, |s|))
    && (cs != [] ==> NoLongRunIn(s, p, cs[0].start) && NoLongRunIn(s, cs[|cs| - 1].end, |s|))
  }

  /** The matches of `re.finditer(r'\d{6,10}', s[p..])`, scanned left to
      right from `p`; after a match the scan resumes at its end. */
  function IdChunksFrom(s: string, p: nat): seq<Span>
    requires p <= |s|
    decreases |s| - p
  {
    if p == |s| then []
    else
      var n := DigitRunLen(s, p);
      if n >= 6 then [Span(p, p + Min(10, n))] + IdChunksFrom(s, p + Min(10, n))
      else IdChunksFrom(s, p + 1)
  }

  /** The scan yields exactly the greedy, non-overlapping matches. */
  lemma {:induction false} IdChunksFromIsScan(s: string, p: nat)
    requires p <= |s|
    ensures IsIdScan(s, p, IdChunksFrom(s, p))
    decreases |s| - p
  {
    if p < |s| {
      var n := DigitRunLen(s, p);
      if n >= 6 {
        var c := Span(p, p + Min(10, n));
        IdChunksFromIsScan(s, c.end);
        ScannedCons(s, p, c, IdChunksFrom(s, c.end));
      } else {
        IdChunksFromIsScan(s, p + 1);
        ScannedSkip(s, p, IdChunksFrom(s, p + 1));
      }
    }
  }

  /** Prepending a match to the scan that starts at its end gives a scan
      that starts at the match. */
  lemma ScannedCons(s: string, p: nat, c: Span, rest: seq<Span>)
    requires c.start == p && IsIdChunk(s, c) && c.end <= |s|
    requires IsIdScan(s, c.end, rest)
    ensures IsIdScan(s, p, [c] + rest)
  {
    var cs := [c] + rest;
    assert cs[0] == c;
    forall i | 0 < i < |cs|
      ensures cs[i] == rest[i - 1]
    {
    }
    forall i | 0 < i < |cs|
      ensures cs[i - 1].end <= cs[i].start && NoLongRunIn(s, cs[i - 1].end, cs[i].start)
    {
      if i > 1 {
        assert cs[i - 1] == rest[i - 2];
      }
    }
    if rest != [] {
      assert cs[|cs| - 1] == rest[|rest| - 1];
    }
  }

  /** A position that does not start six digits can be skipped. */
  lemma ScannedSkip(s: string, p: nat, rest: seq<Span>)
    requires p < |s| && DigitRunLen(s, p) < 6
    requires IsIdScan(s, p + 1, rest)
    ensures IsIdScan(s, p, rest)
  {
  }

  /** The last `\d{6,10}` match of a string (`list(finditer(...))[-1]`). */
  function LastIdChunk(s: string): (r: Option<Span>)
    ensures r.None? <==> NoLongRunIn(s, 0, |s|)
    ensures r.Some? ==> IsIdChunk(s, r.value) && r.value.end <= |s| && NoLongRunIn(s, r.value.end, |s|)
  {
    var cs := IdChunksFrom(s, 0);
    IdChunksFromIsScan(s, 0);
    if cs == [] then None else Some(cs[|cs| - 1])
  }

  /** Dropping the first match of a scan leaves the scan that resumes at
      its end. */
  lemma ScanTail(s: string, p: nat, cs: seq<Span>)
    requires IsIdScan(s, p, cs) && cs != []
    ensures IsIdScan(s, cs[0].end, cs[1..])
  {
    var t := cs[1..];
    forall i | 0 <= i < |t| ensures cs[0].end <= t[i].start {
      ScanOrdered(s, p, cs, i + 1);
    }
    if t != [] {
      assert t[0] == cs[1];
      assert t[|t| - 1] == cs[|cs| - 1];
    }
    forall i | 0 < i < |t| ensures t[i - 1].end <= t[i].start && NoLongRunIn(s, t[i - 1].end, t[i].start) {
      assert t[i - 1] == cs[i] && t[i] == cs[i + 1];
    }
  }

  /** Every match of a scan starts at or after the end of the first. */
  lemma {:induction false} ScanOrdered(s: string, p: nat, cs: seq<Span>, j: nat)
    requires IsIdScan(s, p, cs) && 0 < j < |cs|
    ensures cs[0].end <= cs[j].start
    decreases j
  {
    if j > 1 {
      ScanOrdered(s, p, cs, j - 1);
      assert cs[j - 1].start <= cs[j - 1].end;
    }
  }

  /** There is only one scan from a given position: the leftmost-first,
      greedy, non-overlapping matches are determined by the string. */
  lemma {:induction false} IdScanUnique(s: string, p: nat, a: seq<Span>, b: seq<Span>)
    requires IsIdScan(s, p, a) && IsIdScan(s, p, b)
    ensures a == b
    decreases |s| - p
  {
    FirstMatchNoLater(s, p, a, b);
    FirstMatchNoLater(s, p, b, a);
    if a != [] {
      assert a[0] == b[0];
      ScanTail(s, p, a);
      ScanTail(s, p, b);
      IdScanUnique(s, a[0].end, a[1..], b[1..]);
      assert a == [a[0]] + a[1..] && b == [b[0]] + b[1..];
    }
  }

  /** A scan from `p` finds a match no later than where any other scan
      from `p` finds its first one. */
  lemma FirstMatchNoLater(s: string, p: nat, a: seq<Span>, b: seq<Span>)
    requires IsIdScan(s, p, a) && IsIdScan(s, p, b)
    ensures a != [] ==> b != [] && b[0].start <= a[0].start
  {
    if a != [] {
      assert DigitRunLen(s, a[0].start) >= 6;
    }
  }

  /** The chunk `LastIdChunk` picks is the last match of the scan of the
      whole string, and there is none exactly when the scan is empty. */
  lemma LastIdChunkIsLastMatch(s: string, cs: seq<Span>)
    requires IsIdScan(s, 0, cs)
    ensures LastIdChunk(s).None? <==> cs == []
    ensures LastIdChunk(s).Some? ==> LastIdChunk(s).value == cs[|cs| - 1]
  {
    IdChunksFromIsScan(s, 0);
    IdScanUnique(s, 0, cs, IdChunksFrom(s, 0));
  }

  /** `re.search(r'\d{6,}', s[p..])`: the leftmost position with six digits
      in a row, and the whole run of digits from there. */
  function FirstLongRunFrom(s: string, p: nat): (r: Option<Span>)
    requires p <= |s|
    ensures r.None? <==> NoLongRunIn(s, p, |s|)
    ensures r.Some? ==> p <= r.value.start <= |s| && NoLongRunIn(s, p, r.value.start)
    ensures r.Some? ==> DigitRunLen(s, r.value.start) >= 6 && r.value.end == r.value.start + DigitRunLen(s, r.value.start)
    decreases |s| - p
  {
    if p == |s| then None
    else if DigitRunLen(s, p) >= 6 then Some(Span(p, p + DigitRunLen(s, p)))
    else FirstLongRunFrom(s, p + 1)
  }

  /** `re.search(r'\d{6,}', s)`: the first run of six or more digits,
      taken in full. */
  function FirstLongRun(s: string): (r: Option<Span>)
    ensures r.None? <==> NoLongRunIn(s, 0, |s|)
    ensures r.Some? ==> r.value.start + 6 <= r.value.end <= |s|
    ensures r.Some? ==> NoLongRunIn(s, 0, r.value.start)
  {
    FirstLongRunFrom(s, 0)
  }

  /** The run found is a maximal run of digits: digits throughout, and no
      digit just before or just after it. */
  lemma FirstLongRunSpec(s: string)
    requires FirstLongRun(s).Some?
    ensures var r := FirstLongRun(s).value;
      && (forall k :: r.start <= k < r.end ==> IsDigit(s[k]))
      && (r.start == 0 || !IsDigit(s[r.start - 1]))
      && (r.end == |s| || !IsDigit(s[r.end]))
  {
    var r := FirstLongRun(s).value;
    DigitRunSpec(s, r.start);
    if r.start > 0 {
      assert DigitRunLen(s, r.start - 1) < 6;
    }
  }
}
