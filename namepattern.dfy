/** The earlier extractor of app.py. `NAME_CC_PATTERN` is
    `([A-ZÁÉÍÓÚÑ][a-záéíóúñ]+\s(?:[A-ZÁÉÍÓÚÑ][a-záéíóúñ]+\s?){1,3}).*?(\d{6,10})`;
    the first line of the OCR text on which `search` finds it gives
    "name — cc", and `process_pdf_with_vision` wraps that in the error and
    empty-text cases.

    The pattern is modelled by its greedy path. At a given start position
    that path is the first the backtracking engine tries, and no other path
    can succeed where it fails: a small-letter run cut short is followed by
    a small letter, which neither `\s` nor another word can match, and any
    shorter name group ends earlier on letters and whitespace, so the lazy
    `.*?` reaches the same first six-digit position from there. */
module NamePattern {
  import opened Chars
  import opened Optional
  import opened PyStr
  import opened DigitRuns
  import opened Documents
  import opened Seqs

  /** `[A-ZÁÉÍÓÚÑ]` */
  predicate IsNameUpper(c: char) {
    IsAsciiUpper(c) || IsAccentedUpperNoUmlaut(c)
  }

  /** `[a-záéíóúñ]` */
  predicate IsNameLower(c: char) {
    IsAsciiLower(c) || IsAccentedLowerNoUmlaut(c)
  }

  /** Number of consecutive small letters from position `p`. */
  function LowerRunLen(s: string, p: nat): (n: nat)
    requires p <= |s|
    ensures p + n <= |s|
    decreases |s| - p
  {
    if p < |s| && IsNameLower(s[p]) then 1 + LowerRunLen(s, p + 1) else 0
  }

  /** The run holds only small letters and is not followed by one. */
  lemma {:induction false} LowerRunSpec(s: string, p: nat)
    requires p <= |s|
    ensures forall k :: p <= k < p + LowerRunLen(s, p) ==> IsNameLower(s[k])
    ensures p + LowerRunLen(s, p) < |s| ==> !IsNameLower(s[p + LowerRunLen(s, p)])
    decreases |s| - p
  {
    if p < |s| && IsNameLower(s[p]) {
      LowerRunSpec(s, p + 1);
    }
  }

  /** `[A-ZÁÉÍÓÚÑ][a-záéíóúñ]+` matched at `w.start` up to `w.end`: a
      capital followed by the whole run of small letters after it. */
  predicate IsCapWord(s: string, w: Span) {
    && w.start < |s|
    && IsNameUpper(s[w.start])
    && LowerRunLen(s, w.start + 1) > 0
    && w.end == w.start + 1 + LowerRunLen(s, w.start + 1)
  }

  /** A capitalised word starts at `p`. */
  predicate WordAt(s: string, p: nat) {
    p < |s| && IsNameUpper(s[p]) && LowerRunLen(s, p + 1) > 0
  }

  function WordSpan(s: string, p: nat): (w: Span)
    requires WordAt(s, p)
    ensures IsCapWord(s, w) && w.start == p && w.end <= |s|
  {
    Span(p, p + 1 + LowerRunLen(s, p + 1))
  }

  /** `\s?` at position `e`, greedy. */
  function SkipOptSpace(s: string, e: nat): (e': nat)
    requires e <= |s|
    ensures e <= e' <= |s| && e' <= e + 1
  {
    if e < |s| && IsSpace(s[e]) then e + 1 else e
  }

  /** `ws` are consecutive matches of `[A-ZÁÉÍÓÚÑ][a-záéíóúñ]+\s?` from
      `p`, each starting where the previous one (with its optional
      whitespace) ended, and `e` is where the last one ends. */
  predicate WordChain(s: string, p: nat, ws: seq<Span>, e: nat)
    decreases |ws|
  {
    if ws == [] then e == p
    else
      && ws[0].start == p
      && IsCapWord(s, ws[0])
      && ws[0].end <= |s|
      && WordChain(s, SkipOptSpace(s, ws[0].end), ws[1..], e)
  }

  /** The last word of a chain: where it is, and that the chain ends after
      it and its optional whitespace. */
  lemma {:induction false} ChainLast(s: string, p: nat, ws: seq<Span>, e: nat)
    requires WordChain(s, p, ws, e) && ws != []
    ensures var last := ws[|ws| - 1];
      && IsCapWord(s, last)
      && p <= last.start
      && last.end <= |s|
      && e == SkipOptSpace(s, last.end)
    decreases |ws|
  {
    if |ws| > 1 {
      ChainLast(s, SkipOptSpace(s, ws[0].end), ws[1..], e);
      assert ws[1..][|ws| - 2] == ws[|ws| - 1];
    }
  }

  /** `(?:[A-ZÁÉÍÓÚÑ][a-záéíóúñ]+\s?){0,k}` from `p`, greedy: as many words
      as there are, up to `k`. */
  function MoreWords(s: string, p: nat, k: nat): (r: (seq<Span>, nat))
    requires p <= |s|
    ensures |r.0| <= k && p <= r.1 <= |s|
    decreases k
  {
    if k == 0 || !WordAt(s, p) then ([], p)
    else
      var w := WordSpan(s, p);
      var rest := MoreWords(s, SkipOptSpace(s, w.end), k - 1);
      ([w] + rest.0, rest.1)
  }

  /** The greedy repetition takes a chain of words and stops only at the
      bound or where no word starts. */
  lemma {:induction false} MoreWordsSpec(s: string, p: nat, k: nat)
    requires p <= |s|
    ensures WordChain(s, p, MoreWords(s, p, k).0, MoreWords(s, p, k).1)
    ensures |MoreWords(s, p, k).0| < k ==> !WordAt(s, MoreWords(s, p, k).1)
    decreases k
  {
    if k > 0 && WordAt(s, p) {
      var w := WordSpan(s, p);
      var q := SkipOptSpace(s, w.end);
      MoreWordsSpec(s, q, k - 1);
      var rest := MoreWords(s, q, k - 1);
      assert ([w] + rest.0)[1..] == rest.0;
    }
  }

  /** The bound of `{1,3}`: at most three words after the first. */
  const MaxMoreWords: nat := 3

  /** Group 1 of the pattern at `p`, greedy: a word, one whitespace, then
      one to three words each with optional whitespace. */
  function NameGroup(s: string, p: nat): (r: Option<(seq<Span>, nat)>)
    requires p <= |s|
    ensures r.Some? ==> p < r.value.1 <= |s|
  {
    if !WordAt(s, p) then None
    else
      var w := WordSpan(s, p);
      if w.end < |s| && IsSpace(s[w.end]) && WordAt(s, w.end + 1) then
        var rest := MoreWords(s, w.end + 1, MaxMoreWords);
        Some(([w] + rest.0, rest.1))
      else
        None
  }

  /** Group 1 holds two to four chained words, the first two separated by
      exactly one whitespace character; the greedy `{1,3}` stops early only
      where no further word starts. */
  lemma NameGroupSpec(s: string, p: nat)
    requires p <= |s| && NameGroup(s, p).Some?
    ensures var (ws, e) := NameGroup(s, p).value;
      && 2 <= |ws| <= 4
      && WordChain(s, p, ws, e)
      && ws[0].end < |s| && IsSpace(s[ws[0].end]) && ws[1].start == ws[0].end + 1
      && (|ws| < 4 ==> !WordAt(s, e))
  {
    var w := WordSpan(s, p);
    MoreWordsSpec(s, w.end + 1, MaxMoreWords);
    var rest := MoreWords(s, w.end + 1, MaxMoreWords);
    var ws := [w] + rest.0;
    assert NameGroup(s, p) == Some((ws, rest.1));
    assert rest.0 != [];
    assert ws[1..] == rest.0 && ws[1] == rest.0[0];
  }

  /** No newline in `s[a..b]`: `.` does not match `\n`. */
  predicate NoNewlineIn(s: string, a: nat, b: nat) {
    forall k :: a <= k < b && k < |s| ==> s[k] != '\n'
  }

  /** `.*?(\d{6,10})` from `q`: the lazy `.*?` stops at the first position
      where six digits start, without crossing a newline; the identifier is
      then the greedy `\d{6,10}` there. */
  function LazyIdFrom(s: string, q: nat): (r: Option<Span>)
    requires q <= |s|
    ensures r.Some? ==> q <= r.value.start <= r.value.end <= |s|
    decreases |s| - q
  {
    if q == |s| || s[q] == '\n' then None
    else if DigitRunLen(s, q) >= 6 then Some(Span(q, q + Min(10, DigitRunLen(s, q))))
    else LazyIdFrom(s, q + 1)
  }

  /** The identifier is found at the first position where six digits
      start, and none is found when no such position is reachable before a
      newline. */
  lemma {:induction false} LazyIdFromSpec(s: string, q: nat)
    requires q <= |s|
    ensures LazyIdFrom(s, q).Some? ==>
      && IsIdChunk(s, LazyIdFrom(s, q).value)
      && NoNewlineIn(s, q, LazyIdFrom(s, q).value.start)
      && NoLongRunIn(s, q, LazyIdFrom(s, q).value.start)
    ensures LazyIdFrom(s, q).None? ==>
      forall j :: q <= j <= |s| && NoNewlineIn(s, q, j) ==> DigitRunLen(s, j) < 6
    decreases |s| - q
  {
    if q < |s| && s[q] != '\n' && DigitRunLen(s, q) < 6 {
      LazyIdFromSpec(s, q + 1);
    }
  }

  /** A match of the pattern: the words of group 1, where group 1 ends,
      and group 2. */
  datatype PatternMatch = PatternMatch(words: seq<Span>, groupEnd: nat, id: Span)

  /** The pattern matched at position `p`. */
  function MatchAt(s: string, p: nat): (r: Option<PatternMatch>)
    requires p <= |s|
    ensures r.Some? ==> p < r.value.groupEnd <= r.value.id.start <= r.value.id.end <= |s|
  {
    match NameGroup(s, p)
    case None => None
    case Some((ws, e)) =>
      match LazyIdFrom(s, e)
      case None => None
      case Some(id) => Some(PatternMatch(ws, e, id))
  }

  /** The match at every position of `s`; none past its end. */
  function MatchesOf(s: string): nat -> Option<PatternMatch> {
    (q: nat) => if q <= |s| then MatchAt(s, q) else None
  }

  /** `NAME_CC_PATTERN.search(s[p..])`: the match at the leftmost position
      from `p` where there is one. */
  function SearchFrom(s: string, p: nat): (r: Option<(nat, PatternMatch)>)
    requires p <= |s|
    ensures r.Some? ==> p <= r.value.0 <= |s| && MatchAt(s, r.value.0) == Some(r.value.1)
  {
    FirstSomeFrom(MatchesOf(s), p, |s|)
  }

  /** The search reports the leftmost position where the pattern matches,
      and nothing exactly when it matches nowhere. */
  lemma SearchFromSpec(s: string, p: nat)
    requires p <= |s|
    ensures SearchFrom(s, p).Some? ==> forall q :: p <= q < SearchFrom(s, p).value.0 ==> MatchAt(s, q).None?
    ensures SearchFrom(s, p).None? <==> forall q :: p <= q <= |s| ==> MatchAt(s, q).None?
  {
    var f := MatchesOf(s);
    FirstSomeFromSpec(f, p, |s|);
    forall q: nat | q <= |s| ensures f(q) == MatchAt(s, q) {
    }
  }

  function Search(s: string): Option<(nat, PatternMatch)> {
    SearchFrom(s, 0)
  }

  /** `match.group(1).strip()` */
  function MatchName(s: string, p: nat, m: PatternMatch): string
    requires p <= m.groupEnd <= |s|
  {
    Strip(s[p..m.groupEnd])
  }

  /** `match.group(2).strip()`; the group holds only digits. */
  function MatchCc(s: string, m: PatternMatch): string
    requires m.id.start <= m.id.end <= |s|
  {
    s[m.id.start..m.id.end]
  }

  /** The name of a match is the text from the first capital to the end of
      the last word: trimmed, starting with a capital, and made of two to
      four chained capitalised words. */
  lemma MatchNameSpec(s: string, p: nat)
    requires p <= |s| && MatchAt(s, p).Some?
    ensures var m := MatchAt(s, p).value;
      && 2 <= |m.words| <= 4
      && WordChain(s, p, m.words, m.groupEnd)
      && MatchName(s, p, m) == s[p..m.words[|m.words| - 1].end]
      && IsStripped(MatchName(s, p, m))
      && MatchName(s, p, m) != []
      && IsNameUpper(MatchName(s, p, m)[0])
  {
    var m := MatchAt(s, p).value;
    NameGroupSpec(s, p);
    ChainText(s, p, m.words, m.groupEnd);
  }

  /** The text a chain of words spans, trimmed, runs from its first capital
      to the end of its last word. */
  lemma ChainText(s: string, p: nat, ws: seq<Span>, e: nat)
    requires WordChain(s, p, ws, e) && ws != []
    ensures var last := ws[|ws| - 1];
      && p < last.end <= e <= |s|
      && Strip(s[p..e]) == s[p..last.end]
      && IsNameUpper(s[p])
  {
    ChainLast(s, p, ws, e);
    var last := ws[|ws| - 1];
    var x := s[p..last.end];
    assert IsNameUpper(s[p]) && !IsSpace(x[0]) by {
      assert IsCapWord(s, ws[0]);
    }
    assert !IsSpace(x[|x| - 1]) by {
      LowerRunSpec(s, last.start + 1);
      assert x[|x| - 1] == s[last.end - 1];
      assert last.start + 1 <= last.end - 1;
    }
    var t := s[last.end..e];
    assert AllSpace(t);
    assert s[p..e] == x + t;
    StripTrailingSpace(x, t);
  }

  /** The identifier of a match is 6 to 10 digits found after the name on
      the same line, at the first place where six digits start, and it is
      the greedy chunk there: as many digits as follow, up to ten. */
  lemma MatchIdSpec(s: string, p: nat)
    requires p <= |s| && MatchAt(s, p).Some?
    ensures var m := MatchAt(s, p).value;
      && IsIdNumber(MatchCc(s, m))
      && IsIdChunk(s, m.id)
      && NoNewlineIn(s, m.groupEnd, m.id.start)
      && NoLongRunIn(s, m.groupEnd, m.id.start)
  {
    var m := MatchAt(s, p).value;
    LazyIdFromSpec(s, m.groupEnd);
    ChunkIsIdNumber(s, m.id);
  }

  /** The first line on which the pattern is found, and the match. */
  function FirstMatch(lines: seq<string>): (r: Option<(nat, nat, PatternMatch)>)
    ensures r.Some? ==> r.value.0 < |lines| && Search(lines[r.value.0]) == Some((r.value.1, r.value.2))
  {
    if lines == [] then None
    else match Search(lines[0])
      case Some((p, m)) => Some((0, p, m))
      case None =>
        match FirstMatch(lines[1..])
        case None => None
        case Some((i, p, m)) => Some((i + 1, p, m))
  }

  /** No line is found exactly when the pattern is on none of them, and the
      line found is the first one it is on. */
  lemma {:induction false} FirstMatchSpec(lines: seq<string>)
    ensures FirstMatch(lines).None? <==> forall i :: 0 <= i < |lines| ==> Search(lines[i]).None?
    ensures FirstMatch(lines).Some? ==> forall i :: 0 <= i < FirstMatch(lines).value.0 ==> Search(lines[i]).None?
  {
    if lines != [] && Search(lines[0]).None? {
      var tail := lines[1..];
      FirstMatchSpec(tail);
      assert forall i :: 0 < i < |lines| ==> lines[i] == tail[i - 1];
    }
  }

  /** `extract_name_and_cc_from_text`: "name — cc" from the first line of
      `text.split('\n')` on which the pattern is found; the lines are not
      trimmed. "No reconocido" when no line matches. */
  function ExtractNameAndCc(text: string): string {
    var lines := SplitChar(text, '\n');
    match FirstMatch(lines)
    case None => NoReconocido
    case Some((i, p, m)) => RecordText(Record(MatchName(lines[i], p, m), MatchCc(lines[i], m)))
  }

  /** The result is "No reconocido" exactly when the pattern is on no line. */
  lemma ExtractNameAndCcUnrecognised(text: string)
    ensures ExtractNameAndCc(text) == NoReconocido <==>
      forall l <- SplitChar(text, '\n') :: Search(l).None?
  {
    var lines := SplitChar(text, '\n');
    FirstMatchSpec(lines);
    match FirstMatch(lines)
    case None =>
    case Some((i, p, m)) =>
      RecordTextHasDash(Record(MatchName(lines[i], p, m), MatchCc(lines[i], m)));
  }

  /** When a line matches, the result is built from the first such line
      only and from the leftmost match on it: a trimmed name starting with a
      capital, made of two to four capitalised words, and a 6 to 10 digit
      identifier found after it on the same line. */
  lemma ExtractNameAndCcFound(text: string, i: nat, p: nat, m: PatternMatch)
    requires FirstMatch(SplitChar(text, '\n')) == Some((i, p, m))
    ensures var lines := SplitChar(text, '\n');
      && (forall j :: 0 <= j < i ==> Search(lines[j]).None?)
      && (forall q :: 0 <= q < p ==> MatchAt(lines[i], q).None?)
      && ExtractNameAndCc(text) == RecordText(Record(MatchName(lines[i], p, m), MatchCc(lines[i], m)))
      && 2 <= |m.words| <= 4
      && IsStripped(MatchName(lines[i], p, m))
      && MatchName(lines[i], p, m) != []
      && IsNameUpper(MatchName(lines[i], p, m)[0])
      && IsIdNumber(MatchCc(lines[i], m))
  {
    var lines := SplitChar(text, '\n');
    FirstMatchSpec(lines);
    SearchFromSpec(lines[i], 0);
    MatchNameSpec(lines[i], p);
    MatchIdSpec(lines[i], p);
  }

  // ---------------------------------------------------------------------
  // process_pdf_with_vision
  // ---------------------------------------------------------------------

  const ClientNotReady: string := "Error: Cliente de Vision no inicializado."
  const NoTextExtracted: string := "No se extrajo texto"
  const ProcessingErrorPrefix: string := "Error de procesamiento: "

  /** What one page adds to `full_text`: its text and a newline, or nothing
      when its OCR response carried an error. */
  function PageChunk(page: PageOutcome): string {
    match page
    case PageText(t) => t + "\n"
    case PageError => ""
  }

  /** The text of all recognised pages, each followed by a newline. */
  function FullText(pages: seq<PageOutcome>): string {
    FlatMap(PageChunk, pages)
  }

  /** The full text is empty exactly when no page was recognised. */
  lemma FullTextEmptyIff(pages: seq<PageOutcome>)
    ensures FullText(pages) == [] <==> forall i :: 0 <= i < |pages| ==> pages[i].PageError?
  {
    FlatMapEmpty(PageChunk, pages);
  }

  /** The value `process_pdf_with_vision` returns. `clientReady` stands for
      the module-level Vision client having been created. */
  function VisionResult(clientReady: bool, doc: DocumentInput): string {
    if !clientReady then ClientNotReady
    else match doc
      case Raised(msg) => ProcessingErrorPrefix + msg
      case Pages(pages) =>
        var fullText := FullText(pages);
        if fullText == [] then NoTextExtracted else ExtractNameAndCc(fullText)
  }

  /** `process_pdf_with_vision`: builds `full_text` page by page, then
      extracts from it. */
  method ProcessPdfWithVision(clientReady: bool, doc: DocumentInput) returns (result: string)
    ensures result == VisionResult(clientReady, doc)
  {
    if !clientReady {
      return ClientNotReady;
    }
    match doc {
      case Raised(msg) =>
        return ProcessingErrorPrefix + msg;
      case Pages(pages) =>
        var fullText := "";
        for i := 0 to |pages|
          invariant fullText == FlatMap(PageChunk, pages[..i])
        {
          FlatMapStep(PageChunk, pages, i);
          match pages[i] {
            case PageError =>
            case PageText(t) =>
              fullText := fullText + t + "\n";
          }
        }
        assert pages[..|pages|] == pages;
        if fullText == [] {
          return NoTextExtracted;
        }
        return ExtractNameAndCc(fullText);
    }
  }

  /** The extracted text is never the "No se extrajo texto" marker. */
  lemma ExtractNameAndCcIsNotNoText(text: string)
    ensures ExtractNameAndCc(text) != NoTextExtracted
  {
    var lines := SplitChar(text, '\n');
    match FirstMatch(lines)
    case None =>
      assert NoReconocido != NoTextExtracted;
    case Some((i, p, m)) =>
      RecordTextHasDash(Record(MatchName(lines[i], p, m), MatchCc(lines[i], m)));
      NoTextHasNoDash();
  }

  lemma NoTextHasNoDash()
    ensures EmDash !in NoTextExtracted
  {
  }

  /** "No se extrajo texto" is returned exactly when the client is ready,
      the file could be rasterised and no page was recognised. */
  lemma VisionNoText(clientReady: bool, doc: DocumentInput)
    ensures VisionResult(clientReady, doc) == NoTextExtracted <==>
      clientReady && doc.Pages? && forall i :: 0 <= i < |doc.pages| ==> doc.pages[i].PageError?
  {
    if clientReady && doc.Pages? {
      FullTextEmptyIff(doc.pages);
      ExtractNameAndCcIsNotNoText(FullText(doc.pages));
    } else if !clientReady {
      assert ClientNotReady != NoTextExtracted;
    } else {
      assert |ProcessingErrorPrefix + doc.message| > |NoTextExtracted|;
    }
  }

  /** Once some page was recognised, "No reconocido" is returned exactly
      when the pattern is on no line of the text. */
  lemma VisionUnrecognised(clientReady: bool, doc: DocumentInput)
    requires clientReady && doc.Pages? && FullText(doc.pages) != []
    ensures VisionResult(clientReady, doc) == NoReconocido <==>
      forall l <- SplitChar(FullText(doc.pages), '\n') :: Search(l).None?
  {
    ExtractNameAndCcUnrecognised(FullText(doc.pages));
  }
}
