/** The final revision of the extractor and the job that runs it over an
    archive (worker.py): every line of a page that ends in a 6-10 digit
    identifier and starts with an acceptable name yields "name — cc"; the
    results of all pages are de-duplicated, sorted and joined; each PDF
    becomes one row with folder labels and a three-way status. The file's
    code sits inside a string literal and never runs; it is modelled from
    its text. */
module Worker {
  import opened Chars
  import opened Optional
  import opened PyStr
  import opened DigitRuns
  import opened Documents
  import opened Sorting
  import opened Seqs

  /** Header words whose presence (as substrings of the upper-cased name)
      marks a line as a table header rather than an attendee. */
  const IgnoreKeywords: seq<string> :=
    ["CARGO", "FIRMA", "COMPANY", "CEDULA", "APELLIDOS", "SIGNATURE", "TITLE", "JOB", "LISTADO"]

  /** "Error de conversión: " */
  const ConversionErrorPrefix: string := "Error de conversi\U{F3}n: "

  // ---------------------------------------------------------------------
  // Leading list number: re.sub(r"^\d+\s*[.-]?\s*", "", name)
  // ---------------------------------------------------------------------

  predicate IsSep(c: char) {
    c == '.' || c == '-'
  }

  /** States of an automaton for `\d+\s*[.-]?\s*`, read left to right. */
  datatype MarkerState = Start | InDigits | AfterSpace | AfterSep | Dead

  function MarkerStep(st: MarkerState, c: char): MarkerState {
    match st
    case Start => if IsDigit(c) then InDigits else Dead
    case InDigits =>
      if IsDigit(c) then InDigits
      else if IsSpace(c) then AfterSpace
      else if IsSep(c) then AfterSep
      else Dead
    case AfterSpace => if IsSpace(c) then AfterSpace else if IsSep(c) then AfterSep else Dead
    case AfterSep => if IsSpace(c) then AfterSep else Dead
    case Dead => Dead
  }

  /** The state after reading the first `n` characters of `m`. */
  function MarkerRun(m: string, n: nat): MarkerState
    requires n <= |m|
  {
    if n == 0 then Start else MarkerStep(MarkerRun(m, n - 1), m[n - 1])
  }

  /** `m` is matched in full by `\d+\s*[.-]?\s*`. */
  predicate IsListMarker(m: string) {
    MarkerRun(m, |m|) != Start && MarkerRun(m, |m|) != Dead
  }

  /** Reading a prefix of `s` is reading the first characters of `s`. */
  lemma {:induction false} PrefixRun(s: string, n: nat)
    requires n <= |s|
    ensures MarkerRun(s[..n], n) == MarkerRun(s, n)
  {
    if n > 0 {
      PrefixRun(s, n - 1);
      PrefixRunStep(s, n);
    }
  }

  lemma {:induction false} PrefixRunStep(s: string, n: nat)
    requires 0 < n <= |s|
    ensures MarkerRun(s[..n], n - 1) == MarkerRun(s[..n - 1], n - 1)
  {
    SamePrefixSameRun(s[..n], s[..n - 1], n - 1);
  }

  lemma {:induction false} SamePrefixSameRun(a: string, b: string, n: nat)
    requires n <= |a| && n <= |b| && a[..n] == b[..n]
    ensures MarkerRun(a, n) == MarkerRun(b, n)
  {
    if n > 0 {
      assert a[n - 1] == a[..n][n - 1] == b[..n][n - 1] == b[n - 1];
      assert a[..n - 1] == a[..n][..n - 1] == b[..n][..n - 1] == b[..n - 1];
      SamePrefixSameRun(a, b, n - 1);
    }
  }

  /** Number of consecutive whitespace characters from position `p`. */
  function SpaceRunLen(s: string, p: nat): (n: nat)
    requires p <= |s|
    ensures p + n <= |s|
    ensures forall k :: p <= k < p + n ==> IsSpace(s[k])
    ensures p + n < |s| ==> !IsSpace(s[p + n])
    decreases |s| - p
  {
    if p < |s| && IsSpace(s[p]) then 1 + SpaceRunLen(s, p + 1) else 0
  }

  /** Length of the greedy match of `^\d+\s*[.-]?\s*`: all the digits, all
      the whitespace, one separator if present, all the whitespace. */
  function ListMarkerLen(s: string): (k: nat)
    ensures k <= |s|
  {
    var d := DigitRunLen(s, 0);
    if d == 0 then 0
    else
      var k1 := d + SpaceRunLen(s, d);
      var k2 := if k1 < |s| && IsSep(s[k1]) then k1 + 1 else k1;
      k2 + SpaceRunLen(s, k2)
  }

  /** Reading the characters of `s[a..b]` from state `st` stays in `st`. */
  lemma {:induction false} RunStays(s: string, a: nat, b: nat, st: MarkerState)
    requires a <= b <= |s|
    requires MarkerRun(s, a) == st
    requires forall j :: a <= j < b ==> MarkerStep(st, s[j]) == st
    ensures MarkerRun(s, b) == st
    decreases b
  {
    if b > a {
      RunStays(s, a, b - 1, st);
    }
  }

  /** The greedy match is the longest prefix the pattern matches, and it is
      empty exactly when `s` does not start with a digit. */
  lemma ListMarkerLongest(s: string)
    ensures ListMarkerLen(s) > 0 <==> (s != [] && IsDigit(s[0]))
    ensures ListMarkerLen(s) > 0 ==> IsListMarker(s[..ListMarkerLen(s)])
    ensures forall k :: ListMarkerLen(s) < k <= |s| ==> !IsListMarker(s[..k])
  {
    var k := ListMarkerLen(s);
    if DigitRunLen(s, 0) == 0 {
      if s != [] {
        assert MarkerRun(s, 1) == MarkerStep(MarkerRun(s, 0), s[0]);
        DeadStays(s, 1);
      }
    } else {
      GreedyMarker(s);
      PrefixRun(s, k);
      if k < |s| {
        DeadStays(s, k + 1);
      }
    }
    forall k' | k < k' <= |s| ensures !IsListMarker(s[..k']) {
      PrefixRun(s, k');
    }
  }

  /** The greedy match ends in an accepting state, and the next character,
      if any, kills the automaton. */
  lemma GreedyMarker(s: string)
    requires DigitRunLen(s, 0) > 0
    ensures MarkerRun(s, ListMarkerLen(s)) != Start && MarkerRun(s, ListMarkerLen(s)) != Dead
    ensures ListMarkerLen(s) < |s| ==> MarkerRun(s, ListMarkerLen(s) + 1) == Dead
  {
    var d := DigitRunLen(s, 0);
    var k1 := d + SpaceRunLen(s, d);
    var st1 := SpacesPhase(s);
    if k1 < |s| && IsSep(s[k1]) {
      SepPhase(s, k1, st1);
    } else {
      NoSepPhase(s, k1, st1);
    }
  }

  /** A separator after the digits and whitespace, and the whitespace after
      it, leave the automaton in `AfterSep`; what follows kills it. */
  lemma SepPhase(s: string, k1: nat, st1: MarkerState)
    requires DigitRunLen(s, 0) > 0 && k1 == DigitRunLen(s, 0) + SpaceRunLen(s, DigitRunLen(s, 0))
    requires k1 < |s| && IsSep(s[k1])
    requires st1 == InDigits || st1 == AfterSpace
    requires MarkerRun(s, k1) == st1
    ensures MarkerRun(s, ListMarkerLen(s)) == AfterSep
    ensures ListMarkerLen(s) < |s| ==> MarkerRun(s, ListMarkerLen(s) + 1) == Dead
  {
    var k := k1 + 1 + SpaceRunLen(s, k1 + 1);
    assert ListMarkerLen(s) == k;
    assert MarkerRun(s, k1 + 1) == MarkerStep(MarkerRun(s, k1), s[k1]);
    RunStays(s, k1 + 1, k, AfterSep);
    if k < |s| {
      assert MarkerRun(s, k + 1) == MarkerStep(MarkerRun(s, k), s[k]);
    }
  }

  /** Without a separator the match ends after the digits and whitespace,
      in `InDigits` or `AfterSpace`; the next character kills the
      automaton. */
  lemma NoSepPhase(s: string, k1: nat, st1: MarkerState)
    requires DigitRunLen(s, 0) > 0 && k1 == DigitRunLen(s, 0) + SpaceRunLen(s, DigitRunLen(s, 0))
    requires !(k1 < |s| && IsSep(s[k1]))
    requires st1 == (if k1 == DigitRunLen(s, 0) then InDigits else AfterSpace)
    requires MarkerRun(s, k1) == st1
    ensures MarkerRun(s, ListMarkerLen(s)) == st1
    ensures ListMarkerLen(s) < |s| ==> MarkerRun(s, ListMarkerLen(s) + 1) == Dead
  {
    DigitRunSpec(s, 0);
    assert SpaceRunLen(s, k1) == 0;
    assert ListMarkerLen(s) == k1;
    if k1 < |s| {
      assert st1 == InDigits ==> !IsDigit(s[k1]);
      assert MarkerRun(s, k1 + 1) == MarkerStep(MarkerRun(s, k1), s[k1]);
    }
  }

  /** After the digits and the whitespace that follows them the automaton
      is in `InDigits` (no whitespace) or `AfterSpace`. */
  lemma SpacesPhase(s: string) returns (st: MarkerState)
    requires DigitRunLen(s, 0) > 0
    ensures var k1 := DigitRunLen(s, 0) + SpaceRunLen(s, DigitRunLen(s, 0));
      && st == (if k1 == DigitRunLen(s, 0) then InDigits else AfterSpace)
      && MarkerRun(s, k1) == st
  {
    var d := DigitRunLen(s, 0);
    DigitRunSpec(s, 0);
    assert MarkerRun(s, 1) == MarkerStep(MarkerRun(s, 0), s[0]);
    RunStays(s, 1, d, InDigits);
    var k1 := d + SpaceRunLen(s, d);
    if k1 > d {
      assert MarkerRun(s, d + 1) == MarkerStep(MarkerRun(s, d), s[d]);
      RunStays(s, d + 1, k1, AfterSpace);
      st := AfterSpace;
    } else {
      st := InDigits;
    }
  }

  /** Once the automaton is dead it stays dead. */
  lemma DeadStays(s: string, a: nat)
    requires a <= |s| && MarkerRun(s, a) == Dead
    ensures forall k :: a <= k <= |s| ==> MarkerRun(s, k) == Dead
  {
    forall k | a <= k <= |s| ensures MarkerRun(s, k) == Dead {
      RunStays(s, a, k, Dead);
    }
  }

  /** `re.sub(r"^\d+\s*[.-]?\s*", "", s)`: removes the longest prefix the
      pattern matches, if `s` starts with a digit; at most one such prefix
      is removed, since the pattern is anchored. */
  function StripListNumber(s: string): (r: string)
    ensures |r| <= |s| && r == s[|s| - |r|..]
  {
    s[ListMarkerLen(s)..]
  }

  /** Nothing is removed unless `s` starts with a digit; then what is
      removed is a list marker, and no longer prefix of `s` is one. */
  lemma StripListNumberSpec(s: string)
    ensures (s == [] || !IsDigit(s[0])) ==> StripListNumber(s) == s
    ensures s != [] && IsDigit(s[0]) ==> IsListMarker(s[..|s| - |StripListNumber(s)|])
    ensures forall k :: |s| - |StripListNumber(s)| < k <= |s| ==> !IsListMarker(s[..k])
  {
    ListMarkerLongest(s);
  }

  // ---------------------------------------------------------------------
  // Character clean-up: re.sub(r"[^\w\sÁÉÍÓÚÑáéíóúñ'-]", "", name)
  // ---------------------------------------------------------------------

  /** Characters the clean-up keeps: word characters, whitespace, the
      accented capitals and small letters, apostrophe and hyphen. */
  predicate KeptInName(c: char) {
    IsWordChar(c) || IsSpace(c) || IsAccentedUpperNoUmlaut(c) || IsAccentedLowerNoUmlaut(c) || c == '\'' || c == '-'
  }

  /** Deletes every character the clean-up does not keep, and nothing else. */
  function CleanName(s: string): (r: string)
    ensures forall c <- r :: KeptInName(c)
    ensures forall c :: KeptInName(c) ==> multiset(r)[c] == multiset(s)[c]
    ensures IsSubseq(r, s)
  {
    if s == [] then []
    else
      var rest := CleanName(s[1..]);
      assert s == [s[0]] + s[1..];
      if KeptInName(s[0]) then
        assert ([s[0]] + rest)[1..] == rest;
        [s[0]] + rest
      else
        SubseqSkip(rest, s[1..], s);
        rest
  }

  /** The name candidate built from the text before the identifier: strip,
      drop a leading list number, delete disallowed characters, strip. */
  function CandidateName(before: string): (name: string)
    ensures IsStripped(name)
  {
    Strip(CleanName(StripListNumber(Strip(before))))
  }

  /** The candidate holds only allowed characters. */
  lemma CandidateNameChars(before: string)
    ensures forall c <- CandidateName(before) :: KeptInName(c)
  {
    var c := CleanName(StripListNumber(Strip(before)));
    var name := Strip(c);
    StripSpec(c);
    forall ch <- name ensures KeptInName(ch) {
      var k :| 0 <= k < |name| && name[k] == ch;
      assert c[LeadingSpaces(c) + k] == ch;
    }
  }

  /** Every character of the candidate is taken, in order, from the text
      before the identifier. */
  lemma CandidateNameFromText(before: string)
    ensures IsSubseq(CandidateName(before), before)
  {
    var b := StripListNumber(Strip(before));
    var c := CleanName(b);
    UnnumberedIsSubseq(before);
    StripIsSubseq(c);
    SubseqTransitive(c, b, before);
    SubseqTransitive(Strip(c), c, before);
  }

  lemma UnnumberedIsSubseq(before: string)
    ensures IsSubseq(StripListNumber(Strip(before)), before)
  {
    var a := Strip(before);
    var b := StripListNumber(a);
    StripIsSubseq(before);
    SuffixIsSubseq(a, |a| - |b|);
    SubseqTransitive(b, a, before);
  }

  lemma StripIsSubseq(s: string)
    ensures IsSubseq(Strip(s), s)
  {
    StripSpec(s);
    var i := LeadingSpaces(s);
    SliceIsSubseq(s, i, i + |Strip(s)|);
  }

  lemma SuffixIsSubseq(s: string, i: nat)
    requires i <= |s|
    ensures IsSubseq(s[i..], s)
  {
    SliceIsSubseq(s, i, |s|);
    assert s[i..|s|] == s[i..];
  }

  /** Some ignored keyword occurs in the upper-cased name. */
  predicate HasIgnoredKeyword(name: string) {
    exists k <- IgnoreKeywords :: Contains(UpperStr(name), k)
  }

  /** The acceptance test: at least two words, and no ignored keyword. */
  predicate NameAccepted(name: string) {
    |Words(name)| >= 2 && !HasIgnoredKeyword(name)
  }

  // ---------------------------------------------------------------------
  // One line
  // ---------------------------------------------------------------------

  /** What one trimmed line contributes. The identifier is the last match
      of the left-to-right `\d{6,10}` scan; the name is drawn from the text
      strictly before it and must pass the acceptance test. */
  function ExtractLine(line: string): Option<Record> {
    match LastIdChunk(line)
    case None => None
    case Some(c) =>
      var name := CandidateName(line[..c.start]);
      if NameAccepted(name) then Some(Record(name, line[c.start..c.end])) else None
  }

  /** A line with no six digits in a row contributes nothing. Otherwise
      the identifier is the last `\d{6,10}` match, 6 to 10 digits, with no
      further six-digit run after it; the line yields a record exactly when
      the cleaned text before the identifier holds whitespace (two words or
      more) and no ignored keyword, and that cleaned text is the name: taken,
      in order, from characters before the identifier, trimmed, and made of
      allowed characters only. */
  lemma ExtractLineSpec(line: string)
    ensures NoLongRunIn(line, 0, |line|) ==> ExtractLine(line).None?
    ensures ExtractLine(line).Some? ==> LastIdChunk(line).Some?
    ensures ExtractLine(line).Some? ==>
      var r := ExtractLine(line).value;
      var c := LastIdChunk(line).value;
      && r.cc == line[c.start..c.end]
      && IsIdNumber(r.cc)
      && NoLongRunIn(line, c.end, |line|)
      && IsSubseq(r.name, line[..c.start])
    ensures ExtractLine(line).Some? ==>
      var r := ExtractLine(line).value;
      && IsStripped(r.name)
      && HasSpace(r.name)
      && !HasIgnoredKeyword(r.name)
      && (forall ch <- r.name :: KeptInName(ch))
    ensures LastIdChunk(line).Some? ==>
      var name := CandidateName(line[..LastIdChunk(line).value.start]);
      && (ExtractLine(line).Some? <==> HasSpace(name) && !HasIgnoredKeyword(name))
      && (ExtractLine(line).Some? ==> ExtractLine(line).value.name == name)
  {
    match LastIdChunk(line)
    case None =>
    case Some(c) =>
      var name := CandidateName(line[..c.start]);
      CandidateNameChars(line[..c.start]);
      CandidateNameFromText(line[..c.start]);
      TwoWordsIffInnerSpace(name);
      if NameAccepted(name) {
        ChunkIsIdNumber(line, c);
      }
  }

  /** Every accepted name is free of the em dash and of ';'. */
  lemma AcceptedNameChars(name: string)
    requires forall ch <- name :: KeptInName(ch)
    ensures EmDash !in name && ';' !in name
  {
  }

  // ---------------------------------------------------------------------
  // All lines of a text: extraer_nombre_cc
  // ---------------------------------------------------------------------

  /** What one line adds to the output: "name — cc", or nothing. */
  function LineResult(line: string): Option<string> {
    match ExtractLine(line)
    case None => None
    case Some(r) => Some(RecordText(r))
  }

  /** The strings the lines contribute, in line order. */
  function ExtractAll(lines: seq<string>): seq<string> {
    Collect(LineResult, lines)
  }

  /** `extraer_nombre_cc(texto)` as a function of the text. */
  function ExtractText(texto: string): seq<string> {
    ExtractAll(Lines(texto))
  }

  /** `extraer_nombre_cc`: one pass over the trimmed non-blank lines,
      appending "name — cc" for each line that yields a record. */
  method ExtraerNombreCc(texto: string) returns (resultados: seq<string>)
    ensures resultados == ExtractText(texto)
  {
    resultados := [];
    var lineas := Lines(texto);
    for i := 0 to |lineas|
      invariant resultados == Collect(LineResult, lineas[..i])
    {
      var linea := lineas[i];
      CollectStep(LineResult, lineas, i);
      ghost var before := resultados;
      var matches := LastIdChunk(linea);
      if matches.Some? {
        var m := matches.value;
        var cc := linea[m.start..m.end];
        var potentialName := CandidateName(linea[..m.start]);
        if NameAccepted(potentialName) {
          assert ExtractLine(linea) == Some(Record(potentialName, cc));
          resultados := resultados + [RecordText(Record(potentialName, cc))];
        } else {
          assert ExtractLine(linea) == None;
        }
      } else {
        assert ExtractLine(linea) == None;
      }
      assert resultados == before + Present(LineResult(linea));
    }
    assert lineas[..|lineas|] == lineas;
  }

  /** Extraction distributes over concatenation of the line list: lines are
      handled independently and the output keeps their order. */
  lemma ExtractAllAppend(a: seq<string>, b: seq<string>)
    ensures ExtractAll(a + b) == ExtractAll(a) + ExtractAll(b)
  {
    CollectAppend(LineResult, a, b);
  }

  /** A string is output exactly when some line yields it. */
  lemma ExtractAllMembers(lines: seq<string>, x: string)
    ensures x in ExtractAll(lines) <==> exists i :: 0 <= i < |lines| && LineResult(lines[i]) == Some(x)
  {
    CollectMembers(LineResult, lines, x);
  }

  /** Every output string has the form "name — cc" and reads back into an
      accepted name and a 6-10 digit identifier; none holds ';'. */
  lemma ExtractAllWellFormed(lines: seq<string>)
    ensures forall x <- ExtractAll(lines) ::
      && ParseRecordText(x).Some?
      && x == RecordText(ParseRecordText(x).value)
      && IsIdNumber(ParseRecordText(x).value.cc)
      && IsStripped(ParseRecordText(x).value.name)
      && HasSpace(ParseRecordText(x).value.name)
      && !HasIgnoredKeyword(ParseRecordText(x).value.name)
    ensures forall x <- ExtractAll(lines) :: ';' !in x && EmDash in x
  {
    forall x <- ExtractAll(lines)
      ensures
        && ParseRecordText(x).Some?
        && x == RecordText(ParseRecordText(x).value)
        && IsIdNumber(ParseRecordText(x).value.cc)
        && IsStripped(ParseRecordText(x).value.name)
        && HasSpace(ParseRecordText(x).value.name)
        && !HasIgnoredKeyword(ParseRecordText(x).value.name)
      ensures ';' !in x && EmDash in x
    {
      ExtractAllMembers(lines, x);
      var i :| 0 <= i < |lines| && LineResult(lines[i]) == Some(x);
      ExtractLineSpec(lines[i]);
      RecordTextWellFormed(ExtractLine(lines[i]).value);
    }
  }

  /** The output string of an accepted record reads back into it, holds
      the em dash and holds no ';'. */
  lemma RecordTextWellFormed(r: Record)
    requires IsIdNumber(r.cc) && forall ch <- r.name :: KeptInName(ch)
    ensures ParseRecordText(RecordText(r)) == Some(r)
    ensures ';' !in RecordText(r) && EmDash in RecordText(r)
  {
    AcceptedNameChars(r.name);
    RecordTextRoundTrip(r);
    assert RecordText(r)[|r.name| + 1] == EmDash;
    assert ';' !in r.cc by {
      forall k | 0 <= k < |r.cc| ensures r.cc[k] != ';' {
        assert IsDigit(r.cc[k]);
      }
    }
    assert ';' !in [' ', EmDash, ' '];
  }

  /** A text none of whose lines has six digits in a row yields nothing. */
  lemma ExtractAllWithoutIds(lines: seq<string>)
    requires forall l <- lines :: NoLongRunIn(l, 0, |l|)
    ensures ExtractAll(lines) == []
  {
    if ExtractAll(lines) != [] {
      var x := ExtractAll(lines)[0];
      ExtractAllMembers(lines, x);
      var i :| 0 <= i < |lines| && LineResult(lines[i]) == Some(x);
      assert lines[i] in lines;
      ExtractLineSpec(lines[i]);
    }
  }

  /** Empty or whitespace-only text has no lines, hence no results. */
  lemma BlankTextYieldsNothing(texto: string)
    requires AllSpace(texto)
    ensures Lines(texto) == [] && ExtractText(texto) == []
  {
    var parts := SplitChar(texto, '\n');
    SplitCharPiecesFromText(texto, '\n');
    forall p <- parts ensures Strip(p) == [] {
      forall k | 0 <= k < |p| ensures IsSpace(p[k]) {
        assert p[k] in p;
        var i :| 0 <= i < |texto| && texto[i] == p[k];
      }
      StripSpec(p);
    }
    AllBlankStripsToNothing(parts);
  }

  lemma {:induction false} AllBlankStripsToNothing(parts: seq<string>)
    requires forall p <- parts :: Strip(p) == []
    ensures StripNonBlank(parts) == []
  {
    if parts != [] {
      assert forall p <- parts[..|parts| - 1] :: p in parts;
      AllBlankStripsToNothing(parts[..|parts| - 1]);
    }
  }

  // ---------------------------------------------------------------------
  // One document: procesar_pdf
  // ---------------------------------------------------------------------

  /** What one page contributes: its extracted strings, or nothing when
      its OCR response carried an error. */
  function PageOutput(page: PageOutcome): seq<string> {
    match page
    case PageText(t) => ExtractText(t)
    case PageError => []
  }

  /** The strings extracted from every recognised page, page after page. */
  function PageResults(pages: seq<PageOutcome>): seq<string> {
    FlatMap(PageOutput, pages)
  }

  /** `"No reconocido"` when nothing was found, otherwise
      `"; ".join(sorted(set(results)))`. */
  function Summary(results: seq<string>): string {
    if results == [] then NoReconocido else Join(SortedDistinct(results), "; ")
  }

  /** The value `procesar_pdf` returns: the summary of the page results, or
      "Error de conversión: " and the first line of the exception message.
      `None` when that message is empty: `splitlines()[0]` then raises
      `IndexError` inside the handler and the exception escapes. */
  function ProcesarPdfResult(doc: DocumentInput): Option<string> {
    match doc
    case Raised(msg) =>
      (match FirstLine(msg)
       case None => None
       case Some(l) => Some(ConversionErrorPrefix + l))
    case Pages(pages) => Some(Summary(PageResults(pages)))
  }

  /** `procesar_pdf`: accumulates the page results with `extend`, then
      aggregates them. */
  method ProcesarPdf(doc: DocumentInput) returns (resultado: Option<string>)
    ensures resultado == ProcesarPdfResult(doc)
  {
    match doc {
      case Raised(msg) =>
        var first := FirstLine(msg);
        if first.None? {
          return None;
        }
        return Some(ConversionErrorPrefix + first.value);
      case Pages(pages) =>
        var todos: seq<string> := [];
        for i := 0 to |pages|
          invariant todos == FlatMap(PageOutput, pages[..i])
        {
          FlatMapStep(PageOutput, pages, i);
          match pages[i] {
            case PageError =>
            case PageText(t) =>
              var resultadosPagina := ExtraerNombreCc(t);
              if resultadosPagina != [] {
                todos := todos + resultadosPagina;
              }
          }
        }
        assert pages[..|pages|] == pages;
        if todos == [] {
          return Some(NoReconocido);
        }
        return Some(Join(SortedDistinct(todos), "; "));
    }
  }

  /** A string is among the page results exactly when some recognised page
      yields it. */
  lemma PageResultsMembers(pages: seq<PageOutcome>, x: string)
    ensures x in PageResults(pages) <==>
      exists i :: 0 <= i < |pages| && pages[i].PageText? && x in ExtractText(pages[i].text)
  {
    FlatMapMembers(PageOutput, pages, x);
  }

  /** Every page result is well formed, as the line results are. */
  lemma PageResultsWellFormed(pages: seq<PageOutcome>)
    ensures forall x <- PageResults(pages) :: ';' !in x && EmDash in x
  {
    forall x <- PageResults(pages) ensures ';' !in x && EmDash in x {
      PageResultsMembers(pages, x);
      var i :| 0 <= i < |pages| && pages[i].PageText? && x in ExtractText(pages[i].text);
      ExtractAllWellFormed(Lines(pages[i].text));
    }
  }

  /** The aggregation of a document's results: the sentinel exactly when
      nothing was found; otherwise the "; "-separated pieces are strictly
      ascending (so pairwise distinct) and are exactly the page results. */
  lemma SummaryProperties(pages: seq<PageOutcome>)
    ensures Summary(PageResults(pages)) == NoReconocido <==> PageResults(pages) == []
    ensures PageResults(pages) != [] ==>
      var pieces := SplitOn(Summary(PageResults(pages)), "; ");
      && StrictlyAscending(pieces)
      && forall x :: x in pieces <==> exists i :: 0 <= i < |pages| && pages[i].PageText? && x in ExtractText(pages[i].text)
  {
    var results := PageResults(pages);
    PageResultsWellFormed(pages);
    SummaryOfResults(results);
    forall x ensures x in results <==> exists i :: 0 <= i < |pages| && pages[i].PageText? && x in ExtractText(pages[i].text) {
      PageResultsMembers(pages, x);
    }
  }

  /** The summary of well-formed results splits back into the distinct
      results in ascending order, and is the sentinel only when empty. */
  lemma SummaryOfResults(results: seq<string>)
    requires forall x <- results :: ';' !in x && EmDash in x
    ensures Summary(results) == NoReconocido <==> results == []
    ensures results != [] ==>
      var pieces := SplitOn(Summary(results), "; ");
      && StrictlyAscending(pieces)
      && forall x :: x in pieces <==> x in results
  {
    if results != [] {
      var sorted := SortedDistinct(results);
      assert sorted[0] in results;
      forall p <- sorted ensures "; "[0] !in p {
      }
      SplitOnJoin(sorted, "; ");
      JoinStartsWithFirst(sorted, "; ");
      var k :| 0 <= k < |sorted[0]| && sorted[0][k] == EmDash;
      assert Summary(results)[k] == EmDash;
      assert EmDash !in NoReconocido;
    }
  }

  // ---------------------------------------------------------------------
  // One archive: process_zip_file
  // ---------------------------------------------------------------------

  /** The status of a result string: "Error" if it mentions "Error", else
      "Revisar" if it mentions "No reconocido", else "OK". */
  function WorkerStatus(resultado: string): (estado: string)
    ensures estado == "Error" || estado == "Revisar" || estado == "OK"
  {
    if Contains(resultado, "Error") then "Error"
    else if Contains(resultado, NoReconocido) then "Revisar"
    else "OK"
  }

  /** What the status means for a document. A conversion failure is
      "Error"; a document without results is "Revisar"; otherwise the
      status depends on the extracted strings themselves: a name that
      happens to contain "Error" or "No reconocido" turns the status of a
      successful document into "Error" or "Revisar". */
  lemma WorkerStatusOfDocument(doc: DocumentInput)
    requires ProcesarPdfResult(doc).Some?
    ensures doc.Raised? ==> WorkerStatus(ProcesarPdfResult(doc).value) == "Error"
    ensures doc.Pages? && PageResults(doc.pages) == [] ==> WorkerStatus(ProcesarPdfResult(doc).value) == "Revisar"
    ensures doc.Pages? && PageResults(doc.pages) != [] ==>
      var results := PageResults(doc.pages);
      WorkerStatus(ProcesarPdfResult(doc).value) ==
        if exists x <- results :: Contains(x, "Error") then "Error"
        else if exists x <- results :: Contains(x, NoReconocido) then "Revisar"
        else "OK"
  {
    match doc
    case Raised(msg) =>
      ConversionErrorStatus(FirstLine(msg).value);
    case Pages(pages) =>
      var results := PageResults(pages);
      if results == [] {
        SentinelStatus();
      } else {
        JoinedStatus(results);
      }
  }

  /** A conversion-error message is classified "Error". */
  lemma ConversionErrorStatus(line: string)
    ensures WorkerStatus(ConversionErrorPrefix + line) == "Error"
  {
    assert StartsWith(ConversionErrorPrefix + line, "Error");
  }

  /** The sentinel "No reconocido" is classified "Revisar". */
  lemma SentinelStatus()
    ensures WorkerStatus(NoReconocido) == "Revisar"
  {
    assert StartsWith(NoReconocido, NoReconocido);
    ContainsIff(NoReconocido, "Error");
    forall i ensures !OccursAt(NoReconocido, "Error", i) {
      if 0 <= i && i + 5 <= |NoReconocido| {
        assert NoReconocido[i..i + 5][0] == NoReconocido[i];
      }
    }
  }

  /** The status of joined results is decided by the results themselves. */
  lemma JoinedStatus(results: seq<string>)
    requires results != []
    ensures WorkerStatus(Join(SortedDistinct(results), "; ")) ==
      if exists x <- results :: Contains(x, "Error") then "Error"
      else if exists x <- results :: Contains(x, NoReconocido) then "Revisar"
      else "OK"
  {
    var sorted := SortedDistinct(results);
    JoinedContains(sorted, "Error");
    JoinedContains(sorted, NoReconocido);
  }

  /** How a job ends: the archive could not be extracted (the job returns
      early), an exception escaped while processing a PDF, or every PDF was
      processed. */
  datatype JobEnd = ExtractFailed | Crashed | Completed

  /** The row stored for one PDF, given what `procesar_pdf` returned. */
  function WorkerRecord(f: PdfFile, resultado: string): (row: Registro)
    ensures row.estado == WorkerStatus(resultado) && row.resultado == resultado
    ensures (row.raiz, row.sub) == FolderLabels(f.parts)
  {
    var labels := FolderLabels(f.parts);
    Registro(labels.0, labels.1, FileName(f.parts), WorkerStatus(resultado), resultado, RelativePath(f.parts), f.size)
  }

  /** `process_zip_file`: one row per PDF, handed to the store in order.
      An archive that cannot be extracted adds nothing; an exception that
      escapes `procesar_pdf` ends the job, keeping the rows already added. */
  method ProcessZipFile(archive: Archive) returns (added: seq<Registro>, end: JobEnd)
    ensures end == ExtractFailed <==> archive.Corrupt?
    ensures archive.Corrupt? ==> added == []
    ensures archive.Extracted? ==> |added| <= |archive.files|
    ensures archive.Extracted? ==> forall i :: 0 <= i < |added| ==>
      && ProcesarPdfResult(archive.files[i].doc).Some?
      && added[i] == WorkerRecord(archive.files[i], ProcesarPdfResult(archive.files[i].doc).value)
    ensures end == Completed ==> |added| == |archive.files|
    ensures end == Crashed ==> |added| < |archive.files| && ProcesarPdfResult(archive.files[|added|].doc).None?
  {
    added := [];
    if archive.Corrupt? {
      return added, ExtractFailed;
    }
    var pdfFiles := archive.files;
    for i := 0 to |pdfFiles|
      invariant |added| == i
      invariant forall j :: 0 <= j < i ==>
        && ProcesarPdfResult(pdfFiles[j].doc).Some?
        && added[j] == WorkerRecord(pdfFiles[j], ProcesarPdfResult(pdfFiles[j].doc).value)
    {
      var fp := pdfFiles[i];
      var labels := FolderLabels(fp.parts);
      var resultado := ProcesarPdf(fp.doc);
      if resultado.None? {
        return added, Crashed;
      }
      var estado := "OK";
      if Contains(resultado.value, "Error") {
        estado := "Error";
      } else if Contains(resultado.value, NoReconocido) {
        estado := "Revisar";
      }
      var record := Registro(labels.0, labels.1, FileName(fp.parts), estado, resultado.value, RelativePath(fp.parts), fp.size);
      added := added + [record];
    }
    return added, Completed;
  }
}
