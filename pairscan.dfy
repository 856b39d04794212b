/** The `/upload` route of App.py: for every PDF and every page whose
    recognition did not report an error, the trimmed non-blank lines of the
    page are scanned two at a time; a line with a letter followed by a line
    that mentions "cc" or "c-c" (in any case) gives an attendance record
    when the second line holds six or more digits in a row. */
module PairScan {
  import opened Chars
  import opened Optional
  import opened PyStr
  import opened DigitRuns
  import opened Seqs
  import opened Documents

  /** One entry of `resultados`. */
  datatype Asistencia = Asistencia(nombre: string, cedula: string, archivo: string, pagina: nat)

  /** One PDF of the archive: its base name and what recognition returned
      for each page, in page order; a page whose response carries an error
      message is a `PageError` and is skipped. */
  datatype ScannedPdf = ScannedPdf(name: string, pages: seq<PageOutcome>)

  // ---------------------------------------------------------------------
  // The two line tests
  // ---------------------------------------------------------------------

  /** The class `[A-Za-zÁÉÍÓÚÜÑáéíóúüñ]`. */
  predicate IsLetter(c: char) {
    IsAsciiUpper(c) || IsAsciiLower(c) || IsAccentedUpper(c) || IsAccentedLower(c)
  }

  /** `re.search(r'[A-Za-zÁÉÍÓÚÜÑáéíóúüñ]', line)` succeeds. */
  predicate HasLetter(line: string) {
    exists k :: 0 <= k < |line| && IsLetter(line[k])
  }

  /** `c` or `C`. */
  predicate IsC(c: char) {
    c == 'c' || c == 'C'
  }

  /** One of the alternatives `cc`, `C-C`, `CC` matches at `k`, ignoring
      case. */
  predicate CcAt(line: string, k: int) {
    && 0 <= k
    && k + 2 <= |line|
    && IsC(line[k])
    && (IsC(line[k + 1]) || (k + 3 <= |line| && line[k + 1] == '-' && IsC(line[k + 2])))
  }

  /** `re.search(r'(cc|C-C|CC)', line, re.IGNORECASE)` succeeds. */
  predicate HasCcMarker(line: string) {
    exists k :: 0 <= k < |line| && CcAt(line, k)
  }

  /** The pair test on lines `i` and `i + 1`. */
  predicate PairTest(lines: seq<string>, i: nat)
    requires i + 1 < |lines|
  {
    HasLetter(lines[i]) && HasCcMarker(lines[i + 1])
  }

  /** `m.group(1)` for `m = re.search(r'(\d{6,})', line)`. */
  function Cedula(line: string): string
    requires FirstLongRun(line).Some?
  {
    var r := FirstLongRun(line).value;
    line[r.start..r.end]
  }

  /** The identifier is the first run of six or more digits, taken in
      full: no digit sits just before or just after it, and no earlier
      position starts six digits in a row. */
  lemma CedulaIsFirstRun(line: string)
    requires FirstLongRun(line).Some?
    ensures var r := FirstLongRun(line).value;
      && Cedula(line) == line[r.start..r.end]
      && |Cedula(line)| >= 6
      && (forall k :: 0 <= k < |Cedula(line)| ==> IsDigit(Cedula(line)[k]))
      && (r.start == 0 || !IsDigit(line[r.start - 1]))
      && (r.end == |line| || !IsDigit(line[r.end]))
      && NoLongRunIn(line, 0, r.start)
  {
    FirstLongRunSpec(line);
  }

  // ---------------------------------------------------------------------
  // The scan of one page
  // ---------------------------------------------------------------------

  /** The records the `while` loop adds once it has reached index `i`. */
  function ScanFrom(lines: seq<string>, i: nat, archivo: string, pagina: nat): seq<Asistencia>
    requires i <= |lines|
    decreases |lines| - i
  {
    if i + 1 >= |lines| then []
    else if PairTest(lines, i) then
      var m := FirstLongRun(lines[i + 1]);
      var found := if m.Some? then [Asistencia(lines[i], Cedula(lines[i + 1]), archivo, pagina)] else [];
      found + ScanFrom(lines, i + 2, archivo, pagina)
    else ScanFrom(lines, i + 1, archivo, pagina)
  }

  /** The `while` loop of the route, for the lines `lineas` of page `num`
      of the file `archivo`; it appends to `resultados`. */
  method ScanLines(lineas: seq<string>, archivo: string, num: nat, resultados: seq<Asistencia>)
      returns (out: seq<Asistencia>)
    ensures out == resultados + ScanFrom(lineas, 0, archivo, num)
  {
    out := resultados;
    var i := 0;
    while i < |lineas| - 1
      invariant i <= |lineas|
      invariant out + ScanFrom(lineas, i, archivo, num) == resultados + ScanFrom(lineas, 0, archivo, num)
      decreases |lineas| - i
    {
      if HasLetter(lineas[i]) && HasCcMarker(lineas[i + 1]) {
        var m := FirstLongRun(lineas[i + 1]);
        if m.Some? {
          out := out + [Asistencia(lineas[i], lineas[i + 1][m.value.start..m.value.end], archivo, num)];
        }
        i := i + 2;
      } else {
        i := i + 1;
      }
    }
  }

  /** The line pairs that produced a record: `lines[j]` with a letter,
      `lines[j + 1]` with the marker and a run of six digits. */
  predicate IsRecordPair(lines: seq<string>, j: nat) {
    j + 1 < |lines| && PairTest(lines, j) && FirstLongRun(lines[j + 1]).Some?
  }

  /** The indices of the name lines of the records `ScanFrom` yields. */
  ghost function NameLines(lines: seq<string>, i: nat): seq<nat>
    requires i <= |lines|
    decreases |lines| - i
  {
    if i + 1 >= |lines| then []
    else if PairTest(lines, i) then
      (if FirstLongRun(lines[i + 1]).Some? then [i] else []) + NameLines(lines, i + 2)
    else NameLines(lines, i + 1)
  }

  /** Each record comes from one line pair, read in line order: the name is
      the whole (trimmed) line `j`, the identifier the first long digit run
      of line `j + 1`, the last line never serves as a name, and two records
      never share a line, since a consumed pair is skipped over. */
  lemma {:induction false} ScanFromPairs(lines: seq<string>, i: nat, archivo: string, pagina: nat)
    requires i <= |lines|
    ensures var rs := ScanFrom(lines, i, archivo, pagina);
      var js := NameLines(lines, i);
      && |js| == |rs|
      && (forall k :: 0 <= k < |js| ==>
            && i <= js[k]
            && IsRecordPair(lines, js[k])
            && rs[k] == Asistencia(lines[js[k]], Cedula(lines[js[k] + 1]), archivo, pagina))
      && (forall k :: 0 <= k < |js| - 1 ==> js[k] + 2 <= js[k + 1])
    decreases |lines| - i
  {
    if i + 1 < |lines| {
      if PairTest(lines, i) {
        ScanFromPairs(lines, i + 2, archivo, pagina);
      } else {
        ScanFromPairs(lines, i + 1, archivo, pagina);
      }
    }
  }

  /** From index `i`, at most one record per two lines: a page of `n` lines
      gives at most `n / 2` records. */
  lemma {:induction false} ScanFromCount(lines: seq<string>, i: nat, archivo: string, pagina: nat)
    requires i <= |lines|
    ensures |ScanFrom(lines, i, archivo, pagina)| <= (|lines| - i) / 2
    decreases |lines| - i
  {
    if i + 1 < |lines| {
      if PairTest(lines, i) {
        ScanFromCount(lines, i + 2, archivo, pagina);
      } else {
        ScanFromCount(lines, i + 1, archivo, pagina);
      }
    }
  }

  /** A page with fewer than two lines gives no record. */
  lemma FewLinesNoRecords(lines: seq<string>, archivo: string, pagina: nat)
    requires |lines| < 2
    ensures ScanFrom(lines, 0, archivo, pagina) == []
  {
  }

  /** Two lines with a letter and a marker but no long digit run still
      consume both lines: the scan resumes after them. */
  lemma PairWithoutDigitsSkipped(lines: seq<string>, i: nat, archivo: string, pagina: nat)
    requires i + 1 < |lines| && PairTest(lines, i) && FirstLongRun(lines[i + 1]).None?
    ensures ScanFrom(lines, i, archivo, pagina) == ScanFrom(lines, i + 2, archivo, pagina)
  {
  }

  // ---------------------------------------------------------------------
  // Pages and files
  // ---------------------------------------------------------------------

  /** The records of one page; a page whose response has an error message
      gives none. */
  function PageRecords(resp: PageOutcome, archivo: string, num: nat): seq<Asistencia> {
    if resp.PageError? then [] else ScanFrom(Lines(resp.text), 0, archivo, num)
  }

  /** The records of the first `n` pages of `pdf`, pages numbered from 1. */
  function PdfRecords(pdf: ScannedPdf, n: nat): seq<Asistencia>
    requires n <= |pdf.pages|
  {
    if n == 0 then [] else PdfRecords(pdf, n - 1) + PageRecords(pdf.pages[n - 1], pdf.name, n)
  }

  /** The records of the first `m` files. */
  function AllRecords(pdfs: seq<ScannedPdf>, m: nat): seq<Asistencia>
    requires m <= |pdfs|
  {
    if m == 0 then [] else AllRecords(pdfs, m - 1) + PdfRecords(pdfs[m - 1], |pdfs[m - 1].pages|)
  }

  /** The body of the page loop: a page with an error message is skipped,
      the lines of the others are scanned. */
  method ScanPage(resp: PageOutcome, archivo: string, num: nat, resultados: seq<Asistencia>)
      returns (out: seq<Asistencia>)
    ensures out == resultados + PageRecords(resp, archivo, num)
  {
    out := resultados;
    if resp.PageText? {
      var lineas := Lines(resp.text);
      out := ScanLines(lineas, archivo, num, out);
    }
  }

  /** The loop over the pages of one PDF: `enumerate(paginas, start=1)`
      numbers the pages from 1. */
  method ScanPdf(pdf: ScannedPdf, resultados: seq<Asistencia>) returns (out: seq<Asistencia>)
    ensures out == resultados + PdfRecords(pdf, |pdf.pages|)
  {
    out := resultados;
    for num := 1 to |pdf.pages| + 1
      invariant out == resultados + PdfRecords(pdf, num - 1)
    {
      ghost var page := PageRecords(pdf.pages[num - 1], pdf.name, num);
      AppendAssoc(resultados, PdfRecords(pdf, num - 1), page);
      out := ScanPage(pdf.pages[num - 1], pdf.name, num, out);
    }
  }

  /** The loop over the extracted PDFs. */
  method ExtractAsistencias(pdfs: seq<ScannedPdf>) returns (resultados: seq<Asistencia>)
    ensures resultados == AllRecords(pdfs, |pdfs|)
  {
    resultados := [];
    for p := 0 to |pdfs|
      invariant resultados == AllRecords(pdfs, p)
    {
      resultados := ScanPdf(pdfs[p], resultados);
    }
  }

  /** Every record of `rs` names file `archivo` and page `pagina`. */
  predicate Labelled(rs: seq<Asistencia>, archivo: string, pagina: nat) {
    forall k :: 0 <= k < |rs| ==> rs[k].archivo == archivo && rs[k].pagina == pagina
  }

  /** Every record of a page carries that page's file name and number. */
  lemma {:induction false} ScanFromLabels(lines: seq<string>, i: nat, archivo: string, pagina: nat)
    requires i <= |lines|
    ensures Labelled(ScanFrom(lines, i, archivo, pagina), archivo, pagina)
    decreases |lines| - i
  {
    if i + 1 < |lines| {
      if PairTest(lines, i) {
        ScanFromLabels(lines, i + 2, archivo, pagina);
        var rest := ScanFrom(lines, i + 2, archivo, pagina);
        var found := if FirstLongRun(lines[i + 1]).Some?
          then [Asistencia(lines[i], Cedula(lines[i + 1]), archivo, pagina)] else [];
        assert ScanFrom(lines, i, archivo, pagina) == found + rest;
        LabelledAppend(found, rest, archivo, pagina);
      } else {
        ScanFromLabels(lines, i + 1, archivo, pagina);
      }
    }
  }

  lemma LabelledAppend(a: seq<Asistencia>, b: seq<Asistencia>, archivo: string, pagina: nat)
    requires Labelled(a, archivo, pagina) && Labelled(b, archivo, pagina)
    ensures Labelled(a + b, archivo, pagina)
  {
    var rs := a + b;
    forall k | 0 <= k < |rs| ensures rs[k].archivo == archivo && rs[k].pagina == pagina {
      if k < |a| {
        assert rs[k] == a[k];
      } else {
        assert rs[k] == b[k - |a|];
      }
    }
  }

  /** Every record of a page carries its file name and number, and the
      page had no error message. */
  lemma PageRecordsLabels(resp: PageOutcome, archivo: string, num: nat)
    ensures Labelled(PageRecords(resp, archivo, num), archivo, num)
    ensures PageRecords(resp, archivo, num) != [] ==> resp.PageText?
  {
    if resp.PageText? {
      assert PageRecords(resp, archivo, num) == ScanFrom(Lines(resp.text), 0, archivo, num);
      ScanFromLabels(Lines(resp.text), 0, archivo, num);
    }
  }

  /** The record names `pdf` and one of its pages, which had no error
      message. */
  predicate FromPdf(r: Asistencia, pdf: ScannedPdf) {
    && r.archivo == pdf.name
    && 1 <= r.pagina <= |pdf.pages|
    && pdf.pages[r.pagina - 1].PageText?
  }

  /** Each record names `pdf` and a page from 1 to `n` that had no error
      message. */
  predicate FromPagesOf(rs: seq<Asistencia>, pdf: ScannedPdf, n: nat) {
    forall k :: 0 <= k < |rs| ==> FromPdf(rs[k], pdf) && rs[k].pagina <= n
  }

  /** The records of a file name that file and carry page numbers from 1
      to the number of pages read, each from a page without error
      message. */
  lemma {:induction false} PdfRecordsPages(pdf: ScannedPdf, n: nat)
    requires n <= |pdf.pages|
    ensures FromPagesOf(PdfRecords(pdf, n), pdf, n)
  {
    if n > 0 {
      PdfRecordsPages(pdf, n - 1);
      PageRecordsLabels(pdf.pages[n - 1], pdf.name, n);
      AppendPageLabels(pdf, n, PdfRecords(pdf, n - 1), PageRecords(pdf.pages[n - 1], pdf.name, n));
    }
  }

  /** The step of `PdfRecordsPages`: page `n`'s records after those of the
      pages before it. */
  lemma AppendPageLabels(pdf: ScannedPdf, n: nat, init: seq<Asistencia>, last: seq<Asistencia>)
    requires 1 <= n <= |pdf.pages|
    requires FromPagesOf(init, pdf, n - 1)
    requires Labelled(last, pdf.name, n)
    requires last != [] ==> pdf.pages[n - 1].PageText?
    ensures FromPagesOf(init + last, pdf, n)
  {
    var rs := init + last;
    forall k | 0 <= k < |rs| ensures FromPdf(rs[k], pdf) && rs[k].pagina <= n {
      if k < |init| {
        assert rs[k] == init[k];
      } else {
        assert rs[k] == last[k - |init|];
      }
    }
  }

  /** Page numbers never decrease along `rs`. */
  predicate PagesInOrder(rs: seq<Asistencia>) {
    forall a, b :: 0 <= a < b < |rs| ==> rs[a].pagina <= rs[b].pagina
  }

  /** The records of a file come in page order. */
  lemma {:induction false} PdfRecordsOrdered(pdf: ScannedPdf, n: nat)
    requires n <= |pdf.pages|
    ensures PagesInOrder(PdfRecords(pdf, n))
  {
    if n > 0 {
      PdfRecordsOrdered(pdf, n - 1);
      PdfRecordsPages(pdf, n - 1);
      PageRecordsLabels(pdf.pages[n - 1], pdf.name, n);
      AppendPageOrdered(pdf, n, PdfRecords(pdf, n - 1), PageRecords(pdf.pages[n - 1], pdf.name, n));
    }
  }

  /** The step of `PdfRecordsOrdered`. */
  lemma AppendPageOrdered(pdf: ScannedPdf, n: nat, init: seq<Asistencia>, last: seq<Asistencia>)
    requires n >= 1
    requires PagesInOrder(init) && FromPagesOf(init, pdf, n - 1)
    requires Labelled(last, pdf.name, n)
    ensures PagesInOrder(init + last)
  {
    var rs := init + last;
    forall a, b | 0 <= a < b < |rs| ensures rs[a].pagina <= rs[b].pagina {
      if b >= |init| {
        assert rs[b] == last[b - |init|];
        if a < |init| {
          assert rs[a] == init[a];
        } else {
          assert rs[a] == last[a - |init|];
        }
      } else {
        assert rs[a] == init[a] && rs[b] == init[b];
      }
    }
  }

  /** Each record names one of the first `m` files and a page of it that
      had no error message. */
  predicate FromSomePdf(rs: seq<Asistencia>, pdfs: seq<ScannedPdf>, m: nat)
    requires m <= |pdfs|
  {
    forall k :: 0 <= k < |rs| ==> exists p :: 0 <= p < m && FromPdf(rs[k], pdfs[p])
  }

  /** Every record of the route names one of the files and a page of it,
      from 1 on, that had no error message. */
  lemma {:induction false} AllRecordsSources(pdfs: seq<ScannedPdf>, m: nat)
    requires m <= |pdfs|
    ensures FromSomePdf(AllRecords(pdfs, m), pdfs, m)
  {
    if m > 0 {
      AllRecordsSources(pdfs, m - 1);
      var pdf := pdfs[m - 1];
      PdfRecordsPages(pdf, |pdf.pages|);
      var init := AllRecords(pdfs, m - 1);
      var last := PdfRecords(pdf, |pdf.pages|);
      var rs := init + last;
      forall k | 0 <= k < |rs| ensures exists p :: 0 <= p < m && FromPdf(rs[k], pdfs[p]) {
        if k < |init| {
          assert rs[k] == init[k];
          var p :| 0 <= p < m - 1 && FromPdf(init[k], pdfs[p]);
          assert FromPdf(rs[k], pdfs[p]);
        } else {
          assert rs[k] == last[k - |init|];
          assert FromPdf(rs[k], pdfs[m - 1]);
        }
      }
    }
  }
}
