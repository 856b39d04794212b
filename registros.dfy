/** The upload handler of app.py and the in-memory table `REGISTROS` it
    fills: the `.zip` filename check, one row per PDF of the archive (folder
    labels, the result of `process_pdf_with_vision`, the status rule), the
    `clear` route, and the index view sorted by relative path, newest
    (greatest path) first. */
module Registros {
  import opened Chars
  import opened PyStr
  import opened Documents
  import opened NamePattern
  import Seqs

  // ---------------------------------------------------------------------
  // The filename check
  // ---------------------------------------------------------------------

  /** `file.filename != '' and file.filename.lower().endswith('.zip')`. */
  predicate IsZipFilename(fn: string) {
    fn != "" && EndsWith(LowerStr(fn), ".zip")
  }

  /** A name is accepted exactly when its last four characters are a dot
      and, in either case, "zip"; the test for the empty name adds nothing,
      since the suffix test already needs four characters. */
  lemma ZipFilenameIff(fn: string)
    ensures IsZipFilename(fn) <==>
      && |fn| >= 4
      && fn[|fn| - 4] == '.'
      && (fn[|fn| - 3] == 'z' || fn[|fn| - 3] == 'Z')
      && (fn[|fn| - 2] == 'i' || fn[|fn| - 2] == 'I')
      && (fn[|fn| - 1] == 'p' || fn[|fn| - 1] == 'P')
    ensures IsZipFilename(fn) <==> EndsWith(LowerStr(fn), ".zip")
  {
    var l := LowerStr(fn);
    if |fn| >= 4 {
      var n := |fn|;
      assert l[n - 4..] == [l[n - 4], l[n - 3], l[n - 2], l[n - 1]];
    }
  }

  // ---------------------------------------------------------------------
  // The status rule
  // ---------------------------------------------------------------------

  /** `"Error" if "Error" in result_text else "OK"`. */
  function AppStatus(result: string): (estado: string)
    ensures estado == "Error" || estado == "OK"
  {
    if Contains(result, "Error") then "Error" else "OK"
  }

  /** A text that starts with "Error" has status "Error". */
  lemma LeadingErrorStatus(s: string)
    requires |s| >= 5 && s[0] == 'E' && s[1] == 'r' && s[2] == 'r' && s[3] == 'o' && s[4] == 'r'
    ensures AppStatus(s) == "Error"
  {
    assert s[..5] == "Error";
    assert StartsWith(s, "Error");
  }

  /** The two error messages have status "Error". */
  lemma ErrorMessageStatus(msg: string)
    ensures AppStatus(ClientNotReady) == "Error"
    ensures AppStatus(ProcessingErrorPrefix + msg) == "Error"
  {
    LeadingErrorStatus(ClientNotReady);
    var s := ProcessingErrorPrefix + msg;
    assert s[0] == 'E' && s[1] == 'r' && s[2] == 'r' && s[3] == 'o' && s[4] == 'r';
    LeadingErrorStatus(s);
  }

  lemma NoCapitalE()
    ensures 'E' !in NoTextExtracted && 'E' !in NoReconocido
  {
  }

  /** "No se extrajo texto" and "No reconocido" have status "OK": neither
      holds a capital E. */
  lemma NoResultStatus()
    ensures AppStatus(NoTextExtracted) == "OK"
    ensures AppStatus(NoReconocido) == "OK"
  {
    NoCapitalE();
    FirstCharAbsent(NoTextExtracted, "Error");
    FirstCharAbsent(NoReconocido, "Error");
  }

  /** The status of each kind of result: a missing client and a failure
      while processing give "Error"; no text and no recognised line give
      "OK". */
  lemma VisionStatus(clientReady: bool, doc: DocumentInput)
    ensures !clientReady ==> AppStatus(VisionResult(clientReady, doc)) == "Error"
    ensures clientReady && doc.Raised? ==> AppStatus(VisionResult(clientReady, doc)) == "Error"
    ensures VisionResult(clientReady, doc) == NoTextExtracted ==> AppStatus(VisionResult(clientReady, doc)) == "OK"
    ensures VisionResult(clientReady, doc) == NoReconocido ==> AppStatus(VisionResult(clientReady, doc)) == "OK"
  {
    ErrorMessageStatus(if doc.Raised? then doc.message else "");
    NoResultStatus();
  }

  /** The status of an extracted record is "Error" exactly when "Error"
      occurs in its name: the separator and the digits cannot hold it. */
  lemma RecordStatus(r: Record)
    requires IsIdNumber(r.cc)
    ensures AppStatus(RecordText(r)) == "Error" <==> Contains(r.name, "Error")
  {
    var tail := [' ', EmDash, ' '] + r.cc;
    assert RecordText(r) == r.name + tail;
    assert forall k :: 0 <= k < |tail| ==> tail[k] != 'r' by {
      forall k | 0 <= k < |tail| ensures tail[k] != 'r' {
        if k >= 3 {
          assert tail[k] == r.cc[k - 3];
        }
      }
    }
    LastCharAbsentFromTail(r.name, tail, "Error");
  }

  // ---------------------------------------------------------------------
  // One row per PDF
  // ---------------------------------------------------------------------

  /** The row the upload handler appends for one PDF. */
  function AppRecord(f: PdfFile, clientReady: bool): Registro {
    var labels := FolderLabels(f.parts);
    var result := VisionResult(clientReady, f.doc);
    Registro(labels.0, labels.1, FileName(f.parts), AppStatus(result), result, RelativePath(f.parts), f.size)
  }

  /** The row function for one traversal, as a value. */
  function RowOf(clientReady: bool): PdfFile -> Registro {
    (f: PdfFile) => AppRecord(f, clientReady)
  }

  /** The rows the handler appends for `files`: one per PDF, in traversal
      order. */
  function AppRows(files: seq<PdfFile>, clientReady: bool): seq<Registro> {
    Seqs.Map(RowOf(clientReady), files)
  }

  /** The i-th row appended is the row of the i-th PDF. */
  lemma AppRowsIndex(files: seq<PdfFile>, clientReady: bool)
    ensures |AppRows(files, clientReady)| == |files|
    ensures forall i :: 0 <= i < |files| ==> AppRows(files, clientReady)[i] == AppRecord(files[i], clientReady)
  {
    Seqs.MapIndex(RowOf(clientReady), files);
  }

  method BuildRow(pdf: PdfFile, clientReady: bool) returns (row: Registro)
    ensures row == AppRecord(pdf, clientReady)
  {
    var labels := FolderLabels(pdf.parts);
    var resultText := ProcessPdfWithVision(clientReady, pdf.doc);
    var status := if Contains(resultText, "Error") then "Error" else "OK";
    row := Registro(labels.0, labels.1, FileName(pdf.parts), status, resultText, RelativePath(pdf.parts), pdf.size);
  }

  /** What the client sends to `/upload`. */
  datatype UploadRequest = NoFilePart | FilePart(filename: string, archive: Archive)

  /** How the handler ends; each outcome but the last flashes an error and
      leaves the table as it was. */
  datatype UploadOutcome = MissingFile | NotAZip | BadZip | NoPdfs | Processed(count: nat)

  // ---------------------------------------------------------------------
  // The table and its sorted view
  // ---------------------------------------------------------------------

  /** `sorted(rows, key=lambda r: r['ruta'], reverse=True)`, built by
      inserting each row after every row already placed whose path is not
      smaller, so rows with equal paths keep their order. */
  function SortByRutaDesc(rows: seq<Registro>): (v: seq<Registro>)
    ensures |v| == |rows|
  {
    if rows == [] then [] else InsertDesc(rows[|rows| - 1], SortByRutaDesc(rows[..|rows| - 1]))
  }

  /** Places `r` before the first row whose path is smaller than its own. */
  function InsertDesc(r: Registro, s: seq<Registro>): (v: seq<Registro>)
    ensures |v| == |s| + 1
  {
    if s == [] then [r]
    else if LexLess(s[0].ruta, r.ruta) then [r] + s
    else [s[0]] + InsertDesc(r, s[1..])
  }

  /** No row comes before one with a greater path. */
  predicate DescendingByRuta(v: seq<Registro>) {
    forall i, j :: 0 <= i < j < |v| ==> !LexLess(v[i].ruta, v[j].ruta)
  }

  /** The rows with path `k`, in order. */
  function WithRuta(s: seq<Registro>, k: string): (t: seq<Registro>)
    ensures |t| <= |s|
  {
    if s == [] then []
    else WithRuta(s[..|s| - 1], k) + (if s[|s| - 1].ruta == k then [s[|s| - 1]] else [])
  }

  /** A row whose path is not smaller than any path of a descending list
      can be put in front of it. */
  lemma PrependDescending(h: Registro, t: seq<Registro>)
    requires DescendingByRuta(t)
    requires forall x <- t :: !LexLess(h.ruta, x.ruta)
    ensures DescendingByRuta([h] + t)
  {
    var v := [h] + t;
    forall i, j | 0 <= i < j < |v| ensures !LexLess(v[i].ruta, v[j].ruta) {
      assert v[j] == t[j - 1];
      if i > 0 {
        assert v[i] == t[i - 1];
      }
    }
  }

  /** Inserting keeps the order descending. */
  lemma {:induction false} InsertDescSorted(r: Registro, s: seq<Registro>)
    requires DescendingByRuta(s)
    ensures DescendingByRuta(InsertDesc(r, s))
  {
    if s == [] {
    } else if LexLess(s[0].ruta, r.ruta) {
      forall x <- s ensures !LexLess(r.ruta, x.ruta) {
        var j :| 0 <= j < |s| && s[j] == x;
        LexLessAsymmetric(s[0].ruta, r.ruta);
        if j > 0 {
          NotLessChain(s[j].ruta, s[0].ruta, r.ruta);
        }
      }
      PrependDescending(r, s);
    } else {
      var t := s[1..];
      InsertDescSorted(r, t);
      var rest := InsertDesc(r, t);
      InsertDescMembers(r, t);
      forall x <- rest ensures !LexLess(s[0].ruta, x.ruta) {
        assert x in multiset(rest);
        if x != r {
          assert x in multiset(t);
          var k :| 0 <= k < |t| && t[k] == x;
          assert s[k + 1] == x;
        }
      }
      PrependDescending(s[0], rest);
    }
  }

  /** `b < a` and `c <= b` give `c < a`, that is not `a <= c`. */
  lemma NotLessChain(c: string, b: string, a: string)
    requires !LexLess(b, c) && LexLess(b, a)
    ensures !LexLess(a, c)
  {
    LexLessTotal(b, c);
    if LexLess(a, c) {
      if b == c {
        LexLessAsymmetric(b, a);
      } else {
        LexLessTransitive(c, b, a);
        LexLessAsymmetric(c, a);
      }
    }
  }

  /** Inserting adds `r` and nothing else. */
  lemma {:induction false} InsertDescMembers(r: Registro, s: seq<Registro>)
    ensures multiset(InsertDesc(r, s)) == multiset(s) + multiset{r}
  {
    if s != [] && !LexLess(s[0].ruta, r.ruta) {
      InsertDescMembers(r, s[1..]);
      assert s == [s[0]] + s[1..];
    }
  }

  /** Inserting `r` adds it after every row with its path. */
  lemma {:induction false} InsertDescStable(r: Registro, s: seq<Registro>, k: string)
    requires DescendingByRuta(s)
    ensures WithRuta(InsertDesc(r, s), k) == WithRuta(s, k) + (if r.ruta == k then [r] else [])
  {
    if s == [] {
      WithRutaCons(r, s, k);
      assert InsertDesc(r, s) == [r] + s;
    } else if LexLess(s[0].ruta, r.ruta) {
      InsertFrontStable(r, s, k);
    } else {
      DescendingTail(s);
      InsertDescStable(r, s[1..], k);
      InsertBehindStable(s[0], s[1..], InsertDesc(r, s[1..]), if r.ruta == k then [r] else [], k);
      assert s == [s[0]] + s[1..];
    }
  }

  /** The case where `r` goes behind the head `x`: if the rows `u` with
      path `k` are those of `t` followed by `added`, the same holds with `x`
      put in front of both. */
  lemma InsertBehindStable(x: Registro, t: seq<Registro>, u: seq<Registro>, added: seq<Registro>, k: string)
    requires WithRuta(u, k) == WithRuta(t, k) + added
    ensures WithRuta([x] + u, k) == WithRuta([x] + t, k) + added
  {
    var head := if x.ruta == k then [x] else [];
    WithRutaCons(x, u, k);
    WithRutaCons(x, t, k);
    Seqs.AppendAssoc(head, WithRuta(t, k), added);
  }

  /** The case where `r` goes in front: no row of `s` shares its path. */
  lemma InsertFrontStable(r: Registro, s: seq<Registro>, k: string)
    requires DescendingByRuta(s) && s != [] && LexLess(s[0].ruta, r.ruta)
    ensures WithRuta([r] + s, k) == WithRuta(s, k) + (if r.ruta == k then [r] else [])
  {
    WithRutaCons(r, s, k);
    if r.ruta == k {
      AllBelow(r, s);
      NoneWithRuta(s, k);
    }
  }

  /** A suffix of a descending list is descending. */
  lemma DescendingTail(s: seq<Registro>)
    requires DescendingByRuta(s) && s != []
    ensures DescendingByRuta(s[1..])
  {
  }

  /** When the head of a descending list is below `r`, every row is. */
  lemma AllBelow(r: Registro, s: seq<Registro>)
    requires DescendingByRuta(s) && s != [] && LexLess(s[0].ruta, r.ruta)
    ensures forall j :: 0 <= j < |s| ==> LexLess(s[j].ruta, r.ruta)
  {
    forall j | 0 <= j < |s| ensures LexLess(s[j].ruta, r.ruta) {
      if j > 0 {
        NotLessChain(s[j].ruta, s[0].ruta, r.ruta);
        LexLessTotal(s[j].ruta, r.ruta);
      }
    }
  }

  /** No row of `s` has path `k` when all are smaller than some `k`. */
  lemma NoneWithRuta(s: seq<Registro>, k: string)
    requires forall j :: 0 <= j < |s| ==> LexLess(s[j].ruta, k)
    ensures WithRuta(s, k) == []
  {
    WithRutaEmpty(s, k);
    forall j | 0 <= j < |s| ensures s[j].ruta != k {
      LexLessIrreflexive(k);
    }
  }

  lemma {:induction false} WithRutaEmpty(s: seq<Registro>, k: string)
    ensures WithRuta(s, k) == [] <==> forall j :: 0 <= j < |s| ==> s[j].ruta != k
  {
    if s != [] {
      var init := s[..|s| - 1];
      WithRutaEmpty(init, k);
      assert forall j :: 0 <= j < |init| ==> init[j] == s[j];
    }
  }

  /** Filtering a row put in front. */
  lemma {:induction false} WithRutaCons(x: Registro, s: seq<Registro>, k: string)
    ensures WithRuta([x] + s, k) == (if x.ruta == k then [x] else []) + WithRuta(s, k)
    decreases |s|
  {
    if s == [] {
      assert [x] + s == [x];
      assert [x][..0] == [];
    } else {
      var init := s[..|s| - 1];
      WithRutaCons(x, init, k);
      assert ([x] + s)[..|s|] == [x] + init;
      assert ([x] + s)[|s|] == s[|s| - 1];
    }
  }

  /** The view is sorted by path, greatest first. */
  lemma {:induction false} SortedViewDescending(rows: seq<Registro>)
    ensures DescendingByRuta(SortByRutaDesc(rows))
  {
    if rows != [] {
      SortedViewDescending(rows[..|rows| - 1]);
      InsertDescSorted(rows[|rows| - 1], SortByRutaDesc(rows[..|rows| - 1]));
    }
  }

  /** The view holds exactly the rows of the table, each as often. */
  lemma {:induction false} SortedViewPermutation(rows: seq<Registro>)
    ensures multiset(SortByRutaDesc(rows)) == multiset(rows)
  {
    if rows != [] {
      var init := rows[..|rows| - 1];
      SortedViewPermutation(init);
      InsertDescMembers(rows[|rows| - 1], SortByRutaDesc(init));
      assert rows == init + [rows[|rows| - 1]];
    }
  }

  /** The sort is stable: the rows that share a path appear in the view in
      the order they were added. */
  lemma {:induction false} SortedViewStable(rows: seq<Registro>, k: string)
    ensures WithRuta(SortByRutaDesc(rows), k) == WithRuta(rows, k)
  {
    if rows != [] {
      var init := rows[..|rows| - 1];
      SortedViewStable(init, k);
      SortedViewDescending(init);
      InsertDescStable(rows[|rows| - 1], SortByRutaDesc(init), k);
    }
  }

  /** `REGISTROS`: the rows shown on the index page, in the order they were
      added. */
  class RecordTable {
    var rows: seq<Registro>

    /** The list starts empty when the server process starts. */
    constructor ()
      ensures rows == []
    {
      rows := [];
    }

    /** `REGISTROS.append(row)`. */
    method Append(row: Registro)
      modifies this
      ensures rows == old(rows) + [row]
    {
      rows := rows + [row];
    }

    /** `REGISTROS.clear()`, the `/clear` route. */
    method Clear()
      modifies this
      ensures rows == []
    {
      rows := [];
    }

    /** The rows as the index page lists them: the rows of the table, each
        as often, greatest path first. */
    function SortedView(): (v: seq<Registro>)
      reads this
      ensures DescendingByRuta(v)
      ensures multiset(v) == multiset(rows)
    {
      SortedViewDescending(rows);
      SortedViewPermutation(rows);
      SortByRutaDesc(rows)
    }

    /** `upload_file`: the checks in the order the handler makes them, then
        one row per PDF of the archive, appended in traversal order.
        `clientReady` stands for the Vision client having been created. */
    method Upload(req: UploadRequest, clientReady: bool) returns (outcome: UploadOutcome)
      modifies this
      ensures req.NoFilePart? <==> outcome == MissingFile
      ensures req.FilePart? && !IsZipFilename(req.filename) <==> outcome == NotAZip
      ensures outcome == BadZip <==> req.FilePart? && IsZipFilename(req.filename) && req.archive.Corrupt?
      ensures outcome == NoPdfs <==>
        req.FilePart? && IsZipFilename(req.filename) && req.archive == Extracted([])
      ensures !outcome.Processed? ==> rows == old(rows)
      ensures outcome.Processed? ==>
        && req.FilePart? && req.archive.Extracted?
        && outcome.count == |req.archive.files| > 0
        && rows == old(rows) + AppRows(req.archive.files, clientReady)
    {
      if req.NoFilePart? {
        return MissingFile;
      }
      if !IsZipFilename(req.filename) {
        return NotAZip;
      }
      if req.archive.Corrupt? {
        return BadZip;
      }
      var pdfFilesFound := req.archive.files;
      if pdfFilesFound == [] {
        return NoPdfs;
      }
      ghost var before := rows;
      for i := 0 to |pdfFilesFound|
        invariant rows == before + AppRows(pdfFilesFound[..i], clientReady)
      {
        var row := BuildRow(pdfFilesFound[i], clientReady);
        Append(row);
        assert pdfFilesFound[..i + 1][..i] == pdfFilesFound[..i];
      }
      assert pdfFilesFound[..|pdfFilesFound|] == pdfFilesFound;
      return Processed(|pdfFilesFound|);
    }
  }
}
