/** What the extraction pipeline receives from its external collaborators
    (archive extraction, rasterisation, OCR), the result row it stores, and
    the "name — cc" format both extractors produce.
    The collaborators themselves are not modelled: their answers are inputs. */
module Documents {
  import opened Chars
  import opened Optional
  import opened PyStr
  import opened DigitRuns

  /** What OCR returned for one page: its recognised text, or a response
      carrying an error message (the page is then skipped). */
  datatype PageOutcome = PageText(text: string) | PageError

  /** What rasterising and recognising one document produced: its pages in
      order, or an exception raised on the way, with its message. */
  datatype DocumentInput = Pages(pages: seq<PageOutcome>) | Raised(message: string)

  /** One PDF found in the archive: the segments of its path relative to the
      extraction directory, its size in bytes, and what OCR makes of it. */
  datatype PdfFile = PdfFile(parts: seq<string>, size: nat, doc: DocumentInput)

  /** An uploaded archive: not a valid ZIP, or the PDFs it holds in the
      order the directory traversal yields them. */
  datatype Archive = Corrupt | Extracted(files: seq<PdfFile>)

  /** One row of the results table (the dictionary built per PDF). */
  datatype Registro = Registro(
    raiz: string,
    sub: string,
    nombre: string,
    estado: string,
    resultado: string,
    ruta: string,
    size: nat)

  /** "(raíz)", the label used when a PDF sits at the top of the archive. */
  const RootLabel: string := "(ra\U{ED}z)"

  /** Root and sub-folder labels of a relative path: the first and the
      next-to-last segment when the path has more than one segment, and
      "(raíz)" for both otherwise. */
  function FolderLabels(parts: seq<string>): (labels: (string, string))
    ensures |parts| <= 1 ==> labels == (RootLabel, RootLabel)
    ensures |parts| == 2 ==> labels.0 == labels.1 == parts[0]
    ensures |parts| > 2 ==> labels == (parts[0], parts[|parts| - 2])
  {
    if |parts| > 1 then (parts[0], parts[|parts| - 2]) else (RootLabel, RootLabel)
  }

  /** `path.name`: the last segment. */
  function FileName(parts: seq<string>): string {
    if parts == [] then "" else parts[|parts| - 1]
  }

  /** `str(relative_path)` on a POSIX system. */
  function RelativePath(parts: seq<string>): string {
    Join(parts, "/")
  }

  /** The em dash of the output format "name — cc". */
  const EmDash: char := '\U{2014}'

  /** The result when no record is found. */
  const NoReconocido: string := "No reconocido"

  /** An accepted (name, national ID) pair. */
  datatype Record = Record(name: string, cc: string)

  /** `f"{name} — {cc}"` */
  function RecordText(r: Record): string {
    r.name + [' ', EmDash, ' '] + r.cc
  }

  /** Reads "name — cc" back, splitting at the first em dash. */
  function ParseRecordText(t: string): Option<Record> {
    match IndexOfChar(t, EmDash)
    case None => None
    case Some(i) =>
      if 1 <= i && i + 1 < |t| && t[i - 1] == ' ' && t[i + 1] == ' '
      then Some(Record(t[..i - 1], t[i + 2..]))
      else None
  }

  /** The output format can be read back whenever the name holds no em
      dash, which every accepted name satisfies. */
  lemma RecordTextRoundTrip(r: Record)
    requires EmDash !in r.name
    ensures ParseRecordText(RecordText(r)) == Some(r)
  {
    var t := RecordText(r);
    var n := |r.name|;
    assert t[n + 1] == EmDash;
    assert t[..n + 1] == r.name + [' '];
    assert EmDash !in t[..n + 1];
    assert IndexOfChar(t, EmDash) == Some(n + 1);
    assert t[..n] == r.name;
    assert t[n + 3..] == r.cc;
  }

  /** Every output line holds an em dash, so none is the "No reconocido"
      marker. */
  lemma RecordTextHasDash(r: Record)
    ensures EmDash in RecordText(r) && RecordText(r) != NoReconocido
  {
    assert RecordText(r)[|r.name| + 1] == EmDash;
    assert EmDash !in NoReconocido;
  }

  /** Six to ten decimal digits. */
  predicate IsIdNumber(cc: string) {
    6 <= |cc| <= 10 && forall k :: 0 <= k < |cc| ==> IsDigit(cc[k])
  }

  /** A `\d{6,10}` match is an identifier number. */
  lemma ChunkIsIdNumber(s: string, c: Span)
    requires IsIdChunk(s, c)
    ensures c.start <= c.end <= |s| && IsIdNumber(s[c.start..c.end])
  {
    var n := DigitRunLen(s, c.start);
    DigitRunSpec(s, c.start);
    var cc := s[c.start..c.end];
    forall k | 0 <= k < |cc| ensures IsDigit(cc[k]) {
      assert cc[k] == s[c.start + k];
    }
  }
}
