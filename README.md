# Attendance-sheet extraction: a Dafny model

The repository reads scanned attendance sheets. An uploaded ZIP archive
holds PDFs. Each PDF page is rasterised and sent to an OCR service. The
recognised text is then searched for (name, national identifier — *cédula*)
pairs. The repository contains three revisions of this text heuristic, and
this project models all three:

- **`worker.py`** (background worker). Its whole code sits inside a
  triple-quoted string (worker.py:1-115), so it never runs as it stands;
  it is modelled from its text.
  - `extraer_nombre_cc`: on every trimmed non-blank line, takes the last
    `\d{6,10}` match as the identifier and cleans up the text before it
    into a name. It keeps a name of at least two words that contains none
    of nine header keywords.
  - `procesar_pdf`: merges the page results into `"No reconocido"` or into
    the sorted, de-duplicated results joined by `"; "`.
  - `process_zip_file`: builds one row per PDF, with folder labels and a
    three-way status (`Error` / `Revisar` / `OK`).
- **`app.py`** (Flask application).
  - `NAME_CC_PATTERN` and `extract_name_and_cc_from_text`: the first line
    on which 2–4 capitalised words are followed, lazily, by 6–10 digits.
  - `process_pdf_with_vision`: concatenates the page texts and extracts
    from them.
  - The upload handler: its `.zip` check, folder labels, and two-way
    status.
  - The in-memory `REGISTROS` list: append, clear, and the view sorted by
    path in descending order.
- **`App.py`** (a simpler pair-of-lines heuristic).
  - A `while` loop pairs a line containing a letter with a following line
    that mentions `cc`/`C-C` in any case.
  - When the second line has a run of six or more digits, it records that
    run as the identifier.
  - After a pair it moves on by two lines, otherwise by one.

The model works over a fixed alphabet: ASCII plus `ÁÉÍÓÚÜÑáéíóúüñ`. On this
alphabet, Python's `\d`, `\s`, `\w`, `str.strip`, `str.split` and
`str.upper` are written out character by character (`chars.dfy`,
`pystr.dfy`). The regular expressions are modelled as explicit left-to-right
scans:

- `digitruns.dfy`: `finditer(r'\d{6,10}')` and `search(r'\d{6,})`;
- `worker.dfy`: an automaton for `^\d+\s*[.-]?\s*`;
- `namepattern.dfy`: the word chain and the lazy `.*?` of
  `NAME_CC_PATTERN`.

The OCR service, rasterisation and archive traversal are outside the
model. What they return is an input:

- a `DocumentInput` for each PDF, holding its pages' texts or the message
  of the exception raised;
- an `Archive` listing its PDFs with their path segments and sizes.

Two details of the code that the model keeps as written:

- **Header keywords.** worker.py:37 lists nine fixed keywords, and
  worker.py:47 rejects a name when any of them is a *substring* of the
  whole upper-cased name. The model uses those nine keywords and that
  substring test (`Worker.NameAccepted`).
- **Letter classes.** The letter sets differ. `NAME_CC_PATTERN`
  (app.py:217) has no `Ü`/`ü`. The clean-up class at worker.py:46 lists no
  `Ü`/`ü` either, but keeps them through `\w`. The letter test of App.py:49
  lists them. Each is modelled with its own class.

## Model

| member | source | states |
|---|---|---|
| PyStr.LinesSpec | worker.py:38 | every line kept by `[l.strip() for l in text.split("\n") if l.strip()]` is non-empty, carries no leading or trailing whitespace and holds no newline, and every piece between newlines that is not blank gives a line |
| PyStr.StripNonBlankOrigin | App.py:46 | every kept line is non-empty, trimmed, and is the strip of one of the newline-separated pieces of the text; every piece that is not blank is kept |
| PyStr.StripNonBlankAppend | App.py:46 | the pieces are handled one at a time and the kept lines stay in the order of their pieces: the lines of two lists joined are the lines of the first followed by those of the second |
| PyStr.StripSpec | worker.py:44 | `strip()` removes only whitespace, and only from the two ends: the result is a slice of the input with nothing but whitespace on either side of it, and it is empty exactly when the input is all whitespace |
| PyStr.WordsSpec | worker.py:47 | every piece that `split()` yields is non-empty and contains no whitespace |
| PyStr.WordsEmptyIff | worker.py:47 | `split()` yields no piece exactly when the string is all whitespace |
| DigitRuns.LastIdChunk | worker.py:40-42 | there is no match exactly when no six digits occur in a row; otherwise the last match is a greedy `\d{6,10}` match and no six-digit run starts after it |
| DigitRuns.IdChunksFromIsScan | worker.py:40 | the scan yields exactly the greedy non-overlapping `\d{6,10}` matches, each starting at or after the previous one's end, with no skipped position starting six digits |
| DigitRuns.IdScanUnique | worker.py:40 | the greedy, non-overlapping `\d{6,10}` scan of a string is unique: two scans from the same position are the same list |
| DigitRuns.LastIdChunkIsLastMatch | worker.py:40-42 | the identifier chunk is the last element of the `finditer` scan of the whole line, and there is none exactly when the scan is empty |
| DigitRuns.FirstLongRunSpec | App.py:51 | the `\d{6,}` match is a maximal run of digits: all digits, no digit just before it or just after it |
| Documents.FolderLabels | worker.py:89-90 | one segment gives "(raíz)" for both labels; two segments give the first segment for both; a longer path gives the first segment and the next-to-last one |
| Documents.RecordTextRoundTrip | worker.py:48 | "name — cc" reads back into the same name and identifier whenever the name holds no em dash |
| Documents.RecordTextHasDash | app.py:231 | the formatted record always holds the em dash, so it is never "No reconocido" |
| Documents.ChunkIsIdNumber | worker.py:36 | a `\d{6,10}` match is 6 to 10 decimal digits |
| Worker.StripListNumberSpec | worker.py:45 | nothing is removed unless the name starts with a digit; otherwise the removed prefix is matched in full by `\d+\s*[.-]?\s*` and no longer prefix is, so one list number at most goes |
| Worker.ListMarkerLongest | worker.py:45 | the greedy match is non-empty exactly when the text starts with a digit, and it is the longest prefix the pattern matches |
| Worker.CandidateNameChars | worker.py:46 | the cleaned name holds only word characters, whitespace, the listed accented letters, `'` and `-` |
| Worker.CandidateNameFromText | worker.py:44-46 | every character of the name is taken, in order, from the text before the identifier |
| Worker.CleanName | worker.py:46 | the clean-up keeps exactly the allowed characters: no other character survives, every allowed one survives as many times as it occurs in the input, and the order is kept |
| Worker.AcceptedNameChars | worker.py:46-48 | a cleaned name holds neither the em dash nor ';', so the output format and the `"; "` join can be read back |
| Worker.ExtractLineSpec | worker.py:40-48 | a line without six digits in a row gives nothing; otherwise the identifier is the last `\d{6,10}` match (6 to 10 digits, no six-digit run after it), and the line yields a record exactly when the cleaned text before the identifier has at least two words and no ignored keyword; that cleaned text is then the name: trimmed, made of allowed characters, taken in order from the text before the identifier |
| Worker.ExtraerNombreCc | worker.py:34-49 | the loop's list is, in line order, the contribution of each trimmed non-blank line |
| Worker.ExtractAllAppend | worker.py:39-48 | lines contribute independently: the results of two line lists concatenate |
| Worker.ExtractAllMembers | worker.py:39-48 | a string is output exactly when some line yields it |
| Worker.ExtractAllWellFormed | worker.py:48 | every output string has the form "name — cc"; it reads back into an identifier of 6 to 10 digits and a trimmed, two-word name without keyword; it holds no ';' |
| Worker.RecordTextWellFormed | worker.py:48 | an accepted record's string reads back into the record and holds the em dash and no ';' |
| Worker.ExtractAllWithoutIds | worker.py:40-41 | a text none of whose lines has six digits in a row yields nothing |
| Worker.BlankTextYieldsNothing | worker.py:38 | empty or whitespace-only text has no lines and no results |
| Worker.ProcesarPdf | worker.py:51-69 | the loop skips pages whose response has an error, extends with each page's results, then returns the summary; an exception gives "Error de conversión: " and the first line of its message, or escapes when the message has no line |
| Worker.PageResultsMembers | worker.py:55-65 | a string is among the accumulated results exactly when some recognised page yields it |
| Worker.SummaryOfResults | worker.py:66-67 | the summary is "No reconocido" exactly when there are no results; otherwise its `"; "`-separated pieces are strictly ascending (so distinct) and are exactly the results |
| Worker.SummaryProperties | worker.py:60-67 | the same for a document: the pieces of the summary are exactly the strings some recognised page yields |
| Worker.WorkerStatus | worker.py:94-96 | the status is one of "Error", "Revisar", "OK" |
| Worker.WorkerStatusOfDocument | worker.py:66-69 | a conversion failure is "Error", a document without results is "Revisar", otherwise the status is decided by the extracted strings |
| Worker.ConversionErrorStatus | worker.py:69 | a conversion-error message is classified "Error" |
| Worker.SentinelStatus | worker.py:66 | "No reconocido" is classified "Revisar" |
| Worker.JoinedStatus | worker.py:67 | the status of the joined results depends only on whether some result contains "Error" or "No reconocido" |
| Worker.WorkerRecord | worker.py:98-102 | the row carries the status of the result, the result itself and the folder labels of its path |
| Worker.ProcessZipFile | worker.py:72-103 | an archive that cannot be extracted adds no row; otherwise the i-th row added is the i-th PDF's row, all PDFs are processed unless `procesar_pdf` raises, and then the rows before it stay |
| NamePattern.NameGroupSpec | app.py:217 | group 1 is two to four chained capitalised words, the first two separated by exactly one whitespace character; the greedy `{1,3}` takes every further word that follows, stopping before four only where no capitalised word starts |
| NamePattern.LazyIdFromSpec | app.py:217 | `.*?(\d{6,10})` stops at the first position from which six digits start, without crossing a newline, and fails when there is none |
| NamePattern.SearchFromSpec | app.py:226 | the search reports the leftmost position where the pattern matches, and nothing exactly when it matches nowhere |
| NamePattern.MatchNameSpec | app.py:229 | the matched name, stripped, is non-empty, trimmed, starts with a capital of `[A-ZÁÉÍÓÚÑ]`, and spans two to four capitalised words |
| NamePattern.MatchIdSpec | app.py:230 | the identifier is found after the name on the same line, at the first place where six digits start, and is the greedy `\d{6,10}` chunk there: as many digits as follow, up to ten |
| NamePattern.FirstMatchSpec | app.py:225-227 | the first matching line is reported, and none exactly when no line matches |
| NamePattern.ExtractNameAndCcUnrecognised | app.py:225-232 | the result is "No reconocido" exactly when the pattern is found on no newline-separated line |
| NamePattern.ExtractNameAndCcFound | app.py:217-231 | when a line matches, the result comes from the first matching line and its leftmost match: a trimmed name of 2 to 4 capitalised words starting with a capital, and a 6 to 10 digit identifier |
| NamePattern.FullTextEmptyIff | app.py:258-264 | the concatenated text is empty exactly when every page response carried an error |
| NamePattern.ProcessPdfWithVision | app.py:234-273 | the loop builds the text of the recognised pages, each followed by a newline; the result is the client-missing message, the processing-error message, "No se extrajo texto", or the extraction from that text |
| NamePattern.ExtractNameAndCcIsNotNoText | app.py:264-268 | extraction never yields "No se extrajo texto", so that marker means no text |
| NamePattern.VisionNoText | app.py:239-265 | "No se extrajo texto" is returned exactly when the client exists, the PDF could be rasterised and no page was recognised |
| NamePattern.VisionUnrecognised | app.py:264-268 | once some page was recognised, "No reconocido" is returned exactly when the pattern is on no line of the text |
| Registros.ZipFilenameIff | app.py:292 | a filename is accepted exactly when its last four characters are ".zip" in any case, so the empty name is refused |
| Registros.AppStatus | app.py:324 | the status is "Error" or "OK" |
| Registros.ErrorMessageStatus | app.py:240 | the client-missing message and every processing-error message have status "Error" |
| Registros.NoResultStatus | app.py:264-265 | "No se extrajo texto" and "No reconocido" have status "OK" |
| Registros.VisionStatus | app.py:323-324 | a missing client or a failure gives "Error"; no text and no recognised line give "OK" |
| Registros.RecordStatus | app.py:324 | an extracted record has status "Error" exactly when its name contains "Error" |
| Registros.AppRowsIndex | app.py:314-335 | the rows an upload appends are as many as the PDFs found, and the i-th of them is the row built from the i-th PDF |
| Registros.BuildRow | app.py:315-335 | the row holds the folder labels, file name, status, result, relative path and size of one PDF |
| Registros.SortedViewDescending | app.py:281 | the view is sorted by `ruta`, greatest first |
| Registros.SortedViewPermutation | app.py:281 | the view holds exactly the stored rows, each as often |
| Registros.SortedViewStable | app.py:281 | rows that share a path keep the order in which they were added |
| Registros.RecordTable.constructor | app.py:55 | the list starts empty |
| Registros.RecordTable.Append | app.py:327-335 | appending adds the row at the end and leaves earlier rows unchanged |
| Registros.RecordTable.Clear | app.py:343 | clearing leaves the list empty |
| Registros.RecordTable.SortedView | app.py:281 | the index view is sorted by path in descending order and is a permutation of the list |
| Registros.RecordTable.Upload | app.py:285-338 | requests without a file part, non-ZIP names, corrupt archives and archives without PDFs leave the list unchanged, each with its own outcome; otherwise the list becomes the old rows followed by one row per PDF in traversal order, and the outcome reports how many PDFs were processed |
| PairScan.CedulaIsFirstRun | App.py:51-55 | the identifier is the first run of six or more digits, taken in full |
| PairScan.ScanLines | App.py:47-61 | the `while` loop appends exactly the records of the line-pair scan from line 0 |
| PairScan.ScanFromPairs | App.py:48-61 | each record comes from one line pair, in line order: the name is the whole line j (never the last line), the identifier the first long digit run of line j+1, and consumed pairs never overlap |
| PairScan.ScanFromCount | App.py:48-61 | a page of n lines gives at most n/2 records |
| PairScan.FewLinesNoRecords | App.py:48 | fewer than two lines give no record |
| PairScan.PairWithoutDigitsSkipped | App.py:49-59 | a passing pair without six digits gives no record and still consumes both lines |
| PairScan.ScanFromLabels | App.py:53-58 | every record of a page carries that page's file name and number |
| PairScan.PageRecordsLabels | App.py:43-58 | a page with an error response gives no record; others are labelled with their file and page |
| PairScan.ScanPage | App.py:42-61 | one page appends the records of its trimmed non-blank lines, or nothing when its response carries an error |
| PairScan.ScanPdf | App.py:37-61 | pages are numbered from 1 and scanned in order, each appending its records |
| PairScan.ExtractAsistencias | App.py:35-61 | `resultados` is, file after file, the records of every page |
| PairScan.PdfRecordsPages | App.py:38-57 | each record of a file names that file and a page from 1 to its page count whose response had no error |
| PairScan.PdfRecordsOrdered | App.py:38-57 | the records of a file come in page order |
| PairScan.AllRecordsSources | App.py:36-58 | every record names one of the files and a page of it that had no error |

## Left out

- The OCR service (Google Vision), its client set-up and credentials are not modelled. A page's recognised text, or its error response, is an input. A missing client in app.py is a boolean parameter.
- Rasterising PDFs with pdf2image, and PNG encoding, are not modelled. They are external tools. A failure there is a `Raised(message)` input.
- ZIP extraction, temporary directories, `glob`/`rglob` traversal and `stat().st_size` are filesystem I/O and are not modelled.
  - The traversal order is the order of the input sequence. For worker.py that is the already sorted order of line 85.
  - App.py's `os.path.basename` is the file name given in `ScannedPdf`.
  - App.py's `zipfile` errors and `convert_from_path` exceptions end the request with an HTTP error. The model has no such outcome; every file it is given can be read.
- Flask routes, `flash`/`redirect`, the HTML template and the `size/1024` formatting are user interface and floating point, and are not modelled.
- The pandas/Excel export at the end of App.py's route is not modelled. The model stops at `resultados`.
- The database (database.py, init_db.py) is not part of this model. `add_record` is represented by the sequence of rows `ProcessZipFile` returns.
- The Redis/RQ worker bootstrap and the removal of the ZIP file are not modelled.
- Unicode is not modelled in full. Character classes, `strip`, `split` and `upper` are defined over ASCII plus `ÁÉÍÓÚÜÑáéíóúüñ`. Any other character is treated as neither letter, digit nor space.
- Registros.RecordTable.SortedView: the function's contract does not state stability. Stability is `Registros.SortedViewStable`, a separate lemma.
