/**
 * Resume text extraction and cleaning: the accumulation of page,
 * paragraph and table-cell texts into one string, the choice of parser by
 * file name, and the whitespace normalisation applied before matching.
 * Opening a PDF or DOCX file belongs to the document libraries: the model
 * takes what the library returned (the text of each page, paragraph and
 * cell, or the message of the exception it raised) as a value.
 */
module ResumeParser {
  import opened Wrappers
  import opened Text

  // Python's str.split() with no separator

  /** The pieces between single whitespace characters, empty ones included. */
  function Pieces(s: string): (r: seq<string>)
    ensures |r| >= 1
    ensures forall i :: 0 <= i < |r| ==> NoSpace(r[i])
  {
    if s == [] then [""]
    else
      var rest := Pieces(s[1..]);
      if IsSpace(s[0]) then [""] + rest
      else
        assert forall j :: 1 <= j < |rest| ==> NoSpace(rest[j]);
        [[s[0]] + rest[0]] + rest[1..]
  }

  /** Python's str.split(): the maximal runs of non-whitespace characters. */
  function Words(s: string): (r: seq<string>)
    ensures forall i :: 0 <= i < |r| ==> r[i] != "" && NoSpace(r[i])
  {
    var p := Pieces(s);
    var r := NonEmpty(p);
    NonEmptyMembers(p);
    assert forall i :: 0 <= i < |r| ==> r[i] in r;
    r
  }

  lemma {:induction false} PiecesSpace(a: string, c: char, b: string)
    requires IsSpace(c)
    ensures Pieces(a + [c] + b) == Pieces(a) + Pieces(b)
  {
    if a == [] {
      assert a + [c] + b == [c] + b;
      assert ([c] + b)[1..] == b;
    } else {
      assert (a + [c] + b)[1..] == a[1..] + [c] + b;
      PiecesSpace(a[1..], c, b);
    }
  }

  /** A whitespace character separates: the words on either side are kept apart and nothing else. */
  lemma WordsSpace(a: string, c: char, b: string)
    requires IsSpace(c)
    ensures Words(a + [c] + b) == Words(a) + Words(b)
  {
    PiecesSpace(a, c, b);
    NonEmptyConcat(Pieces(a), Pieces(b));
  }

  /** Whitespace alone has no words. */
  lemma {:induction false} WordsAllSpace(s: string)
    requires AllSpace(s)
    ensures Words(s) == []
  {
    if s != [] {
      assert s == [] + [s[0]] + s[1..];
      WordsSpace([], s[0], s[1..]);
      WordsAllSpace(s[1..]);
    }
  }

  /** A non-whitespace character belongs to some word. */
  lemma {:induction false} WordsNotAllSpace(s: string, i: nat)
    requires i < |s| && !IsSpace(s[i])
    ensures Words(s) != []
  {
    if IsSpace(s[0]) {
      assert s == [] + [s[0]] + s[1..];
      WordsSpace([], s[0], s[1..]);
      WordsNotAllSpace(s[1..], i - 1);
    } else {
      assert Pieces(s)[0] != "";
    }
  }

  lemma WordsEmptyIffAllSpace(s: string)
    ensures Words(s) == [] <==> AllSpace(s)
  {
    if AllSpace(s) {
      WordsAllSpace(s);
    } else {
      var i :| 0 <= i < |s| && !IsSpace(s[i]);
      WordsNotAllSpace(s, i);
    }
  }

  lemma {:induction false} PiecesNoSpace(w: string)
    requires NoSpace(w) && w != ""
    ensures Pieces(w) == [w]
  {
    if |w| > 1 {
      PiecesNoSpace(w[1..]);
    } else {
      assert w[1..] == "";
    }
    assert [w[0]] + w[1..] == w;
  }

  /** A single non-empty run without whitespace is one word. */
  lemma WordsOfWord(w: string)
    requires NoSpace(w) && w != ""
    ensures Words(w) == [w]
  {
    PiecesNoSpace(w);
    assert NonEmpty([w]) == [w] + NonEmpty([]);
  }

  /** Leading whitespace contributes no word. */
  lemma WordsLeading(x: string, y: string)
    requires AllSpace(x)
    ensures Words(x + y) == Words(y)
  {
    if x != [] {
      var n := |x| - 1;
      assert x + y == x[..n] + [x[n]] + y;
      WordsSpace(x[..n], x[n], y);
      WordsAllSpace(x[..n]);
    } else {
      assert x + y == y;
    }
  }

  /** Trailing whitespace contributes no word. */
  lemma WordsTrailing(y: string, z: string)
    requires AllSpace(z)
    ensures Words(y + z) == Words(y)
  {
    if z != [] {
      assert y + z == y + [z[0]] + z[1..];
      WordsSpace(y, z[0], z[1..]);
      WordsAllSpace(z[1..]);
      assert Words(y) + [] == Words(y);
    } else {
      assert y + z == y;
    }
  }

  /** str.strip() keeps the words. */
  lemma WordsStrip(s: string)
    ensures Words(Strip(s)) == Words(s)
  {
    WordsTrimStart(s);
    WordsTrimEnd(TrimStart(s));
  }

  lemma WordsTrimStart(s: string)
    ensures Words(TrimStart(s)) == Words(s)
  {
    var t := TrimStart(s);
    var x := s[..|s| - |t|];
    assert s == x + t;
    WordsLeading(x, t);
  }

  lemma WordsTrimEnd(t: string)
    ensures Words(TrimEnd(t)) == Words(t)
  {
    var r := TrimEnd(t);
    var z := t[|r|..];
    assert t == r + z;
    WordsTrailing(r, z);
  }

  /** The words of each line, one after the other. */
  function WordsOfLines(lines: seq<string>): seq<string> {
    if lines == [] then [] else Words(lines[0]) + WordsOfLines(lines[1..])
  }

  /** Joining with a whitespace separator gives the words of the parts, in order. */
  lemma {:induction false} WordsJoin(lines: seq<string>, c: char)
    requires IsSpace(c)
    ensures Words(Join(lines, [c])) == WordsOfLines(lines)
  {
    if |lines| == 1 {
      assert WordsOfLines(lines) == Words(lines[0]) + [];
    } else if |lines| > 1 {
      WordsJoin(lines[1..], c);
      assert Join(lines, [c]) == lines[0] + [c] + Join(lines[1..], [c]);
      WordsSpace(lines[0], c, Join(lines[1..], [c]));
    }
  }

  /** Joining words with single spaces and splitting again gives the words back. */
  lemma {:induction false} WordsOfJoinedWords(ws: seq<string>)
    requires forall i :: 0 <= i < |ws| ==> ws[i] != "" && NoSpace(ws[i])
    ensures Words(Join(ws, " ")) == ws
  {
    WordsJoin(ws, ' ');
    WordsOfLinesOfWords(ws);
  }

  lemma {:induction false} WordsOfLinesOfWords(ws: seq<string>)
    requires forall i :: 0 <= i < |ws| ==> ws[i] != "" && NoSpace(ws[i])
    ensures WordsOfLines(ws) == ws
  {
    if ws != [] {
      WordsOfWord(ws[0]);
      WordsOfLinesOfWords(ws[1..]);
    }
  }

  // clean_resume_text

  /** Each line stripped, the blank ones dropped, in order. */
  function StrippedLines(lines: seq<string>): (r: seq<string>)
    ensures |r| <= |lines|
  {
    if lines == [] then []
    else if Strip(lines[0]) == "" then StrippedLines(lines[1..])
    else [Strip(lines[0])] + StrippedLines(lines[1..])
  }

  /** Dropping blank lines and stripping the others keeps every word. */
  lemma {:induction false} StrippedLinesWords(lines: seq<string>)
    ensures WordsOfLines(StrippedLines(lines)) == WordsOfLines(lines)
  {
    if lines != [] {
      var rest, h := lines[1..], Strip(lines[0]);
      var sr := StrippedLines(rest);
      assert WordsOfLines(lines) == Words(h) + WordsOfLines(rest) by {
        WordsStrip(lines[0]);
      }
      StrippedLinesWords(rest);
      if h == "" {
        assert StrippedLines(lines) == sr;
        WordsEmpty(h);
      } else {
        assert StrippedLines(lines) == [h] + sr;
        WordsOfLinesCons(h, sr);
      }
    }
  }

  lemma WordsEmpty(h: string)
    requires h == ""
    ensures Words(h) == []
  {
    assert Pieces(h) == [""];
  }

  lemma WordsOfLinesCons(h: string, t: seq<string>)
    ensures WordsOfLines([h] + t) == Words(h) + WordsOfLines(t)
  {
    assert ([h] + t)[0] == h && ([h] + t)[1..] == t;
  }

  /** clean_resume_text: strip the lines, drop the blank ones, then collapse every whitespace run to one space. */
  function CleanResumeText(text: string): string {
    var lines := StrippedLines(Split(text, '\n'));
    Join(Words(Join(lines, "\n")), " ")
  }

  /** The cleaned text is the words of the input, in order, joined by single spaces. */
  lemma CleanResumeTextWords(text: string)
    ensures CleanResumeText(text) == Join(Words(text), " ")
  {
    var lines := Split(text, '\n');
    WordsJoin(StrippedLines(lines), '\n');
    StrippedLinesWords(lines);
    JoinSplit(text, '\n');
    WordsJoin(lines, '\n');
  }

  /**
   * Text whose whitespace is single spaces between non-whitespace
   * characters: no newline, no tab, no double space, nothing at either end.
   */
  predicate SingleSpaced(s: string) {
    && (s == [] || (!IsSpace(s[0]) && !IsSpace(s[|s| - 1])))
    && (forall i :: 0 <= i < |s| && IsSpace(s[i]) ==> s[i] == ' ')
    && (forall i :: 0 <= i < |s| - 1 && IsSpace(s[i]) ==> !IsSpace(s[i + 1]))
  }

  lemma {:induction false} JoinedWordsSingleSpaced(ws: seq<string>)
    requires forall i :: 0 <= i < |ws| ==> ws[i] != "" && NoSpace(ws[i])
    ensures SingleSpaced(Join(ws, " "))
    ensures ws != [] ==> Join(ws, " ") != ""
  {
    if |ws| > 1 {
      JoinedWordsSingleSpaced(ws[1..]);
      var w, rest := ws[0], Join(ws[1..], " ");
      var s := Join(ws, " ");
      assert s == w + " " + rest;
      forall i | 0 <= i < |s| && IsSpace(s[i]) ensures s[i] == ' ' {
        if i > |w| {
          assert s[i] == rest[i - |w| - 1];
        }
      }
      forall i | 0 <= i < |s| - 1 && IsSpace(s[i]) ensures !IsSpace(s[i + 1]) {
        if i == |w| {
          assert s[i + 1] == rest[0];
        } else if i > |w| {
          assert s[i] == rest[i - |w| - 1] && s[i + 1] == rest[i - |w|];
        }
      }
      assert s[0] == w[0] && s[|s| - 1] == rest[|rest| - 1];
    }
  }

  /**
   * The cleaned text keeps the input's words in order, is single-spaced,
   * and is empty exactly when the input is whitespace only.
   */
  lemma CleanResumeTextSpec(text: string)
    ensures var r := CleanResumeText(text);
      && Words(r) == Words(text)
      && SingleSpaced(r)
      && (r == "" <==> AllSpace(text))
  {
    CleanResumeTextWords(text);
    WordsOfJoinedWords(Words(text));
    JoinedWordsSingleSpaced(Words(text));
    WordsEmptyIffAllSpace(text);
  }

  /** A unit separator between two words is white space to Python: the words come out single-spaced. */
  lemma CleanResumeTextSeparator(a: string, b: string)
    requires a != "" && b != "" && NoSpace(a) && NoSpace(b)
    ensures CleanResumeText(a + ['\U{1F}'] + b) == a + " " + b
  {
    CleanResumeTextWords(a + ['\U{1F}'] + b);
    SeparatorSplitsWords(a, b);
    assert Join([a, b], " ") == a + " " + Join([b], " ");
  }

  lemma SeparatorSplitsWords(a: string, b: string)
    requires a != "" && b != "" && NoSpace(a) && NoSpace(b)
    ensures Words(a + ['\U{1F}'] + b) == [a, b]
  {
    WordsSpace(a, '\U{1F}', b);
    WordsOfWord(a);
    WordsOfWord(b);
  }

  /** Cleaning twice is cleaning once. */
  lemma CleanResumeTextIdempotent(text: string)
    ensures CleanResumeText(CleanResumeText(text)) == CleanResumeText(text)
  {
    var r := CleanResumeText(text);
    CleanResumeTextWords(text);
    CleanResumeTextWords(r);
    WordsOfJoinedWords(Words(text));
  }

  // extract_text_from_pdf and extract_text_from_docx

  /** Each text that `keep` accepts, followed by a newline, in order: the `text += t + "\n"` loops. */
  function Appended(ts: seq<string>, keep: string -> bool): string {
    if ts == [] then ""
    else
      var last := ts[|ts| - 1];
      Appended(ts[..|ts| - 1], keep) + (if keep(last) then last + "\n" else "")
  }

  /** One more text: its line is added at the end when it is kept. */
  lemma AppendedSnoc(ts: seq<string>, t: string, keep: string -> bool)
    ensures Appended(ts + [t], keep) == Appended(ts, keep) + (if keep(t) then t + "\n" else "")
  {
    assert (ts + [t])[..|ts|] == ts;
  }

  lemma {:induction false} AppendedConcat(a: seq<string>, b: seq<string>, keep: string -> bool)
    ensures Appended(a + b, keep) == Appended(a, keep) + Appended(b, keep)
  {
    if b == [] {
      assert a + b == a;
    } else {
      var n := |b| - 1;
      assert (a + b)[..|a| + n] == a + b[..n];
      AppendedConcat(a, b[..n], keep);
    }
  }

  /** The accumulated text is blank exactly when every kept text is. */
  lemma {:induction false} AppendedBlank(ts: seq<string>, keep: string -> bool)
    ensures AllSpace(Appended(ts, keep)) <==> forall i :: 0 <= i < |ts| && keep(ts[i]) ==> AllSpace(ts[i])
  {
    if ts != [] {
      var n := |ts| - 1;
      AppendedBlank(ts[..n], keep);
      var prefix := Appended(ts[..n], keep);
      var tail := if keep(ts[n]) then ts[n] + "\n" else "";
      assert Appended(ts, keep) == prefix + tail;
      assert AllSpace(prefix + tail) <==> AllSpace(prefix) && AllSpace(tail) by {
        if AllSpace(prefix + tail) {
          assert forall i :: 0 <= i < |prefix| ==> (prefix + tail)[i] == prefix[i];
          assert forall i :: 0 <= i < |tail| ==> (prefix + tail)[|prefix| + i] == tail[i];
        }
      }
      if keep(ts[n]) {
        assert AllSpace(tail) <==> AllSpace(ts[n]) by {
          assert forall i :: 0 <= i < |ts[n]| ==> tail[i] == ts[n][i];
        }
      }
    }
  }

  /** The accumulated text is empty exactly when no text is kept. */
  lemma {:induction false} AppendedEmpty(ts: seq<string>, keep: string -> bool)
    ensures Appended(ts, keep) == "" <==> forall i :: 0 <= i < |ts| ==> !keep(ts[i])
  {
    if ts != [] {
      var n := |ts| - 1;
      AppendedEmpty(ts[..n], keep);
      assert forall i :: 0 <= i < n ==> ts[..n][i] == ts[i];
    }
  }

  /** A page that gave some text; a page whose extraction gave None is modelled as "". */
  predicate HasText(t: string) { t != "" }

  /** The text has a non-whitespace character, so its strip is non-empty (NotBlankStrip). */
  predicate NotBlank(t: string) { !AllSpace(t) }

  lemma NotBlankStrip(t: string)
    ensures NotBlank(t) <==> Strip(t) != ""
  {
    StripEmptyIffAllSpace(t);
  }

  /** What the PDF library gives for a file: the message of the exception it raised, or the text of each page. */
  datatype PdfFile = PdfUnreadable(reason: string) | PdfPages(pages: seq<string>)

  /** What the DOCX library gives for a file: paragraphs, then tables as rows of cells. */
  datatype DocxFile = DocxUnreadable(reason: string) | DocxDocument(paragraphs: seq<string>, tables: seq<seq<seq<string>>>)

  function PdfError(reason: string): string { "Error parsing PDF: " + reason }

  function DocxError(reason: string): string { "Error parsing DOCX: " + reason }

  const PdfEmpty := "PDF file is empty"
  const PdfNoText := "No text could be extracted from PDF"
  const DocxNoText := "No text could be extracted from DOCX"

  /** The text extract_text_from_pdf returns, or the message of the ValueError it raises. */
  function PdfExtraction(f: PdfFile): Result<string, string> {
    match f
    case PdfUnreadable(reason) => Err(PdfError(reason))
    case PdfPages(pages) =>
      if pages == [] then Err(PdfError(PdfEmpty))
      else
        var text := Appended(pages, HasText);
        if Strip(text) == "" then Err(PdfError(PdfNoText)) else Ok(text)
  }

  /**
   * A readable PDF with pages gives text exactly when some page has a
   * non-whitespace character; the text is then its non-empty pages, each
   * followed by a newline.
   */
  lemma PdfExtractionSpec(f: PdfFile)
    requires f.PdfPages? && f.pages != []
    ensures PdfExtraction(f).Ok? <==> exists i :: 0 <= i < |f.pages| && !AllSpace(f.pages[i])
    ensures PdfExtraction(f).Ok? ==> PdfExtraction(f).value == Appended(f.pages, HasText)
    ensures PdfExtraction(f).Err? ==> PdfExtraction(f).error == PdfError(PdfNoText)
  {
    var text := Appended(f.pages, HasText);
    StripEmptyIffAllSpace(text);
    AppendedBlank(f.pages, HasText);
    forall i | 0 <= i < |f.pages| && !HasText(f.pages[i]) ensures AllSpace(f.pages[i]) {
    }
  }

  /** extract_text_from_pdf over the library's page texts. */
  method ExtractTextFromPdf(f: PdfFile) returns (r: Result<string, string>)
    ensures r == PdfExtraction(f)
  {
    if f.PdfUnreadable? {
      return Err(PdfError(f.reason));
    }
    var pages := f.pages;
    if |pages| == 0 {
      return Err(PdfError(PdfEmpty));
    }
    var text := "";
    var i := 0;
    while i < |pages|
      invariant 0 <= i <= |pages|
      invariant text == Appended(pages[..i], HasText)
    {
      var pageText := pages[i];
      if pageText != "" {
        text := text + pageText + "\n";
      }
      assert pages[..i + 1] == pages[..i] + [pageText];
      AppendedSnoc(pages[..i], pageText, HasText);
      i := i + 1;
    }
    assert pages[..i] == pages;
    if Strip(text) == "" {
      return Err(PdfError(PdfNoText));
    }
    return Ok(text);
  }

  /** The cells of a table's rows, row by row. */
  function RowCells(rows: seq<seq<string>>): seq<string> {
    if rows == [] then [] else RowCells(rows[..|rows| - 1]) + rows[|rows| - 1]
  }

  /** The cells of all tables, table by table, each in row-major order. */
  function Cells(tables: seq<seq<seq<string>>>): seq<string> {
    if tables == [] then [] else Cells(tables[..|tables| - 1]) + RowCells(tables[|tables| - 1])
  }

  /** The text extract_text_from_docx returns, or the message of the ValueError it raises. */
  function DocxExtraction(f: DocxFile): Result<string, string> {
    match f
    case DocxUnreadable(reason) => Err(DocxError(reason))
    case DocxDocument(paragraphs, tables) =>
      var text := Appended(paragraphs + Cells(tables), NotBlank);
      if Strip(text) == "" then Err(DocxError(DocxNoText)) else Ok(text)
  }

  /**
   * A readable DOCX gives text exactly when some paragraph or cell is not
   * blank; the text is then the non-blank paragraphs and then the non-blank
   * cells, each followed by a newline.
   */
  lemma DocxExtractionSpec(f: DocxFile)
    requires f.DocxDocument?
    ensures var all := f.paragraphs + Cells(f.tables);
      && (DocxExtraction(f).Ok? <==> exists i :: 0 <= i < |all| && !AllSpace(all[i]))
      && (DocxExtraction(f).Ok? ==> DocxExtraction(f).value == Appended(f.paragraphs, NotBlank) + Appended(Cells(f.tables), NotBlank))
      && (DocxExtraction(f).Err? ==> DocxExtraction(f).error == DocxError(DocxNoText))
  {
    var all := f.paragraphs + Cells(f.tables);
    DocxBlank(all);
    AppendedConcat(f.paragraphs, Cells(f.tables), NotBlank);
  }

  /** The accumulated non-blank texts are blank exactly when every text is. */
  lemma DocxBlank(all: seq<string>)
    ensures Strip(Appended(all, NotBlank)) == "" <==> forall i :: 0 <= i < |all| ==> AllSpace(all[i])
  {
    StripEmptyIffAllSpace(Appended(all, NotBlank));
    AppendedBlank(all, NotBlank);
  }

  /** extract_text_from_docx over the library's paragraphs and table cells. */
  method ExtractTextFromDocx(f: DocxFile) returns (r: Result<string, string>)
    ensures r == DocxExtraction(f)
  {
    if f.DocxUnreadable? {
      return Err(DocxError(f.reason));
    }
    var paragraphs, tables := f.paragraphs, f.tables;
    var text := AppendNonBlank(paragraphs);
    var t := 0;
    while t < |tables|
      invariant 0 <= t <= |tables|
      invariant text == Appended(paragraphs, NotBlank) + Appended(Cells(tables[..t]), NotBlank)
    {
      var rows := tables[t];
      var rowText := AppendRows(rows);
      assert tables[..t + 1][..t] == tables[..t];
      AppendedConcat(Cells(tables[..t]), RowCells(rows), NotBlank);
      text := text + rowText;
      t := t + 1;
    }
    assert tables[..t] == tables;
    AppendedConcat(paragraphs, Cells(tables), NotBlank);
    if Strip(text) == "" {
      return Err(DocxError(DocxNoText));
    }
    return Ok(text);
  }

  /** The row loop of extract_text_from_docx, over one table. */
  method AppendRows(rows: seq<seq<string>>) returns (text: string)
    ensures text == Appended(RowCells(rows), NotBlank)
  {
    text := "";
    var r := 0;
    while r < |rows|
      invariant 0 <= r <= |rows|
      invariant text == Appended(RowCells(rows[..r]), NotBlank)
    {
      var cellText := AppendNonBlank(rows[r]);
      text := text + cellText;
      assert rows[..r + 1][..r] == rows[..r];
      AppendedConcat(RowCells(rows[..r]), rows[r], NotBlank);
      r := r + 1;
    }
    assert rows[..r] == rows;
  }

  /** The paragraph loop of extract_text_from_docx, and its cell loop over one row. */
  method AppendNonBlank(cells: seq<string>) returns (text: string)
    ensures text == Appended(cells, NotBlank)
  {
    text := "";
    var c := 0;
    while c < |cells|
      invariant 0 <= c <= |cells|
      invariant text == Appended(cells[..c], NotBlank)
    {
      var cell := cells[c];
      if NotBlank(cell) {
        text := text + cell + "\n";
      }
      assert cells[..c + 1] == cells[..c] + [cell];
      AppendedSnoc(cells[..c], cell, NotBlank);
      c := c + 1;
    }
    assert cells[..c] == cells;
  }

  // extract_text_from_resume

  /** Whether a string ends with a suffix: str.endswith. */
  predicate EndsWith(s: string, suffix: string) {
    |suffix| <= |s| && s[|s| - |suffix|..] == suffix
  }

  /** The parser the lower-cased file name selects, and the format name it reports. */
  datatype Format = Pdf | Docx

  function FormatName(f: Format): string {
    match f
    case Pdf => "pdf"
    case Docx => "docx"
  }

  function ResumeFormat(filename: string): Option<Format> {
    var lowered := Lower(filename);
    if EndsWith(lowered, ".pdf") then Some(Pdf)
    else if EndsWith(lowered, ".docx") || EndsWith(lowered, ".doc") then Some(Docx)
    else None
  }

  /** The extracted text paired with the format name, or the extraction's error. */
  function Tagged(text: Result<string, string>, format: Format): Result<(string, string), string> {
    if text.Ok? then Ok((text.value, FormatName(format))) else Err(text.error)
  }

  function UnsupportedFormat(filename: string): string { "Unsupported file format: " + filename }

  /**
   * extract_text_from_resume: the text and the format name from the parser
   * the file name selects, or the error message. Both parsers' outcomes
   * for the file's bytes are parameters; only the selected one is used.
   */
  method ExtractTextFromResume(filename: string, pdf: PdfFile, docx: DocxFile)
    returns (r: Result<(string, string), string>)
    ensures ResumeFormat(filename) == None ==> r == Err(UnsupportedFormat(filename))
    ensures ResumeFormat(filename) == Some(Pdf) ==> r == Tagged(PdfExtraction(pdf), Pdf)
    ensures ResumeFormat(filename) == Some(Docx) ==> r == Tagged(DocxExtraction(docx), Docx)
  {
    var lowered := Lower(filename);
    if EndsWith(lowered, ".pdf") {
      var text := ExtractTextFromPdf(pdf);
      return Tagged(text, Pdf);
    } else if EndsWith(lowered, ".docx") || EndsWith(lowered, ".doc") {
      var text := ExtractTextFromDocx(docx);
      return Tagged(text, Docx);
    }
    return Err(UnsupportedFormat(filename));
  }

  /** The format does not depend on the case of the file name. */
  lemma ResumeFormatCaseInsensitive(filename: string)
    ensures ResumeFormat(Lower(filename)) == ResumeFormat(filename)
  {
    LowerIdempotent(filename);
  }

  /** The suffix is compared in lower case. */
  lemma ResumeFormatUpperCaseExample()
    ensures ResumeFormat("CV.PDF") == Some(Pdf)
  {
    assert Lower("CV.PDF") == "cv.pdf";
    assert "cv.pdf"[2..] == ".pdf";
  }

  /** Only the last suffix counts. */
  lemma ResumeFormatLastSuffixExample()
    ensures ResumeFormat("cv.pdf.docx") == Some(Docx)
  {
    assert Lower("cv.pdf.docx") == "cv.pdf.docx";
    assert "cv.pdf.docx"[6..] == ".docx";
  }

  /** An unknown suffix is refused. */
  lemma ResumeFormatUnknownExample()
    ensures ResumeFormat("cv.txt") == None
  {
    assert Lower("cv.txt") == "cv.txt";
    assert "cv.txt"[2..] != ".pdf" && "cv.txt"[2..] != ".doc";
  }
}
