/** The OCR tool (app/pdf-to-word/page.tsx): an image, or every page of a
    PDF rendered to a canvas, is run through text recognition; the text is
    shown for editing and can be downloaded as a Word document with one
    paragraph per line.

    Recognition and rendering are inputs: what recognising an image gave
    (None when it threw), and per PDF page whether it threw, had no
    drawing context, or was recognised as some text. */
module PdfToWord {
  import opened Wrappers
  import opened Files
  import opened JsString

  /** The status line; `ProcessingPage(i, n)` is "Processing page i of n...". */
  datatype Status = Blank | ScanningImage | ProcessingPage(page: nat, total: nat) | Done

  /** What happened to one PDF page: an exception (fetching, rendering or
      recognising it), no 2D context (skipped), or its recognised text. */
  datatype OcrPage = PageFails | NoContext | Recognised(text: string)

  const PageSeparator: string := "\n\n"

  // ---------------------------------------------------------------------
  // Progress

  /** `Math.round((i / n) * 100)`: the percentage shown while page i of n
      is processed, rounded half up. */
  function Progress(i: nat, n: nat): (r: nat)
    requires 0 < n
    ensures r * (2 * n) <= 200 * i + n < r * (2 * n) + 2 * n
  {
    var q := (200 * i + n) / (2 * n);
    assert q * (2 * n) + (200 * i + n) % (2 * n) == 200 * i + n;
    q
  }

  lemma MulMonotone(x: nat, y: nat, d: nat)
    ensures x <= y ==> x * d <= y * d
  {
    if x <= y {
      assert y * d == x * d + (y - x) * d;
    }
  }

  /** The quotient of `a` by `d` is the `q` whose multiple of `d` lies
      within `d` below `a`. */
  lemma DivBetween(a: nat, d: nat, q: nat)
    requires 0 < d && q * d <= a < q * d + d
    ensures a / d == q
  {
    var r := a / d;
    assert r * d + a % d == a;
    MulMonotone(q + 1, r, d);
    MulMonotone(r + 1, q, d);
    assert (q + 1) * d == q * d + d;
    assert (r + 1) * d == r * d + d;
  }

  lemma DivMonotone(a: nat, b: nat, d: nat)
    requires 0 < d && a <= b
    ensures a / d <= b / d
  {
    var qa, qb := a / d, b / d;
    assert qa * d + a % d == a;
    assert qb * d + b % d == b;
    MulMonotone(qb + 1, qa, d);
    assert (qb + 1) * d == qb * d + d;
  }

  /** Progress never falls as the page number grows. */
  lemma ProgressMonotone(i: nat, j: nat, n: nat)
    requires 0 < n && i <= j
    ensures Progress(i, n) <= Progress(j, n)
  {
    DivMonotone(200 * i + n, 200 * j + n, 2 * n);
  }

  /** The last page shows exactly 100, and no page shows more. */
  lemma ProgressLastPage(i: nat, n: nat)
    requires 0 < n && i <= n
    ensures Progress(n, n) == 100
    ensures Progress(i, n) <= 100
  {
    DivBetween(200 * n + n, 2 * n, 100);
    ProgressMonotone(i, n, n);
  }

  /** The first value shown is round(100 / n), not 0: at least 1 exactly
      when there are at most 200 pages. */
  lemma ProgressFirstPage(n: nat)
    requires 0 < n
    ensures Progress(1, n) >= 1 <==> n <= 200
  {
    if n <= 200 {
      DivMonotone(2 * n, 200 + n, 2 * n);
      assert (2 * n) / (2 * n) == 1;
    } else {
      DivBetween(200 + n, 2 * n, 0);
    }
  }

  // ---------------------------------------------------------------------
  // Text of a PDF

  /** The text `processPdf` returns: each recognised page's text followed
      by a blank line, in page order; pages without a context add nothing;
      None when a page threw. */
  function OcrText(pages: seq<OcrPage>): (r: Option<string>)
    ensures r.None? <==> PageFails in pages
  {
    if pages == [] then Some("")
    else
      var init := pages[..|pages| - 1];
      assert pages == init + [pages[|pages| - 1]];
      match OcrText(init)
      case None => None
      case Some(text) =>
        match pages[|pages| - 1]
        case PageFails => None
        case NoContext => Some(text)
        case Recognised(t) => Some(text + t + PageSeparator)
  }

  /** The text of a document is the text of its first pages followed by
      the text of the rest: page order is kept. */
  lemma {:induction false} OcrTextAppend(a: seq<OcrPage>, b: seq<OcrPage>)
    requires PageFails !in a && PageFails !in b
    ensures OcrText(a + b) == Some(OcrText(a).value + OcrText(b).value)
    decreases |b|
  {
    if b == [] {
      assert a + b == a;
      assert OcrText(b) == Some("");
      assert OcrText(a).value + "" == OcrText(a).value;
    } else {
      var b', last := b[..|b| - 1], b[|b| - 1];
      assert (a + b)[..|a + b| - 1] == a + b';
      assert (a + b)[|a + b| - 1] == last;
      assert last in b;
      assert PageFails !in b' by { assert forall p <- b' :: p in b; }
      OcrTextAppend(a, b');
      var textA, textB' := OcrText(a).value, OcrText(b').value;
      if last.Recognised? {
        assert textA + textB' + last.text + PageSeparator == textA + (textB' + last.text + PageSeparator);
      }
    }
  }

  /** A page recognised as `t` contributes `t` and a blank line. */
  lemma OcrTextOnePage(t: string)
    ensures OcrText([Recognised(t)]) == Some(t + PageSeparator)
  {
    assert [Recognised(t)][..0] == [];
    assert "" + t == t;
  }

  /** A page without a drawing context contributes nothing. */
  lemma OcrTextSkipsNoContext(a: seq<OcrPage>, b: seq<OcrPage>)
    requires PageFails !in a && PageFails !in b
    ensures OcrText(a + [NoContext] + b) == OcrText(a + b)
  {
    assert [NoContext][..0] == [];
    OcrTextAppend(a, [NoContext]);
    OcrTextAppend(a + [NoContext], b);
    OcrTextAppend(a, b);
  }

  // ---------------------------------------------------------------------
  // Word document

  /** `${file?.name.split('.')[0] || 'document'}.docx`. */
  function DocxName(file: Option<FileInfo>): (r: string)
    ensures file.None? ==> r == "document.docx"
    ensures file.Some? ==>
              var name := file.value.name;
              var stem := if '.' in name then name[..IndexOf(name, '.')] else name;
              r == (if stem == [] then "document" else stem) + ".docx"
  {
    var stem := if file.None? then "" else Split(file.value.name, '.')[0];
    if file.Some? then
      SplitFirst(file.value.name, '.');
      (if stem == "" then "document" else stem) + ".docx"
    else
      (if stem == "" then "document" else stem) + ".docx"
  }

  /** A name `<stem>.<anything>` with a non-empty, dot-free stem downloads
      as `<stem>.docx`; `scan.v2.pdf` becomes `scan.docx`. */
  lemma DocxNameOfStem(stem: string, rest: string, f: FileInfo)
    requires stem != [] && '.' !in stem && f.name == stem + "." + rest
    ensures DocxName(Some(f)) == stem + ".docx"
  {
    var name := f.name;
    assert name[|stem|] == '.' && name[..|stem|] == stem;
    assert forall j :: 0 <= j < |stem| ==> name[j] == stem[j] && stem[j] in stem;
    IndexOfFirst(name, '.', |stem|);
  }

  datatype WordDownload = WordDownload(paragraphs: seq<string>, filename: string)

  /** `downloadWordDoc`: nothing for empty text; otherwise one paragraph
      per `\n`-separated line, in order, named by `DocxName`. */
  function WordDocument(extractedText: string, file: Option<FileInfo>): (r: Option<WordDownload>)
    ensures r.None? <==> extractedText == ""
    ensures r.Some? ==>
              && Join(r.value.paragraphs, '\n') == extractedText
              && (forall p <- r.value.paragraphs :: '\n' !in p)
              && |r.value.paragraphs| == Occurrences(extractedText, '\n') + 1
              && r.value.filename == DocxName(file)
  {
    if extractedText == "" then None
    else
      JoinSplit(extractedText, '\n');
      SplitPartsFree(extractedText, '\n');
      SplitCount(extractedText, '\n');
      Some(WordDownload(Split(extractedText, '\n'), DocxName(file)))
  }

  /** The paragraphs are the text's lines exactly: text made of newline-free
      lines comes back as those lines. */
  lemma WordDocumentLines(lines: seq<string>, file: Option<FileInfo>)
    requires |lines| >= 1 && lines != [""]
    requires forall l <- lines :: '\n' !in l
    ensures WordDocument(Join(lines, '\n'), file) == Some(WordDownload(lines, DocxName(file)))
  {
    SplitJoin(lines, '\n');
  }

  // ---------------------------------------------------------------------
  // The page component's state

  datatype ConvertOutcome = Skipped | Aborted | Converted

  /** What a conversion run of `file` yields: the image's text, the PDF's
      page texts, the empty text for any other type, or None when
      something threw. */
  function RunText(file: FileInfo, imageText: Option<string>, pdf: Option<seq<OcrPage>>): (r: Option<string>)
    ensures IsImageType(file.mime) ==> r == imageText
    ensures !IsImageType(file.mime) && file.mime == PdfType ==>
              (r.None? <==> pdf.None? || PageFails in pdf.value)
    ensures !IsImageType(file.mime) && file.mime != PdfType ==> r == Some("")
  {
    if IsImageType(file.mime) then imageText
    else if file.mime == PdfType then (if pdf.None? then None else OcrText(pdf.value))
    else Some("")
  }

  class PdfToWord {
    var file: Option<FileInfo>
    var preview: Option<FileInfo>
    var progress: nat
    var status: Status
    var extractedText: string
    var showResult: bool

    constructor ()
      ensures file == None && preview == None && progress == 0 && status == Blank
      ensures extractedText == "" && !showResult
    {
      file, preview, progress, status := None, None, 0, Blank;
      extractedText, showResult := "", false;
    }

    /** `processFile`: the text, result and progress are reset; an image
        gets a preview, a PDF none, and any other type is rejected by
        clearing the file again (an earlier preview stays). */
    method ProcessFile(f: FileInfo)
      modifies this`file, this`preview, this`extractedText, this`showResult, this`progress
      ensures extractedText == "" && !showResult && progress == 0
      ensures IsImageType(f.mime) ==> file == Some(f) && preview == Some(f)
      ensures !IsImageType(f.mime) && f.mime == PdfType ==> file == Some(f) && preview == None
      ensures !IsImageType(f.mime) && f.mime != PdfType ==> file == None && preview == old(preview)
    {
      file := Some(f);
      extractedText := "";
      showResult := false;
      progress := 0;
      if IsImageType(f.mime) {
        preview := Some(f);
      } else if f.mime == PdfType {
        preview := None;
      } else {
        file := None;
      }
    }

    /** `removeFile`: file, preview, text and result are cleared; progress stays. */
    method RemoveFile()
      modifies this`file, this`preview, this`extractedText, this`showResult
      ensures file == None && preview == None && extractedText == "" && !showResult
    {
      file, preview, extractedText, showResult := None, None, "", false;
    }

    /** The page loop of `processPdf`: for page i of n the status and the
        progress are set first, then the page is recognised; the first page
        that throws ends the run. `reported` lists the progress values set. */
    method ProcessPdf(pages: seq<OcrPage>) returns (text: Option<string>, reported: seq<nat>)
      modifies this`progress, this`status
      ensures text == OcrText(pages)
      ensures |reported| <= |pages|
      ensures forall k :: 0 <= k < |reported| ==> reported[k] == Progress(k + 1, |pages|)
      ensures PageFails !in pages ==> |reported| == |pages|
      ensures PageFails in pages ==>
                0 < |reported| && pages[|reported| - 1] == PageFails && PageFails !in pages[..|reported| - 1]
      ensures |reported| == 0 ==> progress == old(progress) && status == old(status)
      ensures |reported| > 0 ==> progress == Last(reported) && status == ProcessingPage(|reported|, |pages|)
    {
      var fullText := "";
      var n := |pages|;
      reported := [];
      var i := 1;
      while i <= n
        invariant 1 <= i <= n + 1
        invariant |reported| == i - 1
        invariant forall k :: 0 <= k < i - 1 ==> reported[k] == Progress(k + 1, n)
        invariant PageFails !in pages[..i - 1]
        invariant OcrText(pages[..i - 1]) == Some(fullText)
        invariant i == 1 ==> progress == old(progress) && status == old(status)
        invariant i > 1 ==> progress == Progress(i - 1, n) && status == ProcessingPage(i - 1, n)
      {
        status := ProcessingPage(i, n);
        progress := Progress(i, n);
        reported := reported + [progress];
        assert pages[..i] == pages[..i - 1] + [pages[i - 1]];
        assert pages[..i][..i - 1] == pages[..i - 1];
        match pages[i - 1] {
          case PageFails =>
            assert pages[i - 1] in pages;
            return None, reported;
          case NoContext =>
          case Recognised(t) =>
            fullText := fullText + t + PageSeparator;
        }
        i := i + 1;
      }
      assert pages[..n] == pages;
      text := Some(fullText);
    }

    /** `handleConvert`: nothing without a file; otherwise text and result
        are cleared, the image or PDF is recognised, and on success the
        text is shown with status "Done!". Any exception aborts the whole
        run, leaving the text empty and the result hidden. */
    method HandleConvert(imageText: Option<string>, recognizerProgress: seq<nat>, pdf: Option<seq<OcrPage>>)
      returns (outcome: ConvertOutcome, reported: seq<nat>)
      modifies this`progress, this`status, this`extractedText, this`showResult
      ensures old(file).None? ==>
                && outcome == Skipped && progress == old(progress) && status == old(status)
                && extractedText == old(extractedText) && showResult == old(showResult)
      ensures old(file).Some? && RunText(file.value, imageText, pdf).Some? ==>
                && outcome == Converted && status == Done && showResult
                && extractedText == RunText(file.value, imageText, pdf).value
      ensures old(file).Some? && RunText(file.value, imageText, pdf).None? ==>
                outcome == Aborted && extractedText == "" && !showResult
      ensures old(file).Some? && IsImageType(file.value.mime) ==>
                && progress == (if recognizerProgress == [] then 30 else Last(recognizerProgress))
                && (outcome == Aborted ==> status == ScanningImage)
      ensures !(old(file).Some? && !IsImageType(file.value.mime) && file.value.mime == PdfType && pdf.Some?) ==>
                reported == []
      ensures old(file).Some? && !IsImageType(file.value.mime) && !(file.value.mime == PdfType && pdf.Some?) ==>
                progress == old(progress) && (outcome == Aborted ==> status == old(status))
      ensures old(file).Some? && !IsImageType(file.value.mime) && file.value.mime == PdfType && pdf.Some? ==>
                && |reported| <= |pdf.value|
                && (forall k :: 0 <= k < |reported| ==> reported[k] == Progress(k + 1, |pdf.value|))
                && (PageFails !in pdf.value ==> |reported| == |pdf.value|)
                && (PageFails in pdf.value ==>
                      0 < |reported| && pdf.value[|reported| - 1] == PageFails && PageFails !in pdf.value[..|reported| - 1])
                && (|reported| == 0 ==> progress == old(progress) && (outcome == Aborted ==> status == old(status)))
                && (|reported| > 0 ==> progress == Last(reported))
                && (|reported| > 0 && outcome == Aborted ==> status == ProcessingPage(|reported|, |pdf.value|))
      ensures old(file).Some? && !IsImageType(file.value.mime) && file.value.mime == PdfType
              && pdf.Some? && pdf.value != [] && PageFails !in pdf.value ==>
                progress == 100
    {
      reported := [];
      if file.None? {
        return Skipped, [];
      }
      extractedText := "";
      showResult := false;
      var text: Option<string> := Some("");
      if IsImageType(file.value.mime) {
        status := ScanningImage;
        progress := 30;
        if recognizerProgress != [] {
          progress := Last(recognizerProgress);
        }
        text := imageText;
      } else if file.value.mime == PdfType {
        if pdf.None? {
          text := None;
        } else {
          text, reported := ProcessPdf(pdf.value);
          if PageFails !in pdf.value && pdf.value != [] {
            ProgressLastPage(|pdf.value|, |pdf.value|);
          }
        }
      }
      if text.None? {
        return Aborted, reported;
      }
      extractedText := text.value;
      showResult := true;
      status := Done;
      outcome := Converted;
    }
  }
}
