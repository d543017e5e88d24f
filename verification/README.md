# pdfmagic decision logic in Dafny

This project models the decision logic inside the three tool pages of pdfmagic. That program is a client-side suite of document and image tools:

- **Resize tool** (`app/resize-tool/page.tsx`). It classifies the picked file and picks a default size target. It re-encodes an image at falling quality until it fits a byte budget, then names the result `min-<stem>.<ext>`. It re-rasterises a PDF page by page into a new document of JPEG pages named `compressed-<name>`.
- **PDF to Word** (`app/pdf-to-word/page.tsx`). It runs text recognition on an image, or on every page of a PDF. It reports progress per page and concatenates the page texts. It aborts the whole run on any exception, and builds a Word document with one paragraph per line, named `<first-dot prefix or "document">.docx`.
- **Image converter** (`app/image-converter/page.tsx`). It accepts only images, maps the chosen format to an extension, and names the download `<stem>-converted.<ext>`.

The foreign engines are inputs, not code:

- the canvas encoder is a function from an encode request (image, type, width, height, quality) to a blob size, or `None` for a null blob;
- a PDF is the sequence of what happened to each page: an exception, no drawing context, or a rendered or recognised result;
- text recognition of an image is an optional string;
- saving the pdf-lib document is a function of its pages, giving the saved size, or `None` when `save()` throws.

Modules:

- `Wrappers` (`wrappers.dfy`): `Option`.
- `Files` (`files.dfy`): the picked file (name, MIME type, size) and `type.startsWith('image/')`.
- `JsString` (`js_string.dfy`): the JavaScript string operations the pages use, with their edge cases:
  - `indexOf` and `lastIndexOf` return -1 when the character is absent;
  - `substring` clamps its bounds;
  - `split` always yields at least one part, and `join` is its inverse.
- `ResizeTool` (`resize_tool.dfy`):
  - the quality loop, as the method `CompressToBudget`;
  - the page loop over a `PdfDocument` object, as the method `RasterisePages`;
  - the page's state as the class `ResizeTool`.
- `PdfToWord` (`pdf_to_word.dfy`):
  - the OCR page loop, as `ProcessPdf`;
  - the run outcome, as `HandleConvert`, on the class `PdfToWord`;
  - the Word document and its name, as functions.
- `ImageConverter` (`image_converter.dfy`): pure functions over a value holding the selected file and preview.

Quality is an integer count of tenths. In the source, `quality -= 0.1` drifts in floating point so that each value stays just above its tenth. The encodes therefore happen at 0.9, 0.8, … 0.1, and the loop then leaves on the `quality < 0.1` test. In tenths that is 9 down to 1, at most nine encodes, and the cap of ten iterations never binds. `CompressToBudget`'s invariant proves this.

The model follows the code as written:

- the image result is the LAST encoded blob, not the smallest;
- a failing page aborts the whole OCR or compression run, with no per-page recovery and no partially succeeded state;
- each page gets its own recognition worker;
- the image loop reports no progress.

## Model

| member | source | states |
|---|---|---|
| `Files.IsImageType` | app/resize-tool/page.tsx:49 | true exactly when the type's first six characters are `image/`; never true for `application/pdf` |
| `JsString.IndexOf` | app/pdf-to-word/page.tsx:168 | -1 exactly when the character is absent; otherwise the position of an occurrence with none before it |
| `JsString.LastIndexOf` | app/resize-tool/page.tsx:157 | -1 exactly when the character is absent; otherwise the position of an occurrence with none after it |
| `JsString.Substring` | app/resize-tool/page.tsx:157 | in-range bounds give that slice; two non-positive bounds (`substring(0, -1)`) give the empty string; the result is a prefix of the string from the lower clamped bound |
| `JsString.Split` | app/pdf-to-word/page.tsx:154 | always at least one part, even for the empty string |
| `JsString.SplitPartsFree` | app/pdf-to-word/page.tsx:154 | no part contains the separator |
| `JsString.JoinSplit` | app/pdf-to-word/page.tsx:154 | joining the split parts with the separator gives the string back |
| `JsString.SplitJoin` | app/pdf-to-word/page.tsx:154 | splitting a join of separator-free parts gives the parts back |
| `JsString.SplitCount` | app/pdf-to-word/page.tsx:154 | a split has one more part than the string has separators |
| `JsString.SplitLast` | app/resize-tool/page.tsx:155 | `split('.').pop()` is the text after the last dot, or the whole string when there is no dot |
| `JsString.LastIndexOfLast` | app/resize-tool/page.tsx:157 | an occurrence with none after it is the one `lastIndexOf` returns |
| `JsString.IndexOfFirst` | app/pdf-to-word/page.tsx:168 | an occurrence with none before it is the one `indexOf` returns |
| `JsString.LastIndexOfAfter` | app/resize-tool/page.tsx:157 | past an occurrence at i, the last occurrence is that of the remaining text shifted by i+1, or i itself when the rest has none |
| `JsString.NoLastIndex` | app/resize-tool/page.tsx:157 | a string where `indexOf` finds nothing has `lastIndexOf` -1 too |
| `JsString.SplitStep` | app/pdf-to-word/page.tsx:154 | a string with the separator splits into the text before its first separator, then the split of the text after it |
| `JsString.SplitFirst` | app/pdf-to-word/page.tsx:168 | `split('.')[0]` is the text before the first dot, or the whole string |
| `ResizeTool.Classify` | app/resize-tool/page.tsx:49-71 | image exactly for types starting `image/`, pdf exactly for `application/pdf`, rejected otherwise |
| `ResizeTool.DefaultTargetKb` | app/resize-tool/page.tsx:59-60 | never above 100; below 100 it is the size in KB rounded to the nearest KB (halves up); it is 100 exactly when the rounded size reaches 100 |
| `ResizeTool.OutputType` | app/resize-tool/page.tsx:133 | never `image/png`; the input type is kept except that PNG becomes JPEG |
| `ResizeTool.OutputExtension` | app/resize-tool/page.tsx:155-156 | never contains a dot; for JPEG output it is `jpg` or `jpeg`; otherwise it is the text after the last dot (the whole name without a dot) |
| `ResizeTool.CompressedImageName` | app/resize-tool/page.tsx:157 | the download name starts with `min-` |
| `ResizeTool.CompressedImageNameParts` | app/resize-tool/page.tsx:155-157 | name = `min-` + text before the last dot (empty without a dot) + `.` + text after it, replaced by `jpg` for JPEG output unless it is `jpg` or `jpeg` |
| `ResizeTool.PngDownloadName` | app/resize-tool/page.tsx:133-157 | `<stem>.png` with a dot-free stem downloads as `min-<stem>.jpg` (so `photo.png` gives `min-photo.jpg`) |
| `ResizeTool.CompressToBudget` | app/resize-tool/page.tsx:129-147 | between 1 and 9 encodes, all at the same image, type, width and height, at qualities 9, 8, … tenths; every encode but the last gave a blob over budget; the result is the last encode; an over-budget result means quality 1 was reached |
| `ResizeTool.LadderDeterministic` | app/resize-tool/page.tsx:129-147 | two runs with the same encoder and budget make the same encodes and give the same result |
| `ResizeTool.LadderPrefixOverBudget` | app/resize-tool/page.tsx:142-146 | a run stops no earlier than any other run with the same encoder, because it stops only on a null blob, a blob within budget, or the floor |
| `ResizeTool.LadderNegativeBudget` | app/resize-tool/page.tsx:120-146 | a negative budget is never met: a run that produced a blob made all nine encodes and ended at quality 1 |
| `ResizeTool.LadderResult` | app/resize-tool/page.tsx:141-149 | no encode below quality 1 or above 9; a blob that was produced fits the budget or was encoded at quality 1; failure exactly when the last encode gave no blob |
| `ResizeTool.Rasterised` | app/resize-tool/page.tsx:183-211 | at most one output page per source page; every output page holds exactly one image, drawn at (0,0) over the whole page |
| `ResizeTool.RasterisedAppend` | app/resize-tool/page.tsx:183-211 | source order is kept: the pages of a concatenation are the pages of each part, in turn |
| `ResizeTool.RasterisedSkipsNoContext` | app/resize-tool/page.tsx:193 | a page without a drawing context adds no output page |
| `ResizeTool.RasterisedAllRendered` | app/resize-tool/page.tsx:187-210 | when every page rendered, there are as many output pages as source pages, and page k has page k's viewport size with its image filling it |
| `ResizeTool.PdfDocument.constructor` | app/resize-tool/page.tsx:180 | a new document has no pages |
| `ResizeTool.PdfDocument.AddPage` | app/resize-tool/page.tsx:204 | appends an empty page of the given size and returns its position |
| `ResizeTool.PdfDocument.DrawImage` | app/resize-tool/page.tsx:205-210 | adds the placement to that page only |
| `ResizeTool.RasterisePages` | app/resize-tool/page.tsx:183-211 | succeeds exactly when no page throws, and then appends `Rasterised(pages)` to the document |
| `ResizeTool.ResizeTool.constructor` | app/resize-tool/page.tsx:9-26 | initial state: no file, type, preview or download; target 50 KB |
| `ResizeTool.ResizeTool.ProcessFile` | app/resize-tool/page.tsx:45-72 | the download is cleared; an image is taken with a preview; a PDF is taken with its bytes buffered; any other type clears the file and leaves the earlier type and preview |
| `ResizeTool.ResizeTool.ImageLoaded` | app/resize-tool/page.tsx:55-61 | the image's width and height become the target dimensions, and the default target for the file's size (at most 100 KB) becomes the target KB |
| `ResizeTool.ResizeTool.RemoveFile` | app/resize-tool/page.tsx:74-80 | file, type, preview and download are cleared |
| `ResizeTool.ResizeTool.SetTargetKb` | app/resize-tool/page.tsx:319 | the typed number, of either sign, becomes the target KB |
| `ResizeTool.ResizeTool.ResizeImage` | app/resize-tool/page.tsx:115-164 | skipped without a preview and a file; fails without a context, or when the last encode gave no blob; otherwise the returned last blob is the download, it fits `targetKb*1024` or was encoded at quality 1, and it is named by `CompressedImageName`; a skip or a failure leaves the download, size and file name unchanged |
| `ResizeTool.ResizeTool.ResizePdf` | app/resize-tool/page.tsx:166-226 | skipped without buffered bytes and a file; fails when loading fails, any page throws or saving throws; otherwise the saved `Rasterised` pages are the download, named `compressed-` + the file name; a skip or a failure leaves the download, size and file name unchanged |
| `PdfToWord.Progress` | app/pdf-to-word/page.tsx:85 | `round(i/n*100)` with halves rounded up: the r with r − ½ ≤ 100·i/n < r + ½ |
| `PdfToWord.ProgressMonotone` | app/pdf-to-word/page.tsx:85 | `round(i/n*100)` never falls as i grows |
| `PdfToWord.ProgressLastPage` | app/pdf-to-word/page.tsx:85 | it is exactly 100 at the last page and never above 100 |
| `PdfToWord.ProgressFirstPage` | app/pdf-to-word/page.tsx:85 | the first value is `round(100/n)`, which is at least 1 exactly when n ≤ 200 |
| `PdfToWord.DivBetween` | app/pdf-to-word/page.tsx:85 | the rounding quotient is the unique q with q·d ≤ a < q·d + d |
| `PdfToWord.OcrText` | app/pdf-to-word/page.tsx:80-104 | no text exactly when some page throws |
| `PdfToWord.OcrTextAppend` | app/pdf-to-word/page.tsx:83-103 | the text of a concatenation is the text of its parts in order |
| `PdfToWord.OcrTextOnePage` | app/pdf-to-word/page.tsx:102 | a recognised page contributes its text followed by `\n\n` |
| `PdfToWord.OcrTextSkipsNoContext` | app/pdf-to-word/page.tsx:95 | a page without a drawing context contributes nothing |
| `PdfToWord.DocxName` | app/pdf-to-word/page.tsx:168 | `document.docx` without a file; otherwise the text before the first dot (or the whole name), or `document` when that is empty, then `.docx` |
| `PdfToWord.DocxNameOfStem` | app/pdf-to-word/page.tsx:168 | `<stem>.<rest>` with a non-empty dot-free stem gives `<stem>.docx` |
| `PdfToWord.WordDocument` | app/pdf-to-word/page.tsx:148-159 | no document for empty text; otherwise newline-free paragraphs, one more than the text has newlines, that join with `\n` back into the text, and the `DocxName` file name |
| `PdfToWord.WordDocumentLines` | app/pdf-to-word/page.tsx:154 | text made of newline-free lines becomes exactly those lines as paragraphs |
| `PdfToWord.RunText` | app/pdf-to-word/page.tsx:113-133 | an image yields its recognised text; a PDF yields nothing exactly when it fails to load or a page throws; any other type yields empty text |
| `PdfToWord.PdfToWord.constructor` | app/pdf-to-word/page.tsx:13-19 | initial state: no file, progress 0, empty text, result hidden |
| `PdfToWord.PdfToWord.ProcessFile` | app/pdf-to-word/page.tsx:35-52 | text, result and progress are reset; an image gets a preview; a PDF gets none; any other type clears the file and leaves the preview |
| `PdfToWord.PdfToWord.RemoveFile` | app/pdf-to-word/page.tsx:54-60 | file, preview, text and result are cleared |
| `PdfToWord.PdfToWord.ProcessPdf` | app/pdf-to-word/page.tsx:72-105 | returns `OcrText(pages)`; reports progress `round(k/n*100)` for pages 1..k; stops at the first page that throws; progress and status are those of the last page reached |
| `PdfToWord.PdfToWord.HandleConvert` | app/pdf-to-word/page.tsx:107-144 | nothing without a file; on success the text is set, the result shown and the status `Done!`; any exception leaves the text empty and the result hidden; a successful PDF run ends at progress 100. An image leaves the recogniser's last progress (30 without one), and an aborted image run leaves status `Scanning image`. A PDF returns the progress values it set, `round(k/n*100)` for pages 1..k, stopping at the first page that throws; progress is the last of them, and an aborted run leaves status `Processing page k of n`. A PDF that fails to load, or has no pages, leaves progress unchanged, and a failed load leaves status unchanged too |
| `ImageConverter.ProcessFile` | app/image-converter/page.tsx:30-38 | a non-image leaves the state unchanged; an image becomes the file and the preview |
| `ImageConverter.RemoveFile` | app/image-converter/page.tsx:53-62 | the file and the preview are cleared |
| `ImageConverter.Extension` | app/image-converter/page.tsx:93-95 | one of `jpg`, `png`, `webp`; `png` exactly for `image/png`, `webp` exactly for `image/webp` |
| `ImageConverter.Stem` | app/image-converter/page.tsx:97 | the text before the last dot when that dot is past position 0; otherwise the whole name; a prefix of the name, and non-empty for a non-empty name |
| `ImageConverter.StemCases` | app/image-converter/page.tsx:97 | `base.ext` keeps `base`; `.ext` and a dot-free name are kept whole |
| `ImageConverter.ConvertedName` | app/image-converter/page.tsx:97-98 | starts with the stem and ends in `-converted.jpg`, `-converted.png` or `-converted.webp`, per the extension |
| `ImageConverter.ConvertImage` | app/image-converter/page.tsx:64-113 | nothing without a file and a preview; with a context, fails exactly when the blob is null and is downloaded exactly when it is not; without a context it fails; a download's canvas has the image's natural width and height, and the blob is downloaded under `ConvertedName` |
| `ImageConverter.ConvertFromInitial` | app/image-converter/page.tsx:8-9 | from the initial state (no file, no preview) a conversion does nothing; after selecting an image from there it runs, and after a non-image it still does nothing |
| `ImageConverter.ConvertAfterSelection` | app/image-converter/page.tsx:30-113 | after removal a conversion does nothing; after an image is selected it converts that image |

## Left out

- Canvas drawing, `toBlob`/`toDataURL` encoding, image decoding, pdf.js rendering, pdf-lib embedding and saving, tesseract recognition, and docx `Packer`: these are foreign engines and appear only as function parameters or input sequences.
- Object URLs, link creation and clicking, `alert`, `console`, and the `useEffect` URL revocation: browser I/O. The alerts in the `catch` blocks appear as failure outcomes. The unsupported-type alerts in `processFile` (app/resize-tool/page.tsx:69, app/pdf-to-word/page.tsx:49, app/image-converter/page.tsx:32) have no outcome value: they appear only as the file being cleared, or as the state left unchanged.
- `formatBytes` (app/resize-tool/page.tsx:84-91): it uses `Math.log` and float `toFixed`. The model keeps the byte count it would format.
- The width and height handlers (app/resize-tool/page.tsx:101-113) and `originalAspect`: float division and rounding.
- The `pdfQuality` slider and the converter's `quality`: float encoder settings passed to the engine.
- The recognition progress logger of the image branch (app/pdf-to-word/page.tsx:120-126). It reports engine-supplied floats, so the model takes the already-rounded values as an input sequence.
- Async sequencing, worker creation and termination per page, the `isProcessing`/`isConverting` flags and the disabled-button guard: lifecycle and UI.
- The status strings. `Status` stands for "Processing page i of n...", "Scanning image with AI..." and "Done!"; the text formatting is not modelled.
- Paragraph spacing (`spacing: { after: 120 }`) and `TextRun` wrapping are formatting. Paragraphs are modelled as their text.
- `PdfToWord.Progress`: computed with exact rational round-half-up. JavaScript computes `(i / n) * 100` in IEEE doubles, and at a rational .5 tie the double product can fall just below it. For example, `(23 / 40) * 100` is `57.49999999999999`, so page 23 of 40 shows 57, while `Progress(23, 40)` is 58. At such pages the model's value is one too high, and so are the values `ProcessPdf` reports and `HandleConvert` leaves as progress.
- `ResizeTool.CompressToBudget`: quality is in integer tenths. This is exact for the float values the loop actually takes.
- `ResizeTool.ResizeTool.SetTargetKb`: the target is an integer of either sign. `Number(e.target.value)` can also give a fractional number, which means a fractional byte budget, or `NaN` for unparsable input, which no blob meets. Neither is modelled. An empty input is 0 and a negative number is a negative budget, and both are modelled.
- Viewport sizes are whole numbers here. At scale 1.5 pdf.js can give fractional sizes.
- app/page.tsx, components/Navbar.tsx, components/Footer.tsx, app/layout.tsx and js/main.js: static markup and menu handling.
