/** The compression tool (app/resize-tool/page.tsx): an image is re-encoded
    at falling quality until it fits a byte budget, a PDF is re-rasterised
    page by page into a new document of JPEG images.

    Foreign engines are parameters: the canvas encoder is a function from an
    encode request to the size of the blob it yields (None when `toBlob`
    hands back null), and a PDF is the sequence of what rendering each of
    its pages produced. Quality is counted in tenths. */
module ResizeTool {
  import opened Wrappers
  import opened Files
  import opened JsString

  datatype FileKind = Image | Pdf

  /** What `processFile` makes of a MIME type. */
  function Classify(mime: string): (r: Option<FileKind>)
    ensures r == Some(Image) <==> IsImageType(mime)
    ensures r == Some(Pdf) <==> mime == PdfType
    ensures r == None <==> !IsImageType(mime) && mime != PdfType
  {
    assert !IsImageType(PdfType) by { assert PdfType[0] != "image/"[0]; }
    if IsImageType(mime) then Some(Image)
    else if mime == PdfType then Some(Pdf)
    else None
  }

  const DefaultCapKb: nat := 100

  /** The target set when an image loads: its size in KB rounded to the
      nearest whole KB (halves up), capped at 100. */
  function DefaultTargetKb(size: nat): (kb: nat)
    ensures kb <= DefaultCapKb
    ensures kb < DefaultCapKb ==> kb * 1024 <= size + 512 < kb * 1024 + 1024
    ensures kb == DefaultCapKb <==> size + 512 >= DefaultCapKb * 1024
  {
    var rounded := (size + 512) / 1024;
    if rounded > DefaultCapKb then DefaultCapKb else rounded
  }

  /** The encoder's output type: PNG is forced to JPEG so that quality
      applies; any other type is kept. */
  function OutputType(mime: string): (t: string)
    ensures t != "image/png"
    ensures t == mime || (mime == "image/png" && t == "image/jpeg")
  {
    if mime == "image/png" then "image/jpeg" else mime
  }

  /** The extension written into the download name: the text after the
      last dot, replaced by `jpg` when the output is JPEG under another name. */
  function OutputExtension(name: string, outType: string): (ext: string)
    ensures '.' !in ext
    ensures outType == "image/jpeg" ==> ext == "jpg" || ext == "jpeg"
    ensures outType != "image/jpeg" ==> ext == name[LastIndexOf(name, '.') + 1..]
  {
    var ext := Last(Split(name, '.'));
    SplitLast(name, '.');
    assert forall j :: 0 <= j < |ext| ==> ext[j] == name[LastIndexOf(name, '.') + 1 + j];
    if outType == "image/jpeg" && ext != "jpg" && ext != "jpeg" then "jpg" else ext
  }

  /** `min-` + the name up to its last dot + `.` + the extension. */
  function CompressedImageName(name: string, outType: string): (r: string)
    ensures "min-" <= r
  {
    "min-" + Substring(name, 0, LastIndexOf(name, '.')) + "." + OutputExtension(name, outType)
  }

  /** The compressed image's name in terms of the last dot of the original:
      stem before it, extension after it (coerced to `jpg` for JPEG output);
      without a dot the stem is empty and the whole name is the extension. */
  lemma CompressedImageNameParts(name: string, outType: string)
    ensures var k := LastIndexOf(name, '.');
            var after := name[k + 1..];
            var ext := if outType == "image/jpeg" && after != "jpg" && after != "jpeg" then "jpg" else after;
            CompressedImageName(name, outType) == "min-" + (if k < 0 then "" else name[..k]) + "." + ext
  {
    SplitLast(name, '.');
  }

  /** A PNG named `<stem>.png` (no other dot) is compressed to JPEG and
      downloads as `min-<stem>.jpg`; `photo.png` becomes `min-photo.jpg`. */
  lemma PngDownloadName(stem: string)
    requires '.' !in stem
    ensures CompressedImageName(stem + ".png", OutputType("image/png")) == "min-" + stem + ".jpg"
  {
    var name := stem + ".png";
    assert name[|stem|] == '.' && name[|stem| + 1..] == "png";
    assert forall j :: |stem| < j < |name| ==> name[j] == "png"[j - |stem| - 1];
    LastIndexOfLast(name, '.', |stem|);
    CompressedImageNameParts(name, "image/jpeg");
    assert name[..|stem|] == stem;
    assert "png" != "jpg" && "png" != "jpeg" by { assert "png"[0] != "jpg"[0]; }
    assert OutputType("image/png") == "image/jpeg";
    assert ("min-" + stem + ".") + "jpg" == "min-" + stem + ".jpg";
  }

  // ---------------------------------------------------------------------
  // Size-targeted image compression

  /** One `canvas.toBlob` call: the image drawn, at this width and height,
      in this type, at this quality (in tenths). */
  datatype EncodeRequest = EncodeRequest(image: FileInfo, mime: string, width: nat, height: nat, quality: nat)

  const FirstQuality: nat := 9
  const QualityFloor: nat := 1
  const IterationCap: nat := 10

  /** What the quality loop does: encodes at 9, 8, ... tenths with nothing
      else changing, every encode but the last produced a blob over budget,
      and the last one is the result; it was over budget too only when the
      floor was reached. */
  ghost predicate IsLadder(encode: EncodeRequest -> Option<nat>, base: EncodeRequest, targetBytes: int,
                           attempts: seq<EncodeRequest>, blob: Option<nat>)
  {
    && 1 <= |attempts| <= FirstQuality
    && (forall k :: 0 <= k < |attempts| ==> attempts[k] == base.(quality := FirstQuality - k))
    && (forall k :: 0 <= k < |attempts| - 1 ==> encode(attempts[k]).Some? && encode(attempts[k]).value > targetBytes)
    && blob == encode(attempts[|attempts| - 1])
    && (blob.Some? && blob.value > targetBytes ==> attempts[|attempts| - 1].quality == QualityFloor)
  }

  /** The loop of `resizeImage`: encode, stop on a null blob or a blob
      within budget, otherwise lower quality by a tenth and stop once it
      would fall below the floor. The cap of ten iterations never binds. */
  method CompressToBudget(encode: EncodeRequest -> Option<nat>, base: EncodeRequest, targetBytes: int)
    returns (attempts: seq<EncodeRequest>, blob: Option<nat>)
    ensures 1 <= |attempts| <= FirstQuality
    ensures forall k :: 0 <= k < |attempts| ==> attempts[k] == base.(quality := FirstQuality - k)
    ensures forall k :: 0 <= k < |attempts| - 1 ==> encode(attempts[k]).Some? && encode(attempts[k]).value > targetBytes
    ensures blob == encode(attempts[|attempts| - 1])
    ensures blob.Some? && blob.value > targetBytes ==> attempts[|attempts| - 1].quality == QualityFloor
  {
    var quality: int := FirstQuality;
    attempts := [];
    blob := None;
    var i := 0;
    while i < IterationCap
      invariant 0 <= i < FirstQuality && quality == FirstQuality - i
      invariant |attempts| == i
      invariant forall k :: 0 <= k < i ==> attempts[k] == base.(quality := FirstQuality - k)
      invariant forall k :: 0 <= k < i ==> encode(attempts[k]).Some? && encode(attempts[k]).value > targetBytes
    {
      var request := base.(quality := quality);
      attempts := attempts + [request];
      blob := encode(request);
      if blob.None? {
        break;
      }
      if blob.value <= targetBytes {
        break;
      }
      quality := quality - 1;
      if quality < QualityFloor {
        break;
      }
      i := i + 1;
    }
  }

  /** The quality ladder is determined by the encoder and the budget:
      compressing the same image twice gives the same encodes and result. */
  lemma LadderDeterministic(encode: EncodeRequest -> Option<nat>, base: EncodeRequest, targetBytes: int,
                            a1: seq<EncodeRequest>, b1: Option<nat>, a2: seq<EncodeRequest>, b2: Option<nat>)
    requires IsLadder(encode, base, targetBytes, a1, b1)
    requires IsLadder(encode, base, targetBytes, a2, b2)
    ensures a1 == a2 && b1 == b2
  {
    if |a1| < |a2| {
      LadderPrefixOverBudget(encode, base, targetBytes, a1, b1, a2, b2);
    } else if |a2| < |a1| {
      LadderPrefixOverBudget(encode, base, targetBytes, a2, b2, a1, b1);
    }
    assert |a1| == |a2|;
  }

  /** A ladder cannot stop earlier than another one for the same encoder. */
  lemma LadderPrefixOverBudget(encode: EncodeRequest -> Option<nat>, base: EncodeRequest, targetBytes: int,
                               a1: seq<EncodeRequest>, b1: Option<nat>, a2: seq<EncodeRequest>, b2: Option<nat>)
    requires IsLadder(encode, base, targetBytes, a1, b1)
    requires IsLadder(encode, base, targetBytes, a2, b2)
    ensures |a1| >= |a2|
  {
    assert forall j :: 0 <= j < |a1| && j < |a2| ==> a1[j] == a2[j];
  }

  /** What a successful compression promises: the result fits the budget,
      or it was encoded at the quality floor; no encode went below it. */
  lemma LadderResult(encode: EncodeRequest -> Option<nat>, base: EncodeRequest, targetBytes: int,
                     attempts: seq<EncodeRequest>, blob: Option<nat>)
    requires IsLadder(encode, base, targetBytes, attempts, blob)
    ensures forall a <- attempts :: QualityFloor <= a.quality <= FirstQuality
    ensures blob.Some? ==> blob.value <= targetBytes || Last(attempts).quality == QualityFloor
    ensures blob.None? <==> encode(Last(attempts)).None?
  {
    forall a <- attempts
      ensures QualityFloor <= a.quality <= FirstQuality
    {
      var k :| 0 <= k < |attempts| && attempts[k] == a;
    }
  }

  /** A negative budget is never met: unless an encode gives no blob, all
      nine qualities are tried. */
  lemma {:induction false} LadderNegativeBudget(encode: EncodeRequest -> Option<nat>, base: EncodeRequest,
                                                targetBytes: int, attempts: seq<EncodeRequest>, blob: Option<nat>)
    requires targetBytes < 0
    requires IsLadder(encode, base, targetBytes, attempts, blob)
    ensures blob.Some? ==> |attempts| == FirstQuality && Last(attempts).quality == QualityFloor
  {
    if blob.Some? {
      assert attempts[|attempts| - 1].quality == FirstQuality - (|attempts| - 1);
    }
  }

  // ---------------------------------------------------------------------
  // PDF re-rasterising

  /** What pdf.js and the canvas make of one source page: an exception
      (fetching, rendering, encoding or embedding it failed), no 2D context,
      or a rendered page with its viewport size and its JPEG image. */
  datatype SourcePage = PageFails | NoContext | Rendered(width: nat, height: nat, jpeg: nat)

  /** An image drawn on an output page. */
  datatype Placement = Placement(jpeg: nat, x: int, y: int, width: nat, height: nat)

  datatype OutputPage = OutputPage(width: nat, height: nat, drawn: seq<Placement>)

  /** An output page holding exactly one image, drawn at (0, 0) over the whole page. */
  predicate FilledPage(p: OutputPage)
  {
    |p.drawn| == 1 && p.drawn[0] == Placement(p.drawn[0].jpeg, 0, 0, p.width, p.height)
  }

  /** The pages the loop of `resizePdf` adds when no page fails: one per
      rendered source page, in source order, the size of its viewport. */
  function Rasterised(src: seq<SourcePage>): (out: seq<OutputPage>)
    ensures |out| <= |src|
    ensures forall p <- out :: FilledPage(p)
  {
    if src == [] then []
    else
      var init := Rasterised(src[..|src| - 1]);
      match src[|src| - 1]
      case Rendered(w, h, jpeg) => init + [OutputPage(w, h, [Placement(jpeg, 0, 0, w, h)])]
      case _ => init
  }

  /** Rasterising keeps page order: the pages of a concatenation are the
      pages of its parts, one after the other. */
  lemma {:induction false} RasterisedAppend(a: seq<SourcePage>, b: seq<SourcePage>)
    ensures Rasterised(a + b) == Rasterised(a) + Rasterised(b)
    decreases |b|
  {
    if b != [] {
      var b' := b[..|b| - 1];
      assert (a + b)[..|a + b| - 1] == a + b';
      RasterisedAppend(a, b');
    } else {
      assert a + b == a;
    }
  }

  /** Pages without a drawing context are skipped. */
  lemma RasterisedSkipsNoContext(a: seq<SourcePage>, b: seq<SourcePage>)
    ensures Rasterised(a + [NoContext] + b) == Rasterised(a + b)
  {
    RasterisedAppend(a + [NoContext], b);
    RasterisedAppend(a, b);
    assert (a + [NoContext])[..|a|] == a;
  }

  /** When every page rendered, page k of the output is source page k's
      viewport with its image filling it. */
  lemma {:induction false} RasterisedAllRendered(src: seq<SourcePage>)
    requires forall p <- src :: p.Rendered?
    ensures |Rasterised(src)| == |src|
    ensures forall k :: 0 <= k < |src| ==>
              Rasterised(src)[k] == OutputPage(src[k].width, src[k].height,
                                               [Placement(src[k].jpeg, 0, 0, src[k].width, src[k].height)])
    decreases |src|
  {
    if src != [] {
      var init := src[..|src| - 1];
      assert src[|src| - 1] in src;
      assert forall p <- init :: p.Rendered?;
      RasterisedAllRendered(init);
    }
  }

  /** The document pdf-lib builds: a list of pages, each with what was drawn on it. */
  class PdfDocument {
    var pages: seq<OutputPage>

    constructor ()
      ensures pages == []
    {
      pages := [];
    }

    /** `addPage([width, height])`: a new empty page at the end. */
    method AddPage(width: nat, height: nat) returns (index: nat)
      modifies this
      ensures index == |old(pages)|
      ensures pages == old(pages) + [OutputPage(width, height, [])]
    {
      index := |pages|;
      pages := pages + [OutputPage(width, height, [])];
    }

    /** `page.drawImage(...)`: one more placement on an existing page. */
    method DrawImage(index: nat, placement: Placement)
      requires index < |pages|
      modifies this
      ensures pages == old(pages)[index := old(pages[index]).(drawn := old(pages[index]).drawn + [placement])]
    {
      pages := pages[index := pages[index].(drawn := pages[index].drawn + [placement])];
    }
  }

  /** The page loop of `resizePdf`: for each source page in order, skip it
      without a context, otherwise add a page of its viewport size and draw
      its JPEG over all of it. The first failing page stops the loop. */
  method RasterisePages(src: seq<SourcePage>, doc: PdfDocument) returns (ok: bool)
    modifies doc
    ensures ok <==> PageFails !in src
    ensures ok ==> doc.pages == old(doc.pages) + Rasterised(src)
  {
    var i := 0;
    while i < |src|
      invariant 0 <= i <= |src|
      invariant PageFails !in src[..i]
      invariant doc.pages == old(doc.pages) + Rasterised(src[..i])
    {
      assert src[..i + 1][..i] == src[..i];
      assert src[..i + 1] == src[..i] + [src[i]];
      match src[i] {
        case PageFails =>
          return false;
        case NoContext =>
        case Rendered(w, h, jpeg) =>
          ghost var before := doc.pages;
          var index := doc.AddPage(w, h);
          assert [] + [Placement(jpeg, 0, 0, w, h)] == [Placement(jpeg, 0, 0, w, h)];
          doc.DrawImage(index, Placement(jpeg, 0, 0, w, h));
          assert doc.pages == before + [OutputPage(w, h, [Placement(jpeg, 0, 0, w, h)])];
      }
      i := i + 1;
    }
    assert src[..i] == src;
    ok := true;
  }

  // ---------------------------------------------------------------------
  // The page component's state

  datatype ToolError = NoContextError | CompressionFailed | LoadFailed | PageFailed | SaveFailed

  datatype Outcome = Skipped | Failed(error: ToolError) | Produced {
    /** The image quality loop ran. */
    predicate Compressed() {
      this == Produced || this == Failed(CompressionFailed)
    }
  }

  /** The component's state. `preview` and `pdfBytes` record which file the
      object URL and the buffered PDF bytes belong to; `download` is the
      size of the blob behind the download URL; `finalSize` is the byte
      count the size label displays. */
  class ResizeTool {
    var file: Option<FileInfo>
    var fileType: Option<FileKind>
    var preview: Option<FileInfo>
    var imgWidth: nat
    var imgHeight: nat
    var targetKb: int
    var finalSize: Option<nat>
    var download: Option<nat>
    var downloadFilename: string
    var pdfBytes: Option<FileInfo>

    constructor ()
      ensures file == None && fileType == None && preview == None
      ensures imgWidth == 0 && imgHeight == 0 && targetKb == 50
      ensures finalSize == None && download == None && downloadFilename == "" && pdfBytes == None
    {
      file, fileType, preview := None, None, None;
      imgWidth, imgHeight, targetKb := 0, 0, 50;
      finalSize, download, downloadFilename, pdfBytes := None, None, "", None;
    }

    /** `processFile`: the file is taken and the previous result dropped; an
        image gets a preview, a PDF has its bytes buffered, and any other
        type is rejected by clearing the file again (the type and preview of
        an earlier file stay). */
    method ProcessFile(f: FileInfo)
      modifies this
      ensures download == None
      ensures Classify(f.mime) == Some(Image) ==>
                file == Some(f) && fileType == Some(Image) && preview == Some(f) && pdfBytes == old(pdfBytes)
      ensures Classify(f.mime) == Some(Pdf) ==>
                file == Some(f) && fileType == Some(Pdf) && preview == old(preview) && pdfBytes == Some(f)
      ensures Classify(f.mime) == None ==>
                file == None && fileType == old(fileType) && preview == old(preview) && pdfBytes == old(pdfBytes)
      ensures imgWidth == old(imgWidth) && imgHeight == old(imgHeight) && targetKb == old(targetKb)
      ensures finalSize == old(finalSize) && downloadFilename == old(downloadFilename)
    {
      file := Some(f);
      download := None;
      match Classify(f.mime)
      case Some(Image) =>
        fileType := Some(Image);
        preview := Some(f);
      case Some(Pdf) =>
        fileType := Some(Pdf);
        pdfBytes := Some(f);
      case None =>
        file := None;
    }

    /** The image's `onload` handler: its dimensions become the target
        dimensions and its size the default target. */
    method ImageLoaded(selected: FileInfo, width: nat, height: nat)
      modifies this`imgWidth, this`imgHeight, this`targetKb
      ensures imgWidth == width && imgHeight == height
      ensures targetKb == DefaultTargetKb(selected.size) && targetKb <= DefaultCapKb
    {
      imgWidth, imgHeight := width, height;
      targetKb := DefaultTargetKb(selected.size);
    }

    /** The target-size input's `onChange`: the typed number becomes the
        target, whatever its sign. */
    method SetTargetKb(kb: int)
      modifies this`targetKb
      ensures targetKb == kb
    {
      targetKb := kb;
    }

    /** `removeFile`: file, type, preview and download are cleared. */
    method RemoveFile()
      modifies this`file, this`fileType, this`preview, this`download
      ensures file == None && fileType == None && preview == None && download == None
    {
      file, fileType, preview, download := None, None, None, None;
    }

    /** `resizeImage`: nothing without a preview and a file; fails without a
        canvas context or when the last encode gave no blob; otherwise the
        last blob becomes the download under the `min-` name. */
    method ResizeImage(encode: EncodeRequest -> Option<nat>, hasContext: bool)
      returns (outcome: Outcome, attempts: seq<EncodeRequest>, blob: Option<nat>)
      modifies this`download, this`finalSize, this`downloadFilename
      ensures old(preview).None? || old(file).None? ==> outcome == Skipped && attempts == []
      ensures old(preview).Some? && old(file).Some? && !hasContext ==> outcome == Failed(NoContextError)
      ensures outcome != Produced ==>
                download == old(download) && finalSize == old(finalSize) && downloadFilename == old(downloadFilename)
      ensures old(preview).Some? && old(file).Some? && hasContext <==> outcome.Compressed()
      ensures outcome.Compressed() ==>
                && |attempts| >= 1
                && IsLadder(encode, EncodeRequest(preview.value, OutputType(file.value.mime), imgWidth, imgHeight, FirstQuality),
                            targetKb * 1024, attempts, blob)
                && (outcome == Failed(CompressionFailed) <==> blob.None?)
      ensures outcome == Produced ==>
                && download == blob && finalSize == blob && blob.Some?
                && (blob.value <= targetKb * 1024 || Last(attempts).quality == QualityFloor)
                && downloadFilename == CompressedImageName(file.value.name, OutputType(file.value.mime))
    {
      attempts, blob := [], None;
      if preview.None? || file.None? {
        return Skipped, [], None;
      }
      var targetBytes := targetKb * 1024;
      if !hasContext {
        return Failed(NoContextError), [], None;
      }
      var outType := OutputType(file.value.mime);
      var base := EncodeRequest(preview.value, outType, imgWidth, imgHeight, FirstQuality);
      attempts, blob := CompressToBudget(encode, base, targetBytes);
      assert IsLadder(encode, base, targetBytes, attempts, blob);
      if blob.None? {
        return Failed(CompressionFailed), attempts, blob;
      }
      download, finalSize, downloadFilename := blob, blob, CompressedImageName(file.value.name, outType);
      outcome := Produced;
    }

    /** `resizePdf`: nothing without buffered bytes and a file; fails when
        the document does not load or a page fails; otherwise the saved new
        document becomes the download, named `compressed-` + the file name. */
    method ResizePdf(pdf: Option<seq<SourcePage>>, save: seq<OutputPage> -> Option<nat>)
      returns (outcome: Outcome, pages: seq<OutputPage>)
      modifies this`download, this`finalSize, this`downloadFilename
      ensures old(pdfBytes).None? || old(file).None? ==> outcome == Skipped
      ensures old(pdfBytes).Some? && old(file).Some? ==>
                if pdf.None? then outcome == Failed(LoadFailed)
                else if PageFails in pdf.value then outcome == Failed(PageFailed)
                else if save(Rasterised(pdf.value)).None? then outcome == Failed(SaveFailed)
                else outcome == Produced
      ensures outcome != Produced ==>
                download == old(download) && finalSize == old(finalSize) && downloadFilename == old(downloadFilename)
      ensures outcome == Produced ==>
                && pages == Rasterised(pdf.value)
                && download == save(pages) && download.Some? && finalSize == download
                && downloadFilename == "compressed-" + file.value.name
    {
      pages := [];
      if pdfBytes.None? || file.None? {
        return Skipped, [];
      }
      if pdf.None? {
        return Failed(LoadFailed), [];
      }
      var doc := new PdfDocument();
      var ok := RasterisePages(pdf.value, doc);
      if !ok {
        return Failed(PageFailed), [];
      }
      pages := doc.pages;
      assert [] + Rasterised(pdf.value) == Rasterised(pdf.value);
      assert pages == Rasterised(pdf.value);
      var saved := save(pages);
      if saved.None? {
        return Failed(SaveFailed), pages;
      }
      download := saved;
      finalSize := saved;
      downloadFilename := "compressed-" + file.value.name;
      outcome := Produced;
    }
  }
}
