/** The format converter (app/image-converter/page.tsx): an image is drawn
    at its natural size onto a canvas and re-encoded as JPEG, PNG or WebP,
    and downloaded as `<stem>-converted.<ext>`.

    The component's state is a value here; the canvas encoder is a function
    from the drawing request to the size of the blob (None when `toBlob`
    hands back null). */
module ImageConverter {
  import opened Wrappers
  import opened Files
  import opened JsString

  /** The selected file and the file the preview URL was made from. */
  datatype ConverterState = ConverterState(file: Option<FileInfo>, preview: Option<FileInfo>)

  /** The `useState(null)` defaults: no file and no preview. */
  const InitialState := ConverterState(None, None)

  /** `processFile`: a non-image is rejected and nothing changes; an image
      becomes the file and gets a preview. */
  function ProcessFile(s: ConverterState, f: FileInfo): (s': ConverterState)
    ensures IsImageType(f.mime) ==> s'.file == Some(f) && s'.preview == Some(f)
    ensures !IsImageType(f.mime) ==> s' == s
  {
    if !IsImageType(f.mime) then s else ConverterState(Some(f), Some(f))
  }

  /** `removeFile`: the file and the preview are cleared. */
  function RemoveFile(s: ConverterState): (s': ConverterState)
    ensures s'.file.None? && s'.preview.None?
  {
    ConverterState(None, None)
  }

  /** The extension for the chosen output format. */
  function Extension(format: string): (ext: string)
    ensures ext in {"jpg", "png", "webp"}
    ensures ext == "png" <==> format == "image/png"
    ensures ext == "webp" <==> format == "image/webp"
  {
    var ext := "jpg";
    var ext := if format == "image/png" then "png" else ext;
    if format == "image/webp" then "webp" else ext
  }

  /** `name.substring(0, name.lastIndexOf('.')) || name`. */
  function Stem(name: string): (stem: string)
    ensures LastIndexOf(name, '.') > 0 ==>
              stem == name[..LastIndexOf(name, '.')] && forall j :: |stem| < j < |name| ==> name[j] != '.'
    ensures LastIndexOf(name, '.') <= 0 ==> stem == name
    ensures name != [] ==> stem != []
    ensures stem <= name
  {
    var prefix := Substring(name, 0, LastIndexOf(name, '.'));
    if prefix == "" then name else prefix
  }

  /** The download name: the stem, then `-converted.` and the extension;
      so it always ends in `-converted.jpg`, `-converted.png` or
      `-converted.webp`. */
  function ConvertedName(name: string, format: string): (r: string)
    ensures Stem(name) <= r
    ensures r[|Stem(name)|..] in {"-converted.jpg", "-converted.png", "-converted.webp"}
    ensures r[|Stem(name)|..] == "-converted." + Extension(format)
  {
    var stem, ext := Stem(name), Extension(format);
    var suffix := "-converted." + ext;
    assert (stem + suffix)[|stem|..] == suffix;
    assert ext == "jpg" ==> suffix == "-converted.jpg";
    assert ext == "png" ==> suffix == "-converted.png";
    assert ext == "webp" ==> suffix == "-converted.webp";
    stem + suffix
  }

  /** A name with an extension keeps the part before its last dot; one
      that starts with its only dot, or has none, is kept whole. */
  lemma StemCases(base: string, ext: string)
    requires '.' !in ext && '.' !in base
    ensures base != [] ==> Stem(base + "." + ext) == base
    ensures Stem("." + ext) == "." + ext
    ensures Stem(base) == base
  {
    var name := base + "." + ext;
    assert name[|base|] == '.';
    assert forall j :: |base| < j < |name| ==> name[j] == ext[j - |base| - 1];
    LastIndexOfLast(name, '.', |base|);
    assert name[..|base|] == base;
    var dotted := "." + ext;
    assert forall j :: 0 < j < |dotted| ==> dotted[j] == ext[j - 1];
    LastIndexOfLast(dotted, '.', 0);
    assert forall j :: 0 <= j < |base| ==> base[j] in base;
    NoLastIndex(base, '.');
  }

  /** What the canvas is asked to encode: the image at this size, in this format. */
  datatype DrawRequest = DrawRequest(image: FileInfo, width: nat, height: nat, format: string)

  datatype ConvertOutcome =
    | NotStarted
    | NoContext
    | ConversionFailed
    | Downloaded(filename: string, canvas: DrawRequest, size: nat)

  /** `convertImage`: nothing without a file and a preview; otherwise the
      image is drawn at its natural size and encoded in the chosen format;
      a missing context or a null blob fails, else the blob is downloaded. */
  function ConvertImage(s: ConverterState, format: string, naturalWidth: nat, naturalHeight: nat,
                        hasContext: bool, encode: DrawRequest -> Option<nat>): (r: ConvertOutcome)
    ensures s.file.None? || s.preview.None? ==> r == NotStarted
    ensures s.file.Some? && s.preview.Some? && !hasContext ==> r == NoContext
    ensures r.Downloaded? ==>
              && r.canvas == DrawRequest(s.preview.value, naturalWidth, naturalHeight, format)
              && encode(r.canvas) == Some(r.size)
              && r.filename == ConvertedName(s.file.value.name, format)
    ensures s.file.Some? && s.preview.Some? && hasContext ==>
              (r == ConversionFailed <==> encode(DrawRequest(s.preview.value, naturalWidth, naturalHeight, format)).None?)
    ensures s.file.Some? && s.preview.Some? && hasContext ==>
              (encode(DrawRequest(s.preview.value, naturalWidth, naturalHeight, format)).Some? ==> r.Downloaded?)
  {
    if s.file.None? || s.preview.None? then NotStarted
    else if !hasContext then NoContext
    else
      var canvas := DrawRequest(s.preview.value, naturalWidth, naturalHeight, format);
      match encode(canvas)
      case None => ConversionFailed
      case Some(size) => Downloaded(ConvertedName(s.file.value.name, format), canvas, size)
  }

  /** Before any file is selected a conversion does nothing, and
      selecting an image makes the next conversion run on it. */
  lemma ConvertFromInitial(f: FileInfo, format: string, w: nat, h: nat, hasContext: bool,
                           encode: DrawRequest -> Option<nat>)
    ensures ConvertImage(InitialState, format, w, h, hasContext, encode) == NotStarted
    ensures IsImageType(f.mime) ==>
              ConvertImage(ProcessFile(InitialState, f), format, w, h, hasContext, encode) != NotStarted
    ensures !IsImageType(f.mime) ==>
              ConvertImage(ProcessFile(InitialState, f), format, w, h, hasContext, encode) == NotStarted
  {
  }

  /** After a file is removed a conversion does nothing; after an image is
      selected it runs on that image. */
  lemma ConvertAfterSelection(s: ConverterState, f: FileInfo, format: string, w: nat, h: nat,
                              encode: DrawRequest -> Option<nat>)
    ensures ConvertImage(RemoveFile(s), format, w, h, true, encode) == NotStarted
    ensures IsImageType(f.mime) && encode(DrawRequest(f, w, h, format)).Some? ==>
              ConvertImage(ProcessFile(s, f), format, w, h, true, encode)
                == Downloaded(ConvertedName(f.name, format), DrawRequest(f, w, h, format),
                              encode(DrawRequest(f, w, h, format)).value)
  {
  }
}
