/** What the tools know about the file the user picked: the browser's
    `File` object reduced to its name, declared MIME type and byte size. */
module Files {

  datatype FileInfo = FileInfo(name: string, mime: string, size: nat)

  const PdfType: string := "application/pdf"

  /** `type.startsWith('image/')`. */
  predicate IsImageType(mime: string): (b: bool)
    ensures b <==> |mime| >= 6 && forall k :: 0 <= k < 6 ==> mime[k] == "image/"[k]
    ensures b ==> mime != PdfType
  {
    assert "image/" <= mime ==> mime[0] == "image/"[0];
    assert PdfType[0] != "image/"[0];
    "image/" <= mime
  }
}
