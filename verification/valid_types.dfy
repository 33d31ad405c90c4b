/** `is_allowed_file`: the upload gate on the file name's extension. */
module ValidTypes {
  import opened Outcomes
  import opened Chars
  import opened Config

  /** The position of the last '.' in `s`, if there is one. */
  function LastDot(s: string): (r: Option<nat>)
    ensures r.Some? ==> r.value < |s| && s[r.value] == '.'
    ensures r.Some? ==> forall m :: r.value < m < |s| ==> s[m] != '.'
    ensures r.None? ==> forall m :: 0 <= m < |s| ==> s[m] != '.'
  {
    if s == [] then None
    else if s[|s| - 1] == '.' then Some(|s| - 1)
    else LastDot(s[..|s| - 1])
  }

  /** `filename.rsplit('.', 1)[1]`, guarded by `'.' in filename`: the text after the last
      dot, or nothing when the name has no dot. */
  function Extension(filename: string): Option<string> {
    match LastDot(filename)
    case None => None
    case Some(k) => Some(filename[k + 1..])
  }

  /** What `rsplit('.', 1)` promises: there is no extension exactly when the name has no
      dot, and otherwise the name is a stem, a dot and the extension, which has no dot. */
  lemma ExtensionIsLastPart(filename: string)
    ensures Extension(filename).None? <==> forall m :: 0 <= m < |filename| ==> filename[m] != '.'
    ensures Extension(filename).Some? ==>
      var ext := Extension(filename).value;
      && |ext| < |filename|
      && filename == filename[..|filename| - |ext| - 1] + "." + ext
      && forall m :: 0 <= m < |ext| ==> ext[m] != '.'
  {
    match LastDot(filename)
    case None =>
    case Some(k) =>
      var ext := filename[k + 1..];
      assert forall m :: 0 <= m < |ext| ==> ext[m] == filename[k + 1 + m];
      assert filename == filename[..k] + [filename[k]] + ext;
  }

  /** `is_allowed_file`. */
  predicate IsAllowedFile(filename: string) {
    match Extension(filename)
    case None => false
    case Some(ext) => Lower(ext) in AllowedExtensions
  }

  /** Whatever comes before it, a name is allowed exactly when the text after its last dot,
      lowercased, is one of the allowed extensions. */
  lemma AllowedIffLastDotExtension(filename: string, k: nat)
    requires k < |filename| && filename[k] == '.'
    requires forall m :: k < m < |filename| ==> filename[m] != '.'
    ensures IsAllowedFile(filename) <==> Lower(filename[k + 1..]) in AllowedExtensions
  {
    assert LastDot(filename) == Some(k);
  }

  /** A name without a dot is never allowed. */
  lemma NoDotNotAllowed(filename: string)
    requires forall m :: 0 <= m < |filename| ==> filename[m] != '.'
    ensures !IsAllowedFile(filename)
  {
    assert LastDot(filename).None?;
  }

  /** Only the last extension counts, in any letter case. */
  lemma LastExtensionCounts()
    ensures IsAllowedFile("x.exe.PDF")
    ensures !IsAllowedFile("x.pdf.exe")
  {
    UpperPdfAllowed();
    ExeNotAllowed();
  }

  lemma UpperPdfAllowed()
    ensures IsAllowedFile("x.exe.PDF")
  {
    AllowedIffLastDotExtension("x.exe.PDF", 5);
    assert "x.exe.PDF"[6..] == "PDF";
    assert Lower("PDF") == "pdf";
  }

  lemma ExeNotAllowed()
    ensures !IsAllowedFile("x.pdf.exe")
  {
    AllowedIffLastDotExtension("x.pdf.exe", 5);
    assert "x.pdf.exe"[6..] == "exe";
    assert Lower("exe") == "exe";
  }

  /** A trailing dot leaves an empty extension, which is not allowed. */
  lemma TrailingDotNotAllowed()
    ensures !IsAllowedFile("x.")
  {
    AllowedIffLastDotExtension("x.", 1);
    assert "x."[2..] == "";
  }

  /** The stem may be empty, but the dot may not be missing. */
  lemma EmptyStemAllowed()
    ensures IsAllowedFile(".pdf")
    ensures !IsAllowedFile("pdf")
  {
    AllowedIffLastDotExtension(".pdf", 0);
    assert ".pdf"[1..] == "pdf";
    assert Lower("pdf") == "pdf";
    NoDotNotAllowed("pdf");
  }
}
