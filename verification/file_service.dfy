/**
 * The file-name part of FileServiceImpl.uploadFile: the extension check and
 * the composition of the stored name. Writing the file is not modelled.
 */
module FileService {
  import opened Entities

  /** String.lastIndexOf(c): the last position holding c, or -1. */
  function LastIndexOf(s: string, c: char): (r: int)
    ensures -1 <= r < |s|
    ensures r >= 0 ==> s[r] == c
    ensures forall i :: r < i < |s| ==> s[i] != c
  {
    if |s| == 0 then -1
    else if s[|s| - 1] == c then |s| - 1
    else LastIndexOf(s[..|s| - 1], c)
  }

  /** The suffix of a file name starting at its last '.'. */
  function Extension(name: string): (e: string)
    requires '.' in name
    ensures |e| >= 1 && e[0] == '.'
    ensures forall i :: 1 <= i < |e| ==> e[i] != '.'
    ensures |e| <= |name| && name == name[..|name| - |e|] + e
  {
    name[LastIndexOf(name, '.')..]
  }

  /** ASCII upper-case letters to lower case; every other character is kept. */
  function LowerAscii(c: char): char {
    if 'A' <= c <= 'Z' then (c as int + 32) as char else c
  }

  /** String.equalsIgnoreCase, for letters in the ASCII range. */
  predicate EqualsIgnoreCase(a: string, b: string) {
    |a| == |b| && forall i :: 0 <= i < |a| ==> LowerAscii(a[i]) == LowerAscii(b[i])
  }

  /** The image types an upload may have. */
  predicate AcceptedExtension(ext: string) {
    EqualsIgnoreCase(ext, ".png") || EqualsIgnoreCase(ext, ".jpg") || EqualsIgnoreCase(ext, ".jpeg")
  }

  /**
   * The name under which an upload is stored: the generated id followed by the
   * original file's extension, provided there is a file name, it has an
   * extension, and the extension is an accepted image type.
   */
  function UploadFileName(original: Option<string>, generatedId: string): (r: Result<string>)
    ensures r == Err(InvalidFile) <==> original.None? || '.' !in original.value
    ensures r == Err(FileTypeNotAllowed) <==>
      original.Some? && '.' in original.value && !AcceptedExtension(Extension(original.value))
    ensures r.Ok? <==>
      original.Some? && '.' in original.value && AcceptedExtension(Extension(original.value))
    ensures r.Ok? ==> r.value == generatedId + Extension(original.value)
    ensures r.Ok? ==>
      && |r.value| > |generatedId|
      && r.value[..|generatedId|] == generatedId
      && AcceptedExtension(r.value[|generatedId|..])
  {
    if original.None? || '.' !in original.value then Err(InvalidFile)
    else
      var ext := Extension(original.value);
      if !AcceptedExtension(ext) then Err(FileTypeNotAllowed)
      else
        var name := generatedId + ext;
        assert name[|generatedId|..] == ext;
        Ok(name)
  }

  /**
   * Only the last extension decides: for any stem, whatever dots it holds,
   * the name `stem.ext` is judged by `.ext` alone, and an accepted one is
   * stored under the generated id followed by `.ext`.
   */
  lemma {:induction false} LastExtensionDecides(stem: string, ext: string, generatedId: string)
    requires '.' !in ext
    ensures var name := stem + "." + ext;
      && Extension(name) == "." + ext
      && (UploadFileName(Some(name), generatedId).Ok? <==> AcceptedExtension("." + ext))
      && (!AcceptedExtension("." + ext) ==> UploadFileName(Some(name), generatedId) == Err(FileTypeNotAllowed))
      && (AcceptedExtension("." + ext) ==> UploadFileName(Some(name), generatedId) == Ok(generatedId + "." + ext))
  {
    var name := stem + "." + ext;
    assert name[|stem|] == '.';
    assert forall i :: |stem| < i < |name| ==> name[i] == ext[i - |stem| - 1];
    var k := LastIndexOf(name, '.');
    assert k == |stem|;
    assert name[k..] == "." + ext;
    assert generatedId + ("." + ext) == generatedId + "." + ext;
  }

  /** Case does not matter: an upper-case extension is kept as it is. */
  lemma UpperCaseImageAccepted(generatedId: string)
    ensures UploadFileName(Some("photo.PNG"), generatedId) == Ok(generatedId + ".PNG")
  {
    assert Extension("photo.PNG") == ".PNG";
  }

  /** Only the last extension counts: a PNG name with a trailing other extension is refused. */
  lemma DoubleExtensionRefused(generatedId: string)
    ensures UploadFileName(Some("image.png.exe"), generatedId) == Err(FileTypeNotAllowed)
  {
    var name := "image.png.exe";
    assert name[9] == '.' && name[10] == 'e' && name[11] == 'x' && name[12] == 'e';
    assert LastIndexOf(name, '.') == 9;
    assert Extension(name) == ".exe";
    assert !EqualsIgnoreCase(".exe", ".png");
  }
}
