/** The ordered checks `predict` runs on the `file` part of an upload before
    touching the file: is the part present, does it carry a filename, and does
    that filename pass the extension filter. */
module UploadValidation {
  import FileExtensions

  /** The `file` part of a multipart request: absent, or present with the
      filename the client claimed (possibly empty). */
  datatype FileField = NoFilePart | FilePart(filename: string)

  /** The three ways the checks refuse a request. */
  datatype Rejection = NoFileUploaded | NoFileSelected | FileTypeNotAllowed
  {
    /** The plain-text body of the 400 response for this refusal. The
        file-type refusal names every entry of the allow-list, upper-cased,
        so the message agrees with the filter it reports on. */
    function Body(): (text: string)
      ensures text != ""
      ensures FileTypeNotAllowed? ==>
        forall e :: e in FileExtensions.AllowedExtensions ==> Mentions(text, FileExtensions.Upper(e))
    {
      match this
      case NoFileUploaded => "No file uploaded"
      case NoFileSelected => "No file selected"
      case FileTypeNotAllowed =>
        FileTypeMessageListsExtensions();
        FileTypeMessage
    }
  }

  /** The body of the file-type refusal. */
  const FileTypeMessage: string := "File type is not allowed. Only PNG, JPG, JPEG, and GIF are accepted."

  /** `word` occurs somewhere in `text`. */
  ghost predicate Mentions(text: string, word: string)
  {
    exists i :: 0 <= i <= |text| - |word| && word <= text[i..]
  }

  /** A word matched character by character at position `i` occurs in the text. */
  lemma MentionsAt(text: string, word: string, i: int)
    requires 0 <= i <= |text| - |word|
    requires forall j :: 0 <= j < |word| ==> text[i + j] == word[j]
    ensures Mentions(text, word)
  {
    assert word <= text[i..];
  }

  lemma UpperExtensions()
    ensures FileExtensions.Upper("png") == "PNG" && FileExtensions.Upper("jpg") == "JPG"
    ensures FileExtensions.Upper("jpeg") == "JPEG" && FileExtensions.Upper("gif") == "GIF"
  {
  }

  /** The file-type refusal names every allow-list entry in upper case. */
  lemma FileTypeMessageListsExtensions()
    ensures forall e :: e in FileExtensions.AllowedExtensions ==> Mentions(FileTypeMessage, FileExtensions.Upper(e))
  {
    UpperExtensions();
    MentionsPng();
    MentionsJpg();
    MentionsJpeg();
    MentionsGif();
  }

  lemma MentionsPng()
    ensures Mentions(FileTypeMessage, "PNG")
  {
    MentionsAt(FileTypeMessage, "PNG", 31);
  }

  lemma MentionsJpg()
    ensures Mentions(FileTypeMessage, "JPG")
  {
    MentionsAt(FileTypeMessage, "JPG", 36);
  }

  lemma MentionsJpeg()
    ensures Mentions(FileTypeMessage, "JPEG")
  {
    MentionsAt(FileTypeMessage, "JPEG", 41);
  }

  lemma MentionsGif()
    ensures Mentions(FileTypeMessage, "GIF")
  {
    MentionsAt(FileTypeMessage, "GIF", 51);
  }

  /** The outcome of the checks: the filename to process, or a refusal. */
  datatype Verdict = Accept(filename: string) | Reject(reason: Rejection)

  /** The checks in the handler's order. An empty filename is reported as
      "no file selected" even though it would also fail the extension
      filter; an accepted filename is the one the client sent and ends in
      `.` followed by an allowed extension in any letter case. */
  function Validate(field: FileField): (v: Verdict)
    ensures field.NoFilePart? ==> v == Reject(NoFileUploaded)
    ensures field.FilePart? && field.filename == "" ==> v == Reject(NoFileSelected)
    ensures v.Accept? <==> field.FilePart? && FileExtensions.EndsWithAllowedExtension(field.filename)
    ensures v.Accept? ==> v.filename == field.filename && v.filename != "" && '.' in v.filename
    ensures field.FilePart? && field.filename != "" ==>
      (FileExtensions.EndsWithAllowedExtension(field.filename) || v == Reject(FileTypeNotAllowed))
  {
    match field
    case NoFilePart => Reject(NoFileUploaded)
    case FilePart(name) =>
      FileExtensions.AllowedFileMeansAllowedExtension(name);
      if name == "" then Reject(NoFileSelected)
      else if !FileExtensions.AllowedFile(name) then Reject(FileTypeNotAllowed)
      else Accept(name)
  }

  /** The three refusals are told apart by their bodies alone. */
  lemma BodiesDistinct(a: Rejection, b: Rejection)
    requires a.Body() == b.Body()
    ensures a == b
  {
  }

  /** Letter case in the filename never changes the verdict's kind: two
      present filenames that lower-case alike are both accepted or both
      refused, and refused for the same reason. */
  lemma VerdictIgnoresCase(a: string, b: string)
    requires FileExtensions.Lower(a) == FileExtensions.Lower(b)
    ensures Validate(FilePart(a)).Accept? <==> Validate(FilePart(b)).Accept?
    ensures Validate(FilePart(a)).Reject? ==> Validate(FilePart(a)) == Validate(FilePart(b))
  {
    FileExtensions.CaseInsensitive(a, b);
    FileExtensions.AllowedFileMeansAllowedExtension(a);
    FileExtensions.AllowedFileMeansAllowedExtension(b);
  }
}
