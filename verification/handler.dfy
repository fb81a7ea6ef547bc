/** The `POST /predict` handler as a pure function of what it observes: the
    `file` part of the request, the outcome of opening and resizing the saved
    image, and the score vector the classifier returns for it. Decoding and
    the classifier are opaque, so their results arrive as parameters. */
module PredictHandler {
  import FileExtensions
  import UploadValidation
  import LabelSelection

  /** Outcome of opening the saved upload as an image, converting it to RGB
      and resizing it; a failure carries the decoder's message. */
  datatype Decode = Decoded | DecodeFailed(message: string)

  /** Errors the handler does not catch: they escape to the web framework
      and get no response of the handler's own. */
  datatype Fatal = EmptyPrediction | ClassIndexOutOfRange(index: nat)

  /** What the client receives. */
  datatype Response = Rendered(className: string) | BadRequest(body: string) | Unhandled(error: Fatal)
  {
    /** The HTTP status the handler itself sets. */
    function Status(): (code: int)
      requires !Unhandled?
      ensures code == 200 || code == 400
      ensures code == 200 <==> Rendered?
    {
      if Rendered? then 200 else 400
    }
  }

  const DecodeErrorPrefix: string := "Error processing image: "

  /** One prediction request: the upload checks first, then decoding, then
      the label lookup. A label is rendered only when every check passes,
      the image decodes, and the first largest score falls inside the class
      table; a refused upload never reaches the decoder. */
  function Predict(field: UploadValidation.FileField, decode: Decode, scores: seq<real>): (r: Response)
    ensures r.Rendered? <==>
      field.FilePart? && FileExtensions.EndsWithAllowedExtension(field.filename) && decode.Decoded?
      && exists k :: LabelSelection.IsFirstMax(scores, k) && k < |LabelSelection.ClassNames|
    ensures r.Rendered? ==>
      exists k :: LabelSelection.IsFirstMax(scores, k) && k < |LabelSelection.ClassNames|
                  && r.className == LabelSelection.ClassNames[k]
    ensures UploadValidation.Validate(field).Reject? ==> r == BadRequest(UploadValidation.Validate(field).reason.Body())
    ensures field.FilePart? && FileExtensions.EndsWithAllowedExtension(field.filename) && decode.DecodeFailed? ==>
      r == BadRequest(DecodeErrorPrefix + decode.message)
    ensures field.FilePart? && FileExtensions.EndsWithAllowedExtension(field.filename) && decode.Decoded? ==>
      (|scores| == 0 <==> r == Unhandled(EmptyPrediction))
      && (forall k :: LabelSelection.IsFirstMax(scores, k) && k >= |LabelSelection.ClassNames| ==>
            r == Unhandled(ClassIndexOutOfRange(k)))
  {
    match UploadValidation.Validate(field)
    case Reject(reason) => BadRequest(reason.Body())
    case Accept(_) =>
      match decode
      case DecodeFailed(message) => BadRequest(DecodeErrorPrefix + message)
      case Decoded =>
        match LabelSelection.SelectLabel(scores)
        case Selected(name) => Rendered(name)
        case EmptyScores => Unhandled(EmptyPrediction)
        case IndexOutOfRange(k) => Unhandled(ClassIndexOutOfRange(k))
  }

  /** The upload checks are reported in order, whatever the decoder and the
      classifier would have done: a missing part before anything else, and
      an empty filename as "no file selected", never as a bad file type. */
  lemma RefusalsInOrder(decode: Decode, scores: seq<real>)
    ensures Predict(UploadValidation.NoFilePart, decode, scores) == BadRequest("No file uploaded")
    ensures Predict(UploadValidation.FilePart(""), decode, scores) == BadRequest("No file selected")
  {
  }

  /** A filename that is not empty and lacks an allowed last extension is
      refused with the file-type message, before any decoding. */
  lemma WrongTypeRefused(name: string, decode: Decode, scores: seq<real>)
    requires name != "" && !FileExtensions.AllowedFile(name)
    ensures Predict(UploadValidation.FilePart(name), decode, scores)
              == BadRequest("File type is not allowed. Only PNG, JPG, JPEG, and GIF are accepted.")
  {
    FileExtensions.AllowedFileMeansAllowedExtension(name);
  }

  /** A decoder failure on an accepted upload is reported as a bad request
      whose body is the fixed prefix followed by the decoder's message. */
  lemma DecodeFailureReported(name: string, message: string, scores: seq<real>)
    requires FileExtensions.AllowedFile(name)
    ensures Predict(UploadValidation.FilePart(name), DecodeFailed(message), scores)
              == BadRequest(DecodeErrorPrefix + message)
  {
    FileExtensions.AllowedFileMeansAllowedExtension(name);
  }

  /** With the classifier's eight scores, an accepted upload that decodes is
      answered with status 200 and the class name at the first largest
      score. */
  lemma EightScoresRendered(name: string, scores: seq<real>, k: int)
    requires FileExtensions.AllowedFile(name)
    requires |scores| == |LabelSelection.ClassNames|
    requires LabelSelection.IsFirstMax(scores, k)
    ensures Predict(UploadValidation.FilePart(name), Decoded, scores) == Rendered(LabelSelection.ClassNames[k])
    ensures Predict(UploadValidation.FilePart(name), Decoded, scores).Status() == 200
  {
    FileExtensions.AllowedFileMeansAllowedExtension(name);
    LabelSelection.EightScoresSelectFirstMax(scores, k);
  }
}
