# Skin-disease prediction handler — a Dafny model of its decision logic

The repository is a small Flask application. A client uploads an image to
`POST /predict`. The handler checks the upload, opens and resizes the image,
and asks a pre-trained Keras classifier for eight scores. It then answers
with the name of the best-scoring skin condition. This project models the
decisions the handler makes around that request. Those decisions are:

- `allowed_file`, the extension allow-list filter. A filename passes when the
  text after its last `.`, lower-cased, is `png`, `jpg`, `jpeg` or `gif`.
- The ordered checks in `predict`, each with its own 400 message.
- numpy's `argmax` on the score vector, with ties going to the first index.
- The lookup of that index in the eight-entry `CLASS_NAMES` table.
- The whole request as one pure function. Its result is a rendered label, a
  400 body, or an error the handler does not catch.

Modules:

- `FileExtensions` (`extensions.dfy`): ASCII lower-casing, `str.rfind`, and
  `str.rsplit(sep, 1)`. It holds `AllowedFile` and the reference predicate
  `EndsWithAllowedExtension`. That predicate reads the filter without
  splitting: some `.` is followed, up to the end of the name, by an allowed
  extension in any letter case.
- `UploadValidation` (`validation.dfy`): the `file` part (`FileField`), the
  three refusals and their exact bodies, and the classifier `Validate`.
- `LabelSelection` (`labels.dfy`): `ClassNames`, the reference predicate
  `IsFirstMax`, `ArgMax`, `Label` and `SelectLabel`.
- `PredictHandler` (`handler.dfy`): `Predict`. It takes the request's file
  part, the outcome of decoding and the score vector as parameters.

Decoding the image and running the classifier are opaque steps, so their
results are inputs to `Predict`. A decode either succeeds or fails with a
message. The classifier's output is any sequence of reals. numpy's `argmax`
without an axis flattens the `(1, 8)` prediction array, so the model works on
the flat score sequence.

A missing `file` part and an empty filename get different bodies: `No file
uploaded` (templates/app.py:46) and `No file selected`
(templates/app.py:50).

## Model

| member | source | states |
|---|---|---|
| FileExtensions.Lower | templates/app.py:37 | `.lower()` keeps the length of the extension |
| FileExtensions.LowerIsLowerCase | templates/app.py:37 | Lower-cased text holds no upper-case ASCII letter, and lower-casing twice is the same as once |
| FileExtensions.RFind | templates/app.py:37 | The index returned is a `.` with no `.` after it, or -1 when there is none; this locates the split point of `rsplit('.', 1)` |
| FileExtensions.RSplitOnce | templates/app.py:37 | `rsplit(sep, 1)` gives two parts exactly when the separator occurs; the parts rejoined around the separator give back the name, and the second part holds no separator; with no separator the one part is the whole name |
| FileExtensions.AllowedFile | templates/app.py:34-37 | `allowed_file` itself; every accepted name contains `.` and has at least four characters, since the shortest allow-list entry has three |
| FileExtensions.AllowedFileMeansAllowedExtension | templates/app.py:34-37 | `allowed_file` holds exactly when some `.` in the name is followed, up to the end, by an allow-list entry in any letter case (both directions) |
| FileExtensions.AllowedExtensionIsLast | templates/app.py:34-37 | When some `.` is followed, up to the end, by an allow-list entry in any case, that `.` is the one `rsplit` splits at, and `allowed_file` accepts the name |
| FileExtensions.ExtensionDecides | templates/app.py:37 | For any stem, dots included, `stem + "." + ext` with a dot-free `ext` is accepted exactly when `ext` lower-cased is on the allow-list: only the last extension matters |
| FileExtensions.EmptyExtensionRejected | templates/app.py:34-37 | A name ending in `.` has the empty extension and is refused |
| FileExtensions.NoDotRejected | templates/app.py:37 | A name without `.`, the empty name included, is refused |
| FileExtensions.AcceptedUnderCaseChange | templates/app.py:34-37 | An accepted name stays accepted when its letter case changes anywhere |
| FileExtensions.CaseInsensitive | templates/app.py:34-37 | Two names that lower-case to the same text get the same answer |
| FileExtensions.InnerExtensionIgnored | templates/app.py:37 | `x.exe.png` is accepted |
| FileExtensions.DoubleExtensionAccepted | templates/app.py:37 | `a.tar.png` is accepted |
| FileExtensions.LastExtensionRefused | templates/app.py:37 | `x.png.exe` is refused |
| FileExtensions.BareExtensionAccepted | templates/app.py:37 | `.png`, with an empty stem, is accepted |
| FileExtensions.UpperCaseExtensionAccepted | templates/app.py:34-37 | `IMG.PNG` is accepted |
| FileExtensions.TrailingDotRefused | templates/app.py:34-37 | `name.` is refused |
| UploadValidation.Rejection.Body | templates/app.py:46-53 | Every refusal body is non-empty, and the file-type body names each allow-list entry of line 34 in upper case, so the message agrees with the filter |
| UploadValidation.FileTypeMessageListsExtensions | templates/app.py:34-53 | `PNG`, `JPG`, `JPEG` and `GIF` all occur in the file-type message |
| UploadValidation.Validate | templates/app.py:45-53 | A missing file part gives "No file uploaded"; an empty filename gives "No file selected", never the file-type refusal; a verdict accepts exactly when the part is present and the name ends in `.` plus an allowed extension, and then carries the client's non-empty filename containing `.`; every other non-empty name gets the file-type refusal |
| UploadValidation.BodiesDistinct | templates/app.py:46-53 | The three refusal bodies are pairwise different, so a client can tell the refusals apart |
| UploadValidation.VerdictIgnoresCase | templates/app.py:49-53 | Filenames that differ only in ASCII letter case are both accepted or both refused, and for the same reason |
| LabelSelection.ArgMax | templates/app.py:69 | For a non-empty score vector the index is in range, its score is at least every score, and strictly greater than every earlier score (first occurrence wins ties) |
| LabelSelection.FirstMaxUnique | templates/app.py:69 | At most one index is the first largest score |
| LabelSelection.ArgMaxIsFirstMax | templates/app.py:69 | `argmax` equals `k` exactly when `k` is the first largest score |
| LabelSelection.Label | templates/app.py:22-32 | An in-range index into the class table yields one of the eight class names |
| LabelSelection.SelectLabel | templates/app.py:69-70 | An empty vector is an error; a label is selected exactly when the first largest score lies inside the table, and it is the name at that index; otherwise the lookup is out of range at the first largest score, which is 8 or more; vectors of at most eight scores always select |
| LabelSelection.EightScoresSelectFirstMax | templates/app.py:69-70 | With eight scores the selected label is `CLASS_NAMES` at the first largest score |
| LabelSelection.TieGoesToEarlierClass | templates/app.py:69-70 | A tie between indices 1 and 2 selects "BA-impetigo" |
| LabelSelection.NinthScoreOutOfRange | templates/app.py:70 | A nine-score vector whose largest score is the ninth fails the lookup at index 8 |
| PredictHandler.Predict | templates/app.py:45-70 | A label is rendered exactly when the part is present, the name ends in an allowed extension, the image decodes, and the first largest score lies inside the class table; the label is then that class name; a refused upload returns its refusal body whatever the decoder and classifier would do; an accepted upload that fails to decode returns "Error processing image: " plus the message; a decoded upload with no scores, or whose first largest score is at index 8 or more, ends in an uncaught error, not a 400 body |
| PredictHandler.Response.Status | templates/app.py:45-74 | Every answer the handler makes itself is 200 or 400, and it is 200 exactly for a rendered label |
| PredictHandler.RefusalsInOrder | templates/app.py:45-50 | A missing part always answers "No file uploaded", and an empty filename always answers "No file selected" |
| PredictHandler.WrongTypeRefused | templates/app.py:52-53 | A non-empty name that fails `allowed_file` answers with the exact file-type message |
| PredictHandler.DecodeFailureReported | templates/app.py:58-63 | A decode failure on an accepted upload answers with "Error processing image: " followed by the decoder's message |
| PredictHandler.EightScoresRendered | templates/app.py:68-74 | An accepted upload that decodes, with eight scores, is answered with status 200 and the class name at the first largest score |

## Left out

- Flask routing, multipart parsing, the home page and template rendering
  (templates/app.py:39-41, 74, 77-78) are framework glue. `Rendered` stands
  for the rendered result page.
- Saving the upload, creating the upload directory, removing the file after
  prediction, and the race between two uploads with the same filename
  (templates/app.py:16-18, 55-56, 72) are filesystem I/O and concurrency. So
  is the file left behind when decoding fails.
- Opening, RGB conversion and resizing with PIL (templates/app.py:58-61) are
  a foreign library. They appear only as the `Decode` parameter.
- Scaling pixels by 255.0 and adding the batch dimension
  (templates/app.py:65-66) are floating-point array numerics.
- Loading the Keras model and `model.predict` (templates/app.py:11-12, 68)
  are an opaque classifier. Its output is the `scores` parameter, which may
  be any sequence.
- LabelSelection.ArgMax: scores are reals, so the NaN rule of numpy's `argmax`
  is not modelled. Under that rule the first NaN wins.
- FileExtensions.Lower: only ASCII `A`-`Z` are lower-cased. Python's
  `str.lower` also maps other characters. As far as we know, the only
  non-ASCII characters that lower-case to ASCII text are U+212A (to `k`) and
  U+0130 (to `i` plus a combining dot). Neither can complete an allow-list
  entry, so the filter's answers should agree.
- PredictHandler.Predict: assumes that saving the upload (templates/app.py:55-56)
  and removing it (templates/app.py:72) both succeed. In the source either can
  raise, for example a name such as `sub/x.png` whose directory does not exist,
  or a concurrent request with the same name that removes the file first. Such
  a failure escapes uncaught, and no label is rendered.
- An exception from the classifier itself (templates/app.py:68) is not
  modelled. The classifier is a parameter that always returns a vector.
