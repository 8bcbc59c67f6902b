/** The client-side uploader: the state it keeps (the selected image, its preview, the
    generated markup and stylesheet, the loading flag and the message on show) and the
    handlers that change it. The browser's file reader and the `POST` to the generation
    endpoint are asynchronous; their results come in as parameters. */
module ImageUploader {
  import opened Wrappers
  import opened Text
  import GenerateCodeRoute

  /** The largest accepted image, in bytes (1 MiB). */
  const MaxImageSize: nat := 1024 * 1024
  const ImageTypePrefix: string := "image/"

  const InvalidTypeMessage: string := "Please upload a valid image file."
  const TooLargeMessage: string := "Image size should not exceed 1MB."
  const GenerationFailedMessage: string := "An error occurred while generating the code. Please try again."

  /** A file offered by drag-and-drop or the file picker: its name, declared media type and size in bytes. */
  datatype File = File(name: string, mimeType: string, size: nat)

  /** Which generated text a copy button asks for. */
  datatype CodeKind = Html | Css

  /** How the `POST` to the generation endpoint settled: resolved with the `html` and
      `css` fields of the response data, or rejected. */
  datatype PostOutcome = Delivered(html: string, css: string) | Rejected

  predicate IsImage(file: File) {
    StartsWith(file.mimeType, ImageTypePrefix)
  }

  /** The verdict of the upload handler on a candidate (`None` when no file came with
      the event): `None` accepts it, `Some(message)` rejects it with that message. */
  function UploadError(file: Option<File>): (e: Option<string>)
    ensures e == None <==> file.Some? && IsImage(file.value) && file.value.size <= MaxImageSize
    ensures e == Some(InvalidTypeMessage) <==> !(file.Some? && IsImage(file.value))
    ensures e == Some(TooLargeMessage) <==> file.Some? && IsImage(file.value) && file.value.size > MaxImageSize
  {
    if file.Some? && IsImage(file.value) then
      if file.value.size > MaxImageSize then Some(TooLargeMessage) else None
    else
      Some(InvalidTypeMessage)
  }

  /** The type test comes first: a file that is not an image is refused as such, however large. */
  lemma NonImageRefusedWhateverSize(name: string, mimeType: string, size: nat)
    requires !StartsWith(mimeType, ImageTypePrefix)
    ensures UploadError(Some(File(name, mimeType, size))) == Some(InvalidTypeMessage)
  {
  }

  /** The size test is strict: exactly 1 MiB is accepted, one byte more is refused. */
  lemma SizeLimitIsInclusive(name: string, mimeType: string)
    requires StartsWith(mimeType, ImageTypePrefix)
    ensures UploadError(Some(File(name, mimeType, 1048576))) == None
    ensures UploadError(Some(File(name, mimeType, 1048577))) == Some(TooLargeMessage)
  {
  }

  /** What axios makes of the endpoint's answer (`None` when no answer arrived): a
      2xx status resolves with the body's fields, anything else rejects. */
  function PostResult(response: Option<GenerateCodeRoute.Response>): (o: PostOutcome)
    ensures o.Delivered? ==> response.Some? && 200 <= response.value.status < 300
    ensures o.Delivered? ==> response.value.body == GenerateCodeRoute.CodeBody(o.html, o.css)
    ensures response.Some? && 200 <= response.value.status < 300 && response.value.body.CodeBody? ==> o.Delivered?
  {
    match response
    case None => Rejected
    case Some(r) =>
      if 200 <= r.status < 300 && r.body.CodeBody? then Delivered(r.body.html, r.body.css) else Rejected
  }

  /** Against this endpoint the request resolves exactly when the endpoint answers 200,
      and then it delivers non-empty markup and stylesheet, neither holding the sentinel. */
  lemma EndpointDeliversCleanCode(form: GenerateCodeRoute.FormRead,
                                  generate: GenerateCodeRoute.GenerationRequest -> GenerateCodeRoute.Upstream)
    ensures var r := GenerateCodeRoute.HandlePost(form, generate);
      PostResult(Some(r)).Delivered? <==> r.status == 200
    ensures var o := PostResult(Some(GenerateCodeRoute.HandlePost(form, generate)));
      o.Delivered? ==>
        (o.html != "" && o.css != ""
         && !Contains(o.html, GenerateCodeRoute.Sentinel) && !Contains(o.css, GenerateCodeRoute.Sentinel))
  {
    var r := GenerateCodeRoute.HandlePost(form, generate);
    if r.body.CodeBody? {
      GenerateCodeRoute.HandlePostCodeHasNoSentinel(form, generate);
    }
  }

  class Uploader {
    var image: Option<File>
    var imagePreview: Option<string>
    var generatedHtml: string
    var generatedCss: string
    var isLoading: bool
    var error: Option<string>
    /** The images sent to the generation endpoint so far, oldest first. */
    ghost var posted: seq<File>

    /** Between handlers no request is in flight, and the message on show, if any, is
        one of the handlers' own. */
    ghost predicate Valid()
      reads this
    {
      !isLoading
      && (error == None || error.value in {InvalidTypeMessage, TooLargeMessage, GenerationFailedMessage})
    }

    constructor ()
      ensures Valid()
      ensures image == None && imagePreview == None
      ensures generatedHtml == "" && generatedCss == ""
      ensures !isLoading && error == None && posted == []
    {
      image, imagePreview := None, None;
      generatedHtml, generatedCss := "", "";
      isLoading, error := false, None;
      posted := [];
    }

    /** `handleImageUpload`: a file whose type starts with `image/` and whose size is at
        most 1 MiB becomes the selection and clears the message; anything else only
        sets the message saying why. */
    method HandleImageUpload(file: Option<File>)
      requires Valid()
      modifies this
      ensures Valid()
      ensures error == UploadError(file)
      ensures image == (if UploadError(file) == None then file else old(image))
      ensures imagePreview == old(imagePreview) && isLoading == old(isLoading)
      ensures generatedHtml == old(generatedHtml) && generatedCss == old(generatedCss)
      ensures posted == old(posted)
    {
      if file.Some? && StartsWith(file.value.mimeType, ImageTypePrefix) {
        if file.value.size > MaxImageSize {
          error := Some(TooLargeMessage);
          return;
        }
        image := file;
        error := None;
      } else {
        error := Some(InvalidTypeMessage);
      }
    }

    /** The file reader's `onload` for an accepted file: the data URL becomes the preview. */
    method PreviewRead(dataUrl: string)
      modifies this
      ensures imagePreview == Some(dataUrl)
      ensures image == old(image) && error == old(error) && isLoading == old(isLoading)
      ensures generatedHtml == old(generatedHtml) && generatedCss == old(generatedCss)
      ensures posted == old(posted)
    {
      imagePreview := Some(dataUrl);
    }

    /** `handleDrop`: the first dropped file, or none, goes to the upload handler. */
    method HandleDrop(files: seq<File>)
      requires Valid()
      modifies this
      ensures Valid()
      ensures var candidate := if |files| > 0 then Some(files[0]) else None;
        error == UploadError(candidate)
        && image == (if UploadError(candidate) == None then candidate else old(image))
      ensures imagePreview == old(imagePreview) && isLoading == old(isLoading)
      ensures generatedHtml == old(generatedHtml) && generatedCss == old(generatedCss)
      ensures posted == old(posted)
    {
      HandleImageUpload(if |files| > 0 then Some(files[0]) else None);
    }

    /** `handleBrowse`: the first picked file goes to the upload handler; an empty pick changes nothing. */
    method HandleBrowse(files: seq<File>)
      requires Valid()
      modifies this
      ensures Valid()
      ensures |files| == 0 ==> image == old(image) && error == old(error)
      ensures |files| > 0 ==>
        error == UploadError(Some(files[0]))
        && image == (if UploadError(Some(files[0])) == None then Some(files[0]) else old(image))
      ensures imagePreview == old(imagePreview) && isLoading == old(isLoading)
      ensures generatedHtml == old(generatedHtml) && generatedCss == old(generatedCss)
      ensures posted == old(posted)
    {
      if |files| > 0 {
        HandleImageUpload(Some(files[0]));
      }
    }

    /** `generateCodeFromImage`: without a selection nothing happens. Otherwise the
        selection is posted with the loading flag up and the message cleared; a delivered
        pair replaces the generated texts, a rejection sets the retry message and keeps
        them; the loading flag comes down either way. */
    method GenerateCodeFromImage(outcome: PostOutcome)
      requires Valid()
      modifies this
      ensures Valid()
      ensures old(image) == None ==>
        error == old(error) && generatedHtml == old(generatedHtml) && generatedCss == old(generatedCss)
        && posted == old(posted)
      ensures old(image) != None ==> posted == old(posted) + [old(image).value]
      ensures old(image) != None && outcome.Delivered? ==>
        generatedHtml == outcome.html && generatedCss == outcome.css && error == None
      ensures old(image) != None && outcome.Rejected? ==>
        generatedHtml == old(generatedHtml) && generatedCss == old(generatedCss)
        && error == Some(GenerationFailedMessage)
      ensures image == old(image) && imagePreview == old(imagePreview) && !isLoading
    {
      if image == None {
        return;
      }
      isLoading := true;
      error := None;
      posted := posted + [image.value];
      match outcome {
        case Delivered(html, css) =>
          generatedHtml := html;
          generatedCss := css;
        case Rejected =>
          error := Some(GenerationFailedMessage);
      }
      isLoading := false;
    }

    /** `copyToClipboard`: the text a copy button hands to the clipboard. */
    method CopyToClipboard(kind: CodeKind) returns (text: string)
      ensures kind == Html ==> text == generatedHtml
      ensures kind == Css ==> text == generatedCss
    {
      text := if kind == Html then generatedHtml else generatedCss;
    }

    /** `resetUploader`: drops the selection, its preview, the generated texts and the
        message; the loading flag is left as it is. */
    method ResetUploader()
      requires Valid()
      modifies this
      ensures Valid()
      ensures image == None && imagePreview == None && error == None
      ensures generatedHtml == "" && generatedCss == ""
      ensures isLoading == old(isLoading) && posted == old(posted)
    {
      image := None;
      imagePreview := None;
      generatedHtml := "";
      generatedCss := "";
      error := None;
    }
  }
}
