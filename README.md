# Image-to-code generation core, in Dafny

This project models the two pieces of logic in an app that turns an uploaded image into
HTML and CSS:

- the server's `POST` handler for the code-generation endpoint
  (`app/api/generate-code/route.ts`). It reads the `image` entry of the form and sends the
  image with a fixed instruction to a remote generator. It cuts the free-text reply at the
  `CSS:` sentinel into markup and stylesheet, and maps every outcome to an HTTP status and
  a JSON body;
- the client's uploader (`app/components/ImageUploader.tsx`). It holds the selected
  image, its preview, the generated texts, a loading flag and an error message. Its
  handlers validate a file, request generation, copy a text and reset.

Files:

- `wrappers.dfy`: `Option` and `Result`.
- `text.dfy` (module `Text`): the JavaScript string built-ins the handler relies on.
  These are `indexOf`, `split` with a non-empty separator (cutting at every occurrence,
  left to right), `trim` over ECMAScript's whitespace and line-terminator characters, and
  `startsWith`. It also proves their properties: split/join round trip, pieces never hold
  the separator, trim is idempotent and only removes surrounding whitespace.
- `route.dfy` (module `GenerateCodeRoute`): the handler as pure functions. The remote
  generator is a function parameter from request to outcome. `ParseReply` is the
  split/trim/emptiness test, and `HandlePost` is the whole `try`/`catch`.
- `uploader.dfy` (module `ImageUploader`): the component's state as a class `Uploader`.
  Each state-changing handler is a method with a `modifies` clause, and its
  postconditions state the complete new state. The file reader's result and the settled `POST` come in as
  parameters.

Three behaviours of the code are easy to misread:

- The reply is split at every `CSS:`, not only at the first. With two sentinels the
  stylesheet is only the text between them, and the rest is dropped
  (`ParseSecondSentinel`, `ParseIgnoresTailAfterSecondSentinel`, `ExampleTwoSentinels`).
- A reply that cannot be parsed gives status 500, the same as a generator failure. It
  does not give a 4xx status.
- The server does not check the type or size of the image again. Only the client does.

## Model

| member | source | states |
|---|---|---|
| Text.IndexOfFrom | app/api/generate-code/route.ts:51 | the result is an occurrence of the pattern at or after the start, and no occurrence lies before it; `None` means there is no occurrence from the start on |
| Text.Split | app/api/generate-code/route.ts:51 | there is at least one piece, and exactly one when the separator does not occur |
| Text.SplitFrom | app/api/generate-code/route.ts:51 | splitting always yields at least one piece |
| Text.SplitJoin | app/api/generate-code/route.ts:51 | joining the pieces of `split` with the separator gives back the original string |
| Text.SplitPiecesFree | app/api/generate-code/route.ts:51 | no piece produced by `split` contains the separator |
| Text.TrimStartIndex | app/api/generate-code/route.ts:51 | every character skipped is whitespace, and the one it stops at is not |
| Text.TrimEndIndex | app/api/generate-code/route.ts:51 | every character dropped from the end is whitespace, and the last one kept is not |
| Text.Trim | app/api/generate-code/route.ts:51 | the result has no whitespace at either end, and it is empty exactly when the input is all whitespace |
| Text.TrimSlice | app/api/generate-code/route.ts:51 | `trim` returns the slice between an all-whitespace prefix and an all-whitespace suffix |
| Text.TrimOfTrimmed | app/api/generate-code/route.ts:58 | a string with no whitespace at either end is its own trim |
| Text.TrimIdempotent | app/api/generate-code/route.ts:58 | trimming twice is trimming once, so the second `trim` of the stylesheet changes nothing |
| Text.TrimKeepsAbsent | app/api/generate-code/route.ts:51 | trimming cannot create an occurrence of a pattern that was absent |
| Text.TrimPadded | app/api/generate-code/route.ts:51 | whitespace around a trimmed non-empty string is exactly what `trim` removes |
| GenerateCodeRoute.ParseReply | app/api/generate-code/route.ts:50-58 | a parse either fails with `Failed to generate both HTML and CSS`, or yields non-empty markup and stylesheet with no surrounding whitespace |
| GenerateCodeRoute.SplitAtFirstSentinel | app/api/generate-code/route.ts:51 | the first split piece is the text before the first sentinel, and there are at least two pieces |
| GenerateCodeRoute.ParseWithoutSentinel | app/api/generate-code/route.ts:51-55 | a reply with no `CSS:` has no stylesheet part and is refused with `Failed to generate both HTML and CSS` |
| GenerateCodeRoute.ParseOneSentinel | app/api/generate-code/route.ts:51-58 | with a single sentinel, markup is the trimmed text before it and the stylesheet the trimmed text after it; either blank means refusal |
| GenerateCodeRoute.ParseSecondSentinel | app/api/generate-code/route.ts:51-58 | with a second sentinel, the stylesheet is only the trimmed text between the first and the second |
| GenerateCodeRoute.ParseIgnoresTailAfterSecondSentinel | app/api/generate-code/route.ts:51 | cutting the reply at its second sentinel does not change the parse: everything after it is discarded |
| GenerateCodeRoute.ParsedCodeHasNoSentinel | app/api/generate-code/route.ts:51-53 | parsed markup and stylesheet never contain `CSS:` |
| GenerateCodeRoute.ParseJoinedParts | app/api/generate-code/route.ts:51-58 | parsing `html + "CSS:" + css`, with no sentinel in either part, gives back both parts trimmed, or the refusal when one is blank |
| GenerateCodeRoute.ParseJoinedPartsWithTail | app/api/generate-code/route.ts:51-58 | the same with a second sentinel and any tail after the stylesheet part; the tail is lost |
| GenerateCodeRoute.ParseTrimmedPartsWithTail | app/api/generate-code/route.ts:51-58 | trimmed, non-empty, sentinel-free parts come back unchanged, whatever follows a second sentinel |
| GenerateCodeRoute.ParsePaddedParts | app/api/generate-code/route.ts:51-58 | whitespace around either part does not reach the parsed pair |
| GenerateCodeRoute.ErrorMessage | app/api/generate-code/route.ts:64-67 | an `Error` contributes its own message; any other thrown value gives `An unexpected error occurred` |
| GenerateCodeRoute.BuildRequest | app/api/generate-code/route.ts:26-42 | the request carries the fixed instruction, which contains the `CSS:` sentinel, with the file's own media type and bytes |
| GenerateCodeRoute.Caught | app/api/generate-code/route.ts:62-68 | a caught value gives status 500 and an error that is `Failed to generate code: ` followed by the value's message, or by `An unexpected error occurred` when it is not an `Error` |
| GenerateCodeRoute.HandlePost | app/api/generate-code/route.ts:6-69 | 400 exactly when the form has no image, with `No image file provided`; 200 exactly when the body carries code, and that code is non-empty; otherwise 500 with the failure prefix; a form that cannot be read is answered as the `catch` block answers its thrown value |
| GenerateCodeRoute.NoImageNeverGenerates | app/api/generate-code/route.ts:11-14 | without an image the answer is 400 whatever the generator would do, so generation is never reached |
| GenerateCodeRoute.HandlePostWithImage | app/api/generate-code/route.ts:16-68 | with an image, the answer is 200 with the parsed pair exactly when the generator replies and the reply parses; a throwing generator gives its message behind the prefix; an unparsable reply gives the parser's message |
| GenerateCodeRoute.HandlePostCodeHasNoSentinel | app/api/generate-code/route.ts:51-61 | the html and css sent in a 200 body never contain `CSS:` |
| GenerateCodeRoute.PromptCarriesSentinel | app/api/generate-code/route.ts:26-31 | the instruction sent to the generator contains the literal sentinel the parser splits on |
| GenerateCodeRoute.ExampleTwoSentinels | app/api/generate-code/route.ts:51 | `<div>CSS:x</div>CSS:.a{color:red}` parses to markup `<div>` and stylesheet `x</div>` |
| GenerateCodeRoute.ExampleSentinelAlone | app/api/generate-code/route.ts:51-54 | the reply `CSS:` alone is refused |
| GenerateCodeRoute.ExampleBlankLineReply | app/api/generate-code/route.ts:51-58 | `<p>Hi</p>`, a blank line, `CSS: p{color:blue}` parses to `<p>Hi</p>` and `p{color:blue}` |
| GenerateCodeRoute.ExampleEndToEnd | app/api/generate-code/route.ts:6-61 | any image with a generator stubbed to that reply yields 200 with that pair |
| GenerateCodeRoute.UpstreamFaultKeepsDetail | app/api/generate-code/route.ts:34-68 | a generator that throws an `Error` yields 500 with its message after `Failed to generate code: ` |
| ImageUploader.UploadError | app/components/ImageUploader.tsx:38-54 | a file is accepted exactly when its type starts with `image/` and its size is at most 1048576; a missing file or non-image gets `Please upload a valid image file.`; an image over the limit gets `Image size should not exceed 1MB.` |
| ImageUploader.NonImageRefusedWhateverSize | app/components/ImageUploader.tsx:39-53 | the type test comes first: a non-image of any size gets the invalid-type message |
| ImageUploader.SizeLimitIsInclusive | app/components/ImageUploader.tsx:40-43 | exactly 1048576 bytes is accepted and 1048577 is refused as too large |
| ImageUploader.PostResult | app/components/ImageUploader.tsx:79-86 | a request resolves exactly on a 2xx answer carrying code, and then delivers the body's html and css |
| ImageUploader.EndpointDeliversCleanCode | app/components/ImageUploader.tsx:79-84 | against this endpoint the request resolves exactly when it answers 200, and delivers non-empty, sentinel-free markup and stylesheet |
| ImageUploader.Uploader.constructor | app/components/ImageUploader.tsx:11-16 | the initial state: no image or preview, empty texts, not loading, no error |
| ImageUploader.Uploader.HandleImageUpload | app/components/ImageUploader.tsx:38-54 | the error becomes the verdict of `UploadError`; an accepted file becomes the image; preview, texts and loading flag are unchanged, and so is the image on a refusal |
| ImageUploader.Uploader.PreviewRead | app/components/ImageUploader.tsx:45-49 | the file reader's data URL becomes the preview and nothing else changes |
| ImageUploader.Uploader.HandleDrop | app/components/ImageUploader.tsx:56-60 | the first dropped file, or no file, is judged as by the upload handler |
| ImageUploader.Uploader.HandleBrowse | app/components/ImageUploader.tsx:62-67 | the first picked file is judged as by the upload handler; an empty pick changes nothing |
| ImageUploader.Uploader.GenerateCodeFromImage | app/components/ImageUploader.tsx:69-91 | without an image nothing changes and nothing is posted; otherwise the image is posted, a delivered pair replaces the texts and clears the error, a rejection keeps the texts and sets the retry message; loading ends false in every case |
| ImageUploader.Uploader.CopyToClipboard | app/components/ImageUploader.tsx:93-94 | `html` selects the generated markup and `css` the generated stylesheet |
| ImageUploader.Uploader.ResetUploader | app/components/ImageUploader.tsx:102-108 | image, preview and error are cleared and both texts emptied; the loading flag is left as it was |

## Left out

- The generator SDK client and the `generateContent` / `response.text()` calls are a
  foreign network service. The generator is a function parameter returning a reply text
  or a thrown value.
- Base64 encoding of the image is a library call. `GenerationRequest` carries the raw bytes
  with the declared media type.
- `request.formData()`, `imageFile.arrayBuffer()` and the JSON response plumbing are
  modelled only by their outcomes. The form yields an image entry or nothing, or it
  throws. A form entry that is a non-empty string instead of a file is not modelled.
- Logging (`console.log`, `console.error`) is left out.
- The file reader is asynchronous. Its `onload` is the separate method `PreviewRead`, which
  the caller invokes with the data URL. The model does not tie the data URL to the file.
- The axios call is modelled only by how it settled (`PostOutcome`). A 2xx answer whose
  body lacks code would set the texts to `undefined` in the browser. The model treats it
  as a rejection, and this endpoint never sends one (`HandlePost`).
- ImageUploader.Uploader.GenerateCodeFromImage: the loading flag is raised and lowered
  inside one call, so the raised flag and the cleared error during a request are never
  visible. Overlapping submissions, and a file reader finishing after a reset,
  are interleavings of asynchronous callbacks that the model does not capture.
- ImageUploader.Uploader.ResetUploader, ImageUploader.Uploader.HandleImageUpload,
  ImageUploader.Uploader.HandleDrop, ImageUploader.Uploader.HandleBrowse: they require a
  state with no request in flight. The page leaves reset and the drop zone live during a
  request, and that interleaving is not modelled. Because the loading flag is always
  false between calls, keeping it in reset cannot be told apart from clearing it.
- The theme and local storage, syntax highlighting, the clipboard write and its alert,
  the preview modal and all rendering (including disabled buttons) are presentation.
- Text.Trim: the whitespace set is the one ECMAScript defines for the current Unicode
  space separators. Later Unicode additions are not tracked.
