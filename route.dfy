/** The `POST` handler of the code-generation endpoint: it takes the uploaded image from
    the form, asks the remote generator for code, splits the free-text reply at the
    `CSS:` sentinel into markup and stylesheet, and maps every outcome to an HTTP
    status and a JSON body. */
module GenerateCodeRoute {
  import opened Wrappers
  import opened Text

  /** The marker the generator is told to put in front of the stylesheet. */
  const Sentinel: string := "CSS:"

  /** The fixed instruction sent to the generator with every image. */
  const Prompt: string :=
    "Given the uploaded image, please generate the complete HTML and CSS code separately required to replicate its visual design. Follow these guidelines:  \n"
    + "1. Start with the HTML code.\n"
    + "2. The HTML should not have any inline styling  \n"
    + "3. Immediately below, on a new line provide the CSS code prefixed with 'CSS:'.  \n"
    + "\n"
    + "Please provide the code and also comment on where adjustments are needed. Prioritize achieving a visually accurate representation of the design elements from the image."

  const NoImageMessage: string := "No image file provided"
  const BothMissingMessage: string := "Failed to generate both HTML and CSS"
  const FailurePrefix: string := "Failed to generate code: "
  const UnexpectedMessage: string := "An unexpected error occurred"

  /** The `image` entry of the submitted form: a file with its declared media type and contents. */
  datatype ImageFile = ImageFile(name: string, mimeType: string, bytes: seq<bv8>)

  /** What reading the request body gave: the form's `image` entry (absent or a file),
      or a value thrown by `request.formData()`. */
  datatype FormRead = FormFields(image: Option<ImageFile>) | FormUnreadable(cause: Thrown)

  /** A value thrown inside the handler's `try` block: an `Error` with its message, or any other value. */
  datatype Thrown = ErrorObject(message: string) | OtherValue

  /** The request made of the remote generator: the instruction and the image, tagged with its media type. */
  datatype GenerationRequest = GenerationRequest(prompt: string, mimeType: string, data: seq<bv8>)

  /** What the remote generator did with a request: replied with text, or threw. */
  datatype Upstream = Replied(text: string) | UpstreamThrew(cause: Thrown)

  /** The markup and stylesheet split out of a reply. */
  datatype CodePair = CodePair(html: string, css: string)

  /** The JSON body of a response: `{ html, css }` or `{ error }`. */
  datatype Body = CodeBody(html: string, css: string) | ErrorBody(error: string)

  datatype Response = Response(status: int, body: Body)

  /** The sentinel occurs at `i` and nowhere before it. */
  predicate FirstSentinelAt(text: string, i: int) {
    OccursAt(text, Sentinel, i) && forall k :: 0 <= k < i ==> !OccursAt(text, Sentinel, k)
  }

  /** `text.split('CSS:').map(trim)`, destructured into its first two elements, then
      the emptiness test on both and the second `trim` of the stylesheet part. Only the
      first two pieces are trimmed here: the trimmed later pieces are never read. */
  function ParseReply(text: string): (r: Result<CodePair, Thrown>)
    ensures r.Failure? ==> r.error == ErrorObject(BothMissingMessage)
    ensures r.Success? ==> r.value.html != "" && r.value.css != ""
    ensures r.Success? ==> IsTrimmed(r.value.html) && IsTrimmed(r.value.css)
  {
    var pieces := Split(text, Sentinel);
    var html := Trim(pieces[0]);
    var cssPart: Option<string> := if |pieces| < 2 then None else Some(Trim(pieces[1]));
    if html == "" || cssPart == None || cssPart.value == "" then
      Failure(ErrorObject(BothMissingMessage))
    else
      Success(CodePair(html, Trim(cssPart.value)))
  }

  /** What a reply parses to once the text before the first sentinel (`before`) and the
      text that makes up the stylesheet part (`between`) are known. */
  function FromSegments(before: string, between: string): Result<CodePair, Thrown> {
    if Trim(before) == "" || Trim(between) == "" then Failure(ErrorObject(BothMissingMessage))
    else Success(CodePair(Trim(before), Trim(between)))
  }

  /** The first piece of a split is the text before the first sentinel, and the second
      piece starts right after it. */
  lemma SplitAtFirstSentinel(text: string, i: nat)
    requires FirstSentinelAt(text, i)
    ensures |Split(text, Sentinel)| >= 2
    ensures Split(text, Sentinel)[0] == text[..i]
    ensures Split(text, Sentinel)[1] == SplitFrom(text, Sentinel, i + |Sentinel|)[0]
  {
    assert IndexOfFrom(text, Sentinel, 0) == Some(i);
  }

  /** Shared step: a reply whose first sentinel is at `i` and whose second piece is `between`. */
  lemma ParseWithPieces(text: string, i: nat, between: string)
    requires FirstSentinelAt(text, i)
    requires SplitFrom(text, Sentinel, i + |Sentinel|)[0] == between
    ensures ParseReply(text) == FromSegments(text[..i], between)
  {
    SplitAtFirstSentinel(text, i);
    TrimIdempotent(between);
  }

  /** A reply with no sentinel has no stylesheet part, so it is refused. */
  lemma ParseWithoutSentinel(text: string)
    requires !Contains(text, Sentinel)
    ensures ParseReply(text) == Failure(ErrorObject(BothMissingMessage))
  {
  }

  /** With exactly one sentinel, markup is the trimmed text before it and the
      stylesheet is the trimmed text after it, up to the end. */
  lemma ParseOneSentinel(text: string, i: nat)
    requires FirstSentinelAt(text, i)
    requires forall k :: i + |Sentinel| <= k ==> !OccursAt(text, Sentinel, k)
    ensures ParseReply(text) == FromSegments(text[..i], text[i + |Sentinel|..])
  {
    assert IndexOfFrom(text, Sentinel, i + |Sentinel|) == None;
    ParseWithPieces(text, i, text[i + |Sentinel|..]);
  }

  /** With a second sentinel at `j`, the stylesheet is only the trimmed text between the
      first and the second sentinel. */
  lemma ParseSecondSentinel(text: string, i: nat, j: nat)
    requires FirstSentinelAt(text, i)
    requires i + |Sentinel| <= j && OccursAt(text, Sentinel, j)
    requires forall k :: i + |Sentinel| <= k < j ==> !OccursAt(text, Sentinel, k)
    ensures ParseReply(text) == FromSegments(text[..i], text[i + |Sentinel|..j])
  {
    assert IndexOfFrom(text, Sentinel, i + |Sentinel|) == Some(j);
    ParseWithPieces(text, i, text[i + |Sentinel|..j]);
  }

  /** Whatever follows a second sentinel is discarded: cutting the reply there changes nothing. */
  lemma ParseIgnoresTailAfterSecondSentinel(text: string, i: nat, j: nat)
    requires FirstSentinelAt(text, i)
    requires i + |Sentinel| <= j && OccursAt(text, Sentinel, j)
    requires forall k :: i + |Sentinel| <= k < j ==> !OccursAt(text, Sentinel, k)
    ensures ParseReply(text[..j]) == ParseReply(text)
  {
    var head := text[..j];
    var before, between := text[..i], text[i + |Sentinel|..j];
    assert ParseReply(head) == FromSegments(before, between) by {
      assert head[..i] == before && head[i + |Sentinel|..] == between;
      PrefixUpToSecondSentinel(text, i, j);
      ParseOneSentinel(head, i);
    }
    assert ParseReply(text) == FromSegments(before, between) by {
      ParseSecondSentinel(text, i, j);
    }
  }

  /** Cut at its second sentinel, a reply keeps its first sentinel and has no other. */
  lemma PrefixUpToSecondSentinel(text: string, i: nat, j: nat)
    requires FirstSentinelAt(text, i)
    requires i + |Sentinel| <= j && OccursAt(text, Sentinel, j)
    requires forall k :: i + |Sentinel| <= k < j ==> !OccursAt(text, Sentinel, k)
    ensures FirstSentinelAt(text[..j], i)
    ensures forall k :: i + |Sentinel| <= k ==> !OccursAt(text[..j], Sentinel, k)
  {
    var head := text[..j];
    assert OccursAt(head, Sentinel, i) by {
      assert head[i..i + |Sentinel|] == text[i..i + |Sentinel|];
    }
    forall k | 0 <= k < i ensures !OccursAt(head, Sentinel, k) {
      SentinelInPrefix(text, j, k);
    }
    forall k | i + |Sentinel| <= k <= j - |Sentinel| ensures !OccursAt(head, Sentinel, k) {
      SentinelInPrefix(text, j, k);
    }
  }

  lemma SentinelInPrefix(text: string, j: nat, k: int)
    requires j <= |text| && 0 <= k && k + |Sentinel| <= j
    ensures OccursAt(text[..j], Sentinel, k) <==> OccursAt(text, Sentinel, k)
  {
    assert text[..j] == text[0..j];
    SliceOccurrence(text, Sentinel, 0, j, k);
  }

  /** Parsed markup and stylesheet never contain the sentinel: split pieces never
      contain their separator, and trimming cannot create one. */
  lemma ParsedCodeHasNoSentinel(text: string)
    requires ParseReply(text).Success?
    ensures !Contains(ParseReply(text).value.html, Sentinel)
    ensures !Contains(ParseReply(text).value.css, Sentinel)
  {
    var pieces := Split(text, Sentinel);
    SplitPiecesFree(text, Sentinel);
    TrimKeepsAbsent(pieces[0], Sentinel);
    TrimKeepsAbsent(pieces[1], Sentinel);
    TrimKeepsAbsent(Trim(pieces[1]), Sentinel);
  }

  /** An occurrence of the sentinel starting inside `a` would have to end inside `a`,
      because no proper suffix of `CSS:` is a prefix of it. */
  lemma NoSentinelBefore(a: string, t: string, k: int)
    requires !Contains(a, Sentinel)
    requires 0 <= k < |a|
    ensures !OccursAt(a + Sentinel + t, Sentinel, k)
  {
    var text := a + Sentinel + t;
    if k + |Sentinel| <= |a| {
      assert !OccursAt(a, Sentinel, k);
      assert text[k..k + |Sentinel|] == a[k..k + |Sentinel|];
    } else if k + |Sentinel| <= |text| {
      assert text[|a|] == 'C';
      assert text[k..k + |Sentinel|][|a| - k] == 'C';
    }
  }

  /** In `a + "CSS:" + t`, with no sentinel in `a`, the first sentinel is the one after `a`. */
  lemma FirstSentinelAfter(a: string, t: string)
    requires !Contains(a, Sentinel)
    ensures FirstSentinelAt(a + Sentinel + t, |a|)
  {
    var text := a + Sentinel + t;
    assert text[|a|..|a| + |Sentinel|] == Sentinel;
    forall k | 0 <= k < |a| ensures !OccursAt(text, Sentinel, k) {
      NoSentinelBefore(a, t, k);
    }
  }

  /** An occurrence at or after `a` is an occurrence in the suffix from `a`, and back. */
  lemma SuffixOccurrence(s: string, a: nat, k: int)
    requires a <= k && k + |Sentinel| <= |s|
    ensures OccursAt(s, Sentinel, k) <==> OccursAt(s[a..], Sentinel, k - a)
  {
    assert s[a..][k - a..k - a + |Sentinel|] == s[k..k + |Sentinel|];
  }

  /** Joining a markup part and a stylesheet part, neither holding the sentinel, with one
      sentinel between them, and parsing the result, gives back the two parts trimmed
      (or the refusal, when either part is blank). */
  lemma ParseJoinedParts(html: string, css: string)
    requires !Contains(html, Sentinel) && !Contains(css, Sentinel)
    ensures ParseReply(html + Sentinel + css) == FromSegments(html, css)
  {
    var text := html + Sentinel + css;
    FirstSentinelAfter(html, css);
    NoSentinelAfterJoint(html, css);
    ParseOneSentinel(text, |html|);
    assert text[..|html|] == html;
    assert text[|html| + |Sentinel|..] == css;
  }

  lemma NoSentinelAfterJoint(html: string, css: string)
    requires !Contains(css, Sentinel)
    ensures forall k :: |html| + |Sentinel| <= k ==> !OccursAt(html + Sentinel + css, Sentinel, k)
  {
    var text := html + Sentinel + css;
    var i := |html|;
    assert text[i + |Sentinel|..] == css;
    forall k | i + |Sentinel| <= k <= |text| - |Sentinel| ensures !OccursAt(text, Sentinel, k) {
      SuffixOccurrence(text, i + |Sentinel|, k);
    }
  }

  /** Same with a second sentinel after the stylesheet part: whatever follows it is lost. */
  lemma ParseJoinedPartsWithTail(html: string, css: string, tail: string)
    requires !Contains(html, Sentinel) && !Contains(css, Sentinel)
    ensures ParseReply(html + Sentinel + css + Sentinel + tail) == FromSegments(html, css)
  {
    var text := html + Sentinel + css + Sentinel + tail;
    var i, j := |html|, |html| + |Sentinel| + |css|;
    SentinelsAroundCss(html, css, tail);
    assert text[..i] == html;
    assert text[i + |Sentinel|..j] == css;
    assert ParseReply(text) == FromSegments(text[..i], text[i + |Sentinel|..j]) by { ParseSecondSentinel(text, i, j); }
  }

  /** In `html + "CSS:" + css + "CSS:" + tail` the first two sentinels are the two written out. */
  lemma SentinelsAroundCss(html: string, css: string, tail: string)
    requires !Contains(html, Sentinel) && !Contains(css, Sentinel)
    ensures var text, i, j := html + Sentinel + css + Sentinel + tail, |html|, |html| + |Sentinel| + |css|;
      FirstSentinelAt(text, i) && OccursAt(text, Sentinel, j)
      && forall k :: i + |Sentinel| <= k < j ==> !OccursAt(text, Sentinel, k)
  {
    var text := html + Sentinel + css + Sentinel + tail;
    var i, j := |html|, |html| + |Sentinel| + |css|;
    assert text == html + Sentinel + (css + Sentinel + tail);
    FirstSentinelAfter(html, css + Sentinel + tail);
    assert text[i + |Sentinel|..] == css + Sentinel + tail;
    assert text[j..j + |Sentinel|] == Sentinel;
    forall k | i + |Sentinel| <= k < j ensures !OccursAt(text, Sentinel, k) {
      NoSentinelBefore(css, tail, k - i - |Sentinel|);
      if k + |Sentinel| <= |text| {
        SuffixOccurrence(text, i + |Sentinel|, k);
      }
    }
  }

  /** A string without the letter `C` cannot hold the sentinel. */
  lemma NoSentinelWithoutC(s: string)
    requires 'C' !in s
    ensures !Contains(s, Sentinel)
  {
    forall k | 0 <= k && k + |Sentinel| <= |s| ensures !OccursAt(s, Sentinel, k) {
      assert s[k] != 'C';
      assert s[k..k + |Sentinel|][0] == s[k];
    }
  }

  /** Trimmed, non-empty parts joined by sentinels come back unchanged, and the tail is dropped. */
  lemma ParseTrimmedPartsWithTail(html: string, css: string, tail: string)
    requires !Contains(html, Sentinel) && !Contains(css, Sentinel)
    requires html != "" && IsTrimmed(html) && css != "" && IsTrimmed(css)
    ensures ParseReply(html + Sentinel + css + Sentinel + tail) == Success(CodePair(html, css))
  {
    ParseJoinedPartsWithTail(html, css, tail);
    TrimOfTrimmed(html);
    TrimOfTrimmed(css);
  }

  /** Whitespace around either part, and around the sentinel, does not reach the result. */
  lemma ParsePaddedParts(html: string, css: string, w1: string, w2: string, w3: string, w4: string)
    requires !Contains(w1 + html + w2, Sentinel) && !Contains(w3 + css + w4, Sentinel)
    requires AllWhitespace(w1) && AllWhitespace(w2) && AllWhitespace(w3) && AllWhitespace(w4)
    requires html != "" && IsTrimmed(html) && css != "" && IsTrimmed(css)
    ensures ParseReply(w1 + html + w2 + Sentinel + (w3 + css + w4)) == Success(CodePair(html, css))
  {
    TrimPadded(w1, html, w2);
    TrimPadded(w3, css, w4);
    ParseJoinedParts(w1 + html + w2, w3 + css + w4);
  }

  /** The message a caught value contributes to the error body. */
  function ErrorMessage(e: Thrown): (m: string)
    ensures e.ErrorObject? ==> m == e.message
    ensures e.OtherValue? ==> m == UnexpectedMessage
  {
    match e
    case ErrorObject(message) => message
    case OtherValue => UnexpectedMessage
  }

  /** The `catch` block: status 500 and the caught value's message behind a fixed prefix. */
  function Caught(e: Thrown): (r: Response)
    ensures r.status == 500 && r.body.ErrorBody?
    ensures StartsWith(r.body.error, FailurePrefix)
    ensures r.body.error[|FailurePrefix|..] == ErrorMessage(e)
  {
    Response(500, ErrorBody(FailurePrefix + ErrorMessage(e)))
  }

  /** The request sent to the generator for an uploaded file. The payload is carried as
      raw bytes; its base64 text form is left to the transport. */
  function BuildRequest(file: ImageFile): (req: GenerationRequest)
    ensures req.prompt == Prompt && Contains(req.prompt, Sentinel)
    ensures req.mimeType == file.mimeType && req.data == file.bytes
  {
    PromptCarriesSentinel();
    GenerationRequest(Prompt, file.mimeType, file.bytes)
  }

  /** The whole handler, with the remote generator as a parameter. */
  function HandlePost(form: FormRead, generate: GenerationRequest -> Upstream): (r: Response)
    ensures r.status == 400 <==> form == FormFields(None)
    ensures r.status == 400 ==> r.body == ErrorBody(NoImageMessage)
    ensures r.status == 200 <==> r.body.CodeBody?
    ensures r.status == 200 || r.status == 400 || r.status == 500
    ensures r.body.CodeBody? ==> r.body.html != "" && r.body.css != ""
    ensures r.status == 500 ==> r.body.ErrorBody? && StartsWith(r.body.error, FailurePrefix)
    ensures form.FormUnreadable? ==> r == Caught(form.cause)
  {
    match form
    case FormUnreadable(cause) => Caught(cause)
    case FormFields(None) => Response(400, ErrorBody(NoImageMessage))
    case FormFields(Some(file)) =>
      match generate(BuildRequest(file))
      case UpstreamThrew(cause) => Caught(cause)
      case Replied(text) =>
        match ParseReply(text)
        case Failure(cause) => Caught(cause)
        case Success(pair) => Response(200, CodeBody(pair.html, pair.css))
  }

  /** Without an image the handler answers 400 whatever the generator would have done:
      generation is never reached. */
  lemma NoImageNeverGenerates(g1: GenerationRequest -> Upstream, g2: GenerationRequest -> Upstream)
    ensures HandlePost(FormFields(None), g1) == HandlePost(FormFields(None), g2)
    ensures HandlePost(FormFields(None), g1) == Response(400, ErrorBody(NoImageMessage))
  {
  }

  /** With an image, the handler succeeds exactly when the generator replies and the reply
      parses; the body then carries the parsed pair. A generator that throws gives its own
      message behind the prefix, and an unparsable reply gives the parser's. */
  lemma HandlePostWithImage(file: ImageFile, generate: GenerationRequest -> Upstream)
    ensures var r := HandlePost(FormFields(Some(file)), generate);
      match generate(BuildRequest(file))
      case UpstreamThrew(cause) =>
        r == Response(500, ErrorBody(FailurePrefix + ErrorMessage(cause)))
      case Replied(text) =>
        match ParseReply(text)
        case Success(pair) => r == Response(200, CodeBody(pair.html, pair.css))
        case Failure(_) => r == Response(500, ErrorBody(FailurePrefix + BothMissingMessage))
  {
  }

  /** Every code body the handler sends is free of the sentinel. */
  lemma HandlePostCodeHasNoSentinel(form: FormRead, generate: GenerationRequest -> Upstream)
    requires HandlePost(form, generate).body.CodeBody?
    ensures !Contains(HandlePost(form, generate).body.html, Sentinel)
    ensures !Contains(HandlePost(form, generate).body.css, Sentinel)
  {
    var text := generate(BuildRequest(form.image.value)).text;
    ParsedCodeHasNoSentinel(text);
  }

  /** The instruction names the very sentinel the parser splits on. */
  lemma PromptCarriesSentinel()
    ensures Contains(Prompt, Sentinel)
  {
    assert OccursAt(Prompt, Sentinel, 302);
  }

  /** A reply with two sentinels keeps only the text between them as the stylesheet. */
  lemma ExampleTwoSentinels(reply: string)
    requires reply == "<div>CSS:x</div>CSS:.a{color:red}"
    ensures ParseReply(reply) == Success(CodePair("<div>", "x</div>"))
  {
    var html, css, tail := "<div>", "x</div>", ".a{color:red}";
    assert reply == html + Sentinel + css + Sentinel + tail;
    TwoSentinelPieces(html, css);
    ParseTrimmedPartsWithTail(html, css, tail);
  }

  lemma TwoSentinelPieces(html: string, css: string)
    requires html == "<div>" && css == "x</div>"
    ensures !Contains(html, Sentinel) && !Contains(css, Sentinel)
    ensures html != "" && IsTrimmed(html) && css != "" && IsTrimmed(css)
  {
    NoSentinelWithoutC(html);
    NoSentinelWithoutC(css);
  }

  /** The sentinel alone leaves both parts empty, so the reply is refused. */
  lemma ExampleSentinelAlone()
    ensures ParseReply("CSS:") == Failure(ErrorObject(BothMissingMessage))
  {
    var empty := "";
    NoSentinelWithoutC(empty);
    ParseJoinedParts(empty, empty);
    assert empty + Sentinel + empty == "CSS:";
  }

  /** A reply that puts the stylesheet after a blank line and a space after the sentinel. */
  lemma ExampleBlankLineReply(reply: string)
    requires reply == "<p>Hi</p>\n\nCSS: p{color:blue}"
    ensures ParseReply(reply) == Success(CodePair("<p>Hi</p>", "p{color:blue}"))
  {
    var html, css, blank, space, none := "<p>Hi</p>", "p{color:blue}", "\n\n", " ", "";
    assert reply == none + html + blank + Sentinel + (space + css + none);
    BlankLineReplyPieces(html, css, blank, space, none);
    ParsePaddedParts(html, css, none, blank, space, none);
  }

  lemma BlankLineReplyPieces(html: string, css: string, blank: string, space: string, none: string)
    requires html == "<p>Hi</p>" && css == "p{color:blue}" && blank == "\n\n" && space == " " && none == ""
    ensures !Contains(none + html + blank, Sentinel) && !Contains(space + css + none, Sentinel)
    ensures AllWhitespace(none) && AllWhitespace(blank) && AllWhitespace(space)
    ensures html != "" && IsTrimmed(html) && css != "" && IsTrimmed(css)
  {
    NoSentinelWithoutC(none + html + blank);
    NoSentinelWithoutC(space + css + none);
  }

  /** Any uploaded image, with a generator stubbed to give that reply, yields status 200
      and the two trimmed parts. */
  lemma ExampleEndToEnd(file: ImageFile, reply: string)
    requires reply == "<p>Hi</p>\n\nCSS: p{color:blue}"
    ensures HandlePost(FormFields(Some(file)), _ => Replied(reply))
         == Response(200, CodeBody("<p>Hi</p>", "p{color:blue}"))
  {
    ExampleBlankLineReply(reply);
  }

  /** A generator that fails with an `Error`: its message reaches the caller intact, behind the prefix. */
  lemma UpstreamFaultKeepsDetail(file: ImageFile, detail: string)
    ensures HandlePost(FormFields(Some(file)), _ => UpstreamThrew(ErrorObject(detail)))
         == Response(500, ErrorBody(FailurePrefix + detail))
  {
  }
}
