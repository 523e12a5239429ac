/**
 * The paper endpoints (`routes/paper.py`): admission limits on a generation
 * request, the session's image list and paper, the download filename made
 * from the title, and clearing the session.
 * The session globals become the fields of a Session object. HTTP plumbing
 * is reduced to a status code and a detail text or a response body; the
 * language model's reply and the JSON decoder are parameters.
 */
module Routes {
  import opened Wrappers
  import opened Text
  import opened Schemas
  import opened DocxLayout
  import opened AiProcessor
  import opened DocxGenerator

  // ---------------------------------------------------------------------------
  // Limits (`config.Settings`)
  // ---------------------------------------------------------------------------

  const MAX_CONTENT_LENGTH: nat := 100000
  const MAX_IMAGES: nat := 10
  const MAX_IMAGE_SIZE_MB: nat := 5
  const MAX_IMAGE_BYTES: nat := MAX_IMAGE_SIZE_MB * 1024 * 1024

  const BAD_REQUEST: nat := 400
  const SERVER_ERROR: nat := 500

  const CONTENT_TOO_LONG: string := "Content exceeds maximum length of 100000 characters"
  const TOO_MANY_IMAGES: string := "Maximum 10 images allowed"
  const UNEXPECTED_ERROR_PREFIX: string := "Unexpected error: "
  const EXPORT_ERROR_PREFIX: string := "Failed to generate document: "
  /** The message of the IndexError `images[fig.index]` raises. */
  const INDEX_ERROR: string := "list index out of range"
  const SESSION_CLEARED: string := "Session cleared successfully"

  /** An uploaded file: its name and its content. */
  datatype Upload = Upload(filename: string, image: Image)

  /** What an endpoint answers: an HTTP error, or a body. */
  datatype Reply = HttpError(status: nat, detail: string) | Body(response: GeneratePaperResponse)

  /** What the export endpoint answers: an HTTP error, or the document to download under a name. */
  datatype Export = ExportError(status: nat, detail: string) | Download(filename: string, document: seq<Block>)

  predicate ContentAdmitted(rawContent: string) {
    |rawContent| <= MAX_CONTENT_LENGTH
  }

  predicate CountAdmitted(uploads: seq<Upload>) {
    |uploads| <= MAX_IMAGES
  }

  predicate ImageAdmitted(u: Upload) {
    |u.image.bytes| <= MAX_IMAGE_BYTES
  }

  /** The detail of the HTTPException for an image over the size limit. */
  function ImageTooLarge(filename: string): string {
    "Image " + filename + " exceeds maximum size of 5MB"
  }

  /** `str()` of an HTTPException: its status code, a colon and its detail. */
  function HttpErrorText(status: nat, detail: string): string {
    NatToString(status) + ": " + detail
  }

  /** The response for an exception the endpoint did not expect. */
  function Unexpected(message: string): GeneratePaperResponse {
    GeneratePaperResponse(false, None, Some(UNEXPECTED_ERROR_PREFIX + message))
  }

  /** The limits are inclusive: a value exactly at a limit is admitted, one above it is not. */
  lemma AdmissionBoundaries(rawContent: string, uploads: seq<Upload>, u: Upload)
    ensures |rawContent| == 100000 ==> ContentAdmitted(rawContent)
    ensures |rawContent| == 100001 ==> !ContentAdmitted(rawContent)
    ensures |uploads| == 10 ==> CountAdmitted(uploads)
    ensures |uploads| == 11 ==> !CountAdmitted(uploads)
    ensures |u.image.bytes| == 5242880 ==> ImageAdmitted(u)
    ensures |u.image.bytes| == 5242881 ==> !ImageAdmitted(u)
  {
  }

  // ---------------------------------------------------------------------------
  // Reading the uploads into the session
  // ---------------------------------------------------------------------------

  /** The position of the first upload over the size limit. */
  function FirstOversize(uploads: seq<Upload>): (r: Option<nat>)
    ensures r.Some? ==> r.value < |uploads| && !ImageAdmitted(uploads[r.value])
    ensures r.Some? ==> forall k :: 0 <= k < r.value ==> ImageAdmitted(uploads[k])
    ensures r.None? ==> forall k :: 0 <= k < |uploads| ==> ImageAdmitted(uploads[k])
  {
    if uploads == [] then None
    else if !ImageAdmitted(uploads[0]) then Some(0)
    else match FirstOversize(uploads[1..])
      case None => None
      case Some(i) => Some(i + 1)
  }

  /** The images of the uploads, in upload order. */
  function ImagesOf(uploads: seq<Upload>): seq<Image> {
    if uploads == [] then []
    else ImagesOf(uploads[..|uploads| - 1]) + [uploads[|uploads| - 1].image]
  }

  /** The images stored before the first one over the limit stops the loop. */
  function ReadImages(uploads: seq<Upload>): seq<Image> {
    ImagesOf(uploads[..FirstOversize(uploads).GetOr(|uploads|)])
  }

  lemma {:induction false} ImagesOfIndex(uploads: seq<Upload>)
    ensures |ImagesOf(uploads)| == |uploads|
    ensures forall k :: 0 <= k < |uploads| ==> ImagesOf(uploads)[k] == uploads[k].image
    decreases |uploads|
  {
    if uploads != [] {
      ImagesOfIndex(uploads[..|uploads| - 1]);
    }
  }

  /**
   * The stored images are the uploads' images, in order, up to the first one
   * over the size limit; each is within the limit; all are stored when none
   * is over it.
   */
  lemma ReadImagesFacts(uploads: seq<Upload>)
    ensures var stored := ReadImages(uploads);
      && |stored| <= |uploads|
      && (forall k :: 0 <= k < |stored| ==> stored[k] == uploads[k].image && ImageAdmitted(uploads[k]))
      && (FirstOversize(uploads).None? <==> |stored| == |uploads|)
  {
    var n := FirstOversize(uploads).GetOr(|uploads|);
    ImagesOfIndex(uploads[..n]);
  }

  // ---------------------------------------------------------------------------
  // The download filename
  // ---------------------------------------------------------------------------

  const FILENAME_MAX: nat := 50
  const FALLBACK_STEM: string := "ieee_paper"
  const DOCX_EXTENSION: string := ".docx"

  /** The characters a filename keeps: letters, digits, space, `-` and `_`. */
  predicate FilenameChar(c: char) {
    IsAlnum(c) || c == ' ' || c == '-' || c == '_'
  }

  predicate AllFilenameChars(s: string) {
    forall k :: 0 <= k < |s| ==> FilenameChar(s[k])
  }

  /** `title[:50]` */
  function Take(s: string, n: nat): (r: string) {
    if |s| <= n then s else s[..n]
  }

  /** The characters of `s` a filename keeps, in order. */
  function Filtered(s: string): string {
    if s == [] then []
    else (if FilenameChar(s[0]) then [s[0]] else []) + Filtered(s[1..])
  }

  /** The sanitised title: at most 50 characters of it, filtered, then stripped. */
  function SafeStem(title: string): string {
    Strip(Filtered(Take(title, FILENAME_MAX)))
  }

  /** The download filename `export_docx` computes from the title. */
  function SafeFilename(title: string): string {
    var stem := SafeStem(title);
    (if stem == [] then FALLBACK_STEM else stem) + DOCX_EXTENSION
  }

  /** Filtering keeps exactly the allowed characters, and never lengthens the text. */
  lemma {:induction false} FilteredFacts(s: string)
    ensures |Filtered(s)| <= |s|
    ensures AllFilenameChars(Filtered(s))
    ensures forall c :: c in Filtered(s) <==> c in s && FilenameChar(c)
    decreases |s|
  {
    if s != [] {
      FilteredFacts(s[1..]);
      assert forall c :: c in s <==> c == s[0] || c in s[1..];
    }
  }

  /** Text made of allowed characters only passes the filter unchanged. */
  lemma {:induction false} FilteredAllowed(s: string)
    requires AllFilenameChars(s)
    ensures Filtered(s) == s
    decreases |s|
  {
    if s != [] {
      FilteredAllowed(s[1..]);
      assert [s[0]] + s[1..] == s;
    }
  }

  /**
   * The stem has at most 50 characters, all of them allowed ones taken from
   * the title, and neither starts nor ends with a space.
   */
  lemma SafeStemFacts(title: string)
    ensures var stem := SafeStem(title);
      && |stem| <= FILENAME_MAX
      && AllFilenameChars(stem)
      && (forall c :: c in stem ==> c in title)
      && (stem == [] || (stem[0] != ' ' && stem[|stem| - 1] != ' '))
  {
    var head := Take(title, FILENAME_MAX);
    var kept := Filtered(head);
    var stem := SafeStem(title);
    FilteredFacts(head);
    StripIsSlice(kept);
    StripEnds(kept);
    var a := LeadingSpace(kept);
    forall k | 0 <= k < |stem| ensures FilenameChar(stem[k]) && stem[k] in kept {
      assert stem[k] == kept[a + k];
    }
    assert forall c :: c in head ==> c in title;
  }

  /** The fallback stem is used exactly when the first 50 characters hold no allowed character but spaces. */
  lemma SafeStemEmpty(title: string)
    ensures SafeStem(title) == [] <==>
      forall c :: c in Take(title, FILENAME_MAX) && FilenameChar(c) ==> c == ' '
  {
    var head := Take(title, FILENAME_MAX);
    var kept := Filtered(head);
    FilteredFacts(head);
    StripEmpty(kept);
    if AllSpace(kept) {
      forall c | c in head && FilenameChar(c) ensures c == ' ' {
        assert c in kept;
        var k :| 0 <= k < |kept| && kept[k] == c;
      }
    }
    if forall c :: c in head && FilenameChar(c) ==> c == ' ' {
      assert forall k :: 0 <= k < |kept| ==> kept[k] in kept;
    }
  }

  /** Sanitising a stem again changes nothing. */
  lemma SafeStemIdempotent(title: string)
    ensures SafeStem(SafeStem(title)) == SafeStem(title)
  {
    var stem := SafeStem(title);
    SafeStemFacts(title);
    FilteredAllowed(stem);
    StripIdempotent(Filtered(Take(title, FILENAME_MAX)));
  }

  /** A title that is already a clean stem becomes the filename as it is, with `.docx` added. */
  lemma SafeFilenameOfCleanTitle(title: string)
    requires 0 < |title| <= FILENAME_MAX && AllFilenameChars(title)
    requires !IsSpace(title[0]) && !IsSpace(title[|title| - 1])
    ensures SafeFilename(title) == title + DOCX_EXTENSION
  {
    FilteredAllowed(title);
    StripOfStripped(title);
  }

  // ---------------------------------------------------------------------------
  // The session
  // ---------------------------------------------------------------------------

  /** The module-level `_session_images` and `_session_paper`. */
  class Session {
    var images: seq<Image>
    var paper: Option<StructuredPaper>

    constructor()
      ensures images == [] && paper == None
    {
      images := [];
      paper := None;
    }

    /** The upload loop of `generate_paper`: it stops at the first image over the limit. */
    method StoreImages(uploads: seq<Upload>) returns (oversize: Option<nat>)
      modifies this
      ensures oversize == FirstOversize(uploads)
      ensures images == ReadImages(uploads) && paper == old(paper)
    {
      images := [];
      var i := 0;
      while i < |uploads|
        invariant 0 <= i <= |uploads|
        invariant images == ImagesOf(uploads[..i]) && paper == old(paper)
        invariant forall k :: 0 <= k < i ==> ImageAdmitted(uploads[k])
      {
        if |uploads[i].image.bytes| > MAX_IMAGE_BYTES {
          assert FirstOversize(uploads) == Some(i) by {
            var r := FirstOversize(uploads);
            assert r.Some? && r.value >= i;
          }
          return Some(i);
        }
        images := images + [uploads[i].image];
        assert uploads[..i + 1][..i] == uploads[..i];
        i := i + 1;
      }
      assert uploads[..|uploads|] == uploads;
      return None;
    }

    /**
     * `generate_paper`: the two admission checks, then (inside the handler
     * that turns any other exception into an "Unexpected error") the images
     * are stored, the processor is created (which fails without an API key)
     * and the reply is processed into the session's paper.
     */
    method GeneratePaper(rawContent: string, uploads: seq<Upload>,
                         apiKey: Option<string>, reply: string, decode: string -> Result<RawPaper, string>)
      returns (r: Reply)
      modifies this
      ensures !ContentAdmitted(rawContent) ==>
        r == HttpError(BAD_REQUEST, CONTENT_TOO_LONG) && images == old(images) && paper == old(paper)
      ensures ContentAdmitted(rawContent) && !CountAdmitted(uploads) ==>
        r == HttpError(BAD_REQUEST, TOO_MANY_IMAGES) && images == old(images) && paper == old(paper)
      ensures ContentAdmitted(rawContent) && CountAdmitted(uploads) ==> images == ReadImages(uploads)
      ensures ContentAdmitted(rawContent) && CountAdmitted(uploads) && FirstOversize(uploads).Some? ==>
        var k := FirstOversize(uploads).value;
        && r == Body(Unexpected(HttpErrorText(BAD_REQUEST, ImageTooLarge(uploads[k].filename))))
        && paper == old(paper)
      ensures (ContentAdmitted(rawContent) && CountAdmitted(uploads) && FirstOversize(uploads).None?
               && !ApiKeySet(apiKey)) ==>
        r == Body(GeneratePaperResponse(false, None, Some(API_KEY_MISSING))) && paper == old(paper)
      ensures (ContentAdmitted(rawContent) && CountAdmitted(uploads) && FirstOversize(uploads).None?
               && ApiKeySet(apiKey)) ==>
        var decoded := decode(CleanJsonResponse(reply));
        && (decoded.Err? ==>
              r == Body(GeneratePaperResponse(false, None, Some(JSON_ERROR_PREFIX + decoded.error)))
              && paper == old(paper))
        && (decoded.Ok? ==>
              paper == Some(PaperFromReply(decoded.value, |images|))
              && r == Body(GeneratePaperResponse(true, paper, None)))
    {
      if |rawContent| > MAX_CONTENT_LENGTH {
        return HttpError(BAD_REQUEST, CONTENT_TOO_LONG);
      }
      if |uploads| > MAX_IMAGES {
        return HttpError(BAD_REQUEST, TOO_MANY_IMAGES);
      }
      var oversize := StoreImages(uploads);
      if oversize.Some? {
        var detail := ImageTooLarge(uploads[oversize.value].filename);
        return Body(Unexpected(HttpErrorText(BAD_REQUEST, detail)));
      }
      if !ApiKeySet(apiKey) {
        return Body(GeneratePaperResponse(false, None, Some(API_KEY_MISSING)));
      }
      var result := ProcessContent(reply, decode, |images|);
      if result.Err? {
        return Body(GeneratePaperResponse(false, None, Some(result.error)));
      }
      paper := Some(result.value);
      return Body(GeneratePaperResponse(true, paper, None));
    }

    /**
     * `export_docx`: the document for the paper and the session's images,
     * downloaded under the sanitised title; status 500 when generation fails.
     */
    method ExportDocx(paper: StructuredPaper) returns (r: Export)
      ensures r.ExportError? <==> Raises(paper, images)
      ensures r.ExportError? ==> r == ExportError(SERVER_ERROR, EXPORT_ERROR_PREFIX + INDEX_ERROR)
      ensures r.Download? ==> r.filename == SafeFilename(paper.title) && r.document == Document(paper, images)
    {
      var generator := new IEEEDocxGenerator();
      var ok := generator.Generate(paper, images);
      if !ok {
        return ExportError(SERVER_ERROR, EXPORT_ERROR_PREFIX + INDEX_ERROR);
      }
      var stem := SafeStem(paper.title);
      if stem == [] {
        stem := FALLBACK_STEM;
      }
      return Download(stem + DOCX_EXTENSION, generator.doc);
    }

    /** `clear_session` */
    method ClearSession() returns (message: string)
      modifies this
      ensures images == [] && paper == None
      ensures message == SESSION_CLEARED
    {
      images := [];
      paper := None;
      return SESSION_CLEARED;
    }
  }
}
