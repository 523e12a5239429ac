# IEEE paper generator backend, in Dafny

This project models the core of the Auto-align-IEEE backend and proves properties of that model. The backend turns raw notes into a structured research paper and writes that paper out as an IEEE-style Word document. Four parts are modelled:

- **The document generator** (`IEEEDocxGenerator`).
  - docx_generator.dfy holds a class with the generator's three fields: `doc`, `figureCounter` and `tableCounter`. Its methods append blocks to `doc` one step at a time, as the Python methods do.
  - docx_layout.dfy specifies, as functions, the block sequence `generate` produces:
    - the title, the authors, the abstract and the keyword line;
    - one section break to two columns;
    - each section's numbered heading and its paragraphs, followed by the figures grouped under that heading;
    - the images no figure mentions;
    - the numbered references.
  - `Generate` is proved to build exactly that sequence and the final `figure_counter`, or to fail exactly when the source raises `IndexError`.
  - docx_properties.dfy proves what the layout promises:
    - section numerals read back as 1, 2, 3, … in order;
    - body paragraphs keep all of a section's visible text, each one non-empty with collapsed whitespace;
    - there is exactly one column break;
    - placed figures are numbered 1, 2, … and leftover images two apart, so the numbers strictly increase up to the final counter;
    - a figure under a heading no section has is dropped, and its image is not drawn as a leftover either;
    - references are numbered from 1;
    - the source raises exactly for a negative figure index below `-len(images)`.
- **Post-processing of the language-model reply** (ai_processor.dfy):
  - the JSON extraction of `_clean_json_response`, as explicit fence and brace searches;
  - `_validate_and_fix_sections`, as a method with a loop;
  - the figure loop of `process_content`;
  - the defaults `process_content` fills in.
- **The paper routes** (routes.dfy):
  - the session globals `_session_images` and `_session_paper` become the fields of a `Session` object;
  - `generate_paper`'s admission limits and its image-reading loop;
  - the outcome of `export_docx`, including its download-filename sanitiser;
  - `clear_session`.
- **The schemas** (schemas.dfy): the pydantic records as datatypes with their defaults, and what validating a decoded object gives.

text.dfy holds the Python string operations the source relies on: `strip`, `find`, `split`, `join`, `upper`/`lower`, `isalnum` and `str(int)`. It also proves their properties, for example that `' '.join(s.split())` is idempotent and keeps the visible text, and that `str(i)` reads back as `i`. wrappers.dfy holds `Option` and `Result`.

Some quirks of the source are modelled as written:
- A leftover image moves the figure counter forward twice: its caption text names one number and its label the next.
- The range check `fig.index < len(images)` lets negative indices through. Python's negative indexing then picks an image from the end, or raises.
- The size check on an uploaded image raises inside the `try`, so the caller receives a "success: false" body with "Unexpected error: 400: …" instead of an HTTP 400.

## Model

| member | source | states |
|---|---|---|
| DocxGenerator.IEEEDocxGenerator.constructor | backend/services/docx_generator.py:41-45 | a new generator has no document content and both counters at 0 |
| DocxGenerator.IEEEDocxGenerator.SetupDocument | backend/services/docx_generator.py:47-51 | setting up starts an empty document and resets the figure and table counters to 0 |
| DocxGenerator.IEEEDocxGenerator.AddTitle | backend/services/docx_generator.py:161-163 | appends one "IEEE Title" paragraph holding the title; counters unchanged |
| DocxGenerator.IEEEDocxGenerator.AddAuthors | backend/services/docx_generator.py:165-167 | appends one "IEEE Author" paragraph holding the authors; counters unchanged |
| DocxGenerator.IEEEDocxGenerator.AddAbstract | backend/services/docx_generator.py:169-177 | appends one "IEEE Abstract" paragraph whose bold italic run is "Abstract—" followed by the abstract |
| DocxGenerator.IEEEDocxGenerator.AddKeywords | backend/services/docx_generator.py:179-185 | appends the keyword paragraph: a bold italic "Keywords—" run, then the keywords joined with "; " |
| DocxGenerator.IEEEDocxGenerator.SetTwoColumn | backend/services/docx_generator.py:143-159 | appends one section break that sets two columns |
| DocxGenerator.IEEEDocxGenerator.AddSectionHeading | backend/services/docx_generator.py:187-194 | appends one bold "IEEE Heading" paragraph: the numeral of the section number, ". ", and the upper-cased heading |
| DocxGenerator.IEEEDocxGenerator.AddPiece | backend/services/docx_generator.py:200-205 | one pass of the paragraph loop: a body paragraph with collapsed whitespace when the stripped piece is not empty, nothing otherwise |
| DocxGenerator.IEEEDocxGenerator.AddBodyText | backend/services/docx_generator.py:196-205 | appends one "IEEE Body" paragraph per non-blank piece of the content split at blank lines, in order |
| DocxGenerator.IEEEDocxGenerator.AddFigure | backend/services/docx_generator.py:207-228 | increments the figure counter, then appends the picture (or the placeholder when the bytes cannot be decoded) and a caption carrying the new counter |
| DocxGenerator.IEEEDocxGenerator.AddReferencesHeading | backend/services/docx_generator.py:232-238 | the heading written as section 99 ends up reading exactly "REFERENCES", with no numeral |
| DocxGenerator.IEEEDocxGenerator.AddReferences | backend/services/docx_generator.py:230-245 | appends the "REFERENCES" heading, then entry i as "[i] reference", numbered from 1 in list order |
| DocxGenerator.FiguresBySection | backend/services/docx_generator.py:278-284 | the figure map gives, for every key, exactly the figures whose lower-cased placement is that key, in list order |
| DocxGenerator.IEEEDocxGenerator.AddGroup | backend/services/docx_generator.py:294-296 | draws a section's figures in order; succeeds exactly when no figure index is below -len(images); the counter grows by the number drawn |
| DocxGenerator.IEEEDocxGenerator.AddSection | backend/services/docx_generator.py:287-296 | one pass of the section loop: the numbered heading, the paragraphs, then the figures the map holds for the lower-cased heading |
| DocxGenerator.IEEEDocxGenerator.AddSections | backend/services/docx_generator.py:286-296 | the section loop succeeds exactly when the paper does not raise, and then appends the specified section blocks and advances the counter by the number of placed figures |
| DocxGenerator.IEEEDocxGenerator.AddLeftover | backend/services/docx_generator.py:300-303 | a leftover image moves the counter forward by 2: caption text "Figure c+1", label c+2 |
| DocxGenerator.IEEEDocxGenerator.AddLeftovers | backend/services/docx_generator.py:298-303 | appends the images whose index no figure mentions, in image order, each moving the counter forward by 2 |
| DocxGenerator.IEEEDocxGenerator.Generate | backend/services/docx_generator.py:247-314 | fails exactly when the source raises IndexError; otherwise the document is the specified block sequence and the counter is its final value |
| DocxProperties.RomanNumeralsValues | backend/services/docx_generator.py:189 | the numeral list "I" … "X" reads as 1 … 10 |
| DocxProperties.NumeralRoundTrip | backend/services/docx_generator.py:189-190 | the numeral of every section number n (Roman up to 10, decimal beyond) reads back as n and contains no dot |
| DocxProperties.HeadingNumberRoundTrip | backend/services/docx_generator.py:187-194 | the heading text of section n starts with a numeral that reads back as n |
| DocxProperties.SectionHeadingNumbers | backend/services/docx_generator.py:287-288 | the headings of consecutive sections read back as n, n+1, n+2, … |
| DocxProperties.HeadingOutlineNumbers | backend/services/docx_generator.py:287-307 | one heading per section, numbered 1, 2, … in order, then "REFERENCES" exactly when there are references |
| DocxProperties.CleanPiece | backend/services/docx_generator.py:201-204 | a piece that is not blank becomes a non-empty paragraph with collapsed whitespace |
| DocxProperties.ParagraphsWellFormed | backend/services/docx_generator.py:199-205 | every body paragraph is non-empty and has only single spaces between words |
| DocxProperties.ParagraphsKeepText | backend/services/docx_generator.py:199-205 | the body paragraphs hold exactly the section's non-whitespace characters, in order |
| DocxProperties.KeywordsRoundTrip | backend/services/docx_generator.py:179-185 | splitting the keyword run at "; " gives the keywords back, when none contains ';' |
| DocxProperties.FrontMatterOutline | backend/services/docx_generator.py:268-276 | the front matter holds the one column break and no heading, caption or reference |
| DocxProperties.DocumentStart | backend/services/docx_generator.py:265-276 | the document opens with title, authors, abstract and keywords, and its fifth block is the switch to two columns |
| DocxProperties.DocumentColumns | backend/services/docx_generator.py:265-307 | the whole document has exactly one section break, to two columns |
| DocxProperties.DocumentHeadings | backend/services/docx_generator.py:286-307 | the document's headings are the sections' own, numbered from 1 in order, then "REFERENCES" when there are references |
| DocxProperties.DocumentCaptions | backend/services/docx_generator.py:279-303 | the captions are the placed figures numbered from 1 in document order, then one per leftover image |
| DocxProperties.CaptionOutlineAt | backend/services/docx_generator.py:294-303 | placed caption k is "Fig. k+1" with the figure's caption; leftover j after P placed figures is numbered P+2j+2 and its text names the number below |
| DocxProperties.CaptionNumbersIncrease | backend/services/docx_generator.py:209-303 | figure numbers strictly increase through the document, start at 1, and the last one equals the final figure counter |
| DocxProperties.DocumentEntries | backend/services/docx_generator.py:240-245 | the reference entries are the references, numbered from 1 in order |
| DocxProperties.ReferencesDocOutline | backend/services/docx_generator.py:305-307 | the reference part is empty without references; otherwise it is "REFERENCES" followed by the numbered entries |
| DocxProperties.FigureBlocksOutline | backend/services/docx_generator.py:207-228 | a figure adds exactly one caption, also when its image fails and the placeholder is drawn |
| DocxProperties.FigureRunOutline | backend/services/docx_generator.py:294-296 | a section's figures add the captions of the drawn figures, numbered on from the counter, in order |
| DocxProperties.SectionsDocCaptions | backend/services/docx_generator.py:286-296 | the captions after the sections are the drawn figures of all groups, numbered on consecutively |
| DocxProperties.LeftoverDocOutline | backend/services/docx_generator.py:298-303 | the leftover images add one caption each, numbered two apart |
| DocxProperties.FiguresAtMembers | backend/services/docx_generator.py:279-284 | a group holds exactly the figures whose lower-cased placement is its key |
| DocxProperties.RenderedMembers | backend/services/docx_generator.py:295-296 | a figure of a group is drawn exactly when its index satisfies -len(images) <= index < len(images) |
| DocxProperties.PlacedFiguresMembers | backend/services/docx_generator.py:286-296 | a figure is drawn under the sections exactly when its index picks an image and some heading equals its placement, ignoring case |
| DocxProperties.GroupsAt | backend/services/docx_generator.py:292-294 | the figures after section i are those keyed by its lower-cased heading |
| DocxProperties.RepeatedHeadingRepeatsGroup | backend/services/docx_generator.py:292-294 | two sections whose headings agree up to case get the same figures |
| DocxProperties.LeftoversMembers | backend/services/docx_generator.py:299-301 | an image position is a leftover exactly when it is in range and no figure's index equals it |
| DocxProperties.LeftoversIncrease | backend/services/docx_generator.py:300-301 | leftover images come in image order |
| DocxProperties.LeftoverImages | backend/services/docx_generator.py:299-303 | image i is drawn as a leftover exactly when 0 <= i < len(images) and no figure has index i |
| DocxProperties.UnmatchedFigureDropped | backend/services/docx_generator.py:292-303 | a figure whose placement matches no heading is never drawn, and its image is not drawn as a leftover either |
| DocxProperties.RaisesIff | backend/services/docx_generator.py:295-296 | generate raises exactly when a figure under some heading has an index below -len(images) |
| DocxProperties.NonNegativeNeverRaises | backend/services/docx_generator.py:295-296 | with no negative figure index, generate never raises |
| Text.StripEnds | backend/services/docx_generator.py:199-201 | the result of strip neither starts nor ends with whitespace |
| Text.StripKeepsText | backend/services/docx_generator.py:199 | strip removes whitespace only |
| Text.JoinSplitOn | backend/services/docx_generator.py:199 | joining the pieces of split(sep) with sep gives the string back |
| Text.SplitOnJoin | backend/services/docx_generator.py:185 | splitting a join gives the parts back when no part holds the separator's first character |
| Text.WordsAreWords | backend/services/docx_generator.py:204 | split() yields non-empty words without whitespace |
| Text.WordsKeepText | backend/services/docx_generator.py:204 | the words of split() together are exactly the non-whitespace characters |
| Text.WordsOfJoin | backend/services/docx_generator.py:204 | split() of words joined by single spaces gives the words back |
| Text.CollapseWellFormed | backend/services/docx_generator.py:204 | ' '.join(s.split()) has no leading, trailing, repeated or non-space whitespace |
| Text.CollapseKeepsText | backend/services/docx_generator.py:204 | collapsing whitespace keeps every visible character, in order |
| Text.CollapseIdempotent | backend/services/docx_generator.py:204 | collapsing twice equals collapsing once |
| Text.NatToStringRoundTrip | backend/services/docx_generator.py:226 | the decimal numeral of n reads back as n |
| Text.IntToStringRoundTrip | backend/services/ai_processor.py:181 | str(i) starts with '-' exactly for negative i and reads back as i |
| Text.Find | backend/services/ai_processor.py:90 | the search returns the first occurrence at or after the start, or none when there is none |
| AiProcessor.FirstIndex | backend/services/ai_processor.py:95 | the position of the first '{', with no '{' before it |
| AiProcessor.LastIndex | backend/services/ai_processor.py:95 | the position of the last '}', with no '}' after it |
| AiProcessor.CleanJsonResponse | backend/services/ai_processor.py:87-99 | the extracted JSON text is never longer than the reply |
| AiProcessor.FencedRoundTrip | backend/services/ai_processor.py:90-92 | a reply holding a ```json block gives back the block's stripped text, whatever follows the block |
| AiProcessor.BracedRoundTrip | backend/services/ai_processor.py:95-97 | a reply without fences gives back the text from its first '{' to its last '}', inclusive |
| AiProcessor.CleanFenced | backend/services/ai_processor.py:89-92 | for any reply whose first fence is closed by a later one, the result is the text between them (after an optional `json` tag), stripped |
| AiProcessor.CleanBraced | backend/services/ai_processor.py:94-97 | for any reply without a closed fenced block whose first '{' comes before its last '}', the result is the text from that '{' to that '}', inclusive |
| AiProcessor.CleanUnchanged | backend/services/ai_processor.py:94-99 | a reply without a closed fenced block and with no '}' after any '{' is returned unchanged |
| AiProcessor.ValidateAndFixSections | backend/services/ai_processor.py:101-130 | the loop, the insert at 0 and the append compute the repaired section list |
| AiProcessor.KeptMembers | backend/services/ai_processor.py:108-112 | a section is kept exactly when it comes from a raw section with non-empty content, with "Untitled Section" for a missing heading |
| AiProcessor.FixSectionsEmpty | backend/services/ai_processor.py:118-128 | the result is empty exactly when no raw section has content: no defaults are added then |
| AiProcessor.FixSectionsLayout | backend/services/ai_processor.py:114-128 | the kept sections stay unchanged and in order; the default Introduction comes first when none is kept, the default Conclusion last when none is kept; length is kept + 0, 1 or 2 |
| AiProcessor.FixSectionsRequired | backend/services/ai_processor.py:115-128 | a non-empty result has a heading equal to "introduction" and one equal to "conclusion", ignoring case |
| AiProcessor.FixSectionsHaveContent | backend/services/ai_processor.py:111-128 | every section of the result has content |
| AiProcessor.RepairComplete | backend/services/ai_processor.py:115-128 | kept sections that already have both required headings are left as they are |
| AiProcessor.KeptAsRaw | backend/services/ai_processor.py:108-112 | sections that all have content pass the filter unchanged |
| AiProcessor.FixSectionsIdempotent | backend/services/ai_processor.py:101-130 | repairing an already repaired list changes nothing |
| Text.LowerNoUpper | backend/services/ai_processor.py:115-116 | `lower()` leaves text without upper-case letters as it is |
| AiProcessor.LowerIntroduction | backend/services/ai_processor.py:115-121 | the default heading "Introduction" lower-cases to "introduction", so it satisfies the check it repairs |
| AiProcessor.LowerConclusion | backend/services/ai_processor.py:116-127 | the default heading "Conclusion" lower-cases to "conclusion" |
| AiProcessor.FilterFigures | backend/services/ai_processor.py:176-183 | the figure loop computes the kept figures, with the first section's heading (or "Introduction") as the default placement |
| AiProcessor.KeptFiguresMembers | backend/services/ai_processor.py:177-183 | a figure is kept exactly when it comes from a raw figure whose index (0 when missing) is below the image count |
| AiProcessor.KeptFiguresBelow | backend/services/ai_processor.py:178 | every kept figure's index is below the image count, negative ones included |
| AiProcessor.DefaultCaption | backend/services/ai_processor.py:181 | a figure without a caption gets "Figure " followed by a numeral that reads back as index + 1 |
| AiProcessor.ProcessContent | backend/services/ai_processor.py:168-199 | fails exactly when the cleaned reply does not decode, with the "Failed to parse AI response as JSON: " message; otherwise gives the paper built from the decoded reply |
| AiProcessor.PaperFromReplyFacts | backend/services/ai_processor.py:174-194 | whatever the reply, every figure's index is below the image count, and the sections are empty or include an Introduction and a Conclusion |
| Schemas.SectionsMissingEmpty | backend/models/schemas.py:4-7 | validation reports no missing section field exactly when every section has both heading and content |
| Schemas.FiguresMissingEmpty | backend/models/schemas.py:9-13 | validation reports no missing figure field exactly when every figure has index, caption and placement |
| Schemas.PaperMissingEmpty | backend/models/schemas.py:15-23 | validation reports nothing missing exactly when title, abstract, keywords, sections and every nested required field are present |
| Schemas.ParsePaper | backend/models/schemas.py:15-23 | validation succeeds exactly when the required fields are present, and otherwise reports at least one missing field; title, abstract and keywords are kept; each section and each figure is its raw element's fields, in order; authors defaults to "[Author Name]", figures and references to empty lists |
| Schemas.ParsePaperRoundTrip | backend/models/schemas.py:15-23 | a paper serialised with every field present validates back to itself |
| Schemas.ParseRequest | backend/models/schemas.py:25-28 | a request validates exactly when raw_content is present and at most 100000 characters long; image_count defaults to 0 |
| Routes.AdmissionBoundaries | backend/routes/paper.py:42-61 | the limits are inclusive: 100000 characters, 10 images and 5·1024·1024 bytes pass, one more does not |
| Routes.FirstOversize | backend/routes/paper.py:58-65 | finds the first upload over the size limit; every earlier one is within it |
| Routes.ReadImagesFacts | backend/routes/paper.py:57-66 | the stored images are the uploads' images in upload order, up to the first oversize one; each is within the limit; all are stored when none is over it |
| Routes.Session.constructor | backend/routes/paper.py:23-24 | the session starts with no images and no paper |
| Routes.Session.StoreImages | backend/routes/paper.py:57-66 | the image list is reset, then filled in upload order until the first image over the limit |
| Routes.Session.GeneratePaper | backend/routes/paper.py:28-82 | over-long content and more than 10 uploads are rejected with 400 before anything changes; an oversize image gives "Unexpected error: 400: …" and keeps the earlier images; an unset or empty API key gives success false with "GEMINI_API_KEY environment variable is not set" and keeps the stored images; a decoding failure gives success false with its message; otherwise the session paper is the processed paper |
| Routes.Session.ExportDocx | backend/routes/paper.py:86-116 | fails with 500 exactly when generation raises; otherwise downloads the generated document under the sanitised filename |
| Routes.Session.ClearSession | backend/routes/paper.py:119-125 | the session has no images and no paper afterwards, and the message is "Session cleared successfully" |
| Routes.FilteredFacts | backend/routes/paper.py:101 | the character filter keeps exactly the letters, digits, spaces, '-' and '_' of the text |
| Routes.FilteredAllowed | backend/routes/paper.py:101 | text made of allowed characters passes the filter unchanged |
| Routes.SafeStemFacts | backend/routes/paper.py:101 | the stem has at most 50 characters, all allowed and taken from the title, and does not start or end with a space |
| Routes.SafeStemEmpty | backend/routes/paper.py:101-103 | the fallback "ieee_paper" is used exactly when the first 50 characters of the title hold no allowed character other than spaces |
| Routes.SafeStemIdempotent | backend/routes/paper.py:101 | sanitising a stem again changes nothing |
| Routes.SafeFilenameOfCleanTitle | backend/routes/paper.py:101-104 | a title that is already a clean stem becomes the filename as it is, with ".docx" appended |

## Left out

- The styles, fonts, sizes, margins, indents and the OOXML column element are python-docx calls on measurement values. Each block carries only its style name, and the column switch is one block with a column count. `doc.save` and the packaged bytes are not modelled: `Generate` yields the block sequence.
- Image decoding by `add_picture` is an opaque property of the bytes, the `decodable` flag of an image. python-docx's `Document.add_picture` adds an empty paragraph before it decodes the image. A figure whose image fails to decode therefore leaves that empty paragraph before its placeholder in the real document. The model's single Placeholder block does not include it.
- The Gemini client, the prompts and the sampling settings are not modelled. `ProcessContent` receives the model's reply as a parameter.
- `json.loads` is a parameter `decode` of `ProcessContent`, which either gives the decoded object (fields as options) or fails with a message.
- The regular expressions of `_clean_json_response` are modelled as the searches they perform, not by a regular-expression engine.
- Character classes and case mapping (`isspace`, `isalnum`, `upper`, `lower`) follow ASCII. Other Unicode characters count as neither letters nor whitespace and are not case-mapped.
- AiProcessor.ProcessContent: the RuntimeError for any other failure ("AI processing failed: …") is not modelled. It comes from the network call or from decoded fields of the wrong type, and neither is modelled.
- AiProcessor.CleanJsonResponse: its own contract gives only the length bound. The lemmas `CleanFenced`, `CleanBraced` and `CleanUnchanged` state the result of each of its three branches for every reply.
- AiProcessor.FencedRoundTrip: proved for replies whose text before the fenced block and inside it has no backtick. `CleanFenced` states the result for every reply with a closed fence.
- AiProcessor.BracedRoundTrip: proved for replies without any backtick. `CleanBraced` states the result for every reply without a closed fenced block.
- Routes.Session.GeneratePaper: decoded fields of the wrong type (pydantic errors inside the try) are not modelled. The text of a decoding ValueError is the decoder's message.
- Routes.Session.ExportDocx: only IndexError is modelled as a failure of `generate`. Its detail is Python's "list index out of range".
- FastAPI plumbing is not modelled: routing, form parsing, asynchronous `UploadFile.read`, `StreamingResponse`, the Content-Disposition header, CORS and the health endpoint. Uploads arrive as a list of name and bytes pairs, and replies are a status and detail or a response body.
- Concurrent requests over the module-level session globals are not modelled, nor are the lazy singletons `get_docx_generator` and `get_ai_processor`. Each export uses a fresh generator, which `generate` resets anyway.
- The settings in backend/config.py are read from the environment or fixed. Their three limits are constants of the Routes module.
- `_create_styles` is not modelled: it only registers named styles.
- `AIProcessor.__init__` raises ValueError when `GEMINI_API_KEY` is unset or empty. `generate_paper` catches that error and returns success false with the message. `Session.GeneratePaper` models this path with the key setting as a parameter. The client configuration and the model settings are not modelled.
