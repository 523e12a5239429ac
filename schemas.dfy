/**
 * The paper data model (`models/schemas.py`): the records the API exchanges,
 * their required fields and defaults, and the validation that turns a
 * decoded JSON object into a record or the list of fields that are missing.
 */
module Schemas {
  import opened Wrappers
  import Text

  /** A section of the paper: both fields are required. */
  datatype Section = Section(heading: string, content: string)

  /**
   * A figure: `index` is meant as a 0-based position in the uploaded images,
   * `placement` is a free-form section name. Nothing bounds or orders either.
   */
  datatype Figure = Figure(index: int, caption: string, placement: string)

  const DEFAULT_AUTHORS: string := "[Author Name]"

  /**
   * The complete structured paper. Title, abstract, keywords and sections are
   * required; the other fields have defaults. No field is constrained beyond
   * its type: titles and section lists may be empty, figure indices repeat.
   */
  datatype StructuredPaper = StructuredPaper(
    title: string,
    authors: string := "[Author Name]",
    abstractText: string,
    keywords: seq<string>,
    sections: seq<Section>,
    figures: seq<Figure> := [],
    references: seq<string> := [])

  /** The most characters `GeneratePaperRequest.raw_content` may hold. */
  const RAW_CONTENT_MAX_LENGTH: nat := 100000

  datatype GeneratePaperRequest = GeneratePaperRequest(rawContent: string, imageCount: int := 0)

  datatype GeneratePaperResponse = GeneratePaperResponse(
    success: bool,
    paper: Option<StructuredPaper> := None,
    error: Option<string> := None)

  // ---------------------------------------------------------------------------
  // Decoded JSON objects, before validation: every field may be missing.
  // ---------------------------------------------------------------------------

  datatype RawSection = RawSection(heading: Option<string>, content: Option<string>)

  datatype RawFigure = RawFigure(index: Option<int>, caption: Option<string>, placement: Option<string>)

  datatype RawPaper = RawPaper(
    title: Option<string>,
    authors: Option<string>,
    abstractText: Option<string>,
    keywords: Option<seq<string>>,
    sections: Option<seq<RawSection>>,
    figures: Option<seq<RawFigure>>,
    references: Option<seq<string>>)

  predicate SectionComplete(r: RawSection) {
    r.heading.Some? && r.content.Some?
  }

  predicate FigureComplete(r: RawFigure) {
    r.index.Some? && r.caption.Some? && r.placement.Some?
  }

  /** Every required field, at every level, is present. */
  predicate PaperComplete(raw: RawPaper) {
    && raw.title.Some?
    && raw.abstractText.Some?
    && raw.keywords.Some?
    && raw.sections.Some?
    && (forall i :: 0 <= i < |raw.sections.value| ==> SectionComplete(raw.sections.value[i]))
    && (raw.figures.Some? ==> forall i :: 0 <= i < |raw.figures.value| ==> FigureComplete(raw.figures.value[i]))
  }

  // ---------------------------------------------------------------------------
  // Validation: the locations of all missing fields, in declaration order.
  // ---------------------------------------------------------------------------

  function IfMissing<T>(field: Option<T>, location: string): seq<string> {
    if field.None? then [location] else []
  }

  function ItemLocation(list: string, i: nat, field: string): string {
    list + "." + Text.NatToString(i) + "." + field
  }

  function SectionsMissing(rs: seq<RawSection>, from: nat): seq<string>
    decreases |rs|
  {
    if rs == [] then []
    else
      IfMissing(rs[0].heading, ItemLocation("sections", from, "heading"))
      + IfMissing(rs[0].content, ItemLocation("sections", from, "content"))
      + SectionsMissing(rs[1..], from + 1)
  }

  function FiguresMissing(rs: seq<RawFigure>, from: nat): seq<string>
    decreases |rs|
  {
    if rs == [] then []
    else
      IfMissing(rs[0].index, ItemLocation("figures", from, "index"))
      + IfMissing(rs[0].caption, ItemLocation("figures", from, "caption"))
      + IfMissing(rs[0].placement, ItemLocation("figures", from, "placement"))
      + FiguresMissing(rs[1..], from + 1)
  }

  /** The locations pydantic reports as missing for a `StructuredPaper`. */
  function PaperMissing(raw: RawPaper): seq<string> {
    IfMissing(raw.title, "title")
    + IfMissing(raw.abstractText, "abstract")
    + IfMissing(raw.keywords, "keywords")
    + IfMissing(raw.sections, "sections")
    + (if raw.sections.Some? then SectionsMissing(raw.sections.value, 0) else [])
    + (if raw.figures.Some? then FiguresMissing(raw.figures.value, 0) else [])
  }

  lemma {:induction false} SectionsMissingEmpty(rs: seq<RawSection>, from: nat)
    ensures SectionsMissing(rs, from) == [] <==> forall i :: 0 <= i < |rs| ==> SectionComplete(rs[i])
    decreases |rs|
  {
    if rs != [] {
      SectionsMissingEmpty(rs[1..], from + 1);
      assert forall i :: 1 <= i < |rs| ==> rs[i] == rs[1..][i - 1];
    }
  }

  lemma {:induction false} FiguresMissingEmpty(rs: seq<RawFigure>, from: nat)
    ensures FiguresMissing(rs, from) == [] <==> forall i :: 0 <= i < |rs| ==> FigureComplete(rs[i])
    decreases |rs|
  {
    if rs != [] {
      FiguresMissingEmpty(rs[1..], from + 1);
      assert forall i :: 1 <= i < |rs| ==> rs[i] == rs[1..][i - 1];
    }
  }

  /** Validation reports nothing exactly when every required field is present. */
  lemma PaperMissingEmpty(raw: RawPaper)
    ensures PaperMissing(raw) == [] <==> PaperComplete(raw)
  {
    if raw.sections.Some? {
      SectionsMissingEmpty(raw.sections.value, 0);
    }
    if raw.figures.Some? {
      FiguresMissingEmpty(raw.figures.value, 0);
    }
  }

  function ToSection(r: RawSection): Section
    requires SectionComplete(r)
  {
    Section(r.heading.value, r.content.value)
  }

  function ToFigure(r: RawFigure): Figure
    requires FigureComplete(r)
  {
    Figure(r.index.value, r.caption.value, r.placement.value)
  }

  /**
   * Validating a decoded `StructuredPaper`: the record, with the defaults for
   * absent optional fields, or the locations of every missing required field.
   */
  function ParsePaper(raw: RawPaper): (r: Result<StructuredPaper, seq<string>>)
    ensures r.Ok? <==> PaperComplete(raw)
    ensures r.Err? ==> r.error != []
    ensures r.Ok? ==> r.value.title == raw.title.value && r.value.abstractText == raw.abstractText.value
    ensures r.Ok? ==> r.value.authors == raw.authors.GetOr(DEFAULT_AUTHORS)
    ensures r.Ok? ==> r.value.references == raw.references.GetOr([])
    ensures r.Ok? ==> r.value.keywords == raw.keywords.value
    ensures r.Ok? ==> |r.value.sections| == |raw.sections.value| && |r.value.figures| == |raw.figures.GetOr([])|
    ensures r.Ok? ==> forall i :: 0 <= i < |r.value.sections| ==> r.value.sections[i] == ToSection(raw.sections.value[i])
    ensures r.Ok? ==> forall i :: 0 <= i < |r.value.figures| ==> r.value.figures[i] == ToFigure(raw.figures.GetOr([])[i])
  {
    var missing := PaperMissing(raw);
    PaperMissingEmpty(raw);
    if missing != [] then Err(missing)
    else
      var rs := raw.sections.value;
      var fs := raw.figures.GetOr([]);
      Ok(StructuredPaper(
        title := raw.title.value,
        authors := raw.authors.GetOr(DEFAULT_AUTHORS),
        abstractText := raw.abstractText.value,
        keywords := raw.keywords.value,
        sections := seq(|rs|, i requires 0 <= i < |rs| => ToSection(rs[i])),
        figures := seq(|fs|, i requires 0 <= i < |fs| => ToFigure(fs[i])),
        references := raw.references.GetOr([])))
  }

  /** The decoded JSON object that a paper serialises to: every field present. */
  function ToRaw(p: StructuredPaper): RawPaper {
    RawPaper(
      Some(p.title), Some(p.authors), Some(p.abstractText), Some(p.keywords),
      Some(seq(|p.sections|, i requires 0 <= i < |p.sections| =>
        RawSection(Some(p.sections[i].heading), Some(p.sections[i].content)))),
      Some(seq(|p.figures|, i requires 0 <= i < |p.figures| =>
        RawFigure(Some(p.figures[i].index), Some(p.figures[i].caption), Some(p.figures[i].placement)))),
      Some(p.references))
  }

  /** A paper sent back to the API (as the export request does) validates to itself. */
  lemma ParsePaperRoundTrip(p: StructuredPaper)
    ensures ParsePaper(ToRaw(p)) == Ok(p)
  {
    var r := ParsePaper(ToRaw(p));
    assert r.Ok?;
    assert r.value.sections == p.sections;
    assert r.value.figures == p.figures;
  }

  /**
   * Validating a `GeneratePaperRequest`: `raw_content` is required and at most
   * 100000 characters long; `image_count` defaults to 0.
   */
  function ParseRequest(rawContent: Option<string>, imageCount: Option<int>): (r: Result<GeneratePaperRequest, string>)
    ensures r.Ok? <==> rawContent.Some? && |rawContent.value| <= RAW_CONTENT_MAX_LENGTH
    ensures r.Ok? ==> r.value.rawContent == rawContent.value && r.value.imageCount == imageCount.GetOr(0)
  {
    if rawContent.None? then Err("raw_content: missing")
    else if |rawContent.value| > RAW_CONTENT_MAX_LENGTH then Err("raw_content: string too long")
    else Ok(GeneratePaperRequest(rawContent.value, imageCount.GetOr(0)))
  }
}
