/**
 * What `IEEEDocxGenerator.generate` writes into the Word document, as a
 * sequence of blocks: the front matter, the numbered sections with their
 * figures, the images no figure mentions, and the numbered references.
 * The generator class in docx_generator.dfy builds exactly this sequence.
 */
module DocxLayout {
  import opened Wrappers
  import opened Text
  import opened Schemas

  type Bytes = seq<bv8>

  /**
   * An uploaded image: its bytes, and whether python-docx can decode them as
   * a picture (an opaque property of the bytes).
   */
  datatype Image = Image(bytes: Bytes, decodable: bool)

  /** The paragraph styles the generator defines, by name. */
  datatype Style =
    | TitleStyle       // "IEEE Title"
    | AuthorStyle      // "IEEE Author"
    | AbstractStyle    // "IEEE Abstract"
    | KeywordsStyle    // "IEEE Keywords"
    | HeadingStyle     // "IEEE Heading"
    | BodyStyle        // "IEEE Body"

  datatype Run = Run(text: string, bold: bool, italic: bool)

  datatype Block =
    | Paragraph(style: Style, runs: seq<Run>)
      /** A section break that switches the page to `columns` columns. */
    | ColumnBreak(columns: nat)
      /** A centred picture, three inches wide. */
    | Picture(image: Image)
      /** The centred text "[Image could not be processed]". */
    | Placeholder
      /** An "IEEE Caption" paragraph: bold "Fig. <number>. ", then the caption. */
    | Caption(number: nat, caption: string)
      /** An "IEEE Body" paragraph with a 0.25in hanging indent: "[<number>] <text>". */
    | Reference(number: nat, text: string)

  const ABSTRACT_MARK: string := "Abstract—"
  const KEYWORDS_MARK: string := "Keywords—"
  const PLACEHOLDER_TEXT: string := "[Image could not be processed]"
  const REFERENCES_TITLE: string := "REFERENCES"
  const PARAGRAPH_SEPARATOR: string := "\n\n"
  const KEYWORD_SEPARATOR: string := "; "
  const ROMAN_NUMERALS: seq<string> := ["I", "II", "III", "IV", "V", "VI", "VII", "VIII", "IX", "X"]

  /** The visible text of a block. */
  function BlockText(b: Block): string {
    match b
    case Paragraph(_, runs) => RunsText(runs)
    case ColumnBreak(_) => []
    case Picture(_) => []
    case Placeholder => PLACEHOLDER_TEXT
    case Caption(n, caption) => "Fig. " + NatToString(n) + ". " + caption
    case Reference(n, text) => "[" + NatToString(n) + "] " + text
  }

  function RunsText(runs: seq<Run>): string {
    if runs == [] then [] else runs[0].text + RunsText(runs[1..])
  }

  // ---------------------------------------------------------------------------
  // Single blocks
  // ---------------------------------------------------------------------------

  /** `doc.add_paragraph(text, style)`: one plain run, or no run for empty text. */
  function PlainParagraph(style: Style, text: string): Block {
    Paragraph(style, if text == [] then [] else [Run(text, false, false)])
  }

  /** The abstract: one bold italic run holding the marker and the abstract. */
  function AbstractBlock(abstractText: string): Block {
    Paragraph(AbstractStyle, [Run(ABSTRACT_MARK + abstractText, true, true)])
  }

  /** The keyword line, written even when there are no keywords. */
  function KeywordsBlock(keywords: seq<string>): Block {
    Paragraph(KeywordsStyle, [Run(KEYWORDS_MARK, true, true), Run(Join(KEYWORD_SEPARATOR, keywords), false, false)])
  }

  /** The numeral of section `n`: "I" to "X", then the decimal numeral. */
  function Numeral(n: nat): string
    requires n >= 1
  {
    if n <= |ROMAN_NUMERALS| then ROMAN_NUMERALS[n - 1] else NatToString(n)
  }

  function HeadingText(heading: string, n: nat): string
    requires n >= 1
  {
    Numeral(n) + ". " + Upper(heading)
  }

  function HeadingBlock(heading: string, n: nat): Block
    requires n >= 1
  {
    Paragraph(HeadingStyle, [Run(HeadingText(heading, n), true, false)])
  }

  /** The heading that opens the reference list, without a numeral. */
  const REFERENCES_HEADING: Block := Paragraph(HeadingStyle, [Run(REFERENCES_TITLE, true, false)])

  /** A figure: the picture, or the placeholder when it cannot be decoded, then its caption. */
  function FigureBlocks(image: Image, caption: string, number: nat): seq<Block> {
    [if image.decodable then Picture(image) else Placeholder, Caption(number, caption)]
  }

  // ---------------------------------------------------------------------------
  // Body text
  // ---------------------------------------------------------------------------

  /** The stripped pieces that are not empty, with their whitespace collapsed, in order. */
  function CleanPieces(pieces: seq<string>): seq<string> {
    if pieces == [] then []
    else
      var t := Strip(pieces[0]);
      (if t == [] then [] else [Collapse(t)]) + CleanPieces(pieces[1..])
  }

  /** Cleaning works piece by piece: the first piece's paragraph, if any, comes before the rest. */
  lemma CleanPiecesCons(piece: string, rest: seq<string>)
    ensures CleanPieces([piece] + rest) == CleanPieces([piece]) + CleanPieces(rest)
  {
    assert ([piece] + rest)[1..] == rest && [piece][1..] == [];
  }

  /** The paragraphs of a section's content: split at blank lines. */
  function Paragraphs(content: string): seq<string> {
    CleanPieces(SplitOn(Strip(content), PARAGRAPH_SEPARATOR))
  }

  function BodyBlocks(paragraphs: seq<string>): seq<Block> {
    if paragraphs == [] then []
    else [PlainParagraph(BodyStyle, paragraphs[0])] + BodyBlocks(paragraphs[1..])
  }

  /** The paragraphs of each section, in order. */
  function SectionParagraphs(sections: seq<Section>): (r: seq<seq<string>>)
    ensures |r| == |sections|
  {
    if sections == [] then [] else [Paragraphs(sections[0].content)] + SectionParagraphs(sections[1..])
  }

  /** Section `n`: its heading, then its paragraphs. */
  function SectionBlocks(heading: string, paragraphs: seq<string>, n: nat): seq<Block>
    requires n >= 1
  {
    [HeadingBlock(heading, n)] + BodyBlocks(paragraphs)
  }

  // ---------------------------------------------------------------------------
  // Figures
  // ---------------------------------------------------------------------------

  /** The figures whose lower-cased placement is `key`, in list order. */
  function FiguresAt(figures: seq<Figure>, key: string): seq<Figure> {
    if figures == [] then []
    else (if Lower(figures[0].placement) == key then [figures[0]] else []) + FiguresAt(figures[1..], key)
  }

  /** Whether Python's `images[i]` picks an image: `-n <= i < n`. */
  predicate InRange(i: int, n: nat) {
    -(n as int) <= i < n
  }

  /** The position Python's `images[i]` reads, counting negative `i` from the end. */
  function PyIndex(i: int, n: nat): nat
    requires InRange(i, n)
  {
    if i < 0 then n + i else i
  }

  /** The figures of a group that are drawn: those whose index picks an image. */
  function Rendered(figures: seq<Figure>, n: nat): seq<Figure> {
    if figures == [] then []
    else (if InRange(figures[0].index, n) then [figures[0]] else []) + Rendered(figures[1..], n)
  }

  /** The blocks for a group of figures, numbered on from `counter`. */
  function FigureRun(figures: seq<Figure>, images: seq<Image>, counter: nat): seq<Block>
    decreases |figures|
  {
    if figures == [] then []
    else
      var f := figures[0];
      if InRange(f.index, |images|) then
        FigureBlocks(images[PyIndex(f.index, |images|)], f.caption, counter + 1)
        + FigureRun(figures[1..], images, counter + 1)
      else FigureRun(figures[1..], images, counter)
  }

  /** The figures placed under section `s`: those whose placement is its heading, ignoring case. */
  function Group(s: Section, figures: seq<Figure>): seq<Figure> {
    FiguresAt(figures, Lower(s.heading))
  }

  /** The figure group of each section, in section order. */
  function Groups(sections: seq<Section>, figures: seq<Figure>): (r: seq<seq<Figure>>)
    ensures |r| == |sections|
  {
    if sections == [] then [] else [Group(sections[0], figures)] + Groups(sections[1..], figures)
  }

  /** The heading and paragraphs of each section, the sections numbered from `number`. */
  function SectionHeads(sections: seq<Section>, paragraphs: seq<seq<string>>, number: nat): (r: seq<seq<Block>>)
    requires |paragraphs| == |sections| && number >= 1
    ensures |r| == |sections|
    decreases |sections|
  {
    if sections == [] then []
    else [SectionBlocks(sections[0].heading, paragraphs[0], number)] + SectionHeads(sections[1..], paragraphs[1..], number + 1)
  }

  /** The figures drawn after each section, in document order. */
  function PlacedFigures(groups: seq<seq<Figure>>, n: nat): seq<Figure> {
    if groups == [] then [] else Rendered(groups[0], n) + PlacedFigures(groups[1..], n)
  }

  /** Each section's own blocks, followed by the figures of its group numbered on from `counter`. */
  function SectionsDoc(heads: seq<seq<Block>>, groups: seq<seq<Figure>>, images: seq<Image>, counter: nat): seq<Block>
    requires |heads| == |groups|
    decreases |heads|
  {
    if heads == [] then []
    else
      heads[0] + FigureRun(groups[0], images, counter)
      + SectionsDoc(heads[1..], groups[1..], images, counter + |Rendered(groups[0], |images|)|)
  }

  /** `{fig.index for fig in figures}` */
  function PlacedIndices(figures: seq<Figure>): set<int> {
    set f | f in figures :: f.index
  }

  /** The image positions from `from` on that no figure mentions, in order. */
  function Leftovers(count: nat, from: nat, placed: set<int>): seq<nat>
    decreases count - from
  {
    if from >= count then []
    else (if from in placed then [] else [from]) + Leftovers(count, from + 1, placed)
  }

  /**
   * The images no figure mentions: each advances the counter once for its
   * caption text "Figure c+1" and once more for its label "Fig. c+2".
   */
  function LeftoverDoc(images: seq<Image>, from: nat, placed: set<int>, counter: nat): seq<Block>
    decreases |images| - from
  {
    if from >= |images| then []
    else if from in placed then LeftoverDoc(images, from + 1, placed, counter)
    else
      FigureBlocks(images[from], "Figure " + NatToString(counter + 1), counter + 2)
      + LeftoverDoc(images, from + 1, placed, counter + 2)
  }

  function ReferenceEntries(references: seq<string>, from: nat): seq<Block>
    decreases |references|
  {
    if references == [] then [] else [Reference(from, references[0])] + ReferenceEntries(references[1..], from + 1)
  }

  /** The reference list: its heading and the entries numbered from 1, only when there are references. */
  function ReferencesDoc(references: seq<string>): seq<Block> {
    if references == [] then [] else [REFERENCES_HEADING] + ReferenceEntries(references, 1)
  }

  // ---------------------------------------------------------------------------
  // The whole document
  // ---------------------------------------------------------------------------

  /** Title, authors, abstract and keywords in one column, then the switch to two columns. */
  function FrontMatter(paper: StructuredPaper): seq<Block> {
    [ PlainParagraph(TitleStyle, paper.title),
      PlainParagraph(AuthorStyle, paper.authors),
      AbstractBlock(paper.abstractText),
      KeywordsBlock(paper.keywords),
      ColumnBreak(2) ]
  }

  /**
   * `generate` raises IndexError when a figure placed under some section has
   * an index below `-len(images)`: the range check `fig.index < len(images)`
   * lets every negative index through.
   */
  predicate Raises(paper: StructuredPaper, images: seq<Image>) {
    exists i, f :: 0 <= i < |paper.sections| && f in FiguresAt(paper.figures, Lower(paper.sections[i].heading))
      && f.index < -(|images| as int)
  }

  /** The figure counter after the sections. */
  function SectionsCounter(paper: StructuredPaper, images: seq<Image>): nat {
    |PlacedFigures(Groups(paper.sections, paper.figures), |images|)|
  }

  /** `figure_counter` when `generate` returns. */
  function FinalCounter(paper: StructuredPaper, images: seq<Image>): nat {
    SectionsCounter(paper, images) + 2 * |Leftovers(|images|, 0, PlacedIndices(paper.figures))|
  }

  /** The blocks of the document `generate` saves, when it does not raise. */
  function Document(paper: StructuredPaper, images: seq<Image>): seq<Block> {
    FrontMatter(paper)
    + SectionsDoc(SectionHeads(paper.sections, SectionParagraphs(paper.sections), 1), Groups(paper.sections, paper.figures), images, 0)
    + LeftoverDoc(images, 0, PlacedIndices(paper.figures), SectionsCounter(paper, images))
    + ReferencesDoc(paper.references)
  }
}
