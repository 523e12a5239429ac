/**
 * Properties of the document `generate` writes (docx_layout.dfy): section
 * numerals read back to the section's position, body text keeps every
 * non-whitespace character in order, the keyword line splits back into the
 * keywords, and the outline of the document (its column breaks, headings,
 * figure captions and reference entries) is what the paper prescribes.
 */
module DocxProperties {
  import opened Wrappers
  import opened Text
  import opened Schemas
  import opened DocxLayout

  // ---------------------------------------------------------------------------
  // Section numerals
  // ---------------------------------------------------------------------------

  function RomanDigit(c: char): nat {
    if c == 'I' then 1 else if c == 'V' then 5 else if c == 'X' then 10 else 0
  }

  /** The value of a Roman numeral: a digit before a larger one is subtracted. */
  function RomanValue(s: string): int {
    if s == [] then 0
    else if |s| >= 2 && RomanDigit(s[0]) < RomanDigit(s[1]) then RomanValue(s[1..]) - RomanDigit(s[0])
    else RomanDigit(s[0]) + RomanValue(s[1..])
  }

  /** The value of a section numeral, decimal or Roman. */
  function NumeralValue(s: string): int {
    if s != [] && AllDigits(s) then DigitsValue(s) else RomanValue(s)
  }

  /** The number a heading line starts with: the numeral before its first period. */
  function HeadingNumber(text: string): int {
    match Find(text, ".", 0)
    case None => 0
    case Some(k) => NumeralValue(text[..k])
  }

  lemma RomanNumeralsValues()
    ensures forall i :: 0 <= i < |ROMAN_NUMERALS| ==> RomanValue(ROMAN_NUMERALS[i]) == i + 1
  {
    assert RomanValue("I") == 1;
    assert RomanValue("II") == 2;
    assert RomanValue("III") == 3;
    assert RomanValue("IV") == 4;
    assert RomanValue("V") == 5;
    assert RomanValue("VI") == 6;
    assert RomanValue("VII") == 7;
    assert RomanValue("VIII") == 8;
    assert RomanValue("IX") == 9;
    assert RomanValue("X") == 10;
  }

  /** Every numeral the generator writes reads back to its section number. */
  lemma NumeralRoundTrip(n: nat)
    requires n >= 1
    ensures NumeralValue(Numeral(n)) == n
    ensures '.' !in Numeral(n)
  {
    if n <= |ROMAN_NUMERALS| {
      RomanNumeralsValues();
      var r := ROMAN_NUMERALS[n - 1];
      assert r != [] && !IsDigit(r[0]);
    } else {
      NatToStringRoundTrip(n);
      var s := NatToString(n);
      assert forall i :: 0 <= i < |s| ==> IsDigit(s[i]);
    }
  }

  /**
   * The heading of section `n` starts with a numeral that reads back to `n`:
   * distinct sections get distinct numerals, none skipped.
   */
  lemma HeadingNumberRoundTrip(heading: string, n: nat)
    requires n >= 1
    ensures HeadingNumber(HeadingText(heading, n)) == n
  {
    NumeralRoundTrip(n);
    var numeral := Numeral(n);
    var text := HeadingText(heading, n);
    assert text[..|numeral|] == numeral;
    assert text[|numeral|] == '.';
    assert OccursAt(text, ".", |numeral|);
    forall k | 0 <= k < |numeral| ensures text[k] != "."[0] {
      assert text[k] == numeral[k];
    }
    NoOccurrenceBefore(text, ".", |numeral|);
    FindFirst(text, ".", 0, |numeral|);
  }

  // ---------------------------------------------------------------------------
  // Body text
  // ---------------------------------------------------------------------------

  /** A stripped, non-empty piece collapses to a non-empty collapsed paragraph. */
  lemma CollapseOfStripped(t: string)
    requires t != [] && !IsSpace(t[0])
    ensures Collapse(t) != [] && Collapsed(Collapse(t))
  {
    WordsAreWords(t);
    WordsKeepText(t);
    assert NonSpace(t) == [t[0]] + NonSpace(t[1..]);
    assert Words(t) != [];
    JoinWordsCollapsed(Words(t));
  }

  /** A piece that is not blank becomes a non-empty collapsed paragraph. */
  lemma CleanPiece(p: string)
    ensures Strip(p) != [] ==> Collapse(Strip(p)) != [] && Collapsed(Collapse(Strip(p)))
  {
    StripEnds(p);
    if Strip(p) != [] {
      CollapseOfStripped(Strip(p));
    }
  }

  /** Every paragraph is non-empty and has its whitespace collapsed. */
  predicate WellFormedParagraphs(ps: seq<string>) {
    forall i :: 0 <= i < |ps| ==> ps[i] != [] && Collapsed(ps[i])
  }

  lemma WellFormedCons(c: string, rest: seq<string>)
    requires c != [] && Collapsed(c) && WellFormedParagraphs(rest)
    ensures WellFormedParagraphs([c] + rest)
  {
    var all := [c] + rest;
    forall i | 0 < i < |all| ensures all[i] == rest[i - 1] {
    }
  }

  lemma {:induction false} CleanPiecesWellFormed(pieces: seq<string>)
    ensures WellFormedParagraphs(CleanPieces(pieces))
  {
    if pieces != [] {
      var t := Strip(pieces[0]);
      var rest := CleanPieces(pieces[1..]);
      CleanPiecesWellFormed(pieces[1..]);
      CleanPiece(pieces[0]);
      if t != [] {
        WellFormedCons(Collapse(t), rest);
      }
    }
  }

  lemma {:induction false} CleanPiecesKeepText(pieces: seq<string>)
    ensures NonSpace(Concat(CleanPieces(pieces))) == NonSpace(Concat(pieces))
  {
    if pieces != [] {
      var p := pieces[0];
      var t := Strip(p);
      var rest := CleanPieces(pieces[1..]);
      CleanPiecesKeepText(pieces[1..]);
      NonSpaceAppend(p, Concat(pieces[1..]));
      StripKeepsText(p);
      if t == [] {
        assert CleanPieces(pieces) == rest;
      } else {
        var c := Collapse(t);
        var all := [c] + rest;
        assert CleanPieces(pieces) == all;
        assert all[0] == c && all[1..] == rest;
        assert Concat(all) == c + Concat(rest);
        NonSpaceAppend(c, Concat(rest));
        CollapseKeepsText(t);
      }
    }
  }

  /** Each paragraph of a section is non-empty and has its whitespace collapsed. */
  lemma ParagraphsWellFormed(content: string)
    ensures WellFormedParagraphs(Paragraphs(content))
  {
    CleanPiecesWellFormed(SplitOn(Strip(content), PARAGRAPH_SEPARATOR));
  }

  lemma SeparatorIsSpace()
    ensures AllSpace(PARAGRAPH_SEPARATOR)
  {
  }

  /** The paragraphs of a section hold exactly its non-whitespace text, in order. */
  lemma ParagraphsKeepText(content: string)
    ensures NonSpace(Concat(Paragraphs(content))) == NonSpace(content)
  {
    var s := Strip(content);
    var pieces := SplitOn(s, PARAGRAPH_SEPARATOR);
    CleanPiecesKeepText(pieces);
    SeparatorIsSpace();
    JoinKeepsText(PARAGRAPH_SEPARATOR, pieces);
    JoinSplitOn(s, PARAGRAPH_SEPARATOR);
    StripKeepsText(content);
  }

  /** Splitting the keyword line's text at "; " gives back the keywords, when none contains ';'. */
  lemma KeywordsRoundTrip(keywords: seq<string>)
    requires |keywords| >= 1
    requires forall i :: 0 <= i < |keywords| ==> ';' !in keywords[i]
    ensures SplitOn(KeywordsBlock(keywords).runs[1].text, KEYWORD_SEPARATOR) == keywords
  {
    assert KEYWORD_SEPARATOR[0] == ';';
    SplitOnJoin(keywords, KEYWORD_SEPARATOR);
  }

  // ---------------------------------------------------------------------------
  // The outline of a document
  // ---------------------------------------------------------------------------

  /** What `f` picks from each block, in document order. */
  function Collect<T>(doc: seq<Block>, f: Block -> seq<T>): seq<T> {
    if doc == [] then [] else f(doc[0]) + Collect(doc[1..], f)
  }

  function HeadingOf(b: Block): seq<string> {
    if b.Paragraph? && b.style == HeadingStyle then [RunsText(b.runs)] else []
  }

  function CaptionOf(b: Block): seq<(nat, string)> {
    if b.Caption? then [(b.number, b.caption)] else []
  }

  function EntryOf(b: Block): seq<(nat, string)> {
    if b.Reference? then [(b.number, b.text)] else []
  }

  function BreakOf(b: Block): seq<nat> {
    if b.ColumnBreak? then [b.columns] else []
  }

  /** The texts of the section headings. */
  function Headings(doc: seq<Block>): seq<string> { Collect(doc, HeadingOf) }

  /** The figure captions: their numbers and texts. */
  function Captions(doc: seq<Block>): seq<(nat, string)> { Collect(doc, CaptionOf) }

  /** The reference entries: their numbers and texts. */
  function Entries(doc: seq<Block>): seq<(nat, string)> { Collect(doc, EntryOf) }

  /** The column counts of the section breaks. */
  function Breaks(doc: seq<Block>): seq<nat> { Collect(doc, BreakOf) }

  /** Blocks that are neither headings, captions, reference entries nor section breaks. */
  predicate Plain(doc: seq<Block>) {
    Headings(doc) == [] && Captions(doc) == [] && Entries(doc) == [] && Breaks(doc) == []
  }

  /** The headings of `sections`, numbered from `n`. */
  function SectionHeadings(sections: seq<Section>, n: nat): (r: seq<string>)
    requires n >= 1
    ensures |r| == |sections|
    decreases |sections|
  {
    if sections == [] then [] else [HeadingText(sections[0].heading, n)] + SectionHeadings(sections[1..], n + 1)
  }

  /** The captions of `figures`, numbered on from `counter`. */
  function Numbered(figures: seq<Figure>, counter: nat): seq<(nat, string)>
    decreases |figures|
  {
    if figures == [] then [] else [(counter + 1, figures[0].caption)] + Numbered(figures[1..], counter + 1)
  }

  /** The captions of `k` leftover images after `counter`: each numbering step counts twice. */
  function LeftoverCaptions(k: nat, counter: nat): seq<(nat, string)> {
    if k == 0 then [] else [(counter + 2, "Figure " + NatToString(counter + 1))] + LeftoverCaptions(k - 1, counter + 2)
  }

  /** The references, numbered from `from`. */
  function Listed(references: seq<string>, from: nat): seq<(nat, string)>
    decreases |references|
  {
    if references == [] then [] else [(from, references[0])] + Listed(references[1..], from + 1)
  }

  /** The headings a paper's document should carry, in order. */
  function HeadingOutline(sections: seq<Section>, references: seq<string>): seq<string> {
    SectionHeadings(sections, 1) + (if references == [] then [] else [REFERENCES_TITLE])
  }

  /** The figure captions a paper's document should carry, in order. */
  function CaptionOutline(paper: StructuredPaper, images: seq<Image>): seq<(nat, string)> {
    Numbered(PlacedFigures(Groups(paper.sections, paper.figures), |images|), 0)
    + LeftoverCaptions(|Leftovers(|images|, 0, PlacedIndices(paper.figures))|, SectionsCounter(paper, images))
  }

  lemma {:induction false} CollectAppend<T>(a: seq<Block>, b: seq<Block>, f: Block -> seq<T>)
    ensures Collect(a + b, f) == Collect(a, f) + Collect(b, f)
    decreases |a|
  {
    if a == [] {
      assert a + b == b;
    } else {
      assert (a + b)[0] == a[0];
      assert (a + b)[1..] == a[1..] + b;
      CollectAppend(a[1..], b, f);
    }
  }

  lemma CollectCons<T>(b: Block, rest: seq<Block>, f: Block -> seq<T>)
    ensures Collect([b] + rest, f) == f(b) + Collect(rest, f)
  {
    assert ([b] + rest)[0] == b;
    assert ([b] + rest)[1..] == rest;
  }

  lemma PlainAppend(a: seq<Block>, b: seq<Block>)
    requires Plain(a) && Plain(b)
    ensures Plain(a + b)
  {
    CollectAppend(a, b, HeadingOf);
    CollectAppend(a, b, CaptionOf);
    CollectAppend(a, b, EntryOf);
    CollectAppend(a, b, BreakOf);
  }

  lemma PlainCons(b: Block, rest: seq<Block>)
    requires !b.ColumnBreak? && !b.Caption? && !b.Reference? && !(b.Paragraph? && b.style == HeadingStyle)
    requires Plain(rest)
    ensures Plain([b] + rest)
  {
    CollectCons(b, rest, HeadingOf);
    CollectCons(b, rest, CaptionOf);
    CollectCons(b, rest, EntryOf);
    CollectCons(b, rest, BreakOf);
  }

  lemma PlainEmpty()
    ensures Plain([])
  {
  }

  lemma {:induction false} BodyBlocksPlain(paragraphs: seq<string>)
    ensures Plain(BodyBlocks(paragraphs))
  {
    if paragraphs != [] {
      BodyBlocksPlain(paragraphs[1..]);
      PlainCons(PlainParagraph(BodyStyle, paragraphs[0]), BodyBlocks(paragraphs[1..]));
    }
  }

  /** A figure adds one caption and nothing else to the outline. */
  lemma FigureBlocksOutline(image: Image, caption: string, number: nat)
    ensures Captions(FigureBlocks(image, caption, number)) == [(number, caption)]
    ensures Headings(FigureBlocks(image, caption, number)) == []
    ensures Entries(FigureBlocks(image, caption, number)) == [] && Breaks(FigureBlocks(image, caption, number)) == []
  {
    var pic := if image.decodable then Picture(image) else Placeholder;
    var cap := Caption(number, caption);
    assert FigureBlocks(image, caption, number) == [pic] + [cap];
    PlainEmpty();
    CollectCons(cap, [], HeadingOf);
    CollectCons(cap, [], CaptionOf);
    CollectCons(cap, [], EntryOf);
    CollectCons(cap, [], BreakOf);
    CollectCons(pic, [cap], HeadingOf);
    CollectCons(pic, [cap], CaptionOf);
    CollectCons(pic, [cap], EntryOf);
    CollectCons(pic, [cap], BreakOf);
  }

  lemma NumberedCons(f: Figure, rest: seq<Figure>, counter: nat)
    ensures Numbered([f] + rest, counter) == [(counter + 1, f.caption)] + Numbered(rest, counter + 1)
  {
    assert ([f] + rest)[1..] == rest;
  }

  lemma {:induction false} NumberedAppend(a: seq<Figure>, b: seq<Figure>, counter: nat)
    ensures Numbered(a + b, counter) == Numbered(a, counter) + Numbered(b, counter + |a|)
    decreases |a|
  {
    if a == [] {
      assert a + b == b;
    } else {
      assert (a + b)[0] == a[0];
      assert (a + b)[1..] == a[1..] + b;
      NumberedAppend(a[1..], b, counter + 1);
    }
  }

  /** The figures of a group add their captions, numbered on from the counter, in order. */
  lemma {:induction false} FigureRunOutline(figures: seq<Figure>, images: seq<Image>, counter: nat)
    ensures Captions(FigureRun(figures, images, counter)) == Numbered(Rendered(figures, |images|), counter)
    ensures Headings(FigureRun(figures, images, counter)) == []
    ensures Entries(FigureRun(figures, images, counter)) == [] && Breaks(FigureRun(figures, images, counter)) == []
    decreases |figures|
  {
    if figures != [] {
      var f := figures[0];
      var rest := Rendered(figures[1..], |images|);
      if InRange(f.index, |images|) {
        var fb := FigureBlocks(images[PyIndex(f.index, |images|)], f.caption, counter + 1);
        var tail := FigureRun(figures[1..], images, counter + 1);
        FigureRunOutline(figures[1..], images, counter + 1);
        FigureBlocksOutline(images[PyIndex(f.index, |images|)], f.caption, counter + 1);
        CollectAppend(fb, tail, HeadingOf);
        CollectAppend(fb, tail, CaptionOf);
        CollectAppend(fb, tail, EntryOf);
        CollectAppend(fb, tail, BreakOf);
        assert Rendered(figures, |images|) == [f] + rest;
        NumberedCons(f, rest, counter);
      } else {
        FigureRunOutline(figures[1..], images, counter);
        assert Rendered(figures, |images|) == rest;
      }
    }
  }

  lemma HeadingBlockOutline(heading: string, n: nat)
    requires n >= 1
    ensures HeadingOf(HeadingBlock(heading, n)) == [HeadingText(heading, n)]
    ensures CaptionOf(HeadingBlock(heading, n)) == [] && EntryOf(HeadingBlock(heading, n)) == []
    ensures BreakOf(HeadingBlock(heading, n)) == []
  {
    var runs := [Run(HeadingText(heading, n), true, false)];
    assert runs[1..] == [];
    assert RunsText(runs) == HeadingText(heading, n);
  }

  lemma SectionBlocksOutline(heading: string, paragraphs: seq<string>, n: nat)
    requires n >= 1
    ensures Headings(SectionBlocks(heading, paragraphs, n)) == [HeadingText(heading, n)]
    ensures Captions(SectionBlocks(heading, paragraphs, n)) == [] && Entries(SectionBlocks(heading, paragraphs, n)) == []
    ensures Breaks(SectionBlocks(heading, paragraphs, n)) == []
  {
    var h := HeadingBlock(heading, n);
    var body := BodyBlocks(paragraphs);
    BodyBlocksPlain(paragraphs);
    HeadingBlockOutline(heading, n);
    CollectCons(h, body, HeadingOf);
    CollectCons(h, body, CaptionOf);
    CollectCons(h, body, EntryOf);
    CollectCons(h, body, BreakOf);
  }

  /** The blocks of consecutive stretches, in order. */
  function Flatten(parts: seq<seq<Block>>): seq<Block> {
    if parts == [] then [] else parts[0] + Flatten(parts[1..])
  }

  lemma FlattenCons(part: seq<Block>, rest: seq<seq<Block>>)
    ensures Flatten([part] + rest) == part + Flatten(rest)
  {
    assert ([part] + rest)[1..] == rest;
  }

  /** The section heads carry the section headings, numbered on from `n`, and nothing else of the outline. */
  lemma {:induction false} SectionHeadsOutline(sections: seq<Section>, paragraphs: seq<seq<string>>, n: nat)
    requires |paragraphs| == |sections| && n >= 1
    ensures Headings(Flatten(SectionHeads(sections, paragraphs, n))) == SectionHeadings(sections, n)
    ensures Captions(Flatten(SectionHeads(sections, paragraphs, n))) == []
    ensures Entries(Flatten(SectionHeads(sections, paragraphs, n))) == []
    ensures Breaks(Flatten(SectionHeads(sections, paragraphs, n))) == []
    decreases |sections|
  {
    if sections != [] {
      var head := SectionBlocks(sections[0].heading, paragraphs[0], n);
      var rest := SectionHeads(sections[1..], paragraphs[1..], n + 1);
      FlattenCons(head, rest);
      SectionHeadsOutline(sections[1..], paragraphs[1..], n + 1);
      SectionBlocksOutline(sections[0].heading, paragraphs[0], n);
      CollectAppend(head, Flatten(rest), HeadingOf);
      CollectAppend(head, Flatten(rest), CaptionOf);
      CollectAppend(head, Flatten(rest), EntryOf);
      CollectAppend(head, Flatten(rest), BreakOf);
    }
  }

  /** A stretch that adds nothing to an outline can be dropped from it. */
  lemma CollectSkip<T>(head: seq<Block>, run: seq<Block>, f: Block -> seq<T>)
    requires Collect(run, f) == []
    ensures Collect(head + run, f) == Collect(head, f)
  {
    CollectAppend(head, run, f);
    assert Collect(head, f) + Collect(run, f) == Collect(head, f);
  }

  /** One stretch of sections: its own blocks and figures, then the later sections. */
  lemma SectionsStep<T>(doc: seq<Block>, front: seq<Block>, tail: seq<Block>,
                        heads: seq<Block>, head: seq<Block>, later: seq<Block>, f: Block -> seq<T>)
    requires doc == front + tail && heads == head + later
    requires Collect(front, f) == Collect(head, f) && Collect(tail, f) == Collect(later, f)
    ensures Collect(doc, f) == Collect(heads, f)
  {
    CollectAppend(front, tail, f);
    CollectAppend(head, later, f);
  }

  /** The figure runs add no heading, reference entry or section break: those come from the sections' own blocks. */
  lemma {:induction false} SectionsDocOutline(heads: seq<seq<Block>>, groups: seq<seq<Figure>>, images: seq<Image>, counter: nat)
    requires |heads| == |groups|
    ensures Headings(SectionsDoc(heads, groups, images, counter)) == Headings(Flatten(heads))
    ensures Entries(SectionsDoc(heads, groups, images, counter)) == Entries(Flatten(heads))
    ensures Breaks(SectionsDoc(heads, groups, images, counter)) == Breaks(Flatten(heads))
    decreases |heads|
  {
    if heads != [] {
      var next := counter + |Rendered(groups[0], |images|)|;
      var run := FigureRun(groups[0], images, counter);
      var tail := SectionsDoc(heads[1..], groups[1..], images, next);
      SectionsDocOutline(heads[1..], groups[1..], images, next);
      FigureRunOutline(groups[0], images, counter);
      CollectSkip(heads[0], run, HeadingOf);
      CollectSkip(heads[0], run, EntryOf);
      CollectSkip(heads[0], run, BreakOf);
      SectionsStep(SectionsDoc(heads, groups, images, counter), heads[0] + run, tail, Flatten(heads), heads[0], Flatten(heads[1..]), HeadingOf);
      SectionsStep(SectionsDoc(heads, groups, images, counter), heads[0] + run, tail, Flatten(heads), heads[0], Flatten(heads[1..]), EntryOf);
      SectionsStep(SectionsDoc(heads, groups, images, counter), heads[0] + run, tail, Flatten(heads), heads[0], Flatten(heads[1..]), BreakOf);
    }
  }

  /** A stretch that adds nothing to an outline can be dropped from its front. */
  lemma CollectAfterEmpty<T>(head: seq<Block>, run: seq<Block>, f: Block -> seq<T>)
    requires Collect(head, f) == []
    ensures Collect(head + run, f) == Collect(run, f)
  {
    CollectAppend(head, run, f);
    assert Collect(head, f) + Collect(run, f) == Collect(run, f);
  }

  /** Captions of two consecutive stretches, each numbered on from where the previous stopped. */
  lemma CaptionsStep(doc: seq<Block>, front: seq<Block>, tail: seq<Block>,
                     placed: seq<Figure>, drawn: seq<Figure>, later: seq<Figure>, counter: nat, next: nat)
    requires doc == front + tail && placed == drawn + later && next == counter + |drawn|
    requires Captions(front) == Numbered(drawn, counter)
    requires Captions(tail) == Numbered(later, next)
    ensures Captions(doc) == Numbered(placed, counter)
  {
    CollectAppend(front, tail, CaptionOf);
    NumberedAppend(drawn, later, counter);
  }

  /** Sections without captions of their own: the captions are those of the drawn figures, numbered on from the counter. */
  lemma {:induction false} SectionsDocCaptions(heads: seq<seq<Block>>, groups: seq<seq<Figure>>, images: seq<Image>, counter: nat)
    requires |heads| == |groups| && Captions(Flatten(heads)) == []
    ensures Captions(SectionsDoc(heads, groups, images, counter)) == Numbered(PlacedFigures(groups, |images|), counter)
    decreases |heads|
  {
    if heads != [] {
      var next := counter + |Rendered(groups[0], |images|)|;
      CollectAppend(heads[0], Flatten(heads[1..]), CaptionOf);
      SectionsDocCaptions(heads[1..], groups[1..], images, next);
      FigureRunOutline(groups[0], images, counter);
      CollectAfterEmpty(heads[0], FigureRun(groups[0], images, counter), CaptionOf);
      CaptionsStep(SectionsDoc(heads, groups, images, counter), heads[0] + FigureRun(groups[0], images, counter),
                   SectionsDoc(heads[1..], groups[1..], images, next), PlacedFigures(groups, |images|),
                   Rendered(groups[0], |images|), PlacedFigures(groups[1..], |images|), counter, next);
    }
  }

  /** The leftover images add one caption each, numbered two apart. */
  lemma {:induction false} LeftoverDocOutline(images: seq<Image>, from: nat, placed: set<int>, counter: nat)
    ensures Captions(LeftoverDoc(images, from, placed, counter)) == LeftoverCaptions(|Leftovers(|images|, from, placed)|, counter)
    ensures Headings(LeftoverDoc(images, from, placed, counter)) == []
    ensures Entries(LeftoverDoc(images, from, placed, counter)) == [] && Breaks(LeftoverDoc(images, from, placed, counter)) == []
    decreases |images| - from
  {
    if from < |images| {
      var later := Leftovers(|images|, from + 1, placed);
      if from in placed {
        LeftoverDocOutline(images, from + 1, placed, counter);
        assert Leftovers(|images|, from, placed) == later;
      } else {
        var fb := FigureBlocks(images[from], "Figure " + NatToString(counter + 1), counter + 2);
        var tail := LeftoverDoc(images, from + 1, placed, counter + 2);
        LeftoverDocOutline(images, from + 1, placed, counter + 2);
        FigureBlocksOutline(images[from], "Figure " + NatToString(counter + 1), counter + 2);
        CollectAppend(fb, tail, HeadingOf);
        CollectAppend(fb, tail, CaptionOf);
        CollectAppend(fb, tail, EntryOf);
        CollectAppend(fb, tail, BreakOf);
        assert Leftovers(|images|, from, placed) == [from] + later;
      }
    }
  }

  lemma {:induction false} ReferenceEntriesOutline(references: seq<string>, from: nat)
    ensures Entries(ReferenceEntries(references, from)) == Listed(references, from)
    ensures Headings(ReferenceEntries(references, from)) == []
    ensures Captions(ReferenceEntries(references, from)) == [] && Breaks(ReferenceEntries(references, from)) == []
    decreases |references|
  {
    if references != [] {
      var e := Reference(from, references[0]);
      var tail := ReferenceEntries(references[1..], from + 1);
      ReferenceEntriesOutline(references[1..], from + 1);
      CollectCons(e, tail, HeadingOf);
      CollectCons(e, tail, CaptionOf);
      CollectCons(e, tail, EntryOf);
      CollectCons(e, tail, BreakOf);
    }
  }

  /** The reference list: a "REFERENCES" heading and the entries numbered from 1, or nothing. */
  lemma ReferencesDocOutline(references: seq<string>)
    ensures Entries(ReferencesDoc(references)) == Listed(references, 1)
    ensures Headings(ReferencesDoc(references)) == (if references == [] then [] else [REFERENCES_TITLE])
    ensures Captions(ReferencesDoc(references)) == [] && Breaks(ReferencesDoc(references)) == []
  {
    if references != [] {
      var tail := ReferenceEntries(references, 1);
      ReferenceEntriesOutline(references, 1);
      assert RunsText(REFERENCES_HEADING.runs) == REFERENCES_TITLE;
      CollectCons(REFERENCES_HEADING, tail, HeadingOf);
      CollectCons(REFERENCES_HEADING, tail, CaptionOf);
      CollectCons(REFERENCES_HEADING, tail, EntryOf);
      CollectCons(REFERENCES_HEADING, tail, BreakOf);
    }
  }

  lemma CollectTwo<T>(d: Block, e: Block, f: Block -> seq<T>)
    ensures Collect([d, e], f) == f(d) + f(e)
  {
    CollectCons(e, [], f);
    CollectCons(d, [e], f);
    assert [e] == [e] + [];
    assert [d, e] == [d] + [e];
  }

  lemma CollectThree<T>(c: Block, d: Block, e: Block, f: Block -> seq<T>)
    ensures Collect([c, d, e], f) == f(c) + (f(d) + f(e))
  {
    CollectTwo(d, e, f);
    CollectCons(c, [d, e], f);
    assert [c, d, e] == [c] + [d, e];
  }

  lemma CollectFour<T>(b: Block, c: Block, d: Block, e: Block, f: Block -> seq<T>)
    ensures Collect([b, c, d, e], f) == f(b) + (f(c) + (f(d) + f(e)))
  {
    CollectThree(c, d, e, f);
    CollectCons(b, [c, d, e], f);
    assert [b, c, d, e] == [b] + [c, d, e];
  }

  lemma CollectFive<T>(a: Block, b: Block, c: Block, d: Block, e: Block, f: Block -> seq<T>)
    ensures Collect([a, b, c, d, e], f) == f(a) + (f(b) + (f(c) + (f(d) + f(e))))
  {
    CollectFour(b, c, d, e, f);
    CollectCons(a, [b, c, d, e], f);
    assert [a, b, c, d, e] == [a] + [b, c, d, e];
  }

  /** The front matter holds one section break, to two columns, and nothing else of the outline. */
  lemma FrontMatterOutline(paper: StructuredPaper)
    ensures Breaks(FrontMatter(paper)) == [2]
    ensures Headings(FrontMatter(paper)) == [] && Captions(FrontMatter(paper)) == [] && Entries(FrontMatter(paper)) == []
  {
    var fm := FrontMatter(paper);
    CollectFive(fm[0], fm[1], fm[2], fm[3], fm[4], HeadingOf);
    CollectFive(fm[0], fm[1], fm[2], fm[3], fm[4], CaptionOf);
    CollectFive(fm[0], fm[1], fm[2], fm[3], fm[4], EntryOf);
    CollectFive(fm[0], fm[1], fm[2], fm[3], fm[4], BreakOf);
    assert fm == [fm[0], fm[1], fm[2], fm[3], fm[4]];
  }

  // ---------------------------------------------------------------------------
  // The outline of the whole document
  // ---------------------------------------------------------------------------

  lemma DocumentParts(paper: StructuredPaper, images: seq<Image>)
    ensures var sd := SectionsDoc(SectionHeads(paper.sections, SectionParagraphs(paper.sections), 1), Groups(paper.sections, paper.figures), images, 0);
      var ld := LeftoverDoc(images, 0, PlacedIndices(paper.figures), SectionsCounter(paper, images));
      Document(paper, images) == FrontMatter(paper) + sd + ld + ReferencesDoc(paper.references)
  {
  }

  lemma CollectParts<T>(a: seq<Block>, b: seq<Block>, c: seq<Block>, d: seq<Block>, f: Block -> seq<T>)
    ensures Collect(a + b + c + d, f) == Collect(a, f) + Collect(b, f) + Collect(c, f) + Collect(d, f)
  {
    CollectAppend(a, b, f);
    CollectAppend(a + b, c, f);
    CollectAppend(a + b + c, d, f);
  }

  lemma DropEmpty<T>(a: seq<T>, b: seq<T>, c: seq<T>, d: seq<T>)
    requires a == [] && c == []
    ensures a + b + c + d == b + d
  {
  }

  lemma KeepMiddle<T>(a: seq<T>, b: seq<T>, c: seq<T>, d: seq<T>)
    requires a == [] && d == []
    ensures a + b + c + d == b + c
  {
  }

  /**
   * Exactly one section break, right after the keywords, switches the page
   * to two columns: the title block is one column wide, everything after it two.
   */
  lemma DocumentColumns(paper: StructuredPaper, images: seq<Image>)
    ensures Breaks(Document(paper, images)) == [2]
  {
    var fm := FrontMatter(paper);
    var heads := SectionHeads(paper.sections, SectionParagraphs(paper.sections), 1);
    var groups := Groups(paper.sections, paper.figures);
    var sd := SectionsDoc(heads, groups, images, 0);
    var ld := LeftoverDoc(images, 0, PlacedIndices(paper.figures), SectionsCounter(paper, images));
    var rd := ReferencesDoc(paper.references);
    DocumentParts(paper, images);
    CollectParts(fm, sd, ld, rd, BreakOf);
    FrontMatterOutline(paper);
    SectionHeadsOutline(paper.sections, SectionParagraphs(paper.sections), 1);
    SectionsDocOutline(heads, groups, images, 0);
    LeftoverDocOutline(images, 0, PlacedIndices(paper.figures), SectionsCounter(paper, images));
    ReferencesDocOutline(paper.references);
    KeepFirst(Breaks(fm), Breaks(sd), Breaks(ld), Breaks(rd));
  }

  lemma KeepFirst<T>(a: seq<T>, b: seq<T>, c: seq<T>, d: seq<T>)
    requires b == [] && c == [] && d == []
    ensures a + b + c + d == a
  {
  }

  /** The document opens with the front matter, whose fifth block is the switch to two columns. */
  lemma DocumentStart(paper: StructuredPaper, images: seq<Image>)
    ensures |Document(paper, images)| >= 5 && Document(paper, images)[..5] == FrontMatter(paper)
    ensures Document(paper, images)[4] == ColumnBreak(2)
  {
    DocumentParts(paper, images);
    PrefixOf(FrontMatter(paper),
             SectionsDoc(SectionHeads(paper.sections, SectionParagraphs(paper.sections), 1), Groups(paper.sections, paper.figures), images, 0),
             LeftoverDoc(images, 0, PlacedIndices(paper.figures), SectionsCounter(paper, images)),
             ReferencesDoc(paper.references));
  }

  lemma PrefixOf(fm: seq<Block>, sd: seq<Block>, ld: seq<Block>, rd: seq<Block>)
    requires |fm| == 5
    ensures (fm + sd + ld + rd)[..5] == fm && (fm + sd + ld + rd)[4] == fm[4]
  {
    assert fm + sd + ld + rd == fm + (sd + ld + rd);
  }

  /** The headings are the sections' own, numbered from 1 in order, then "REFERENCES" when there are references. */
  lemma DocumentHeadings(paper: StructuredPaper, images: seq<Image>)
    ensures Headings(Document(paper, images)) == HeadingOutline(paper.sections, paper.references)
  {
    var fm := FrontMatter(paper);
    var heads := SectionHeads(paper.sections, SectionParagraphs(paper.sections), 1);
    var groups := Groups(paper.sections, paper.figures);
    var sd := SectionsDoc(heads, groups, images, 0);
    var ld := LeftoverDoc(images, 0, PlacedIndices(paper.figures), SectionsCounter(paper, images));
    var rd := ReferencesDoc(paper.references);
    DocumentParts(paper, images);
    CollectParts(fm, sd, ld, rd, HeadingOf);
    FrontMatterOutline(paper);
    SectionHeadsOutline(paper.sections, SectionParagraphs(paper.sections), 1);
    SectionsDocOutline(heads, groups, images, 0);
    LeftoverDocOutline(images, 0, PlacedIndices(paper.figures), SectionsCounter(paper, images));
    ReferencesDocOutline(paper.references);
    DropEmpty(Headings(fm), Headings(sd), Headings(ld), Headings(rd));
  }

  /**
   * The captions: first the figures placed under the sections, numbered 1, 2, …
   * in document order, then one per leftover image, numbered two apart.
   */
  lemma DocumentCaptions(paper: StructuredPaper, images: seq<Image>)
    ensures Captions(Document(paper, images)) == CaptionOutline(paper, images)
  {
    var fm := FrontMatter(paper);
    var heads := SectionHeads(paper.sections, SectionParagraphs(paper.sections), 1);
    var groups := Groups(paper.sections, paper.figures);
    var sd := SectionsDoc(heads, groups, images, 0);
    var ld := LeftoverDoc(images, 0, PlacedIndices(paper.figures), SectionsCounter(paper, images));
    var rd := ReferencesDoc(paper.references);
    DocumentParts(paper, images);
    CollectParts(fm, sd, ld, rd, CaptionOf);
    FrontMatterOutline(paper);
    SectionHeadsOutline(paper.sections, SectionParagraphs(paper.sections), 1);
    SectionsDocCaptions(heads, groups, images, 0);
    LeftoverDocOutline(images, 0, PlacedIndices(paper.figures), SectionsCounter(paper, images));
    ReferencesDocOutline(paper.references);
    KeepMiddle(Captions(fm), Captions(sd), Captions(ld), Captions(rd));
  }

  /** The reference entries are the references, numbered from 1 in order. */
  lemma DocumentEntries(paper: StructuredPaper, images: seq<Image>)
    ensures Entries(Document(paper, images)) == Listed(paper.references, 1)
  {
    var fm := FrontMatter(paper);
    var heads := SectionHeads(paper.sections, SectionParagraphs(paper.sections), 1);
    var groups := Groups(paper.sections, paper.figures);
    var sd := SectionsDoc(heads, groups, images, 0);
    var ld := LeftoverDoc(images, 0, PlacedIndices(paper.figures), SectionsCounter(paper, images));
    var rd := ReferencesDoc(paper.references);
    DocumentParts(paper, images);
    CollectParts(fm, sd, ld, rd, EntryOf);
    FrontMatterOutline(paper);
    SectionHeadsOutline(paper.sections, SectionParagraphs(paper.sections), 1);
    SectionsDocOutline(heads, groups, images, 0);
    LeftoverDocOutline(images, 0, PlacedIndices(paper.figures), SectionsCounter(paper, images));
    ReferencesDocOutline(paper.references);
  }

  // ---------------------------------------------------------------------------
  // Numbering, position by position
  // ---------------------------------------------------------------------------

  /** One induction step of `SectionHeadingNumbers`, over plain sequences. */
  lemma HeadingNumbersShift(all: seq<string>, first: string, rest: seq<string>, n: int)
    requires all == [first] + rest && HeadingNumber(first) == n
    requires forall j :: 0 <= j < |rest| ==> HeadingNumber(rest[j]) == n + 1 + j
    ensures forall i :: 0 <= i < |all| ==> HeadingNumber(all[i]) == n + i
  {
    forall i | 0 <= i < |all| ensures HeadingNumber(all[i]) == n + i {
      if i > 0 {
        assert all[i] == rest[i - 1];
      }
    }
  }

  /** The headings of `sections`, numbered from `n`, read back as `n`, `n + 1`, ... */
  lemma {:induction false} SectionHeadingNumbers(sections: seq<Section>, n: nat)
    requires n >= 1
    ensures forall i :: 0 <= i < |SectionHeadings(sections, n)| ==> HeadingNumber(SectionHeadings(sections, n)[i]) == n + i
    decreases |sections|
  {
    if sections != [] {
      var first := HeadingText(sections[0].heading, n);
      var rest := SectionHeadings(sections[1..], n + 1);
      assert SectionHeadings(sections, n) == [first] + rest;
      SectionHeadingNumbers(sections[1..], n + 1);
      HeadingNumberRoundTrip(sections[0].heading, n);
      HeadingNumbersShift(SectionHeadings(sections, n), first, rest, n);
    }
  }

  /**
   * One heading per section, in order, then "REFERENCES" exactly when there
   * are references; the numeral of section `i` (from 0) reads back as `i + 1`.
   */
  lemma HeadingOutlineNumbers(sections: seq<Section>, references: seq<string>)
    ensures |HeadingOutline(sections, references)| == |sections| + (if references == [] then 0 else 1)
    ensures forall i :: 0 <= i < |sections| ==> HeadingNumber(HeadingOutline(sections, references)[i]) == i + 1
    ensures references != [] ==> HeadingOutline(sections, references)[|sections|] == REFERENCES_TITLE
  {
    var h := HeadingOutline(sections, references);
    var sh := SectionHeadings(sections, 1);
    SectionHeadingNumbers(sections, 1);
    forall i | 0 <= i < |sections| ensures HeadingNumber(h[i]) == i + 1 {
      assert h[i] == sh[i];
    }
  }

  lemma {:induction false} NumberedAt(figures: seq<Figure>, counter: nat)
    ensures |Numbered(figures, counter)| == |figures|
    ensures forall k :: 0 <= k < |figures| ==> Numbered(figures, counter)[k] == (counter + k + 1, figures[k].caption)
    decreases |figures|
  {
    if figures != [] {
      NumberedAt(figures[1..], counter + 1);
      var all := Numbered(figures, counter);
      var rest := Numbered(figures[1..], counter + 1);
      forall k | 0 <= k < |figures| ensures all[k] == (counter + k + 1, figures[k].caption) {
        if k > 0 {
          assert all[k] == rest[k - 1];
          assert figures[1..][k - 1] == figures[k];
        }
      }
    }
  }

  /** The caption text of a leftover image: "Figure" and the number one below its label. */
  predicate LeftoverCaption(c: (nat, string)) {
    c.0 >= 1 && c.1 == "Figure " + NatToString(c.0 - 1)
  }

  lemma {:induction false} LeftoverCaptionsAt(k: nat, counter: nat)
    ensures |LeftoverCaptions(k, counter)| == k
    ensures forall j :: 0 <= j < k ==> LeftoverCaptions(k, counter)[j].0 == counter + 2 * j + 2
    ensures forall j :: 0 <= j < k ==> LeftoverCaption(LeftoverCaptions(k, counter)[j])
  {
    if k > 0 {
      LeftoverCaptionsAt(k - 1, counter + 2);
      var all := LeftoverCaptions(k, counter);
      var rest := LeftoverCaptions(k - 1, counter + 2);
      assert LeftoverCaption(all[0]);
      forall j | 0 < j < k ensures all[j] == rest[j - 1] {
      }
    }
  }

  /**
   * Caption `k` (from 0) of the placed figures is "Fig. k+1" with the figure's
   * own caption; leftover image `j` comes after them as "Fig. P+2j+2", where P
   * is the number of placed figures, and its text names the number below that.
   */
  lemma CaptionOutlineAt(paper: StructuredPaper, images: seq<Image>)
    ensures |CaptionOutline(paper, images)|
            == |PlacedFigures(Groups(paper.sections, paper.figures), |images|)| + |Leftovers(|images|, 0, PlacedIndices(paper.figures))|
    ensures forall k :: 0 <= k < |PlacedFigures(Groups(paper.sections, paper.figures), |images|)| ==>
      CaptionOutline(paper, images)[k] == (k + 1, PlacedFigures(Groups(paper.sections, paper.figures), |images|)[k].caption)
    ensures forall j :: 0 <= j < |Leftovers(|images|, 0, PlacedIndices(paper.figures))| ==>
      var c := CaptionOutline(paper, images)[|PlacedFigures(Groups(paper.sections, paper.figures), |images|)| + j];
      c.0 == |PlacedFigures(Groups(paper.sections, paper.figures), |images|)| + 2 * j + 2 && LeftoverCaption(c)
  {
    var caps := CaptionOutline(paper, images);
    var placed := PlacedFigures(Groups(paper.sections, paper.figures), |images|);
    var p := |placed|;
    var l := |Leftovers(|images|, 0, PlacedIndices(paper.figures))|;
    var second := LeftoverCaptions(l, p);
    NumberedAt(placed, 0);
    LeftoverCaptionsAt(l, p);
    forall j | 0 <= j < l ensures caps[p + j] == second[j] {
    }
  }

  lemma NumbersIncrease(caps: seq<(nat, string)>, p: nat, l: nat)
    requires |caps| == p + l
    requires forall k :: 0 <= k < p ==> caps[k].0 == k + 1
    requires forall j :: 0 <= j < l ==> caps[p + j].0 == p + 2 * j + 2
    ensures forall i, j :: 0 <= i < j < |caps| ==> caps[i].0 < caps[j].0
    ensures forall i :: 0 <= i < |caps| ==> 1 <= caps[i].0 <= p + 2 * l
    ensures caps != [] ==> caps[|caps| - 1].0 == p + 2 * l
  {
    forall i | p <= i < |caps| ensures caps[i].0 == p + 2 * (i - p) + 2 {
      assert caps[p + (i - p)].0 == p + 2 * (i - p) + 2;
    }
  }

  /**
   * Figure numbers strictly increase through the document, start at 1, and
   * the last is the final value of the figure counter.
   */
  lemma CaptionNumbersIncrease(paper: StructuredPaper, images: seq<Image>)
    ensures forall i, j :: 0 <= i < j < |CaptionOutline(paper, images)| ==>
      CaptionOutline(paper, images)[i].0 < CaptionOutline(paper, images)[j].0
    ensures forall i :: 0 <= i < |CaptionOutline(paper, images)| ==>
      1 <= CaptionOutline(paper, images)[i].0 <= FinalCounter(paper, images)
    ensures CaptionOutline(paper, images) != [] ==>
      CaptionOutline(paper, images)[|CaptionOutline(paper, images)| - 1].0 == FinalCounter(paper, images)
  {
    var p := |PlacedFigures(Groups(paper.sections, paper.figures), |images|)|;
    var l := |Leftovers(|images|, 0, PlacedIndices(paper.figures))|;
    CaptionOutlineAt(paper, images);
    NumbersIncrease(CaptionOutline(paper, images), p, l);
  }

  lemma {:induction false} ListedAt(references: seq<string>, from: nat)
    ensures |Listed(references, from)| == |references|
    ensures forall i :: 0 <= i < |references| ==> Listed(references, from)[i] == (from + i, references[i])
    decreases |references|
  {
    if references != [] {
      ListedAt(references[1..], from + 1);
      var all := Listed(references, from);
      var rest := Listed(references[1..], from + 1);
      forall i | 0 <= i < |references| ensures all[i] == (from + i, references[i]) {
        if i > 0 {
          assert all[i] == rest[i - 1];
          assert references[1..][i - 1] == references[i];
        }
      }
    }
  }

  // ---------------------------------------------------------------------------
  // Which figures and images are drawn
  // ---------------------------------------------------------------------------

  /** Some section's heading equals the figure's placement, ignoring case. */
  predicate Matched(sections: seq<Section>, f: Figure) {
    exists i :: 0 <= i < |sections| && Lower(sections[i].heading) == Lower(f.placement)
  }

  lemma MatchedCons(sections: seq<Section>, f: Figure)
    requires sections != []
    ensures Matched(sections, f) <==> Lower(sections[0].heading) == Lower(f.placement) || Matched(sections[1..], f)
  {
    if Matched(sections[1..], f) {
      var i :| 0 <= i < |sections[1..]| && Lower(sections[1..][i].heading) == Lower(f.placement);
      assert sections[i + 1] == sections[1..][i];
    }
    if Matched(sections, f) {
      var i :| 0 <= i < |sections| && Lower(sections[i].heading) == Lower(f.placement);
      if i > 0 {
        assert sections[1..][i - 1] == sections[i];
      }
    }
  }

  /** A group holds exactly the figures whose lower-cased placement is the key. */
  lemma {:induction false} FiguresAtMembers(figures: seq<Figure>, key: string, f: Figure)
    ensures f in FiguresAt(figures, key) <==> f in figures && Lower(f.placement) == key
    decreases |figures|
  {
    if figures != [] {
      FiguresAtMembers(figures[1..], key, f);
      assert figures == [figures[0]] + figures[1..];
    }
  }

  /** The drawn figures of a group are those whose index picks an image. */
  lemma {:induction false} RenderedMembers(figures: seq<Figure>, n: nat, f: Figure)
    ensures f in Rendered(figures, n) <==> f in figures && InRange(f.index, n)
    decreases |figures|
  {
    if figures != [] {
      RenderedMembers(figures[1..], n, f);
      assert figures == [figures[0]] + figures[1..];
    }
  }

  lemma GroupsCons(sections: seq<Section>, figures: seq<Figure>, n: nat)
    requires sections != []
    ensures PlacedFigures(Groups(sections, figures), n)
      == Rendered(Group(sections[0], figures), n) + PlacedFigures(Groups(sections[1..], figures), n)
  {
    var gs := Groups(sections, figures);
    assert gs[1..] == Groups(sections[1..], figures);
  }

  /**
   * A figure is drawn under the sections exactly when it is in the list, its
   * index picks an image, and some heading equals its placement, ignoring case.
   */
  lemma {:induction false} PlacedFiguresMembers(sections: seq<Section>, figures: seq<Figure>, n: nat, f: Figure)
    ensures f in PlacedFigures(Groups(sections, figures), n) <==> f in figures && InRange(f.index, n) && Matched(sections, f)
    decreases |sections|
  {
    if sections != [] {
      PlacedFiguresMembers(sections[1..], figures, n, f);
      RenderedMembers(Group(sections[0], figures), n, f);
      FiguresAtMembers(figures, Lower(sections[0].heading), f);
      GroupsCons(sections, figures, n);
      MatchedCons(sections, f);
    }
  }

  /** The group after section `i` is the one keyed by its lower-cased heading. */
  lemma {:induction false} GroupsAt(sections: seq<Section>, figures: seq<Figure>, i: nat)
    requires i < |sections|
    ensures Groups(sections, figures)[i] == FiguresAt(figures, Lower(sections[i].heading))
    decreases i
  {
    if i > 0 {
      GroupsAt(sections[1..], figures, i - 1);
      assert sections[1..][i - 1] == sections[i];
      assert Groups(sections, figures)[i] == Groups(sections[1..], figures)[i - 1];
    }
  }

  /** Two sections with the same heading up to case get the same figures. */
  lemma RepeatedHeadingRepeatsGroup(sections: seq<Section>, figures: seq<Figure>, i: nat, j: nat)
    requires i < |sections| && j < |sections| && Lower(sections[i].heading) == Lower(sections[j].heading)
    ensures Groups(sections, figures)[i] == Groups(sections, figures)[j]
  {
    GroupsAt(sections, figures, i);
    GroupsAt(sections, figures, j);
  }

  /** The leftover positions are those from `from` on that no figure mentions. */
  lemma {:induction false} LeftoversMembers(count: nat, from: nat, placed: set<int>, i: int)
    ensures i in Leftovers(count, from, placed) <==> from <= i < count && i !in placed
    decreases count - from
  {
    if from < count {
      LeftoversMembers(count, from + 1, placed, i);
    }
  }

  /** The leftover images come in image order. */
  lemma {:induction false} LeftoversIncrease(count: nat, from: nat, placed: set<int>)
    ensures forall a, b :: 0 <= a < b < |Leftovers(count, from, placed)| ==>
      Leftovers(count, from, placed)[a] < Leftovers(count, from, placed)[b]
    decreases count - from
  {
    if from < count && from !in placed {
      var rest := Leftovers(count, from + 1, placed);
      var all := Leftovers(count, from, placed);
      LeftoversIncrease(count, from + 1, placed);
      forall b | 0 < b < |all| ensures from < all[b] {
        assert all[b] == rest[b - 1];
        LeftoversMembers(count, from + 1, placed, rest[b - 1]);
      }
    } else if from < count {
      LeftoversIncrease(count, from + 1, placed);
    }
  }

  /** Image `i` is drawn as a leftover exactly when no figure's index is `i`. */
  lemma LeftoverImages(paper: StructuredPaper, images: seq<Image>, i: int)
    ensures i in Leftovers(|images|, 0, PlacedIndices(paper.figures))
        <==> 0 <= i < |images| && forall f :: f in paper.figures ==> f.index != i
  {
    LeftoversMembers(|images|, 0, PlacedIndices(paper.figures), i);
  }

  /**
   * A figure whose placement matches no heading is never drawn, and its image
   * is not drawn as a leftover either, since its index counts as placed.
   */
  lemma UnmatchedFigureDropped(paper: StructuredPaper, images: seq<Image>, f: Figure)
    requires f in paper.figures && !Matched(paper.sections, f)
    ensures f !in PlacedFigures(Groups(paper.sections, paper.figures), |images|)
    ensures f.index !in Leftovers(|images|, 0, PlacedIndices(paper.figures))
  {
    PlacedFiguresMembers(paper.sections, paper.figures, |images|, f);
    LeftoversMembers(|images|, 0, PlacedIndices(paper.figures), f.index);
    assert f.index in PlacedIndices(paper.figures);
  }

  /** `generate` raises exactly when a figure under some section has an index below `-len(images)`. */
  lemma RaisesIff(paper: StructuredPaper, images: seq<Image>)
    ensures Raises(paper, images)
        <==> exists f :: f in paper.figures && Matched(paper.sections, f) && f.index < -(|images| as int)
  {
    if Raises(paper, images) {
      var i, f :| 0 <= i < |paper.sections| && f in FiguresAt(paper.figures, Lower(paper.sections[i].heading))
        && f.index < -(|images| as int);
      FiguresAtMembers(paper.figures, Lower(paper.sections[i].heading), f);
      assert Matched(paper.sections, f);
    }
    if exists f :: f in paper.figures && Matched(paper.sections, f) && f.index < -(|images| as int) {
      var f :| f in paper.figures && Matched(paper.sections, f) && f.index < -(|images| as int);
      var i :| 0 <= i < |paper.sections| && Lower(paper.sections[i].heading) == Lower(f.placement);
      FiguresAtMembers(paper.figures, Lower(paper.sections[i].heading), f);
    }
  }

  /** With no negative figure index, `generate` never raises. */
  lemma NonNegativeNeverRaises(paper: StructuredPaper, images: seq<Image>)
    requires forall f :: f in paper.figures ==> f.index >= 0
    ensures !Raises(paper, images)
  {
    RaisesIff(paper, images);
  }
}
