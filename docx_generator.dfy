/**
 * `IEEEDocxGenerator` (`services/docx_generator.py`): the document being
 * written and the figure counter, which the `_add_*` methods update in place,
 * and `generate`, which runs them in the order DocxLayout.Document describes.
 * python-docx is replaced by the sequence of blocks the document holds.
 */
module DocxGenerator {
  import opened Text
  import opened Schemas
  import opened DocxLayout

  /** `figures_by_section.get(key, [])` */
  function Lookup(bySection: map<string, seq<Figure>>, key: string): seq<Figure> {
    if key in bySection then bySection[key] else []
  }

  /** No figure of the group has an index below `-n`, so `images[fig.index]` cannot raise for it. */
  predicate SafeGroup(group: seq<Figure>, n: nat) {
    forall f :: f in group ==> f.index >= -(n as int)
  }

  // ---------------------------------------------------------------------------
  // One step of each loop, stated on the specification functions
  // ---------------------------------------------------------------------------

  lemma Assoc(a: seq<Block>, b: seq<Block>, c: seq<Block>)
    ensures a + (b + c) == a + b + c
  {
  }

  lemma Assoc4(a: seq<Block>, b: seq<Block>, c: seq<Block>, d: seq<Block>)
    ensures a + (b + c + d) == a + b + c + d
  {
  }

  /** The paragraphs of the pieces from `i` on: those of piece `i`, then those of the rest. */
  lemma BodyStep(pieces: seq<string>, i: nat)
    requires i < |pieces|
    ensures BodyBlocks(CleanPieces(pieces[i..]))
      == BodyBlocks(CleanPieces([pieces[i]])) + BodyBlocks(CleanPieces(pieces[i + 1..]))
  {
    SliceCons(pieces, i);
    CleanPiecesCons(pieces[i], pieces[i + 1..]);
    BodyBlocksAppend(CleanPieces([pieces[i]]), CleanPieces(pieces[i + 1..]));
  }

  lemma {:induction false} BodyBlocksAppend(a: seq<string>, b: seq<string>)
    ensures BodyBlocks(a + b) == BodyBlocks(a) + BodyBlocks(b)
    decreases |a|
  {
    if a == [] {
      assert a + b == b;
    } else {
      assert (a + b)[0] == a[0] && (a + b)[1..] == a[1..] + b;
      BodyBlocksAppend(a[1..], b);
    }
  }

  lemma EntriesStep(references: seq<string>, i: nat)
    requires i < |references|
    ensures ReferenceEntries(references[i..], i + 1)
      == [Reference(i + 1, references[i])] + ReferenceEntries(references[i + 1..], i + 2)
  {
    assert references[i..][1..] == references[i + 1..];
  }

  /** The figures of a group from `k` on: figure `k` when its index picks an image, then the rest. */
  lemma FigureRunStep(group: seq<Figure>, k: nat, images: seq<Image>, counter: nat)
    requires k < |group|
    ensures InRange(group[k].index, |images|) ==>
      FigureRun(group[k..], images, counter)
        == FigureBlocks(images[PyIndex(group[k].index, |images|)], group[k].caption, counter + 1)
           + FigureRun(group[k + 1..], images, counter + 1)
      && |Rendered(group[k..], |images|)| == 1 + |Rendered(group[k + 1..], |images|)|
    ensures !InRange(group[k].index, |images|) ==>
      FigureRun(group[k..], images, counter) == FigureRun(group[k + 1..], images, counter)
      && |Rendered(group[k..], |images|)| == |Rendered(group[k + 1..], |images|)|
  {
    assert group[k..][1..] == group[k + 1..];
  }

  lemma LeftoverStep(images: seq<Image>, k: nat, placed: set<int>, counter: nat)
    requires k < |images|
    ensures k in placed ==>
      LeftoverDoc(images, k, placed, counter) == LeftoverDoc(images, k + 1, placed, counter)
      && |Leftovers(|images|, k, placed)| == |Leftovers(|images|, k + 1, placed)|
    ensures k !in placed ==>
      LeftoverDoc(images, k, placed, counter)
        == FigureBlocks(images[k], "Figure " + NatToString(counter + 1), counter + 2)
           + LeftoverDoc(images, k + 1, placed, counter + 2)
      && |Leftovers(|images|, k, placed)| == 1 + |Leftovers(|images|, k + 1, placed)|
  {
  }

  /** `figures_by_section` after the first `j` figures, with one more figure. */
  lemma FiguresAtCons(g: Figure, rest: seq<Figure>, key: string)
    ensures FiguresAt([g] + rest, key) == (if Lower(g.placement) == key then [g] else []) + FiguresAt(rest, key)
  {
    assert ([g] + rest)[1..] == rest;
  }

  lemma {:induction false} FiguresAtSnoc(figures: seq<Figure>, f: Figure, key: string)
    ensures FiguresAt(figures + [f], key) == FiguresAt(figures, key) + (if Lower(f.placement) == key then [f] else [])
    decreases |figures|
  {
    if figures == [] {
      assert figures + [f] == [f] + [];
      FiguresAtCons(f, [], key);
    } else {
      var g, rest := figures[0], figures[1..];
      assert figures == [g] + rest && figures + [f] == [g] + (rest + [f]);
      FiguresAtCons(g, rest + [f], key);
      FiguresAtSnoc(rest, f, key);
      FiguresAtCons(g, rest, key);
    }
  }

  /** The sections from `i` on, numbered from `i + 1`, with the figures of each. */
  function SectionsFrom(sections: seq<Section>, figures: seq<Figure>, images: seq<Image>, i: nat, counter: nat): seq<Block>
    requires i <= |sections|
  {
    SectionsDoc(SectionHeads(sections[i..], SectionParagraphs(sections[i..]), i + 1), Groups(sections[i..], figures), images, counter)
  }

  lemma SectionsDocCons(heads: seq<seq<Block>>, groups: seq<seq<Figure>>, images: seq<Image>, counter: nat)
    requires |heads| == |groups| && heads != []
    ensures SectionsDoc(heads, groups, images, counter)
      == heads[0] + FigureRun(groups[0], images, counter)
         + SectionsDoc(heads[1..], groups[1..], images, counter + |Rendered(groups[0], |images|)|)
    ensures |PlacedFigures(groups, |images|)| == |Rendered(groups[0], |images|)| + |PlacedFigures(groups[1..], |images|)|
  {
  }

  lemma SliceCons<T>(xs: seq<T>, i: nat)
    requires i < |xs|
    ensures xs[i..] == [xs[i]] + xs[i + 1..]
  {
  }

  lemma ParagraphsOfCons(s: Section, rest: seq<Section>)
    ensures SectionParagraphs([s] + rest) == [Paragraphs(s.content)] + SectionParagraphs(rest)
  {
    assert ([s] + rest)[1..] == rest;
  }

  lemma GroupsOfCons(s: Section, rest: seq<Section>, figures: seq<Figure>)
    ensures Groups([s] + rest, figures) == [FiguresAt(figures, Lower(s.heading))] + Groups(rest, figures)
  {
    assert ([s] + rest)[1..] == rest;
  }

  lemma HeadsOfCons(s: Section, rest: seq<Section>, p: seq<string>, ps: seq<seq<string>>, n: nat)
    requires |ps| == |rest| && n >= 1
    ensures SectionHeads([s] + rest, [p] + ps, n) == [SectionBlocks(s.heading, p, n)] + SectionHeads(rest, ps, n + 1)
  {
    assert ([s] + rest)[1..] == rest && ([p] + ps)[1..] == ps;
  }

  lemma SectionsDocOfCons(h: seq<Block>, hs: seq<seq<Block>>, g: seq<Figure>, gs: seq<seq<Figure>>, images: seq<Image>,
                           counter: nat, later: nat)
    requires |hs| == |gs| && later == counter + |Rendered(g, |images|)|
    ensures SectionsDoc([h] + hs, [g] + gs, images, counter)
      == h + FigureRun(g, images, counter) + SectionsDoc(hs, gs, images, later)
    ensures PlacedFigures([g] + gs, |images|) == Rendered(g, |images|) + PlacedFigures(gs, |images|)
  {
    assert ([h] + hs)[1..] == hs && ([g] + gs)[1..] == gs;
  }

  /** Section `i` with its figures, then the sections after it. */
  lemma SectionsFromStep(sections: seq<Section>, figures: seq<Figure>, images: seq<Image>, i: nat, counter: nat,
                         blocks: seq<Block>, group: seq<Figure>, later: nat)
    requires i < |sections|
    requires blocks == SectionBlocks(sections[i].heading, Paragraphs(sections[i].content), i + 1)
    requires group == FiguresAt(figures, Lower(sections[i].heading))
    requires later == counter + |Rendered(group, |images|)|
    ensures SectionsFrom(sections, figures, images, i, counter)
      == blocks + FigureRun(group, images, counter) + SectionsFrom(sections, figures, images, i + 1, later)
    ensures |PlacedFigures(Groups(sections[i..], figures), |images|)|
      == |Rendered(group, |images|)| + |PlacedFigures(Groups(sections[i + 1..], figures), |images|)|
  {
    var s := sections[i];
    var rest := sections[i + 1..];
    SliceCons(sections, i);
    ParagraphsOfCons(s, rest);
    GroupsOfCons(s, rest, figures);
    HeadsOfCons(s, rest, Paragraphs(s.content), SectionParagraphs(rest), i + 1);
    var ps := SectionParagraphs(rest);
    var hs := SectionHeads(rest, ps, i + 2);
    var gs := Groups(rest, figures);
    assert SectionParagraphs(sections[i..]) == [Paragraphs(s.content)] + ps;
    assert SectionHeads(sections[i..], SectionParagraphs(sections[i..]), i + 1) == [blocks] + hs;
    assert Groups(sections[i..], figures) == [group] + gs;
    SectionsDocOfCons(blocks, hs, group, gs, images, counter, later);
    assert SectionsFrom(sections, figures, images, i + 1, later) == SectionsDoc(hs, gs, images, later);
    assert SectionsFrom(sections, figures, images, i, counter) == SectionsDoc([blocks] + hs, [group] + gs, images, counter);
  }

  /** From the first section, the whole of DocxLayout's sections; after the last one, nothing. */
  lemma SectionsFromEnds(sections: seq<Section>, figures: seq<Figure>, images: seq<Image>, counter: nat)
    ensures SectionsFrom(sections, figures, images, 0, counter)
      == SectionsDoc(SectionHeads(sections, SectionParagraphs(sections), 1), Groups(sections, figures), images, counter)
    ensures |PlacedFigures(Groups(sections[0..], figures), |images|)| == |PlacedFigures(Groups(sections, figures), |images|)|
    ensures SectionsFrom(sections, figures, images, |sections|, counter) == []
    ensures |PlacedFigures(Groups(sections[|sections|..], figures), |images|)| == 0
  {
    assert sections[0..] == sections;
    assert sections[|sections|..] == [];
  }

  /** `generate`'s figure map: for every key, the figures with that lower-cased placement, in list order. */
  method FiguresBySection(figures: seq<Figure>) returns (bySection: map<string, seq<Figure>>)
    ensures forall key :: Lookup(bySection, key) == FiguresAt(figures, key)
  {
    bySection := map[];
    var j := 0;
    while j < |figures|
      invariant 0 <= j <= |figures|
      invariant forall key :: Lookup(bySection, key) == FiguresAt(figures[..j], key)
    {
      var f := figures[j];
      var sectionName := Lower(f.placement);
      if sectionName !in bySection {
        bySection := bySection[sectionName := []];
      }
      bySection := bySection[sectionName := bySection[sectionName] + [f]];
      assert figures[..j + 1] == figures[..j] + [f];
      forall key ensures Lookup(bySection, key) == FiguresAt(figures[..j + 1], key) {
        FiguresAtSnoc(figures[..j], f, key);
      }
      j := j + 1;
    }
    assert figures[..j] == figures;
  }

  class IEEEDocxGenerator {
    /** The blocks written so far. */
    var doc: seq<Block>
    /** The number of the last figure caption written. */
    var figureCounter: nat
    var tableCounter: nat

    /** `__init__`: no document yet, modelled as an empty one; both counters at zero. */
    constructor ()
      ensures doc == [] && figureCounter == 0 && tableCounter == 0
    {
      doc := [];
      figureCounter := 0;
      tableCounter := 0;
    }

    /** `_setup_document`: a fresh, empty document; both counters start again from zero. */
    method SetupDocument()
      modifies this
      ensures doc == [] && figureCounter == 0 && tableCounter == 0
    {
      doc := [];
      figureCounter := 0;
      tableCounter := 0;
    }

    method AddTitle(title: string)
      modifies this
      ensures doc == old(doc) + [PlainParagraph(TitleStyle, title)]
      ensures figureCounter == old(figureCounter) && tableCounter == old(tableCounter)
    {
      doc := doc + [PlainParagraph(TitleStyle, title)];
    }

    method AddAuthors(authors: string)
      modifies this
      ensures doc == old(doc) + [PlainParagraph(AuthorStyle, authors)]
      ensures figureCounter == old(figureCounter) && tableCounter == old(tableCounter)
    {
      doc := doc + [PlainParagraph(AuthorStyle, authors)];
    }

    /** One bold italic run holding "Abstract—" and the abstract, in the "IEEE Abstract" style. */
    method AddAbstract(abstractText: string)
      modifies this
      ensures doc == old(doc) + [AbstractBlock(abstractText)]
      ensures figureCounter == old(figureCounter) && tableCounter == old(tableCounter)
    {
      doc := doc + [Paragraph(AbstractStyle, [Run(ABSTRACT_MARK + abstractText, true, true)])];
    }

    /** A bold italic "Keywords—" run, then the keywords joined with "; ", even when there are none. */
    method AddKeywords(keywords: seq<string>)
      modifies this
      ensures doc == old(doc) + [KeywordsBlock(keywords)]
      ensures figureCounter == old(figureCounter) && tableCounter == old(tableCounter)
    {
      doc := doc + [Paragraph(KeywordsStyle, [Run(KEYWORDS_MARK, true, true), Run(Join(KEYWORD_SEPARATOR, keywords), false, false)])];
    }

    /** `_set_two_column`: a new section whose page holds two columns. */
    method SetTwoColumn()
      modifies this
      ensures doc == old(doc) + [ColumnBreak(2)]
      ensures figureCounter == old(figureCounter) && tableCounter == old(tableCounter)
    {
      doc := doc + [ColumnBreak(2)];
    }

    /** A bold "IEEE Heading" run: the numeral of `number`, a dot, and the upper-cased heading. */
    method AddSectionHeading(heading: string, number: nat)
      requires number >= 1
      modifies this
      ensures doc == old(doc) + [HeadingBlock(heading, number)]
      ensures figureCounter == old(figureCounter) && tableCounter == old(tableCounter)
    {
      var numeral := if number <= |ROMAN_NUMERALS| then ROMAN_NUMERALS[number - 1] else NatToString(number);
      doc := doc + [Paragraph(HeadingStyle, [Run(numeral + ". " + Upper(heading), true, false)])];
    }

    /** One piece of `_add_body_text`'s loop: a paragraph when the stripped piece is not empty. */
    method AddPiece(piece: string)
      modifies this
      ensures doc == old(doc) + BodyBlocks(CleanPieces([piece]))
      ensures figureCounter == old(figureCounter) && tableCounter == old(tableCounter)
    {
      var paraText := Strip(piece);
      assert [piece][1..] == [];
      if paraText != [] {
        doc := doc + [PlainParagraph(BodyStyle, Collapse(paraText))];
      }
    }

    /** One "IEEE Body" paragraph per non-blank piece of the content, its whitespace collapsed. */
    method AddBodyText(content: string)
      modifies this
      ensures doc == old(doc) + BodyBlocks(Paragraphs(content))
      ensures figureCounter == old(figureCounter) && tableCounter == old(tableCounter)
    {
      var pieces := SplitOn(Strip(content), PARAGRAPH_SEPARATOR);
      ghost var target := old(doc) + BodyBlocks(Paragraphs(content));
      assert pieces[0..] == pieces;
      var i := 0;
      while i < |pieces|
        invariant 0 <= i <= |pieces|
        invariant doc + BodyBlocks(CleanPieces(pieces[i..])) == target
        invariant figureCounter == old(figureCounter) && tableCounter == old(tableCounter)
      {
        BodyStep(pieces, i);
        ghost var start := doc;
        AddPiece(pieces[i]);
        Assoc(start, BodyBlocks(CleanPieces([pieces[i]])), BodyBlocks(CleanPieces(pieces[i + 1..])));
        i := i + 1;
      }
      assert pieces[i..] == [];
    }

    /**
     * The next figure: the counter goes up by one, then the picture (or the
     * placeholder when the bytes cannot be decoded) and the caption with that number.
     */
    method AddFigure(image: Image, caption: string)
      modifies this
      ensures figureCounter == old(figureCounter) + 1
      ensures doc == old(doc) + FigureBlocks(image, caption, figureCounter)
      ensures tableCounter == old(tableCounter)
    {
      figureCounter := figureCounter + 1;
      if image.decodable {
        doc := doc + [Picture(image)];
      } else {
        doc := doc + [Placeholder];
      }
      doc := doc + [Caption(figureCounter, caption)];
    }

    /** The heading of the reference list: written as section 99, then its text replaced by "REFERENCES". */
    method AddReferencesHeading()
      modifies this
      ensures doc == old(doc) + [REFERENCES_HEADING]
      ensures figureCounter == old(figureCounter) && tableCounter == old(tableCounter)
    {
      AddSectionHeading("References", 99);
      assert doc[..|doc| - 1] == old(doc);
      doc := doc[..|doc| - 1] + [REFERENCES_HEADING];
    }

    /**
     * The heading written as section 99 and then rewritten to read only
     * "REFERENCES", then entry `i` as "[i] <reference>", from 1.
     */
    method AddReferences(references: seq<string>)
      modifies this
      ensures doc == old(doc) + [REFERENCES_HEADING] + ReferenceEntries(references, 1)
      ensures figureCounter == old(figureCounter) && tableCounter == old(tableCounter)
    {
      AddReferencesHeading();
      var i := 0;
      assert ReferenceEntries(references[i..], i + 1) == ReferenceEntries(references, 1) by {
        assert references[i..] == references && i + 1 == 1;
      }
      while i < |references|
        invariant 0 <= i <= |references|
        invariant doc + ReferenceEntries(references[i..], i + 1) == old(doc) + [REFERENCES_HEADING] + ReferenceEntries(references, 1)
        invariant figureCounter == old(figureCounter) && tableCounter == old(tableCounter)
      {
        EntriesStep(references, i);
        Assoc(doc, [Reference(i + 1, references[i])], ReferenceEntries(references[i + 1..], i + 2));
        doc := doc + [Reference(i + 1, references[i])];
        i := i + 1;
      }
    }

    /**
     * The figures of one section's group, in order: each whose index is below
     * `len(images)` is drawn from `images[fig.index]`; an index below
     * `-len(images)` raises IndexError, reported as `ok == false`.
     */
    method AddGroup(group: seq<Figure>, images: seq<Image>) returns (ok: bool)
      modifies this
      ensures ok <==> SafeGroup(group, |images|)
      ensures ok ==> doc == old(doc) + FigureRun(group, images, old(figureCounter))
      ensures ok ==> figureCounter == old(figureCounter) + |Rendered(group, |images|)|
      ensures tableCounter == old(tableCounter)
    {
      var k := 0;
      while k < |group|
        invariant 0 <= k <= |group|
        invariant forall j :: 0 <= j < k ==> group[j].index >= -(|images| as int)
        invariant doc + FigureRun(group[k..], images, figureCounter) == old(doc) + FigureRun(group, images, old(figureCounter))
        invariant figureCounter + |Rendered(group[k..], |images|)| == old(figureCounter) + |Rendered(group, |images|)|
        invariant tableCounter == old(tableCounter)
      {
        var fig := group[k];
        FigureRunStep(group, k, images, figureCounter);
        if fig.index < |images| {
          if fig.index < -(|images| as int) {
            assert fig in group;
            return false;
          }
          var image := images[PyIndex(fig.index, |images|)];
          Assoc(doc, FigureBlocks(image, fig.caption, figureCounter + 1), FigureRun(group[k + 1..], images, figureCounter + 1));
          AddFigure(image, fig.caption);
        }
        k := k + 1;
      }
      ok := true;
    }

    /**
     * One pass of `generate`'s section loop: the heading numbered `number`,
     * the paragraphs, then the figures `bySection` holds for the lower-cased
     * heading; `safe` is false when one of them raises IndexError.
     */
    method AddSection(section: Section, number: nat, images: seq<Image>, bySection: map<string, seq<Figure>>) returns (safe: bool)
      requires number >= 1
      modifies this
      ensures safe <==> SafeGroup(Lookup(bySection, Lower(section.heading)), |images|)
      ensures safe ==> doc == old(doc) + SectionBlocks(section.heading, Paragraphs(section.content), number)
                                     + FigureRun(Lookup(bySection, Lower(section.heading)), images, old(figureCounter))
      ensures safe ==> figureCounter == old(figureCounter) + |Rendered(Lookup(bySection, Lower(section.heading)), |images|)|
      ensures tableCounter == old(tableCounter)
    {
      ghost var start := doc;
      AddSectionHeading(section.heading, number);
      AddBodyText(section.content);
      Assoc(start, [HeadingBlock(section.heading, number)], BodyBlocks(Paragraphs(section.content)));
      var sectionKey := Lower(section.heading);
      safe := true;
      if sectionKey in bySection {
        safe := AddGroup(bySection[sectionKey], images);
      }
    }

    /**
     * The sections in order, each as its numbered heading, its paragraphs and
     * the figures `bySection` holds for its lower-cased heading.
     */
    method AddSections(paper: StructuredPaper, images: seq<Image>, bySection: map<string, seq<Figure>>) returns (ok: bool)
      requires forall key :: Lookup(bySection, key) == FiguresAt(paper.figures, key)
      modifies this
      ensures ok <==> !Raises(paper, images)
      ensures ok ==> doc == old(doc) + SectionsDoc(SectionHeads(paper.sections, SectionParagraphs(paper.sections), 1),
                                                   Groups(paper.sections, paper.figures), images, old(figureCounter))
      ensures ok ==> figureCounter == old(figureCounter) + SectionsCounter(paper, images)
      ensures tableCounter == old(tableCounter)
    {
      ghost var target := old(doc) + SectionsDoc(SectionHeads(paper.sections, SectionParagraphs(paper.sections), 1),
                                                 Groups(paper.sections, paper.figures), images, old(figureCounter));
      ghost var total := old(figureCounter) + SectionsCounter(paper, images);
      var i := 0;
      SectionsFromEnds(paper.sections, paper.figures, images, figureCounter);
      while i < |paper.sections|
        invariant 0 <= i <= |paper.sections|
        invariant forall j :: 0 <= j < i ==> SafeGroup(FiguresAt(paper.figures, Lower(paper.sections[j].heading)), |images|)
        invariant doc + SectionsFrom(paper.sections, paper.figures, images, i, figureCounter) == target
        invariant figureCounter + |PlacedFigures(Groups(paper.sections[i..], paper.figures), |images|)| == total
        invariant tableCounter == old(tableCounter)
      {
        var section := paper.sections[i];
        ghost var group := FiguresAt(paper.figures, Lower(section.heading));
        ghost var start := doc;
        ghost var count := figureCounter;
        ghost var blocks := SectionBlocks(section.heading, Paragraphs(section.content), i + 1);
        assert Lookup(bySection, Lower(section.heading)) == group;
        var safe := AddSection(section, i + 1, images, bySection);
        if !safe {
          assert Raises(paper, images);
          return false;
        }
        SectionsFromStep(paper.sections, paper.figures, images, i, count, blocks, group, figureCounter);
        Assoc4(start, blocks, FigureRun(group, images, count), SectionsFrom(paper.sections, paper.figures, images, i + 1, figureCounter));
        i := i + 1;
      }
      SectionsFromEnds(paper.sections, paper.figures, images, figureCounter);
      assert !Raises(paper, images);
      ok := true;
    }

    /**
     * One image no figure mentions: the counter goes up once for the caption
     * text "Figure <counter>", and once more in `AddFigure`.
     */
    method AddLeftover(image: Image)
      modifies this
      ensures figureCounter == old(figureCounter) + 2
      ensures doc == old(doc) + FigureBlocks(image, "Figure " + NatToString(old(figureCounter) + 1), figureCounter)
      ensures tableCounter == old(tableCounter)
    {
      figureCounter := figureCounter + 1;
      AddFigure(image, "Figure " + NatToString(figureCounter));
    }

    /**
     * The images no figure mentions, in image order: the counter goes up once
     * for the caption text "Figure <counter>", and once more in `AddFigure`.
     */
    method AddLeftovers(images: seq<Image>, placed: set<int>)
      modifies this
      ensures doc == old(doc) + LeftoverDoc(images, 0, placed, old(figureCounter))
      ensures figureCounter == old(figureCounter) + 2 * |Leftovers(|images|, 0, placed)|
      ensures tableCounter == old(tableCounter)
    {
      var k := 0;
      while k < |images|
        invariant 0 <= k <= |images|
        invariant doc + LeftoverDoc(images, k, placed, figureCounter) == old(doc) + LeftoverDoc(images, 0, placed, old(figureCounter))
        invariant figureCounter + 2 * |Leftovers(|images|, k, placed)| == old(figureCounter) + 2 * |Leftovers(|images|, 0, placed)|
        invariant tableCounter == old(tableCounter)
      {
        LeftoverStep(images, k, placed, figureCounter);
        if k !in placed {
          Assoc(doc, FigureBlocks(images[k], "Figure " + NatToString(figureCounter + 1), figureCounter + 2),
                LeftoverDoc(images, k + 1, placed, figureCounter + 2));
          AddLeftover(images[k]);
        }
        k := k + 1;
      }
    }

    /**
     * `generate`: a fresh document, then the front matter, the sections with
     * their figures, the leftover images and the references. It returns
     * `false` exactly when the source raises IndexError; otherwise the
     * document and the counter are those DocxLayout specifies.
     */
    method Generate(paper: StructuredPaper, images: seq<Image>) returns (ok: bool)
      modifies this
      ensures ok <==> !Raises(paper, images)
      ensures ok ==> doc == Document(paper, images) && figureCounter == FinalCounter(paper, images)
    {
      SetupDocument();
      AddTitle(paper.title);
      AddAuthors(paper.authors);
      AddAbstract(paper.abstractText);
      AddKeywords(paper.keywords);
      SetTwoColumn();
      assert doc == FrontMatter(paper);
      var bySection := FiguresBySection(paper.figures);
      ok := AddSections(paper, images, bySection);
      if !ok {
        return;
      }
      var placedIndices := set fig | fig in paper.figures :: fig.index;
      assert placedIndices == PlacedIndices(paper.figures);
      ghost var upToSections := doc;
      AddLeftovers(images, placedIndices);
      ghost var upToLeftovers := doc;
      if paper.references != [] {
        AddReferences(paper.references);
        Assoc(upToLeftovers, [REFERENCES_HEADING], ReferenceEntries(paper.references, 1));
      }
      assert doc == upToLeftovers + ReferencesDoc(paper.references);
    }
  }
}
