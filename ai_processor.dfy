/**
 * The post-processing half of `AIProcessor` (`services/ai_processor.py`):
 * cutting the JSON text out of the language model's reply, repairing the
 * section list, keeping the figures that refer to an uploaded image and
 * filling in a default for every field the reply leaves out.
 * The model call itself and `json.loads` are parameters: the reply is a
 * string, and the decoder maps the cleaned text to a RawPaper (whose fields
 * may each be missing) or to the message of a decoding error.
 */
module AiProcessor {
  import opened Wrappers
  import opened Text
  import opened Schemas

  // ---------------------------------------------------------------------------
  // __init__
  // ---------------------------------------------------------------------------

  const API_KEY_MISSING: string := "GEMINI_API_KEY environment variable is not set"

  /** `settings.GEMINI_API_KEY` is truthy: set, and not the empty string. */
  predicate ApiKeySet(apiKey: Option<string>) {
    apiKey.Some? && apiKey.value != []
  }

  // ---------------------------------------------------------------------------
  // _clean_json_response
  // ---------------------------------------------------------------------------

  const FENCE: string := "```"
  const JSON_TAG: string := "json"

  /** The first position of `c` in `s`. */
  function FirstIndex(s: string, c: char): (r: Option<nat>)
    ensures r.Some? ==> r.value < |s| && s[r.value] == c
    ensures r.Some? ==> forall k :: 0 <= k < r.value ==> s[k] != c
    ensures r.None? ==> c !in s
  {
    if s == [] then None
    else if s[0] == c then Some(0)
    else match FirstIndex(s[1..], c)
      case None => None
      case Some(i) => Some(i + 1)
  }

  /** The last position of `c` in `s`. */
  function LastIndex(s: string, c: char): (r: Option<nat>)
    ensures r.Some? ==> r.value < |s| && s[r.value] == c
    ensures r.Some? ==> forall k :: r.value < k < |s| ==> s[k] != c
    ensures r.None? ==> c !in s
  {
    if s == [] then None
    else if s[|s| - 1] == c then Some(|s| - 1)
    else LastIndex(s[..|s| - 1], c)
  }

  /** Where the text inside a fence opened at `p` starts: after the fence and a `json` tag right behind it. */
  function FencedStart(reply: string, p: nat): (a: nat)
    requires OccursAt(reply, FENCE, p)
    ensures p + |FENCE| <= a <= |reply|
  {
    if OccursAt(reply, JSON_TAG, p + |FENCE|) then p + |FENCE| + |JSON_TAG| else p + |FENCE|
  }

  /**
   * The first fenced block of the reply, stripped: the text after the first
   * fence (and its tag) up to the next fence. None when there is no fence
   * or the first one is never closed.
   */
  function FencedText(reply: string): Option<string> {
    match Find(reply, FENCE, 0)
    case None => None
    case Some(p) =>
      var a := FencedStart(reply, p);
      match Find(reply, FENCE, a)
      case None => None
      case Some(q) => Some(Strip(reply[a..q]))
  }

  /** The text from the first `{` to the last `}`, when that `}` comes after the `{`. */
  function BracedText(reply: string): Option<string> {
    match FirstIndex(reply, '{')
    case None => None
    case Some(b) =>
      match LastIndex(reply, '}')
      case None => None
      case Some(c) => if b < c then Some(reply[b..c + 1]) else None
  }

  /** `_clean_json_response`: the fenced block if there is one, else the braced text, else the reply. */
  function CleanJsonResponse(reply: string): (r: string)
    ensures |r| <= |reply|
  {
    match FencedText(reply)
    case Some(t) => t
    case None =>
      match BracedText(reply)
      case Some(t) => t
      case None => reply
  }

  /** The fence cannot occur where no backtick is. */
  lemma NoFenceBetween(s: string, from: nat, m: nat)
    requires from <= m <= |s|
    requires forall k :: from <= k < m ==> s[k] != '`'
    ensures forall k :: from <= k < m ==> !OccursAt(s, FENCE, k)
  {
    forall k | from <= k < m ensures !OccursAt(s, FENCE, k) {
      if k + |FENCE| <= |s| {
        assert s[k..k + |FENCE|][0] == s[k];
      }
    }
  }

  /** Stripping a line break on either side of already stripped text gives the text back. */
  lemma StripPadded(j: string)
    requires Strip(j) == j
    ensures Strip("\n" + j + "\n") == j
  {
    StripEnds(j);
    var s := "\n" + j + "\n";
    assert s[1..] == j + "\n";
    if j == [] {
      assert s[1..][1..] == [];
      assert LeadingSpace(s) == 2;
    } else {
      assert LeadingSpace(s[1..]) == 0;
      assert TrimStart(s) == j + "\n";
      assert (j + "\n")[..|j|] == j;
      assert TrailingSpace(j + "\n") == 1;
    }
  }

  /** `str.find` of the fence from `from` when the first backtick from there opens one at `m`. */
  lemma FenceAt(s: string, from: nat, m: nat)
    requires from <= m && OccursAt(s, FENCE, m)
    requires forall k :: from <= k < m ==> s[k] != '`'
    ensures Find(s, FENCE, from) == Some(m)
  {
    NoFenceBetween(s, from, m);
    FindFirst(s, FENCE, from, m);
  }

  /** The first fence from `from` on, when the text from there is backtick-free `mid` and then a fence. */
  lemma FenceAfter(s: string, from: nat, mid: string, rest: string, m: nat)
    requires from <= |s| && s[from..] == mid + rest && m == from + |mid|
    requires '`' !in mid && |rest| >= |FENCE| && rest[..|FENCE|] == FENCE
    ensures Find(s, FENCE, from) == Some(m)
    ensures s[from..m] == mid
  {
    assert forall k :: from <= k < m ==> s[k] == s[from..][k - from] == mid[k - from];
    assert s[m..m + |FENCE|] == s[from..][|mid|..|mid| + |FENCE|] == rest[..|FENCE|];
    FenceAt(s, from, m);
  }

  /** JSON text `j` in a ```json code block, on lines of its own. */
  function FencedBlock(j: string): string {
    FENCE + JSON_TAG + "\n" + j + "\n" + FENCE
  }

  lemma FencedBlockParts(j: string)
    ensures var b := FencedBlock(j);
      && |b| == |j| + 12
      && b[..3] == FENCE && b[3..7] == JSON_TAG
      && b[7..|j| + 9] == "\n" + j + "\n" && b[|j| + 9..] == FENCE
  {
  }

  /** What CleanJsonResponse returns once both fences are found. */
  lemma FencedResult(reply: string, p: nat, a: nat, q: nat, j: string)
    requires Find(reply, FENCE, 0) == Some(p) && FencedStart(reply, p) == a
    requires Find(reply, FENCE, a) == Some(q) && Strip(reply[a..q]) == j
    ensures CleanJsonResponse(reply) == j
  {
  }

  /** The opening fence of the block is the reply's first fence. */
  lemma FencedOpening(pre: string, j: string, post: string)
    requires '`' !in pre
    ensures Find(pre + FencedBlock(j) + post, FENCE, 0) == Some(|pre|)
  {
    var block := FencedBlock(j);
    var reply := pre + block + post;
    FencedBlockParts(j);
    assert reply[0..] == pre + (block + post);
    assert (block + post)[..3] == FENCE;
    FenceAfter(reply, 0, pre, block + post, |pre|);
  }

  /** The `json` tag after the opening fence is skipped, leaving the padded text and the closing fence. */
  lemma FencedTag(pre: string, j: string, post: string, a: nat)
    requires a == |pre| + 7
    ensures var reply := pre + FencedBlock(j) + post;
      && OccursAt(reply, FENCE, |pre|)
      && FencedStart(reply, |pre|) == a
      && reply[a..] == ("\n" + j + "\n") + (FENCE + post)
  {
    var block := FencedBlock(j);
    var reply := pre + block + post;
    var p := |pre|;
    FencedBlockParts(j);
    assert reply[p..p + |block|] == block;
    assert reply[p..p + 3] == FENCE;
    assert reply[p + 3..p + 7] == JSON_TAG;
    assert reply[a..] == block[7..] + post;
  }

  lemma NoBacktickPadded(j: string)
    requires '`' !in j
    ensures '`' !in "\n" + j + "\n"
  {
  }

  /** A reply holding a ```json block gives back exactly the block's text, whatever follows it. */
  lemma FencedRoundTrip(pre: string, j: string, post: string)
    requires '`' !in pre && '`' !in j && Strip(j) == j
    ensures CleanJsonResponse(pre + FencedBlock(j) + post) == j
  {
    var reply := pre + FencedBlock(j) + post;
    var inner := "\n" + j + "\n";
    var a := |pre| + 7;
    var q := a + |inner|;
    FencedOpening(pre, j, post);
    FencedTag(pre, j, post, a);
    NoBacktickPadded(j);
    FenceAfter(reply, a, inner, FENCE + post, q);
    StripPadded(j);
    FencedResult(reply, |pre|, a, q, j);
  }

  /** A reply without fences gives back the object from its first `{` to its last `}`. */
  lemma BracedRoundTrip(pre: string, j: string, post: string)
    requires '`' !in pre + j + post
    requires '{' !in pre && '}' !in post
    requires |j| >= 2 && j[0] == '{' && j[|j| - 1] == '}'
    ensures CleanJsonResponse(pre + j + post) == j
  {
    var reply := pre + j + post;
    NoFenceBetween(reply, 0, |reply|);
    assert Find(reply, FENCE, 0) == None;
    var b := |pre|;
    var c := |pre| + |j| - 1;
    assert reply[b] == '{' && reply[c] == '}';
    assert forall k :: 0 <= k < b ==> reply[k] == pre[k];
    assert FirstIndex(reply, '{') == Some(b);
    assert forall k :: c < k < |reply| ==> reply[k] == post[k - |pre| - |j|];
    assert LastIndex(reply, '}') == Some(c);
    assert reply[b..c + 1] == j;
  }

  /** The fence at `p` is the first in the reply. */
  predicate FirstFence(reply: string, p: nat) {
    OccursAt(reply, FENCE, p) && forall k :: 0 <= k < p ==> !OccursAt(reply, FENCE, k)
  }

  /** No fenced block is closed: the reply has no fence, or nothing closes its first one. */
  predicate NoFencedBlock(reply: string) {
    forall p, q :: 0 <= p < |reply| && FirstFence(reply, p) && FencedStart(reply, p) <= q < |reply| ==>
      !OccursAt(reply, FENCE, q)
  }

  /** Where no fenced block is closed, the fence search comes up empty. */
  lemma NoFencedBlockText(reply: string)
    requires NoFencedBlock(reply)
    ensures FencedText(reply) == None
  {
    match Find(reply, FENCE, 0)
    case None =>
    case Some(p) =>
      assert FirstFence(reply, p);
  }

  /**
   * Any reply whose first fence opens at `p` and whose next fence after the
   * opening (and its `json` tag) is at `q` gives back the text between them, stripped.
   */
  lemma CleanFenced(reply: string, p: nat, q: nat)
    requires FirstFence(reply, p)
    requires FencedStart(reply, p) <= q && OccursAt(reply, FENCE, q)
    requires forall k :: FencedStart(reply, p) <= k < q ==> !OccursAt(reply, FENCE, k)
    ensures CleanJsonResponse(reply) == Strip(reply[FencedStart(reply, p)..q])
  {
    FindFirst(reply, FENCE, 0, p);
    FindFirst(reply, FENCE, FencedStart(reply, p), q);
  }

  /**
   * Any reply without a closed fenced block whose first `{` at `b` comes
   * before its last `}` at `c` gives back `reply[b..c + 1]`.
   */
  lemma CleanBraced(reply: string, b: nat, c: nat)
    requires NoFencedBlock(reply)
    requires b < c < |reply| && reply[b] == '{' && reply[c] == '}'
    requires forall k :: 0 <= k < b ==> reply[k] != '{'
    requires forall k :: c < k < |reply| ==> reply[k] != '}'
    ensures CleanJsonResponse(reply) == reply[b..c + 1]
  {
    NoFencedBlockText(reply);
    assert FirstIndex(reply, '{') == Some(b);
    assert LastIndex(reply, '}') == Some(c);
  }

  /** A reply without a closed fenced block and with no `}` after any `{` is returned as it is. */
  lemma CleanUnchanged(reply: string)
    requires NoFencedBlock(reply)
    requires forall k, l :: 0 <= k < l < |reply| && reply[k] == '{' ==> reply[l] != '}'
    ensures CleanJsonResponse(reply) == reply
  {
    NoFencedBlockText(reply);
    match FirstIndex(reply, '{')
    case None =>
    case Some(b) =>
      match LastIndex(reply, '}')
      case None =>
      case Some(c) =>
        assert !(b < c);
  }

  // ---------------------------------------------------------------------------
  // _validate_and_fix_sections
  // ---------------------------------------------------------------------------

  const UNTITLED_SECTION: string := "Untitled Section"
  const INTRODUCTION_HEADING: string := "Introduction"
  const INTRODUCTION_CONTENT: string :=
    "This paper presents the research and findings discussed in the following sections."
  const CONCLUSION_HEADING: string := "Conclusion"
  const CONCLUSION_CONTENT: string :=
    "This paper has presented the key findings and contributions of the research."
  const DEFAULT_INTRODUCTION: Section := Section(INTRODUCTION_HEADING, INTRODUCTION_CONTENT)
  const DEFAULT_CONCLUSION: Section := Section(CONCLUSION_HEADING, CONCLUSION_CONTENT)

  /** A raw section is kept when its content is present and not empty. */
  predicate HasContent(r: RawSection) {
    r.content.GetOr("") != []
  }

  /** The section a raw one becomes, `Untitled Section` standing in for a missing heading. */
  function AsSection(r: RawSection): Section {
    Section(r.heading.GetOr(UNTITLED_SECTION), r.content.GetOr(""))
  }

  /** The raw sections that have content, in their order. */
  function Kept(raws: seq<RawSection>): seq<Section> {
    if raws == [] then []
    else
      var last := raws[|raws| - 1];
      Kept(raws[..|raws| - 1]) + (if HasContent(last) then [AsSection(last)] else [])
  }

  /** Some section's heading is `name` when lower-cased. */
  predicate HasHeading(sections: seq<Section>, name: string) {
    exists i :: 0 <= i < |sections| && Lower(sections[i].heading) == name
  }

  /**
   * The repaired section list: the kept sections, with the default
   * Introduction put in front and the default Conclusion put at the end when
   * none is there; nothing at all when no section has content.
   */
  function FixSections(raws: seq<RawSection>): seq<Section> {
    Repair(Kept(raws))
  }

  /** The kept sections with the required ones added; an empty list stays empty. */
  function Repair(kept: seq<Section>): seq<Section> {
    if kept == [] then [] else FrontFix(kept) + kept + BackFix(kept)
  }

  /** `_validate_and_fix_sections` */
  method ValidateAndFixSections(sections: seq<RawSection>) returns (validated: seq<Section>)
    ensures validated == FixSections(sections)
  {
    validated := [];
    for i := 0 to |sections|
      invariant validated == Kept(sections[..i])
    {
      var heading := sections[i].heading.GetOr(UNTITLED_SECTION);
      var content := sections[i].content.GetOr("");
      if content != [] {
        validated := validated + [Section(heading, content)];
      }
      assert sections[..i + 1][..i] == sections[..i];
    }
    assert sections[..|sections|] == sections;
    var hasIntro := HasHeading(validated, "introduction");
    var hasConclusion := HasHeading(validated, "conclusion");
    if !hasIntro && validated != [] {
      validated := [DEFAULT_INTRODUCTION] + validated;
    }
    if !hasConclusion && validated != [] {
      validated := validated + [DEFAULT_CONCLUSION];
    }
  }

  /** A section is kept exactly when it comes from a raw section with content. */
  lemma {:induction false} KeptMembers(raws: seq<RawSection>)
    ensures forall s :: s in Kept(raws) <==>
      exists i :: 0 <= i < |raws| && HasContent(raws[i]) && s == AsSection(raws[i])
    ensures forall i :: 0 <= i < |raws| && HasContent(raws[i]) ==> AsSection(raws[i]) in Kept(raws)
    ensures forall s :: s in Kept(raws) ==> s.content != []
    decreases |raws|
  {
    if raws != [] {
      var init := raws[..|raws| - 1];
      KeptMembers(init);
      forall s | s in Kept(raws)
        ensures exists i :: 0 <= i < |raws| && HasContent(raws[i]) && s == AsSection(raws[i])
      {
        if s in Kept(init) {
          var i :| 0 <= i < |init| && HasContent(init[i]) && s == AsSection(init[i]);
          assert raws[i] == init[i];
        } else {
          assert HasContent(raws[|raws| - 1]) && s == AsSection(raws[|raws| - 1]);
        }
      }
      forall i | 0 <= i < |raws| && HasContent(raws[i]) ensures AsSection(raws[i]) in Kept(raws) {
        if i < |init| {
          assert raws[i] == init[i];
        }
      }
    }
  }

  /** The repaired list is empty exactly when no raw section has content. */
  lemma FixSectionsEmpty(raws: seq<RawSection>)
    ensures FixSections(raws) == [] <==> forall i :: 0 <= i < |raws| ==> !HasContent(raws[i])
  {
    var kept := Kept(raws);
    KeptMembers(raws);
    if kept != [] {
      assert kept[0] in kept;
      FixSectionsLayout(raws);
    }
  }

  lemma LowerIntroduction()
    ensures Lower(INTRODUCTION_HEADING) == "introduction"
  {
    var tail := "ntroduction";
    assert INTRODUCTION_HEADING == "I" + tail;
    assert "introduction" == "i" + tail;
    LowerNoUpper(tail);
    LowerAppend("I", tail);
  }

  lemma LowerConclusion()
    ensures Lower(CONCLUSION_HEADING) == "conclusion"
  {
    var tail := "onclusion";
    assert CONCLUSION_HEADING == "C" + tail;
    assert "conclusion" == "c" + tail;
    LowerNoUpper(tail);
    LowerAppend("C", tail);
  }

  /** The Introduction put in front when the kept sections have none. */
  function FrontFix(kept: seq<Section>): seq<Section> {
    if HasHeading(kept, "introduction") then [] else [DEFAULT_INTRODUCTION]
  }

  /** The Conclusion put at the end when the kept sections have none. */
  function BackFix(kept: seq<Section>): seq<Section> {
    if HasHeading(kept, "conclusion") then [] else [DEFAULT_CONCLUSION]
  }

  lemma HasHeadingAppend(a: seq<Section>, b: seq<Section>, name: string)
    ensures HasHeading(a, name) || HasHeading(b, name) ==> HasHeading(a + b, name)
  {
    if HasHeading(a, name) {
      var i :| 0 <= i < |a| && Lower(a[i].heading) == name;
      assert (a + b)[i] == a[i];
    } else if HasHeading(b, name) {
      var i :| 0 <= i < |b| && Lower(b[i].heading) == name;
      assert (a + b)[|a| + i] == b[i];
    }
  }

  /**
   * A non-empty repaired list holds the kept sections, unchanged and in
   * order, after the default Introduction when they have none and before the
   * default Conclusion when they have none; so it is at most two longer.
   */
  lemma FixSectionsLayout(raws: seq<RawSection>)
    ensures var kept := Kept(raws);
      var r := FixSections(raws);
      var front := if HasHeading(kept, "introduction") then 0 else 1;
      var back := if HasHeading(kept, "conclusion") then 0 else 1;
      kept != [] ==>
        && |r| == front + |kept| + back
        && r[front..front + |kept|] == kept
        && (front == 1 ==> r[0] == DEFAULT_INTRODUCTION)
        && (back == 1 ==> r[|r| - 1] == DEFAULT_CONCLUSION)
  {
    var kept := Kept(raws);
    if kept != [] {
      var front := FrontFix(kept);
      assert FixSections(raws)[|front|..|front| + |kept|] == kept;
    }
  }

  /** A non-empty repaired list has both an Introduction and a Conclusion. */
  lemma FixSectionsRequired(raws: seq<RawSection>)
    ensures var r := FixSections(raws);
      r != [] ==> HasHeading(r, "introduction") && HasHeading(r, "conclusion")
  {
    var kept := Kept(raws);
    if kept != [] {
      var front := FrontFix(kept);
      var back := BackFix(kept);
      LowerIntroduction();
      LowerConclusion();
      assert front != [] ==> front[0] == DEFAULT_INTRODUCTION;
      assert back != [] ==> back[0] == DEFAULT_CONCLUSION;
      HasHeadingAppend(front, kept, "introduction");
      HasHeadingAppend(front + kept, back, "introduction");
      HasHeadingAppend(front, kept, "conclusion");
      HasHeadingAppend(front + kept, back, "conclusion");
    }
  }

  /** The sections as the reply would carry them, every field present. */
  function AsRaw(sections: seq<Section>): seq<RawSection> {
    if sections == [] then []
    else
      var last := sections[|sections| - 1];
      AsRaw(sections[..|sections| - 1]) + [RawSection(Some(last.heading), Some(last.content))]
  }

  predicate AllHaveContent(sections: seq<Section>) {
    forall i :: 0 <= i < |sections| ==> sections[i].content != []
  }

  /** Sections that all have content are kept as they are. */
  lemma {:induction false} KeptAsRaw(sections: seq<Section>)
    requires AllHaveContent(sections)
    ensures Kept(AsRaw(sections)) == sections
    decreases |sections|
  {
    if sections != [] {
      var init := sections[..|sections| - 1];
      KeptAsRaw(init);
      var raws := AsRaw(sections);
      assert raws[..|raws| - 1] == AsRaw(init);
      assert init + [sections[|sections| - 1]] == sections;
    }
  }

  lemma DefaultContents()
    ensures INTRODUCTION_CONTENT != [] && CONCLUSION_CONTENT != []
  {
  }

  /** Every section of the repaired list has content. */
  lemma FixSectionsHaveContent(raws: seq<RawSection>)
    ensures AllHaveContent(FixSections(raws))
  {
    var kept := Kept(raws);
    if kept != [] {
      KeptMembers(raws);
      assert forall i :: 0 <= i < |kept| ==> kept[i] in kept;
      DefaultContents();
      var front := FrontFix(kept);
      var back := BackFix(kept);
      assert AllHaveContent(front) && AllHaveContent(kept) && AllHaveContent(back);
      assert AllHaveContent(front + kept);
    }
  }

  /** Kept sections that already have an Introduction and a Conclusion are left as they are. */
  lemma RepairComplete(kept: seq<Section>)
    requires HasHeading(kept, "introduction") && HasHeading(kept, "conclusion")
    ensures Repair(kept) == kept
  {
    assert FrontFix(kept) == [] && BackFix(kept) == [];
  }

  /** Repairing an already repaired list changes nothing. */
  lemma FixSectionsIdempotent(raws: seq<RawSection>)
    ensures FixSections(AsRaw(FixSections(raws))) == FixSections(raws)
  {
    var r := FixSections(raws);
    if r != [] {
      FixSectionsHaveContent(raws);
      KeptAsRaw(r);
      FixSectionsRequired(raws);
      RepairComplete(r);
    }
  }

  // ---------------------------------------------------------------------------
  // The figure filter of process_content
  // ---------------------------------------------------------------------------

  const FIGURE_CAPTION_PREFIX: string := "Figure "
  const DEFAULT_PLACEMENT: string := "Introduction"

  /** A figure is kept when its index, 0 when missing, is below the number of images. */
  predicate FigureKept(r: RawFigure, imageCount: int) {
    r.index.GetOr(0) < imageCount
  }

  /** The placement a figure without one gets: the first section's heading. */
  function DefaultPlacement(sections: seq<Section>): string {
    if sections != [] then sections[0].heading else DEFAULT_PLACEMENT
  }

  /** The figure a raw one becomes, with the default caption `Figure <index + 1>`. */
  function AsFigure(r: RawFigure, placement: string): Figure {
    var index := r.index.GetOr(0);
    Figure(index, r.caption.GetOr(DefaultCaptionOf(index)), r.placement.GetOr(placement))
  }

  /** `f"Figure {index + 1}"` */
  function DefaultCaptionOf(index: int): string {
    FIGURE_CAPTION_PREFIX + IntToString(index + 1)
  }

  function KeptFigures(raws: seq<RawFigure>, imageCount: int, placement: string): seq<Figure> {
    if raws == [] then []
    else
      var last := raws[|raws| - 1];
      KeptFigures(raws[..|raws| - 1], imageCount, placement)
        + (if FigureKept(last, imageCount) then [AsFigure(last, placement)] else [])
  }

  /** The loop over `paper_data["figures"]` in `process_content`. */
  method FilterFigures(raws: seq<RawFigure>, imageCount: int, sections: seq<Section>)
    returns (figures: seq<Figure>)
    ensures figures == KeptFigures(raws, imageCount, DefaultPlacement(sections))
  {
    figures := [];
    for i := 0 to |raws|
      invariant figures == KeptFigures(raws[..i], imageCount, DefaultPlacement(sections))
    {
      var index := raws[i].index.GetOr(0);
      if index < imageCount {
        var placement := if sections != [] then sections[0].heading else DEFAULT_PLACEMENT;
        figures := figures + [Figure(
          index,
          raws[i].caption.GetOr(DefaultCaptionOf(index)),
          raws[i].placement.GetOr(placement))];
      }
      assert raws[..i + 1][..i] == raws[..i];
    }
    assert raws[..|raws|] == raws;
  }

  /** Every kept figure comes from a raw figure whose index is below the image count. */
  lemma {:induction false} KeptFiguresSound(raws: seq<RawFigure>, imageCount: int, placement: string)
    ensures forall f :: f in KeptFigures(raws, imageCount, placement) ==>
      exists i :: 0 <= i < |raws| && FigureKept(raws[i], imageCount) && f == AsFigure(raws[i], placement)
    decreases |raws|
  {
    if raws != [] {
      var init := raws[..|raws| - 1];
      KeptFiguresSound(init, imageCount, placement);
      forall f | f in KeptFigures(raws, imageCount, placement)
        ensures exists i :: 0 <= i < |raws| && FigureKept(raws[i], imageCount) && f == AsFigure(raws[i], placement)
      {
        if f in KeptFigures(init, imageCount, placement) {
          var i :| 0 <= i < |init| && FigureKept(init[i], imageCount) && f == AsFigure(init[i], placement);
          assert raws[i] == init[i];
        } else {
          assert f == AsFigure(raws[|raws| - 1], placement);
        }
      }
    }
  }

  /** Every raw figure whose index is below the image count is kept. */
  lemma {:induction false} KeptFiguresComplete(raws: seq<RawFigure>, imageCount: int, placement: string)
    ensures forall i :: 0 <= i < |raws| && FigureKept(raws[i], imageCount) ==>
      AsFigure(raws[i], placement) in KeptFigures(raws, imageCount, placement)
    decreases |raws|
  {
    if raws != [] {
      var init := raws[..|raws| - 1];
      KeptFiguresComplete(init, imageCount, placement);
      forall i | 0 <= i < |raws| && FigureKept(raws[i], imageCount)
        ensures AsFigure(raws[i], placement) in KeptFigures(raws, imageCount, placement)
      {
        if i < |init| {
          assert raws[i] == init[i];
        }
      }
    }
  }

  /** A figure is kept exactly when it comes from a raw figure whose index is below the image count. */
  lemma KeptFiguresMembers(raws: seq<RawFigure>, imageCount: int, placement: string)
    ensures forall f :: f in KeptFigures(raws, imageCount, placement) <==>
      exists i :: 0 <= i < |raws| && FigureKept(raws[i], imageCount) && f == AsFigure(raws[i], placement)
  {
    KeptFiguresSound(raws, imageCount, placement);
    KeptFiguresComplete(raws, imageCount, placement);
  }

  /** Every kept figure refers to an index below the image count (negative ones included). */
  lemma KeptFiguresBelow(raws: seq<RawFigure>, imageCount: int, placement: string)
    ensures forall f :: f in KeptFigures(raws, imageCount, placement) ==> f.index < imageCount
  {
    KeptFiguresSound(raws, imageCount, placement);
    forall f | f in KeptFigures(raws, imageCount, placement) ensures f.index < imageCount {
      var i :| 0 <= i < |raws| && FigureKept(raws[i], imageCount) && f == AsFigure(raws[i], placement);
    }
  }

  /** A figure without a caption is captioned with its one-based number, which reads back as `index + 1`. */
  lemma DefaultCaption(r: RawFigure, placement: string)
    requires r.caption.None?
    ensures var f := AsFigure(r, placement);
      && f.caption[..|FIGURE_CAPTION_PREFIX|] == FIGURE_CAPTION_PREFIX
      && IntValue(f.caption[|FIGURE_CAPTION_PREFIX|..]) == f.index + 1
  {
    var f := AsFigure(r, placement);
    var digits := IntToString(f.index + 1);
    assert f.caption[|FIGURE_CAPTION_PREFIX|..] == digits;
    IntToStringRoundTrip(f.index + 1);
  }

  // ---------------------------------------------------------------------------
  // process_content
  // ---------------------------------------------------------------------------

  const DEFAULT_TITLE: string := "Untitled Research Paper"
  const DEFAULT_ABSTRACT: string := "Abstract not generated."
  const DEFAULT_KEYWORDS: seq<string> := ["research", "study", "analysis"]

  /** The paper built from a decoded reply, each missing field replaced by its default. */
  function PaperFromReply(data: RawPaper, imageCount: int): StructuredPaper {
    var sections := FixSections(data.sections.GetOr([]));
    StructuredPaper(
      title := data.title.GetOr(DEFAULT_TITLE),
      authors := data.authors.GetOr(DEFAULT_AUTHORS),
      abstractText := data.abstractText.GetOr(DEFAULT_ABSTRACT),
      keywords := data.keywords.GetOr(DEFAULT_KEYWORDS),
      sections := sections,
      figures := KeptFigures(data.figures.GetOr([]), imageCount, DefaultPlacement(sections)),
      references := data.references.GetOr([]))
  }

  /** The start of the ValueError raised when the cleaned reply is not valid JSON. */
  const JSON_ERROR_PREFIX: string := "Failed to parse AI response as JSON: "

  /**
   * `process_content` after the model has replied: clean the reply, decode
   * it with `decode` (standing for `json.loads`, which either gives the
   * object or fails with a message), then repair and fill in. A decoding
   * failure becomes the ValueError's message.
   */
  method ProcessContent(reply: string, decode: string -> Result<RawPaper, string>, imageCount: int)
    returns (r: Result<StructuredPaper, string>)
    ensures r.Err? <==> decode(CleanJsonResponse(reply)).Err?
    ensures r.Err? ==> r.error == JSON_ERROR_PREFIX + decode(CleanJsonResponse(reply)).error
    ensures r.Ok? ==> r.value == PaperFromReply(decode(CleanJsonResponse(reply)).value, imageCount)
  {
    var cleanJson := CleanJsonResponse(reply);
    var decoded := decode(cleanJson);
    if decoded.Err? {
      return Err(JSON_ERROR_PREFIX + decoded.error);
    }
    var data := decoded.value;
    var sections := ValidateAndFixSections(data.sections.GetOr([]));
    var figures := FilterFigures(data.figures.GetOr([]), imageCount, sections);
    var paper := StructuredPaper(
      title := data.title.GetOr(DEFAULT_TITLE),
      authors := data.authors.GetOr(DEFAULT_AUTHORS),
      abstractText := data.abstractText.GetOr(DEFAULT_ABSTRACT),
      keywords := data.keywords.GetOr(DEFAULT_KEYWORDS),
      sections := sections,
      figures := figures,
      references := data.references.GetOr([]));
    return Ok(paper);
  }

  /**
   * What the paper promises whatever the reply held: every figure points
   * below the image count, and the sections are either none or include an
   * Introduction and a Conclusion.
   */
  lemma PaperFromReplyFacts(data: RawPaper, imageCount: int)
    ensures var paper := PaperFromReply(data, imageCount);
      && (forall f :: f in paper.figures ==> f.index < imageCount)
      && (paper.sections == [] || (HasHeading(paper.sections, "introduction") && HasHeading(paper.sections, "conclusion")))
  {
    var raws := data.sections.GetOr([]);
    KeptFiguresBelow(data.figures.GetOr([]), imageCount, DefaultPlacement(FixSections(raws)));
    FixSectionsRequired(raws);
  }
}
