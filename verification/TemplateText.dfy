/** From the text of a `resolves to` directive to a template (src/config/compile.rs, `compile_template`). */
module TemplateText {
  import opened Wrappers
  import opened Bits
  import opened Ascii
  import opened Text
  import opened ConfigModel
  import opened ConfigText

  const PLACEHOLDER: string := "%digits%"
  const PLACEHOLDER_DASHED: string := "%digits-dashed%"

  // ---- the template a text denotes ----

  /** A single trailing dot only marks the name as absolute. */
  function StripDot(s: string): string {
    if s != "" && s[|s| - 1] == '.' then s[..|s| - 1] else s
  }

  function DigitsLabel(segment: string, at: nat, width: nat, dashed: bool): FwdLabel
    requires at + width <= |segment|
  {
    var pre, post := segment[..at], segment[at + width..];
    Digits(pre, Lower(pre), post, Lower(post), dashed)
  }

  function LabelOf(segment: string): FwdLabel {
    match Find(Lower(segment), PLACEHOLDER_DASHED)
    case Some(at) => DigitsLabel(segment, at, |PLACEHOLDER_DASHED|, true)
    case None =>
      match Find(Lower(segment), PLACEHOLDER)
      case Some(at) => DigitsLabel(segment, at, |PLACEHOLDER|, false)
      case None => Literal(segment, Lower(segment))
  }

  function LabelsOf(segments: seq<string>): (r: seq<FwdLabel>)
    ensures |r| == |segments|
  {
    seq(|segments|, i requires 0 <= i < |segments| => LabelOf(segments[i]))
  }

  /** The index of the last digits label, if there is one. */
  function LastDigits(labels: seq<FwdLabel>): (r: Option<nat>)
    ensures r.Some? ==> r.value < |labels| && labels[r.value].Digits?
    ensures r.None? ==> forall i :: 0 <= i < |labels| ==> labels[i].Literal?
    ensures r.Some? ==> forall i :: r.value < i < |labels| ==> labels[i].Literal?
  {
    if labels == [] then None
    else if labels[|labels| - 1].Digits? then Some(|labels| - 1)
    else LastDigits(labels[..|labels| - 1])
  }

  lemma LastDigitsAppend(labels: seq<FwdLabel>, l: FwdLabel)
    ensures LastDigits(labels + [l]) == if l.Digits? then Some(|labels|) else LastDigits(labels)
  {
    assert (labels + [l])[..|labels|] == labels;
  }

  function Segments(text: string): (r: seq<string>)
    ensures |r| >= 1
  {
    Split(StripDot(text), '.')
  }

  function TotalHits(text: string): nat {
    Hits(Lower(text), PLACEHOLDER) + Hits(Lower(text), PLACEHOLDER_DASHED)
  }

  function TemplateOf(text: string): FwdTemplate {
    var labels := LabelsOf(Segments(text));
    FwdTemplate(labels, match LastDigits(labels) case None => 0 case Some(i) => i)
  }

  predicate UsesDashes(t: FwdTemplate) {
    t.digitsAt < |t.labels| && t.labels[t.digitsAt].Digits? && t.labels[t.digitsAt].dashed
  }

  /** The template, or what is wrong with the text first. */
  function TemplateVerdict(text: string, hostNibbles: nat): Result<FwdTemplate, ErrorKind> {
    var hits, t := TotalHits(text), TemplateOf(text);
    if hits == 0 then Err(PlaceholderMissing)
    else if hits > 1 then Err(PlaceholderRepeated(hits))
    else if "" in Segments(text) then Err(ResolvesToInvalidName)
    else if UsesDashes(t) && hostNibbles % 4 != 0 then Err(DashedDigitsNotNibbleMultipleOfFour(hostNibbles))
    else if Rendered(t, Repeat('f', Min(hostNibbles, ADDR_NIBBLES))).None? then Err(ForwardNameTooLong)
    else Ok(t)
  }

  // ---- one placeholder in the text is one digits label ----

  lemma StripDotKeeps(s: string, p: string, x: nat)
    requires p != "" && OccursAt(s, p, x) && Without(p, '.')
    ensures OccursAt(StripDot(s), p, x)
  {
    SepNotInside(s, p, x, '.');
    if StripDot(s) != s {
      OccursInPart(s, 0, |s| - 1, p, x);
    }
  }

  lemma LowerStripDot(s: string)
    ensures Lower(StripDot(s)) == StripDot(Lower(s))
  {
    if s != "" {
      assert Lower(s)[|s| - 1] == '.' <==> s[|s| - 1] == '.';
      LowerSlice(s, 0, |s| - 1);
    }
  }

  /** Where a pattern occurs in a folded part of a text, it occurs in the folded text. */
  lemma PartOccurrence(text: string, part: string, o: nat, p: string, y: nat)
    requires o + |part| <= |text| && text[o..o + |part|] == part && OccursAt(Lower(part), p, y)
    ensures OccursAt(Lower(text), p, o + y)
  {
    LowerSlice(text, o, o + |part|);
    OccursInWhole(Lower(text), o, o + |part|, p, y);
  }

  /** Where a pattern occurs in a folded segment, it occurs in the folded text. */
  lemma SegmentOccurrence(text: string, k: nat, p: string, y: nat)
    requires k < |Segments(text)| && OccursAt(Lower(Segments(text)[k]), p, y)
    ensures OccursAt(Lower(text), p, Offset(Segments(text), '.', k) + y)
  {
    var s := StripDot(text);
    SegmentAt(s, '.', k);
    var o, seg := Offset(Segments(text), '.', k), Segments(text)[k];
    SliceOfSlice(text, 0, |s|, o, o + |seg|);
    PartOccurrence(text, seg, o, p, y);
  }

  /** The placeholder a digits label was cut at. */
  function PlaceholderOf(l: FwdLabel): string
    requires l.Digits?
  {
    if l.dashed then PLACEHOLDER_DASHED else PLACEHOLDER
  }

  /** Where a digits label's placeholder stands in the folded text. */
  lemma DigitsOccurrence(text: string, k: nat) returns (x: nat)
    requires k < |Segments(text)| && LabelOf(Segments(text)[k]).Digits?
    ensures var p := PlaceholderOf(LabelOf(Segments(text)[k]));
      && OccursAt(Lower(text), p, x)
      && Offset(Segments(text), '.', k) <= x && x + |p| <= Offset(Segments(text), '.', k) + |Segments(text)[k]|
  {
    var seg := Segments(text)[k];
    var p := PlaceholderOf(LabelOf(seg));
    var y := Find(Lower(seg), p).value;
    SegmentOccurrence(text, k, p, y);
    x := Offset(Segments(text), '.', k) + y;
  }

  lemma BothHit(low: string, p: string, x: nat, q: string, y: nat)
    requires p in {PLACEHOLDER, PLACEHOLDER_DASHED} && q in {PLACEHOLDER, PLACEHOLDER_DASHED}
    requires OccursAt(low, p, x) && OccursAt(low, q, y) && x + |p| <= y
    ensures Hits(low, PLACEHOLDER) + Hits(low, PLACEHOLDER_DASHED) >= 2
  {
    OneHit(low, p, x);
    OneHit(low, q, y);
    if p == q {
      TwoHits(low, p, x, y);
    }
  }

  /** Two digits labels would be two hits. */
  lemma AtMostOneDigits(text: string, i: nat, j: nat)
    requires TotalHits(text) == 1 && i < j < |Segments(text)|
    ensures LabelOf(Segments(text)[i]).Literal? || LabelOf(Segments(text)[j]).Literal?
  {
    var a, b := LabelOf(Segments(text)[i]), LabelOf(Segments(text)[j]);
    if a.Digits? && b.Digits? {
      var x := DigitsOccurrence(text, i);
      var y := DigitsOccurrence(text, j);
      PartsDisjoint(Segments(text), '.', i, j);
      BothHit(Lower(text), PlaceholderOf(a), x, PlaceholderOf(b), y);
    }
  }

  lemma NoDots()
    ensures Without(PLACEHOLDER, '.') && Without(PLACEHOLDER_DASHED, '.')
  {
  }

  /** A hit in the whole text lies within a single label, so some label carries the digits. */
  lemma SomeDigits(text: string) returns (k: nat)
    requires TotalHits(text) >= 1
    ensures k < |Segments(text)| && LabelOf(Segments(text)[k]).Digits?
  {
    var low := Lower(text);
    NoDots();
    var p := if Find(low, PLACEHOLDER).Some? then PLACEHOLDER else PLACEHOLDER_DASHED;
    var x := Find(low, p).value;
    StripDotKeeps(low, p, x);
    LowerStripDot(text);
    SplitLower(StripDot(text), '.');
    var y;
    k, y := OccurrenceInSegment(StripDot(low), '.', p, x);
    assert Split(StripDot(low), '.')[k] == Lower(Segments(text)[k]);
    FindIsFirst(Lower(Segments(text)[k]), p, y);
  }

  /**
    Template splitting is faithful: a text with exactly one hit yields exactly one digits label,
    at `digitsAt`, with every lowered form in step.
   */
  lemma OneHitWellFormed(text: string)
    requires TotalHits(text) == 1
    ensures WellFormed(TemplateOf(text)) && LastDigits(TemplateOf(text).labels) == Some(TemplateOf(text).digitsAt)
  {
    var k := SomeDigits(text);
    var t := TemplateOf(text);
    assert t.labels[k].Digits?;
    LabelsAreValid(Segments(text));
    forall i | 0 <= i < |t.labels| ensures t.labels[i].Digits? <==> i == t.digitsAt {
      if i < t.digitsAt {
        AtMostOneDigits(text, i, t.digitsAt);
      }
    }
  }

  lemma LabelsAreValid(segments: seq<string>)
    ensures forall i :: 0 <= i < |segments| ==> ValidLabel(LabelsOf(segments)[i])
  {
  }

  // ---- rejoining ----

  /** A label with `placeholder` put back where the digits go. */
  function WithPlaceholder(l: FwdLabel, placeholder: string): string {
    match l
    case Literal(verbatim, _) => verbatim
    case Digits(pre, _, post, _, _) => pre + placeholder + post
  }

  function AllWithPlaceholder(labels: seq<FwdLabel>, placeholder: string): (r: seq<string>)
    ensures |r| == |labels|
  {
    seq(|labels|, i requires 0 <= i < |labels| => WithPlaceholder(labels[i], placeholder))
  }

  /** The placeholder as the operator spelled it. */
  function SpelledPlaceholder(text: string): string
    requires TotalHits(text) == 1
  {
    OneHitWellFormed(text);
    var t := TemplateOf(text);
    var l, seg := t.labels[t.digitsAt], Segments(text)[t.digitsAt];
    seg[|l.pre|..|seg| - |l.post|]
  }

  /** Putting the placeholder back and joining the labels gives the text, less one trailing dot. */
  lemma Rejoined(text: string)
    requires TotalHits(text) == 1
    ensures var t, p := TemplateOf(text), SpelledPlaceholder(text);
      && WellFormed(t)
      && EqIgnoreCase(p, PlaceholderOf(t.labels[t.digitsAt]))
      && Join(AllWithPlaceholder(t.labels, p), '.') == StripDot(text)
  {
    OneHitWellFormed(text);
    var t, p := TemplateOf(text), SpelledPlaceholder(text);
    var segs := Segments(text);
    CutAndPasted(segs[t.digitsAt]);
    forall i | 0 <= i < |segs| ensures AllWithPlaceholder(t.labels, p)[i] == segs[i] {
      if i != t.digitsAt {
        assert t.labels[i].Literal?;
      }
    }
    assert AllWithPlaceholder(t.labels, p) == segs;
    JoinSplit(StripDot(text), '.');
  }

  /** A digits label is its segment cut around the placeholder. */
  lemma CutAndPasted(seg: string)
    requires LabelOf(seg).Digits?
    ensures var l := LabelOf(seg);
      && |l.pre| + |l.post| <= |seg|
      && var p := seg[|l.pre|..|seg| - |l.post|];
         l.pre + p + l.post == seg && EqIgnoreCase(p, PlaceholderOf(l))
  {
    var q := PlaceholderOf(LabelOf(seg));
    var at := Find(Lower(seg), q).value;
    LowerSlice(seg, at, at + |q|);
    CutAt(seg, at, |q|);
    PlaceholdersAreLower();
  }

  lemma PlaceholdersAreLower()
    ensures Lower(PLACEHOLDER) == PLACEHOLDER && Lower(PLACEHOLDER_DASHED) == PLACEHOLDER_DASHED
  {
  }

  lemma CutAt(seg: string, at: nat, width: nat)
    requires at + width <= |seg|
    ensures seg[..at] + seg[at..at + width] + seg[at + width..] == seg
  {
  }

  // ---- an accepted text ----

  /** What acceptance of a text guarantees about its template. */
  lemma AcceptedTemplate(text: string, hostNibbles: nat)
    requires hostNibbles <= ADDR_NIBBLES && TemplateVerdict(text, hostNibbles).Ok?
    ensures var t := TemplateOf(text);
      && TemplateVerdict(text, hostNibbles) == Ok(t)
      && ValidTemplate(t, hostNibbles)
      && Parent(t).Some?
      && forall i :: 0 <= i < |t.labels| && i != t.digitsAt ==> t.labels[i].verbatim != ""
  {
    VerdictMeans(text, hostNibbles);
    OneHitWellFormed(text);
    RenderableHasParent(TemplateOf(text), Repeat('f', hostNibbles));
    LiteralsAreSegments(Segments(text));
  }

  lemma VerdictMeans(text: string, hostNibbles: nat)
    requires hostNibbles <= ADDR_NIBBLES && TemplateVerdict(text, hostNibbles).Ok?
    ensures TotalHits(text) == 1 && "" !in Segments(text)
    ensures TemplateVerdict(text, hostNibbles) == Ok(TemplateOf(text))
    ensures UsesDashes(TemplateOf(text)) ==> hostNibbles % 4 == 0
    ensures Rendered(TemplateOf(text), Repeat('f', hostNibbles)).Some?
  {
  }

  lemma LiteralsAreSegments(segments: seq<string>)
    requires "" !in segments
    ensures forall i :: 0 <= i < |segments| && LabelsOf(segments)[i].Literal? ==> LabelsOf(segments)[i].verbatim != ""
  {
  }
}
