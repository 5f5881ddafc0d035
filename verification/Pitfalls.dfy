/**
  Configurations the compiler accepts although their names are ambiguous or run too long: two
  spellings of one pattern, a digit that can be read as prefix or as host, and the label `*`.
 */
module Pitfalls {
  import opened Wrappers
  import opened Bits
  import opened Ascii
  import opened Names
  import opened Nibble
  import opened ConfigModel
  import opened ConfigText
  import opened Text
  import opened TemplateText
  import opened ConfigCompile
  import opened CompileFacts
  import opened Lookup
  import opened Synth
  import opened RoundTrip
  import opened Resolution
  import opened Ambiguity
  import opened Served

  lemma VerdictExact(text: string, n: nat)
    requires n <= ADDR_NIBBLES
    ensures TemplateVerdict(text, n).Ok? <==>
      && TotalHits(text) == 1 && "" !in Segments(text)
      && (UsesDashes(TemplateOf(text)) ==> n % 4 == 0)
      && Rendered(TemplateOf(text), Repeat('f', n)).Some?
    ensures TemplateVerdict(text, n).Ok? ==> TemplateVerdict(text, n) == Ok(TemplateOf(text))
  {
  }

  // ---- one pattern, with and without a trailing dot ----

  lemma {:induction false} FindDot(s: string, p: string)
    requires p != "" && Without(p, '.')
    ensures Find(s + ".", p) == Find(s, p)
  {
    var dotted := s + ".";
    if |p| == |s| + 1 {
      assert dotted[|s|] == '.' && dotted[..|p|] == dotted;
      assert p[|s|] != '.';
    }
    if |p| <= |s| {
      assert dotted[..|p|] == s[..|p|];
    }
    if s != "" {
      assert dotted[1..] == s[1..] + ".";
      FindDot(s[1..], p);
    } else {
      assert dotted[1..] == "";
    }
  }

  /** Counting goes on behind the first hit. */
  lemma HitsFrom(s: string, t: string, p: string, restS: string, restT: string)
    requires p != "" && Find(s, p).Some? && Find(t, p).Some?
    requires restS == s[Find(s, p).value + |p|..] && restT == t[Find(t, p).value + |p|..]
    requires Hits(restS, p) == Hits(restT, p)
    ensures Hits(s, p) == Hits(t, p)
  {
    HitsUnfold(s, p, Hits(s, p), Hits(restS, p));
    HitsUnfold(t, p, Hits(t, p), Hits(restT, p));
  }

  lemma {:induction false} HitsDot(s: string, p: string)
    requires p != "" && Without(p, '.')
    ensures Hits(s + ".", p) == Hits(s, p)
  {
    FindDot(s, p);
    if Find(s, p).Some? {
      var i := Find(s, p).value + |p|;
      HitsDot(s[i..], p);
      assert (s + ".")[i..] == s[i..] + ".";
      HitsFrom(s, s + ".", p, s[i..], (s + ".")[i..]);
    }
  }

  predicate EndsInDot(text: string) {
    text != "" && text[|text| - 1] == '.'
  }

  /** A trailing dot changes neither the verdict on a text nor the template it denotes. */
  lemma DotIsIgnored(text: string, n: nat)
    requires !EndsInDot(text)
    ensures TemplateVerdict(text + ".", n) == TemplateVerdict(text, n)
    ensures TemplateOf(text + ".") == TemplateOf(text)
  {
    assert StripDot(text + ".") == text == StripDot(text);
    TotalHitsDot(text);
  }

  lemma TotalHitsDot(text: string)
    ensures TotalHits(text + ".") == TotalHits(text)
  {
    LowerConcat(text, ".");
    assert Lower(".") == ".";
    NoDots();
    HitsDot(Lower(text), PLACEHOLDER);
    HitsDot(Lower(text), PLACEHOLDER_DASHED);
  }

  lemma AgreeWithItself(cells: seq<Cell>)
    ensures AgreeAll(cells, cells)
  {
  }

  /** Zones of one prefix length with one template answer to the same names. */
  lemma SameTemplateOverlaps(v: Zone, w: Zone)
    requires v.fwd == w.fwd && v.hostNibbles == w.hostNibbles
    ensures Overlap(v, w)
  {
    forall i | 0 <= i < |v.fwd.labels| ensures AgreeAll(Pattern(v.fwd.labels[i], v.hostNibbles), Pattern(w.fwd.labels[i], w.hostNibbles)) {
      AgreeWithItself(Pattern(v.fwd.labels[i], v.hostNibbles));
    }
  }

  /**
    The duplicate check compares the texts as written. Two blocks with the same pattern are
    refused; put a trailing dot behind one of the patterns and they are accepted, although the
    template is the same one, so that zones of one prefix length answer to the same names.
   */
  lemma DotEscapesCheck(env: Parsers, a: RawZone, b: RawZone, dotted: RawValue, v: Zone, w: Zone)
    requires Alone(env, a) == Ok(v) && Alone(env, b) == Ok(w)
    requires v.resolvesTo == w.resolvesTo && (v.prefix, v.mask) != (w.prefix, w.mask)
    requires !EndsInDot(w.resolvesTo) && dotted.value == w.resolvesTo + "."
    ensures !Acceptable(env, [a, b])
    ensures Acceptable(env, [a, b.(resolvesTo := Some(dotted))])
    ensures Alone(env, b.(resolvesTo := Some(dotted))) == Ok(w.(resolvesTo := dotted.value))
    ensures v.fwd == w.fwd && (v.mask == w.mask ==> Overlap(v, w.(resolvesTo := dotted.value)))
  {
    var b' := b.(resolvesTo := Some(dotted));
    DottedAlone(env, b, dotted, w);
    assert |Lower(v.resolvesTo)| != |Lower(dotted.value)|;
    TwoBlocks(env, a, b, v, w);
    TwoBlocks(env, a, b', v, w.(resolvesTo := dotted.value));
    AloneTemplate(env, a, v);
    AloneTemplate(env, b, w);
    if v.mask == w.mask {
      SameTemplateOverlaps(v, w.(resolvesTo := dotted.value));
    }
  }

  lemma AloneTemplate(env: Parsers, raw: RawZone, z: Zone)
    requires Alone(env, raw) == Ok(z)
    ensures z.fwd == TemplateOf(z.resolvesTo) && z.hostNibbles == HostNibbles(z.mask)
    ensures raw.resolvesTo.Some? && z.resolvesTo == raw.resolvesTo.value.value
    ensures NetworkVerdict(env, raw.network) == Ok((z.prefix, z.mask))
    ensures BlockVerdict(env, raw, z.prefix, z.mask, map[]) == Ok(z)
  {
  }

  lemma DottedAlone(env: Parsers, b: RawZone, dotted: RawValue, w: Zone)
    requires Alone(env, b) == Ok(w)
    requires !EndsInDot(w.resolvesTo) && dotted.value == w.resolvesTo + "."
    ensures Alone(env, b.(resolvesTo := Some(dotted))) == Ok(w.(resolvesTo := dotted.value))
  {
    AloneTemplate(env, b, w);
    DotIsIgnored(w.resolvesTo, HostNibbles(w.mask));
    DottedBlock(env, b, dotted, w.prefix, w.mask);
  }

  lemma DottedBlock(env: Parsers, b: RawZone, dotted: RawValue, prefix: u128, mask: nat)
    requires BlockVerdict(env, b, prefix, mask, map[]).Ok? && b.resolvesTo.Some?
    requires var t := b.resolvesTo.value.value;
      && TemplateVerdict(dotted.value, HostNibbles(mask)) == TemplateVerdict(t, HostNibbles(mask))
      && TemplateOf(dotted.value) == TemplateOf(t)
    ensures BlockVerdict(env, b.(resolvesTo := Some(dotted)), prefix, mask, map[])
         == Ok(BlockVerdict(env, b, prefix, mask, map[]).value.(resolvesTo := dotted.value))
  {
  }

  lemma TwoBlocks(env: Parsers, a: RawZone, b: RawZone, v: Zone, w: Zone)
    requires Alone(env, a) == Ok(v) && Alone(env, b) == Ok(w)
    ensures AllRight(env, [a, b]) && BlockZones(env, [a, b]) == [v, w]
    ensures Acceptable(env, [a, b]) <==> !Clash(v, w)
  {
    PairRight(env, a, b);
    PairZones(env, a, b);
    PairClash(v, w);
  }

  lemma PairRight(env: Parsers, a: RawZone, b: RawZone)
    requires Alone(env, a).Ok? && Alone(env, b).Ok?
    ensures AllRight(env, [a, b])
  {
    var raws := [a, b];
    assert raws[0] == a && raws[1] == b;
    forall i | 0 <= i < |raws| ensures Alone(env, raws[i]).Ok? {
    }
  }

  lemma PairZones(env: Parsers, a: RawZone, b: RawZone)
    requires AllRight(env, [a, b])
    ensures Alone(env, a).Ok? && Alone(env, b).Ok? && BlockZones(env, [a, b]) == [Alone(env, a).value, Alone(env, b).value]
  {
    assert [a, b][0] == a && [a, b][1] == b;
  }

  lemma PairClash(v: Zone, w: Zone)
    ensures NoClash([v, w]) <==> !Clash(v, w)
  {
    assert [v, w][0] == v && [v, w][1] == w;
  }

  // ---- a digit that is prefix to one zone and host to another ----

  /**
    Where one template has `k` more hex digits in front of the placeholder and the other zone has
    `k` more host digits, the two answer to common names.
   */
  lemma AbsorbedDigitsOverlap(v: Zone, w: Zone, hs: string)
    requires ValidZone(v) && ValidZone(w) && AllHex(hs)
    requires |v.fwd.labels| == |w.fwd.labels| && v.fwd.digitsAt == w.fwd.digitsAt
    requires forall i :: 0 <= i < |v.fwd.labels| && i != v.fwd.digitsAt ==> v.fwd.labels[i].lower == w.fwd.labels[i].lower
    requires var l, m := v.fwd.labels[v.fwd.digitsAt], w.fwd.labels[w.fwd.digitsAt];
      !l.dashed && !m.dashed && m.preLower == l.preLower + hs && m.postLower == l.postLower
    requires v.hostNibbles == w.hostNibbles + |hs|
    ensures Overlap(v, w)
  {
    forall i | 0 <= i < |v.fwd.labels| ensures AgreeAll(Pattern(v.fwd.labels[i], v.hostNibbles), Pattern(w.fwd.labels[i], w.hostNibbles)) {
      var l, m := v.fwd.labels[i], w.fwd.labels[i];
      if i == v.fwd.digitsAt {
        AbsorbedCells(l.preLower, hs, w.hostNibbles, l.postLower);
      } else {
        AgreeWithItself(Pattern(l, v.hostNibbles));
      }
    }
  }

  lemma AbsorbedCells(pre: string, hs: string, n: nat, post: string)
    requires AllHex(hs)
    ensures AgreeAll(FixedCells(pre) + HexCells(n + |hs|) + FixedCells(post), FixedCells(pre + hs) + HexCells(n) + FixedCells(post))
  {
    var x := FixedCells(pre) + HexCells(n + |hs|) + FixedCells(post);
    var y := FixedCells(pre + hs) + HexCells(n) + FixedCells(post);
    forall i | 0 <= i < |x| ensures Agree(x[i], y[i]) {
      if i < |pre| {
        assert x[i] == Fixed(pre[i]) == y[i];
      } else if i < |pre| + |hs| {
        assert x[i] == AnyHex && y[i] == Fixed(hs[i - |pre|]);
      } else if i < |pre| + |hs| + n {
        assert x[i] == AnyHex == y[i];
      } else {
        assert x[i] == Fixed(post[i - |pre| - |hs| - n]) == y[i];
      }
    }
  }

  /** The pattern with a fixed prefix and one further label. */
  function PlainText(pre: string, tail: string): string {
    pre + "%DIGITS%" + ['.'] + tail
  }

  predicate Bare(s: string) {
    Without(s, '%') && Without(s, '.')
  }

  /** The two percent signs of the only placeholder decide every search. */
  lemma OnlyFind(low: string, at: nat)
    requires OccursAt(low, PLACEHOLDER, at)
    requires forall i :: 0 <= i < |low| && low[i] == '%' ==> i == at || i == at + 7
    ensures Find(low, PLACEHOLDER) == Some(at) && Find(low, PLACEHOLDER_DASHED) == None
  {
    FindIsFirst(low, PLACEHOLDER, at);
    PercentSigns(low, PLACEHOLDER, Find(low, PLACEHOLDER).value);
    if Find(low, PLACEHOLDER_DASHED).Some? {
      PercentSigns(low, PLACEHOLDER_DASHED, Find(low, PLACEHOLDER_DASHED).value);
    }
  }

  lemma OnlyHit(low: string, at: nat, rest: string)
    requires Find(low, PLACEHOLDER) == Some(at) && Find(low, PLACEHOLDER_DASHED) == None
    requires rest == low[at + 8..] && Without(rest, '%')
    ensures Hits(low, PLACEHOLDER) == 1 && Hits(low, PLACEHOLDER_DASHED) == 0
  {
    HitsUnfold(low, PLACEHOLDER, Hits(low, PLACEHOLDER), Hits(rest, PLACEHOLDER));
    NoPlaceholder(rest);
  }

  lemma NoPlaceholder(s: string)
    requires Without(s, '%')
    ensures Find(s, PLACEHOLDER) == None && Find(s, PLACEHOLDER_DASHED) == None
    ensures Hits(s, PLACEHOLDER) == 0
  {
    if Find(s, PLACEHOLDER).Some? {
      PercentSigns(s, PLACEHOLDER, Find(s, PLACEHOLDER).value);
    }
    if Find(s, PLACEHOLDER_DASHED).Some? {
      PercentSigns(s, PLACEHOLDER_DASHED, Find(s, PLACEHOLDER_DASHED).value);
    }
  }

  lemma PercentSigns(s: string, p: string, i: nat)
    requires p in {PLACEHOLDER, PLACEHOLDER_DASHED} && OccursAt(s, p, i)
    ensures s[i] == '%' && s[i + |p| - 1] == '%'
  {
    assert s[i..i + |p|][0] == p[0] && s[i..i + |p|][|p| - 1] == p[|p| - 1];
  }

  lemma LowerBare(s: string)
    requires Without(s, '%')
    ensures Without(Lower(s), '%')
  {
  }

  /** A text whose only placeholder stands between parts without percent signs. */
  lemma PlaceholderBetween(pre: string, post: string)
    requires Without(pre, '%') && Without(post, '%')
    ensures var low := Lower(pre + "%DIGITS%" + post);
      && Find(low, PLACEHOLDER) == Some(|pre|) && Find(low, PLACEHOLDER_DASHED) == None
      && Hits(low, PLACEHOLDER) == 1 && Hits(low, PLACEHOLDER_DASHED) == 0
  {
    var low := Lower(pre + "%DIGITS%" + post);
    LowerConcat(pre + "%DIGITS%", post);
    LowerConcat(pre, "%DIGITS%");
    assert Lower("%DIGITS%") == PLACEHOLDER;
    assert low == Lower(pre) + PLACEHOLDER + Lower(post);
    LowerBare(pre);
    LowerBare(post);
    OnlyFind(low, |pre|);
    OnlyHit(low, |pre|, Lower(post));
  }

  lemma PlainSegments(pre: string, tail: string)
    requires Bare(pre) && Bare(tail) && tail != ""
    ensures Segments(PlainText(pre, tail)) == [pre + "%DIGITS%", tail]
  {
    var s, head := PlainText(pre, tail), pre + "%DIGITS%";
    assert s[|s| - 1] == tail[|tail| - 1];
    assert s == head + ['.'] + tail;
    SplitJoin([head, tail], '.');
    assert [head, tail][1..] == [tail];
    assert Join([tail], '.') == tail;
    assert Join([head, tail], '.') == s;
  }

  lemma PlainTemplate(pre: string, tail: string)
    requires Bare(pre) && Bare(tail) && tail != ""
    ensures TotalHits(PlainText(pre, tail)) == 1
    ensures TemplateOf(PlainText(pre, tail)) == PlainFwd(pre, tail)
  {
    PlainHits(pre, tail);
    PlainSegments(pre, tail);
    PlainHead(pre);
    PlainTail(tail);
    PairOfLabels(pre + "%DIGITS%", tail);
  }

  lemma PlainHits(pre: string, tail: string)
    requires Bare(pre) && Bare(tail)
    ensures TotalHits(PlainText(pre, tail)) == 1
  {
    PlaceholderBetween(pre, ['.'] + tail);
    assert PlainText(pre, tail) == pre + "%DIGITS%" + (['.'] + tail);
  }

  lemma PairOfLabels(head: string, tail: string)
    requires LabelOf(head).Digits? && LabelOf(tail).Literal?
    ensures LabelsOf([head, tail]) == [LabelOf(head), LabelOf(tail)]
    ensures LastDigits([LabelOf(head), LabelOf(tail)]) == Some(0)
  {
    LastDigitsAppend([LabelOf(head)], LabelOf(tail));
    assert [LabelOf(head)] + [LabelOf(tail)] == [LabelOf(head), LabelOf(tail)];
  }

  lemma PlainHead(pre: string)
    requires Without(pre, '%')
    ensures LabelOf(pre + "%DIGITS%") == Digits(pre, Lower(pre), "", "", false)
  {
    var head := pre + "%DIGITS%";
    PlaceholderBetween(pre, "");
    assert head + "" == head;
    assert head[..|pre|] == pre && head[|pre| + 8..] == "";
    assert Lower("") == "";
  }

  lemma PlainTail(tail: string)
    requires Without(tail, '%')
    ensures LabelOf(tail) == Literal(tail, Lower(tail))
  {
    LowerBare(tail);
    NoPlaceholder(Lower(tail));
  }

  lemma ShortNamesFit(a: string, b: string)
    ensures LabelsFit([a, b]) <==> 1 <= |a| <= MAX_LABEL && 1 <= |b| <= MAX_LABEL
  {
    var labels := [a, b];
    assert labels[1..] == [b] && [b][1..] == [];
    assert WireLength([b]) == |b| + 1 + WireLength([]);
    assert labels[0] == a && labels[1] == b;
  }

  /** The plain pattern is accepted exactly when both labels have room. */
  lemma PlainAccepted(pre: string, tail: string, n: nat)
    requires Bare(pre) && Bare(tail) && tail != "" && 0 < n <= ADDR_NIBBLES
    ensures TemplateVerdict(PlainText(pre, tail), n).Ok? <==> |pre| + n <= MAX_LABEL && |tail| <= MAX_LABEL
  {
    PlainTemplate(pre, tail);
    PlainSegments(pre, tail);
    VerdictExact(PlainText(pre, tail), n);
    var f := Repeat('f', n);
    ShortNamesFit(pre + f + "", tail);
    assert RenderedLabels(TemplateOf(PlainText(pre, tail)).labels, f) == [pre + f + "", tail];
  }

  /** A block with a plain pattern and no upstream is right by itself. */
  lemma PlainBlock(env: Parsers, raw: RawZone, pre: string, tail: string, prefix: u128, mask: nat) returns (z: Zone)
    requires Bare(pre) && Bare(tail) && tail != "" && NetworkVerdict(env, raw.network) == Ok((prefix, mask))
    requires |pre| + HostNibbles(mask) <= MAX_LABEL && |tail| <= MAX_LABEL
    requires raw.resolvesTo.Some? && raw.resolvesTo.value.value == PlainText(pre, tail) && raw.upstream.None?
    ensures Alone(env, raw) == Ok(z) && ValidZone(z)
    ensures z.resolvesTo == PlainText(pre, tail) && z.mask == mask && z.hostNibbles == HostNibbles(mask)
    ensures z.fwd == PlainFwd(pre, tail)
  {
    z := BuildZone(env, raw, prefix, mask);
    NetworkVerdictValid(env, raw.network);
    PlainAccepted(pre, tail, HostNibbles(mask));
    PlainTemplate(pre, tail);
    assert RestVerdict(env, raw, prefix, mask, map[]) == Ok(z);
    assert BlockVerdict(env, raw, prefix, mask, map[]) == Ok(z);
    ZoneVerdictValid(env, raw, map[], map[]);
  }

  /** Two blocks with plain patterns, the second with `hs` more before the placeholder and a longer prefix to match. */
  predicate AbsorbingBlocks(env: Parsers, a: RawZone, b: RawZone, pre: string, hs: string, tail: string) {
    && Bare(pre) && Bare(tail) && 1 <= |tail| <= MAX_LABEL
    && hs != "" && AllHex(hs)
    && a.resolvesTo.Some? && a.resolvesTo.value.value == PlainText(pre, tail) && a.upstream.None?
    && b.resolvesTo.Some? && b.resolvesTo.value.value == PlainText(pre + hs, tail) && b.upstream.None?
    && NetworkVerdict(env, a.network).Ok? && NetworkVerdict(env, b.network).Ok?
    && NetworkVerdict(env, b.network).value.1 == NetworkVerdict(env, a.network).value.1 + 4 * |hs|
    && |pre| + HostNibbles(NetworkVerdict(env, a.network).value.1) <= MAX_LABEL
  }

  /**
    A family of collisions: hex digits `hs` written before the placeholder of one zone, and a
    network shorter by as many digits for the other, such as `a%DIGITS%.x` on a /64 next to
    `%DIGITS%.x` on a /60. Both blocks are accepted side by side, and every name the server prints
    leads back to its zone and address if and only if the narrower network is the very part of
    the wider one that `hs` names; otherwise some name it does print does not.
   */
  lemma PrefixDigitsCollide(env: Parsers, a: RawZone, b: RawZone, pre: string, hs: string, tail: string,
                            raws: seq<RawZone>, ttl: nat, c: Config)
    requires AbsorbingBlocks(env, a, b, pre, hs, tail) && raws == [a, b]
    requires c.zones == MaskSort.StableSort(CompileAll(env, ttl, raws).zones)
    ensures CompileAll(env, ttl, raws).errors == [] && ValidConfig(c)
    ensures Alone(env, a).Ok? && Alone(env, b).Ok?
    ensures AllServedBack(c) <==>
      SitsAt(Alone(env, a).value, Alone(env, b).value, hs)
  {
    var v, w := AbsorbingZones(env, a, b, pre, hs, tail);
    TwoBlocks(env, a, b, v, w);
    PairCompiles(env, raws, ttl, v, w);
    CompiledIsValid(env, ttl, raws, c);
    AbsorbingPair(c, CompileAll(env, ttl, raws).zones, ttl, v, w, pre, hs, tail);
  }

  lemma AbsorbingPair(c: Config, zones: seq<Zone>, ttl: nat, v: Zone, w: Zone, pre: string, hs: string, tail: string)
    requires ValidConfig(c) && c.zones == MaskSort.StableSort(zones) && zones == [v.(ttl := ttl), w.(ttl := ttl)]
    requires Absorbing(v, w, pre, hs, tail) && w.mask > v.mask
    ensures AllServedBack(c) <==> SitsAt(v, w, hs)
  {
    SortedPair(zones, v.(ttl := ttl), w.(ttl := ttl));
    AbsorbingServed(c, v.(ttl := ttl), w.(ttl := ttl), pre, hs, tail);
  }

  /** The longer prefix comes first. */
  lemma SortedPair(zones: seq<Zone>, v: Zone, w: Zone)
    requires zones == [v, w] && w.mask > v.mask
    ensures MaskSort.StableSort(zones) == [w, v]
  {
    assert zones[..1] == [v] && [v][..0] == [];
    assert MaskSort.StableSort([v]) == [v];
    assert MaskSort.InsertByMask([], w) == [w];
  }

  lemma PairCompiles(env: Parsers, raws: seq<RawZone>, ttl: nat, v: Zone, w: Zone)
    requires Acceptable(env, raws) && BlockZones(env, raws) == [v, w]
    ensures CompileAll(env, ttl, raws).errors == []
    ensures CompileAll(env, ttl, raws).zones == [v.(ttl := ttl), w.(ttl := ttl)]
  {
    AcceptExact(env, ttl, raws);
    assert WithTtl([v, w], ttl) == [v.(ttl := ttl), w.(ttl := ttl)];
  }

  lemma AbsorbingZones(env: Parsers, a: RawZone, b: RawZone, pre: string, hs: string, tail: string) returns (v: Zone, w: Zone)
    requires AbsorbingBlocks(env, a, b, pre, hs, tail)
    ensures Alone(env, a) == Ok(v) && Alone(env, b) == Ok(w)
    ensures Absorbing(v, w, pre, hs, tail) && w.mask > v.mask && !Clash(v, w)
  {
    var (p, m) := NetworkVerdict(env, a.network).value;
    var (q, n) := NetworkVerdict(env, b.network).value;
    HostWidths(env, a.network, b.network, |hs|);
    HexIsBare(hs);
    v := PlainBlock(env, a, pre, tail, p, m);
    w := PlainBlock(env, b, pre + hs, tail, q, n);
    DifferentLengths(v.resolvesTo, w.resolvesTo);
  }

  lemma HostWidths(env: Parsers, v: RawValue, w: RawValue, k: nat)
    requires NetworkVerdict(env, v).Ok? && NetworkVerdict(env, w).Ok?
    requires NetworkVerdict(env, w).value.1 == NetworkVerdict(env, v).value.1 + 4 * k
    ensures HostNibbles(NetworkVerdict(env, v).value.1) == HostNibbles(NetworkVerdict(env, w).value.1) + k
  {
    NetworkVerdictValid(env, v);
    NetworkVerdictValid(env, w);
  }

  lemma DifferentLengths(s: string, t: string)
    requires |s| != |t|
    ensures Lower(s) != Lower(t)
  {
    assert |Lower(s)| != |Lower(t)|;
  }

  lemma HexIsBare(hs: string)
    requires AllHex(hs)
    ensures Bare(hs)
  {
  }

  // ---- templates that begin with the label `*` ----

  lemma FindSkip(c: char, s: string, p: string)
    requires p != "" && p[0] != c
    ensures Find([c] + s, p) == match Find(s, p) case None => None case Some(i) => Some(i + 1)
  {
    var t := [c] + s;
    assert t[1..] == s;
    if |p| <= |t| {
      assert t[..|p|][0] == c;
    }
  }

  lemma HitsSkip(c: char, s: string, p: string)
    requires p != "" && p[0] != c
    ensures Hits([c] + s, p) == Hits(s, p)
  {
    FindSkip(c, s, p);
    if Find(s, p).Some? {
      var i := Find(s, p).value + |p|;
      assert ([c] + s)[i + 1..] == s[i..];
      HitsFrom(s, [c] + s, p, s[i..], ([c] + s)[i + 1..]);
    }
  }

  lemma {:induction false} LastDigitsCons(l: FwdLabel, labels: seq<FwdLabel>)
    requires l.Literal?
    ensures LastDigits([l] + labels) == match LastDigits(labels) case None => None case Some(i) => Some(i + 1)
  {
    if labels == [] {
      assert [l] + labels == [l];
      assert [l][..0] == [];
    } else {
      var n := |labels| - 1;
      LastDigitsCons(l, labels[..n]);
      assert ([l] + labels)[..n + 1] == [l] + labels[..n];
    }
  }

  const STAR := Literal("*", "*")

  lemma StarHits(text: string)
    ensures TotalHits("*." + text) == TotalHits(text)
  {
    var low := Lower(text);
    assert Lower("*." + text) == ['*'] + (['.'] + low);
    HitsSkip('*', ['.'] + low, PLACEHOLDER);
    HitsSkip('*', ['.'] + low, PLACEHOLDER_DASHED);
    HitsSkip('.', low, PLACEHOLDER);
    HitsSkip('.', low, PLACEHOLDER_DASHED);
  }

  lemma StarSegments(text: string)
    requires text != ""
    ensures Segments("*." + text) == ["*"] + Segments(text)
  {
    var s := "*." + text;
    assert StripDot(s) == "*." + StripDot(text);
    SepAtConcat("*", '.', StripDot(text));
    assert StripDot(s) == "*" + ['.'] + StripDot(text);
    assert StripDot(s)[..1] == "*" && StripDot(s)[2..] == StripDot(text);
  }

  lemma StarTemplateOf(text: string)
    requires TotalHits(text) == 1
    ensures TemplateOf("*." + text) == FwdTemplate([STAR] + TemplateOf(text).labels, TemplateOf(text).digitsAt + 1)
    ensures StarTemplate(TemplateOf("*." + text))
  {
    StarSegments(text);
    OneHitWellFormed(text);
    StarLabels(Segments(text));
    LastDigitsCons(STAR, LabelsOf(Segments(text)));
  }

  lemma StarLabels(segments: seq<string>)
    ensures LabelsOf(["*"] + segments) == [STAR] + LabelsOf(segments)
  {
    assert Lower("*") == "*" && LabelOf("*") == STAR;
  }

  /**
    Putting `*.` in front of a text is accepted exactly when the text is and two bytes are to
    spare, and gives a template that begins with the label `*`.
   */
  lemma StarIsAccepted(text: string, n: nat)
    requires n <= ADDR_NIBBLES && TotalHits(text) == 1
    ensures TemplateVerdict("*." + text, n).Ok? <==>
      TemplateVerdict(text, n).Ok? && WireLength(RenderedLabels(TemplateOf(text).labels, Repeat('f', n))) + 2 <= MAX_NAME
    ensures TemplateVerdict("*." + text, n).Ok? ==> StarTemplate(TemplateVerdict("*." + text, n).value)
  {
    StarHits(text);
    StarSegments(text);
    VerdictExact(text, n);
    VerdictExact("*." + text, n);
    StarTemplateOf(text);
    StarDashes(TemplateOf(text), TemplateOf("*." + text));
    StarRenders(TemplateOf(text), Repeat('f', n));
  }

  lemma StarDashes(t: FwdTemplate, starred: FwdTemplate)
    requires starred == FwdTemplate([STAR] + t.labels, t.digitsAt + 1)
    ensures UsesDashes(starred) <==> UsesDashes(t)
  {
    if t.digitsAt < |t.labels| {
      assert starred.labels[t.digitsAt + 1] == t.labels[t.digitsAt];
    }
  }

  lemma StarRenders(t: FwdTemplate, digits: string)
    ensures LabelsFit(RenderedLabels([STAR] + t.labels, digits)) <==>
      LabelsFit(RenderedLabels(t.labels, digits)) && WireLength(RenderedLabels(t.labels, digits)) + 2 <= MAX_NAME
  {
    var tail := RenderedLabels(t.labels, digits);
    var all := RenderedLabels([STAR] + t.labels, digits);
    assert all == ["*"] + tail;
    assert all[1..] == tail;
    if LabelsFit(all) {
      forall i | 0 <= i < |tail| ensures 1 <= |tail[i]| <= MAX_LABEL {
        assert all[i + 1] == tail[i];
      }
    }
  }

  /** Such a zone never finds the names it prints, and finds each with any one label behind it. */
  lemma StarRunsLong(z: Zone, addr: u128, last: string)
    requires ValidZone(z) && StarTemplate(z.fwd) && InZone(z, addr)
    ensures MatchZoneForward(z, NameOf(z, addr)).None?
    ensures MatchZoneForward(z, NameOf(z, addr) + [last]) == Some(addr)
  {
    var printed := NameOf(z, addr);
    var longer := printed + [last];
    assert longer[..|printed|] == printed;
    ForwardExact(z, longer, addr);
    if MatchZoneForward(z, printed).Some? {
      ForwardInZone(z, printed);
      ForwardExact(z, printed, MatchZoneForward(z, printed).value);
    }
  }

  /** The name is one a `*` zone prints, with one label too many. */
  predicate OneTooMany(z: Zone, qname: Name, addr: u128) {
    && StarTemplate(z.fwd) && InZone(z, addr)
    && |qname| == |z.fwd.labels| + 1 && SameName(qname[..|z.fwd.labels|], NameOf(z, addr))
  }

  /**
    Exactly when a name outside every configured namespace is answered all the same: some `*`
    zone prints it less its last label.
   */
  lemma OverrunExact(c: Config, qname: Name)
    requires ValidConfig(c)
    ensures Overrun(c, qname) <==>
      ZoneContaining(c, qname).None? && exists i: nat, addr: u128 :: i < |c.zones| && OneTooMany(c.zones[i], qname, addr)
  {
    var k := FirstMatchFacts(c.zones, qname);
    if Overrun(c, qname) {
      OverrunNeedsStar(c, qname);
      var (z, addr) := MatchForward(c, qname).value;
      ForwardInZone(z, qname);
      ForwardExact(z, qname, addr);
      assert OneTooMany(c.zones[k], qname, addr);
    }
    if i: nat, addr: u128 :| i < |c.zones| && OneTooMany(c.zones[i], qname, addr) {
      ForwardExact(c.zones[i], qname, addr);
    }
  }

  lemma LastLabelOfZone(apex: Name, name: Name)
    requires ZoneOf(apex, name) && apex != []
    ensures name != [] && Lower(apex[|apex| - 1]) == Lower(name[|name| - 1])
  {
    var tail := name[|name| - |apex|..];
    SameNameLabels(apex, tail);
    assert tail[|apex| - 1] == name[|name| - 1];
  }

  /**
    Such names exist wherever a `*` zone with an apex stands alone: any label behind a printed
    name, other than the apex's own last label and `arpa`, leads out of the namespace.
   */
  lemma StarOverruns(c: Config, z: Zone, addr: u128, last: string)
    requires ValidConfig(c) && c.zones == [z] && StarTemplate(z.fwd) && InZone(z, addr)
    requires z.fwdParent != [] && Lower(last) != Lower(z.fwdParent[|z.fwdParent| - 1]) && Lower(last) != "arpa"
    ensures Overrun(c, NameOf(z, addr) + [last])
  {
    assert c.zones[0] == z;
    PtrZoneEnd(z);
    LeadsOut(c, z, NameOf(z, addr) + [last], last);
    RunsOver(c, z, addr, NameOf(z, addr) + [last]);
    OverrunExact(c, NameOf(z, addr) + [last]);
  }

  lemma PtrZoneEnd(z: Zone)
    requires ValidZone(z)
    ensures z.ptrZone != [] && z.ptrZone[|z.ptrZone| - 1] == "arpa"
  {
  }

  lemma LeadsOut(c: Config, z: Zone, qname: Name, last: string)
    requires c.zones == [z] && z.fwdParent != [] && z.ptrZone != [] && z.ptrZone[|z.ptrZone| - 1] == "arpa"
    requires qname != [] && qname[|qname| - 1] == last
    requires Lower(last) != Lower(z.fwdParent[|z.fwdParent| - 1]) && Lower(last) != "arpa"
    ensures ZoneContaining(c, qname).None?
  {
    assert c.zones[0] == z && Lower("arpa") == "arpa";
    if ZoneOf(z.ptrZone, qname) {
      LastLabelOfZone(z.ptrZone, qname);
    }
    if ZoneOf(z.fwdParent, qname) {
      LastLabelOfZone(z.fwdParent, qname);
    }
    FirstEnclosingFacts(c.zones, qname);
  }

  lemma RunsOver(c: Config, z: Zone, addr: u128, qname: Name)
    requires c.zones == [z] && StarTemplate(z.fwd) && InZone(z, addr)
    requires |qname| == |NameOf(z, addr)| + 1 && qname[..|qname| - 1] == NameOf(z, addr)
    ensures exists i: nat, addr: u128 :: i < |c.zones| && OneTooMany(c.zones[i], qname, addr)
  {
    assert OneTooMany(c.zones[0], qname, addr);
  }
}
