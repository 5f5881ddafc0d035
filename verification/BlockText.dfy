/**
  What a `network` block denotes, said of its text alone: which addresses, prefix lengths,
  patterns and upstreams are accepted, what zone they make, and which error anything else is.
 */
module BlockText {
  import opened Wrappers
  import opened Bits
  import opened Ascii
  import opened Names
  import opened Nibble
  import opened Text
  import opened ConfigModel
  import opened ConfigText
  import opened TemplateText
  import opened ConfigCompile
  import opened CompileFacts
  import opened MaskSort

  // ---- networks ----

  /** The text is cut at its first slash. */
  predicate Cut(text: string, a: string, b: string) {
    text == a + "/" + b && Without(a, '/')
  }

  lemma CutIsSep(text: string, a: string, b: string)
    requires Cut(text, a, b)
    ensures SepAt(text, '/') == |a| < |text| && text[..|a|] == a && text[|a| + 1..] == b
  {
    SepAtConcat(a, '/', b);
    assert a + "/" + b == a + ['/'] + b;
  }

  lemma SepIsCut(text: string)
    ensures var n := SepAt(text, '/');
      && (n < |text| ==> Cut(text, text[..n], text[n + 1..]))
      && (n == |text| <==> Without(text, '/'))
  {
    var n := SepAt(text, '/');
    if n < |text| {
      SlashCut(text, n);
    }
  }

  lemma SlashCut(text: string, n: nat)
    requires n < |text| && text[n] == '/'
    ensures text == text[..n] + "/" + text[n + 1..]
  {
  }

  /** The two parts are an address without host bits and a prefix length on a nibble boundary, neither 0 nor 128. */
  predicate NetworkParts(env: Parsers, a: string, b: string, p: u128, m: nat) {
    env.ipv6(a) == Some(p) && env.number(b) == Some(m) && 0 < m < 128 && m % 4 == 0 && Low(p, (128 - m) / 4) == 0
  }

  ghost predicate NetworkText(env: Parsers, text: string, p: u128, m: nat) {
    exists a, b :: Cut(text, a, b) && NetworkParts(env, a, b, p, m)
  }

  lemma HostBits(p: u128, m: nat)
    requires 0 < m < 128 && m % 4 == 0
    ensures And(p, MaskBits(m)) == Clear(p, (128 - m) / 4)
    ensures And(p, MaskBits(m)) == p <==> Low(p, (128 - m) / 4) == 0
  {
    var j := (128 - m) / 4;
    assert m == 128 - 4 * j;
    MaskIsClear(p, j);
    ClearPlusLow(p, j);
  }

  /** An error about the whole value. */
  function WholeError(v: RawValue, kind: ErrorKind): ConfigError {
    ConfigError(v.line, v.rawLine, Some(v.span), kind)
  }

  /**
    Which part of a network value is at fault, and how: the address before the length, the length
    before the host bits. What passes is the network of the text itself.
   */
  lemma NetworkPartsExact(env: Parsers, v: RawValue, a: string, b: string)
    requires Cut(v.value, a, b)
    ensures env.ipv6(a).None? ==> NetworkVerdict(env, v) == Err(v.ErrorAt(0, |a|, NetworkInvalidAddress))
    ensures env.ipv6(a).Some? && env.number(b).None? ==>
      NetworkVerdict(env, v) == Err(v.ErrorAt(|a| + 1, |b|, NetworkPrefixLenNotANumber))
    ensures env.ipv6(a).Some? && env.number(b).Some? ==>
      var p, m := env.ipv6(a).value, env.number(b).value;
      && (m > 128 ==> NetworkVerdict(env, v) == Err(v.ErrorAt(|a| + 1, |b|, NetworkPrefixLenOutOfRange(m))))
      && (m < 128 && m % 4 != 0 ==> NetworkVerdict(env, v) == Err(v.ErrorAt(|a| + 1, |b|, NetworkPrefixNotNibbleAligned(m))))
      && (m == 0 ==> NetworkVerdict(env, v) == Err(v.ErrorAt(|a| + 1, |b|, NetworkPrefixTooShort(0))))
      && (m == 128 ==> NetworkVerdict(env, v) == Err(WholeError(v, NetworkIsSingleAddress)))
      && (0 < m < 128 && m % 4 == 0 && Low(p, (128 - m) / 4) != 0 ==>
           NetworkVerdict(env, v) == Err(WholeError(v, NetworkHostBitsSet(Clear(p, (128 - m) / 4), m))))
      && (0 < m < 128 && m % 4 == 0 && Low(p, (128 - m) / 4) == 0 ==> NetworkVerdict(env, v) == Ok((p, m)))
  {
    CutIsSep(v.value, a, b);
    if env.ipv6(a).Some? && env.number(b).Some? {
      var p, m := env.ipv6(a).value, env.number(b).value;
      if 0 < m < 128 && m % 4 == 0 {
        HostBits(p, m);
      }
    }
  }

  /** Without a slash there is no prefix length. */
  lemma NoSlash(env: Parsers, v: RawValue)
    requires Without(v.value, '/')
    ensures NetworkVerdict(env, v) == Err(WholeError(v, NetworkMissingPrefixLen))
  {
    SepIsCut(v.value);
  }

  /** A value denotes a network if and only if its text does, and then that very network. */
  lemma NetworkExact(env: Parsers, v: RawValue, p: u128, m: nat)
    ensures NetworkVerdict(env, v) == Ok((p, m)) <==> NetworkText(env, v.value, p, m)
  {
    var n := SepAt(v.value, '/');
    SepIsCut(v.value);
    if n == |v.value| {
      NoSlash(env, v);
    } else {
      NetworkPartsExact(env, v, v.value[..n], v.value[n + 1..]);
      assert NetworkVerdict(env, v) == Ok((p, m)) ==> NetworkParts(env, v.value[..n], v.value[n + 1..], p, m);
    }
    if a, b :| Cut(v.value, a, b) && NetworkParts(env, a, b, p, m) {
      NetworkPartsExact(env, v, a, b);
    }
  }

  // ---- patterns ----

  /** One of the two placeholders occurs in the text, once, and the other does not. */
  predicate OnePlaceholder(text: string) {
    var low := Lower(text);
    || (Once(low, "%digits%") && Never(low, "%digits-dashed%"))
    || (Never(low, "%digits%") && Once(low, "%digits-dashed%"))
  }

  lemma OnePlaceholderExact(text: string)
    ensures TotalHits(text) == 1 <==> OnePlaceholder(text)
    ensures TotalHits(text) == 0 <==> Never(Lower(text), "%digits%") && Never(Lower(text), "%digits-dashed%")
  {
    var low := Lower(text);
    NeverExact(low, PLACEHOLDER);
    NeverExact(low, PLACEHOLDER_DASHED);
    OnceExact(low, PLACEHOLDER);
    OnceExact(low, PLACEHOLDER_DASHED);
  }

  /** The text is a pattern of `n` host digits: one placeholder, no empty label, whole groups if dashed, and room for every name. */
  predicate PatternText(text: string, n: nat) {
    && OnePlaceholder(text)
    && "" !in Segments(text)
    && (UsesDashes(TemplateOf(text)) ==> n % 4 == 0)
    && LabelsFit(RenderedLabels(TemplateOf(text).labels, Repeat('f', n)))
  }

  /** A text is accepted exactly when it is a pattern; otherwise the first fault is reported. */
  lemma PatternTextExact(text: string, n: nat)
    requires n <= 32
    ensures TemplateVerdict(text, n) == Ok(TemplateOf(text)) <==> PatternText(text, n)
    ensures TemplateVerdict(text, n).Ok? <==> PatternText(text, n)
    ensures !OnePlaceholder(text) ==>
      TemplateVerdict(text, n) == Err(if TotalHits(text) == 0 then PlaceholderMissing else PlaceholderRepeated(TotalHits(text)))
    ensures OnePlaceholder(text) && "" in Segments(text) ==> TemplateVerdict(text, n) == Err(ResolvesToInvalidName)
    ensures OnePlaceholder(text) && "" !in Segments(text) && UsesDashes(TemplateOf(text)) && n % 4 != 0 ==>
      TemplateVerdict(text, n) == Err(DashedDigitsNotNibbleMultipleOfFour(n))
    ensures OnePlaceholder(text) && "" !in Segments(text) && (UsesDashes(TemplateOf(text)) ==> n % 4 == 0) && !PatternText(text, n) ==>
      TemplateVerdict(text, n) == Err(ForwardNameTooLong)
  {
    OnePlaceholderExact(text);
  }

  // ---- blocks ----

  /** The upstream of a block: none written, none kept; one written, the address it spells. */
  predicate UpstreamText(env: Parsers, written: Option<RawValue>, upstream: Option<IpAddr>) {
    match written
    case None => upstream == None
    case Some(v) => upstream.Some? && env.address(v.value) == upstream
  }

  /** The block denotes this zone. */
  ghost predicate BlockDenotes(env: Parsers, raw: RawZone, z: Zone) {
    && NetworkText(env, raw.network.value, z.prefix, z.mask)
    && raw.resolvesTo.Some? && z.resolvesTo == raw.resolvesTo.value.value
    && PatternText(z.resolvesTo, (128 - z.mask) / 4) && z.fwd == TemplateOf(z.resolvesTo)
    && UpstreamText(env, raw.upstream, z.upstream)
    && z.srcLine == raw.network.line && z.ttl == 3600
    && z.hostNibbles == (128 - z.mask) / 4
    && z.ptrZone == PtrName(z.prefix, z.mask) && z.fwdParent == ParentLabels(z.fwd)
  }

  /** The zone of a block on a network, field by field. */
  predicate ZoneOn(env: Parsers, raw: RawZone, prefix: u128, mask: nat, z: Zone)
    requires raw.resolvesTo.Some? && 0 < mask < 128 && mask % 4 == 0
  {
    && z.prefix == prefix && z.mask == mask && z.resolvesTo == raw.resolvesTo.value.value
    && z.fwd == TemplateOf(z.resolvesTo) && UpstreamText(env, raw.upstream, z.upstream)
    && z.srcLine == raw.network.line && z.ttl == 3600 && z.hostNibbles == (128 - mask) / 4
    && z.ptrZone == PtrName(prefix, mask) && z.fwdParent == ParentLabels(z.fwd)
  }

  lemma SameFields(env: Parsers, raw: RawZone, prefix: u128, mask: nat, v: Zone, w: Zone)
    requires raw.resolvesTo.Some? && 0 < mask < 128 && mask % 4 == 0
    requires ZoneOn(env, raw, prefix, mask, v) && ZoneOn(env, raw, prefix, mask, w)
    ensures v == w
  {
  }

  lemma BuiltOn(env: Parsers, raw: RawZone, prefix: u128, mask: nat)
    requires raw.resolvesTo.Some? && 0 < mask < 128 && mask % 4 == 0
    requires raw.upstream.Some? ==> env.address(raw.upstream.value.value).Some?
    ensures ZoneOn(env, raw, prefix, mask, BuildZone(env, raw, prefix, mask))
  {
  }

  lemma RestIsBuilt(env: Parsers, raw: RawZone, prefix: u128, mask: nat)
    requires raw.resolvesTo.Some?
    ensures RestVerdict(env, raw, prefix, mask, map[]).Ok? <==> (raw.upstream.Some? ==> env.address(raw.upstream.value.value).Some?)
    ensures RestVerdict(env, raw, prefix, mask, map[]).Ok? ==> RestVerdict(env, raw, prefix, mask, map[]).value == BuildZone(env, raw, prefix, mask)
  {
  }

  lemma RestExact(env: Parsers, raw: RawZone, prefix: u128, mask: nat, z: Zone)
    requires raw.resolvesTo.Some? && 0 < mask < 128 && mask % 4 == 0
    ensures RestVerdict(env, raw, prefix, mask, map[]) == Ok(z) <==> ZoneOn(env, raw, prefix, mask, z)
  {
    RestIsBuilt(env, raw, prefix, mask);
    if raw.upstream.Some? ==> env.address(raw.upstream.value.value).Some? {
      BuiltOn(env, raw, prefix, mask);
      if ZoneOn(env, raw, prefix, mask, z) {
        SameFields(env, raw, prefix, mask, z, BuildZone(env, raw, prefix, mask));
      }
    }
  }

  lemma AloneIsBlock(env: Parsers, raw: RawZone, prefix: u128, mask: nat)
    requires NetworkVerdict(env, raw.network) == Ok((prefix, mask))
    ensures Alone(env, raw) == BlockVerdict(env, raw, prefix, mask, map[])
  {
  }

  lemma BlockIsRest(env: Parsers, raw: RawZone, prefix: u128, mask: nat, z: Zone)
    ensures BlockVerdict(env, raw, prefix, mask, map[]) == Ok(z) <==>
      && raw.resolvesTo.Some? && TemplateVerdict(raw.resolvesTo.value.value, HostNibbles(mask)).Ok?
      && RestVerdict(env, raw, prefix, mask, map[]) == Ok(z)
  {
  }

  lemma AloneOnNetwork(env: Parsers, raw: RawZone, prefix: u128, mask: nat, z: Zone)
    requires NetworkVerdict(env, raw.network) == Ok((prefix, mask)) && 0 < mask < 128 && mask % 4 == 0
    ensures Alone(env, raw) == Ok(z) <==> (z.prefix, z.mask) == (prefix, mask) && BlockDenotes(env, raw, z)
  {
    AloneIsBlock(env, raw, prefix, mask);
    BlockIsRest(env, raw, prefix, mask, z);
    NetworkExact(env, raw.network, prefix, mask);
    if raw.resolvesTo.Some? {
      PatternTextExact(raw.resolvesTo.value.value, (128 - mask) / 4);
      RestExact(env, raw, prefix, mask, z);
      DenotesOnNetwork(env, raw, prefix, mask, z);
    }
  }

  lemma DenotesOnNetwork(env: Parsers, raw: RawZone, prefix: u128, mask: nat, z: Zone)
    requires NetworkText(env, raw.network.value, prefix, mask) && raw.resolvesTo.Some? && 0 < mask < 128 && mask % 4 == 0
    ensures ZoneOn(env, raw, prefix, mask, z) && PatternText(raw.resolvesTo.value.value, (128 - mask) / 4) <==>
      (z.prefix, z.mask) == (prefix, mask) && BlockDenotes(env, raw, z)
  {
  }

  lemma AloneHasNetwork(env: Parsers, raw: RawZone, z: Zone)
    requires Alone(env, raw) == Ok(z)
    ensures NetworkVerdict(env, raw.network).Ok?
  {
  }

  /** A block is right by itself exactly when it denotes a zone, and then it yields that zone. */
  lemma AloneExact(env: Parsers, raw: RawZone, z: Zone)
    ensures Alone(env, raw) == Ok(z) <==> BlockDenotes(env, raw, z)
  {
    if Alone(env, raw) == Ok(z) {
      AloneHasNetwork(env, raw, z);
      var (p, m) := NetworkVerdict(env, raw.network).value;
      NetworkVerdictValid(env, raw.network);
      AloneOnNetwork(env, raw, p, m, z);
    }
    if BlockDenotes(env, raw, z) {
      NetworkExact(env, raw.network, z.prefix, z.mask);
      NetworkVerdictValid(env, raw.network);
      AloneOnNetwork(env, raw, z.prefix, z.mask, z);
    }
  }

  /**
    The error of a block whose network stands: a network seen before, then no pattern, then a
    faulty pattern, then a pattern seen before, then a faulty upstream; each names the line it is
    about, and a repetition the line of the first.
   */
  lemma BlockErrors(env: Parsers, raw: RawZone, networks: map<(u128, nat), nat>, patterns: map<string, nat>, p: u128, m: nat)
    requires NetworkText(env, raw.network.value, p, m)
    ensures var verdict := ZoneVerdict(env, raw, networks, patterns);
      if (p, m) in networks then verdict == Err(WholeError(raw.network, DuplicateNetwork(networks[(p, m)])))
      else if raw.resolvesTo.None? then verdict == Err(WholeError(raw.network, MissingResolvesTo))
      else
        var v := raw.resolvesTo.value;
        if !PatternText(v.value, (128 - m) / 4) then
          TemplateVerdict(v.value, (128 - m) / 4).Err? && verdict == Err(WholeError(v, TemplateVerdict(v.value, (128 - m) / 4).error))
        else if Lower(v.value) in patterns then verdict == Err(WholeError(v, DuplicateForwardPattern(patterns[Lower(v.value)])))
        else if raw.upstream.Some? && env.address(raw.upstream.value.value).None? then
          verdict == Err(WholeError(raw.upstream.value, InvalidUpstreamAddress))
        else verdict.Ok?
  {
    NetworkExact(env, raw.network, p, m);
    NetworkVerdictValid(env, raw.network);
    if raw.resolvesTo.Some? {
      PatternTextExact(raw.resolvesTo.value.value, (128 - m) / 4);
    }
  }

  // ---- files ----

  /** Each block denotes its zone, and no two zones share a network or, in any case, a pattern. */
  ghost predicate FileDenotes(env: Parsers, raws: seq<RawZone>, zones: seq<Zone>) {
    && |zones| == |raws|
    && (forall i :: 0 <= i < |raws| ==> BlockDenotes(env, raws[i], zones[i]))
    && NoClash(zones)
  }

  lemma DenotedIsBlockZones(env: Parsers, raws: seq<RawZone>, zones: seq<Zone>)
    requires |zones| == |raws| && forall i :: 0 <= i < |raws| ==> BlockDenotes(env, raws[i], zones[i])
    ensures AllRight(env, raws) && BlockZones(env, raws) == zones
  {
    forall i | 0 <= i < |raws| ensures Alone(env, raws[i]) == Ok(zones[i]) {
      AloneExact(env, raws[i], zones[i]);
    }
  }

  lemma BlockZonesDenoted(env: Parsers, raws: seq<RawZone>)
    requires AllRight(env, raws)
    ensures forall i :: 0 <= i < |raws| ==> BlockDenotes(env, raws[i], BlockZones(env, raws)[i])
  {
    forall i | 0 <= i < |raws| ensures BlockDenotes(env, raws[i], BlockZones(env, raws)[i]) {
      AloneExact(env, raws[i], Alone(env, raws[i]).value);
    }
  }

  /**
    The blocks of a file compile without error if and only if each denotes a zone and no two of
    those clash; the zones compiled are then the ones denoted, in order, with the file's TTL.
   */
  lemma AcceptedFromText(env: Parsers, ttl: nat, raws: seq<RawZone>)
    ensures CompileAll(env, ttl, raws).errors == [] <==> exists zones :: FileDenotes(env, raws, zones)
    ensures forall zones :: FileDenotes(env, raws, zones) ==> CompileAll(env, ttl, raws).zones == WithTtl(zones, ttl)
  {
    AcceptExact(env, ttl, raws);
    if Acceptable(env, raws) {
      BlockZonesDenoted(env, raws);
      assert FileDenotes(env, raws, BlockZones(env, raws));
    }
    forall zones | FileDenotes(env, raws, zones) ensures Acceptable(env, raws) && BlockZones(env, raws) == zones {
      DenotedIsBlockZones(env, raws, zones);
    }
  }

  /** The zones the blocks denote, with the TTL of the file, sorted. */
  ghost predicate SortedFrom(env: Parsers, raws: seq<RawZone>, ttl: nat, sorted: seq<Zone>) {
    exists zones :: FileDenotes(env, raws, zones) && sorted == StableSort(WithTtl(zones, ttl))
  }

  /** `Config::parse`, from the text of the file to its zones, longest prefixes first. */
  method ParseText(env: Parsers, input: string, settings: RawConfig -> (Settings, seq<ConfigError>))
    returns (r: Result<Config, seq<ConfigError>>)
    ensures var raw := ConfigParse.ConfigOf(ConfigParse.Lines(input));
      && (r.Ok? <==>
            && ConfigParse.ErrorsOf(ConfigParse.Lines(input)) == [] && settings(raw).1 == []
            && exists zones :: FileDenotes(env, raw.zones, zones))
      && (r.Ok? ==> ValidConfig(r.value) && SortedFrom(env, raw.zones, settings(raw).0.ttl, r.value.zones))
  {
    r := ParseConfig(env, input, settings);
    ghost var raw := ConfigParse.ConfigOf(ConfigParse.Lines(input));
    AcceptExact(env, settings(raw).0.ttl, raw.zones);
    AcceptedFromText(env, settings(raw).0.ttl, raw.zones);
    if r.Ok? {
      BlockZonesDenoted(env, raw.zones);
      assert FileDenotes(env, raw.zones, BlockZones(env, raw.zones));
    }
  }

  // ---- the lines duplicates are reported against ----

  /** Every network and pattern seen is remembered with the line of a block that has it. */
  ghost predicate SeenFrom(env: Parsers, raws: seq<RawZone>, p: Progress) {
    && (forall k :: k in p.networks ==> exists i :: 0 <= i < |raws| && NetworkOf(env, raws[i], k) && raws[i].network.line == p.networks[k])
    && (forall k :: k in p.patterns ==> exists i :: 0 <= i < |raws| && PatternOf(raws[i], k, p.patterns[k]))
  }

  ghost predicate NetworkOf(env: Parsers, raw: RawZone, k: (u128, nat)) {
    NetworkText(env, raw.network.value, k.0, k.1)
  }

  predicate PatternOf(raw: RawZone, k: string, line: nat) {
    raw.resolvesTo.Some? && Lower(raw.resolvesTo.value.value) == k && raw.resolvesTo.value.line == line
  }

  lemma {:induction false} SeenExact(env: Parsers, ttl: nat, raws: seq<RawZone>)
    ensures SeenFrom(env, raws, CompileAll(env, ttl, raws))
  {
    if raws != [] {
      var n := |raws| - 1;
      SeenExact(env, ttl, raws[..n]);
      SeenStep(env, ttl, raws[..n], raws[n], CompileAll(env, ttl, raws[..n]));
      assert raws == raws[..n] + [raws[n]];
    }
  }

  lemma SeenStep(env: Parsers, ttl: nat, front: seq<RawZone>, last: RawZone, p: Progress)
    requires SeenFrom(env, front, p)
    ensures SeenFrom(env, front + [last], Advance(env, ttl, p, last))
  {
    SeenGrows(env, front, last, p);
    if ZoneVerdict(env, last, p.networks, p.patterns).Ok? {
      NetworkVerdictUnseen(env, last, p.networks, p.patterns);
      var z := ZoneVerdict(env, last, p.networks, p.patterns).value;
      NetworkExact(env, last.network, z.prefix, z.mask);
      SeenLast(env, front, last, p, Advance(env, ttl, p, last), (z.prefix, z.mask), Lower(z.resolvesTo));
    }
  }

  lemma SeenGrows(env: Parsers, front: seq<RawZone>, last: RawZone, p: Progress)
    requires SeenFrom(env, front, p)
    ensures SeenFrom(env, front + [last], p)
  {
    var all := front + [last];
    forall k | k in p.networks ensures exists i :: 0 <= i < |all| && NetworkOf(env, all[i], k) && all[i].network.line == p.networks[k] {
      var i :| 0 <= i < |front| && NetworkOf(env, front[i], k) && front[i].network.line == p.networks[k];
      assert all[i] == front[i];
    }
    forall k | k in p.patterns ensures exists i :: 0 <= i < |all| && PatternOf(all[i], k, p.patterns[k]) {
      var i :| 0 <= i < |front| && PatternOf(front[i], k, p.patterns[k]);
      assert all[i] == front[i];
    }
  }

  lemma SeenLast(env: Parsers, front: seq<RawZone>, last: RawZone, p: Progress, q: Progress, network: (u128, nat), key: string)
    requires SeenFrom(env, front + [last], p) && NetworkOf(env, last, network)
    requires last.resolvesTo.Some? && key == Lower(last.resolvesTo.value.value)
    requires q.networks == p.networks[network := last.network.line] && q.patterns == p.patterns[key := last.resolvesTo.value.line]
    ensures SeenFrom(env, front + [last], q)
  {
    assert (front + [last])[|front|] == last;
  }
}
