/**
  Validation: raw directives to a checked configuration (src/config/compile.rs).

  The compiler is an object that accumulates errors and remembers the networks and patterns it
  has seen. Each of its methods is proved against a verdict: the value the directive denotes, or
  the one error to report.
 */
module ConfigCompile {
  import opened Wrappers
  import opened Bits
  import opened Ascii
  import opened Names
  import opened Nibble
  import opened ConfigModel
  import opened ConfigText
  import opened Text
  import opened TemplateText
  import opened MaskSort

  /** The text parsers of the standard library, as given functions. */
  datatype Parsers = Parsers(ipv6: string -> Option<u128>, number: string -> Option<nat>, address: string -> Option<IpAddr>)

  /** Everything that does not come from the `network` blocks. */
  datatype Settings = Settings(
    listen: seq<ListenAddr>,
    ttl: nat,
    soa: Option<SoaParams>,
    nameservers: seq<Name>,
    outOfZone: OutOfZonePolicy)

  const DEFAULT_TTL: nat := 3600

  // ---- networks ----

  /** The network a value denotes, or the error to report about it. */
  function NetworkVerdict(env: Parsers, v: RawValue): Result<(u128, nat), ConfigError> {
    var slash := SepAt(v.value, '/');
    if slash == |v.value| then Err(v.Error(NetworkMissingPrefixLen))
    else
      var addrPart, maskPart := v.value[..slash], v.value[slash + 1..];
      match env.ipv6(addrPart)
      case None => Err(v.ErrorAt(0, slash, NetworkInvalidAddress))
      case Some(addr) =>
        match env.number(maskPart)
        case None => Err(v.ErrorAt(slash + 1, |maskPart|, NetworkPrefixLenNotANumber))
        case Some(mask) =>
          if mask > 128 then Err(v.ErrorAt(slash + 1, |maskPart|, NetworkPrefixLenOutOfRange(mask)))
          else if mask % 4 != 0 then Err(v.ErrorAt(slash + 1, |maskPart|, NetworkPrefixNotNibbleAligned(mask)))
          else if mask == 0 then Err(v.ErrorAt(slash + 1, |maskPart|, NetworkPrefixTooShort(mask)))
          else if mask == 128 then Err(v.Error(NetworkIsSingleAddress))
          else
            var prefix := And(addr, MaskBits(mask));
            if addr != prefix then Err(v.Error(NetworkHostBitsSet(prefix, mask))) else Ok((addr, mask))
  }

  /** `resolves to` texts count as one pattern up to ASCII case. */
  function PatternKey(text: string): string {
    Lower(text)
  }

  /** `(128 - mask) / 4`, with the saturating subtraction of the source. */
  function HostNibbles(mask: nat): nat {
    if mask <= 128 then (128 - mask) / 4 else 0
  }

  /** The zone a block denotes next to the networks and patterns already seen, or the error to report. */
  function ZoneVerdict(env: Parsers, raw: RawZone, networks: map<(u128, nat), nat>, patterns: map<string, nat>): Result<Zone, ConfigError> {
    match NetworkVerdict(env, raw.network)
    case Err(e) => Err(e)
    case Ok((prefix, mask)) =>
      if (prefix, mask) in networks then Err(raw.network.Error(DuplicateNetwork(networks[(prefix, mask)])))
      else BlockVerdict(env, raw, prefix, mask, patterns)
  }

  /** The verdict on a block whose network stands. */
  function BlockVerdict(env: Parsers, raw: RawZone, prefix: u128, mask: nat, patterns: map<string, nat>): Result<Zone, ConfigError> {
    match raw.resolvesTo
    case None => Err(raw.network.Error(MissingResolvesTo))
    case Some(v) =>
      match TemplateVerdict(v.value, HostNibbles(mask))
      case Err(kind) => Err(v.Error(kind))
      case Ok(_) => RestVerdict(env, raw, prefix, mask, patterns)
  }

  /** The checks that follow once the network and the template stand. */
  function RestVerdict(env: Parsers, raw: RawZone, prefix: u128, mask: nat, patterns: map<string, nat>): Result<Zone, ConfigError>
    requires raw.resolvesTo.Some?
  {
    var v := raw.resolvesTo.value;
    if PatternKey(v.value) in patterns then Err(v.Error(DuplicateForwardPattern(patterns[PatternKey(v.value)])))
    else if raw.upstream.Some? && env.address(raw.upstream.value.value).None? then
      Err(raw.upstream.value.Error(InvalidUpstreamAddress))
    else Ok(BuildZone(env, raw, prefix, mask))
  }

  /** The zone of a block that passes every check. */
  function BuildZone(env: Parsers, raw: RawZone, prefix: u128, mask: nat): Zone {
    var text := match raw.resolvesTo case None => "" case Some(v) => v.value;
    var fwd := TemplateOf(text);
    Zone(raw.network.line,
         prefix,
         mask,
         HostNibbles(mask),
         if mask <= 128 && mask % 4 == 0 then PtrName(prefix, mask) else [],
         text,
         fwd,
         ParentLabels(fwd),
         DEFAULT_TTL,
         match raw.upstream case None => None case Some(u) => env.address(u.value))
  }

  lemma NetworkVerdictValid(env: Parsers, v: RawValue)
    ensures NetworkVerdict(env, v).Ok? ==>
      var (prefix, mask) := NetworkVerdict(env, v).value;
      ValidMask(mask) && And(prefix, MaskBits(mask)) == prefix
  {
  }

  /** A zone that passes its checks has every property the request path relies on. */
  lemma ZoneVerdictValid(env: Parsers, raw: RawZone, networks: map<(u128, nat), nat>, patterns: map<string, nat>)
    requires ZoneVerdict(env, raw, networks, patterns).Ok?
    ensures ValidZone(ZoneVerdict(env, raw, networks, patterns).value)
  {
    NetworkVerdictValid(env, raw.network);
    var (prefix, mask) := NetworkVerdict(env, raw.network).value;
    BlockVerdictValid(env, raw, prefix, mask, patterns);
  }

  lemma BlockVerdictValid(env: Parsers, raw: RawZone, prefix: u128, mask: nat, patterns: map<string, nat>)
    requires ValidMask(mask) && And(prefix, MaskBits(mask)) == prefix
    requires BlockVerdict(env, raw, prefix, mask, patterns).Ok?
    ensures ValidZone(BlockVerdict(env, raw, prefix, mask, patterns).value)
  {
    AcceptedTemplate(raw.resolvesTo.value.value, HostNibbles(mask));
  }

  // ---- the labels of a template ----

  /** What the loop over the labels has established after `idx` of them. */
  predicate Scanned(segments: seq<string>, idx: nat, labels: seq<FwdLabel>, digitsAt: Option<nat>, dashedUsed: bool) {
    && idx <= |segments|
    && "" !in segments[..idx]
    && labels == LabelsOf(segments)[..idx]
    && digitsAt == LastDigits(labels)
    && dashedUsed == (digitsAt.Some? && labels[digitsAt.value].dashed)
  }

  lemma ScannedStep(segments: seq<string>, idx: nat, labels: seq<FwdLabel>, digitsAt: Option<nat>, dashedUsed: bool)
    requires Scanned(segments, idx, labels, digitsAt, dashedUsed) && idx < |segments| && segments[idx] != ""
    ensures var l := LabelOf(segments[idx]);
      Scanned(segments, idx + 1, labels + [l], if l.Digits? then Some(idx) else digitsAt, if l.Digits? then l.dashed else dashedUsed)
  {
    LastDigitsAppend(labels, LabelOf(segments[idx]));
    assert segments[..idx + 1] == segments[..idx] + [segments[idx]];
    assert LabelsOf(segments)[..idx + 1] == LabelsOf(segments)[..idx] + [LabelOf(segments[idx])];
  }

  // ---- all networks ----

  datatype Progress = Progress(
    zones: seq<Zone>,
    errors: seq<ConfigError>,
    networks: map<(u128, nat), nat>,
    patterns: map<string, nat>)

  function Advance(env: Parsers, ttl: nat, p: Progress, raw: RawZone): Progress {
    match ZoneVerdict(env, raw, p.networks, p.patterns)
    case Err(e) => p.(errors := p.errors + [e])
    case Ok(z) =>
      Progress(p.zones + [z.(ttl := ttl)],
               p.errors,
               p.networks[(z.prefix, z.mask) := raw.network.line],
               p.patterns[PatternKey(z.resolvesTo) := match raw.resolvesTo case None => 0 case Some(v) => v.line])
  }

  function CompileAll(env: Parsers, ttl: nat, raws: seq<RawZone>): Progress {
    if raws == [] then Progress([], [], map[], map[])
    else Advance(env, ttl, CompileAll(env, ttl, raws[..|raws| - 1]), raws[|raws| - 1])
  }

  class Compiler {
    var errors: seq<ConfigError>
    var seenNetworks: map<(u128, nat), nat>
    var seenPatterns: map<string, nat>

    constructor (errors: seq<ConfigError>)
      ensures this.errors == errors && seenNetworks == map[] && seenPatterns == map[]
    {
      this.errors := errors;
      seenNetworks := map[];
      seenPatterns := map[];
    }

    /** `compile_network`. */
    method CompileNetwork(env: Parsers, v: RawValue) returns (r: Option<(u128, nat)>)
      modifies this`errors
      ensures match NetworkVerdict(env, v)
        case Ok(network) => r == Some(network) && errors == old(errors)
        case Err(e) => r == None && errors == old(errors) + [e]
    {
      var slash := SepAt(v.value, '/');
      if slash == |v.value| {
        errors := errors + [v.Error(NetworkMissingPrefixLen)];
        return None;
      }
      var addrPart, maskPart := v.value[..slash], v.value[slash + 1..];
      var addr := env.ipv6(addrPart);
      if addr.None? {
        errors := errors + [v.ErrorAt(0, |addrPart|, NetworkInvalidAddress)];
        return None;
      }
      var maskOffset := |addrPart| + 1;
      var number := env.number(maskPart);
      if number.None? {
        errors := errors + [v.ErrorAt(maskOffset, |maskPart|, NetworkPrefixLenNotANumber)];
        return None;
      }
      var mask := number.value;
      if mask > 128 {
        errors := errors + [v.ErrorAt(maskOffset, |maskPart|, NetworkPrefixLenOutOfRange(mask))];
        return None;
      }
      if mask % 4 != 0 {
        errors := errors + [v.ErrorAt(maskOffset, |maskPart|, NetworkPrefixNotNibbleAligned(mask))];
        return None;
      }
      if mask == 0 {
        errors := errors + [v.ErrorAt(maskOffset, |maskPart|, NetworkPrefixTooShort(mask))];
        return None;
      }
      if mask == 128 {
        errors := errors + [v.Error(NetworkIsSingleAddress)];
        return None;
      }
      var prefix := And(addr.value, MaskBits(mask));
      if addr.value != prefix {
        errors := errors + [v.Error(NetworkHostBitsSet(prefix, mask))];
        return None;
      }
      return Some((prefix, mask));
    }

    /** The loop of `compile_template` over the labels of the text. */
    method CompileLabels(v: RawValue) returns (labels: seq<FwdLabel>, digitsAt: Option<nat>, dashedUsed: bool, ok: bool)
      modifies this`errors
      ensures ok == ("" !in Segments(v.value))
      ensures errors == if ok then old(errors) else old(errors) + [v.Error(ResolvesToInvalidName)]
      ensures ok ==> labels == LabelsOf(Segments(v.value)) && digitsAt == LastDigits(labels)
      ensures ok ==> dashedUsed == (digitsAt.Some? && labels[digitsAt.value].dashed)
    {
      var segments := Split(StripDot(v.value), '.');
      labels, digitsAt, dashedUsed := [], None, false;
      var idx := 0;
      while idx < |segments|
        invariant Scanned(segments, idx, labels, digitsAt, dashedUsed)
        invariant errors == old(errors)
      {
        var segment := segments[idx];
        if segment == "" {
          errors := errors + [v.Error(ResolvesToInvalidName)];
          return labels, digitsAt, dashedUsed, false;
        }
        var l := LabelOf(segment);
        ScannedStep(segments, idx, labels, digitsAt, dashedUsed);
        if l.Digits? {
          digitsAt := Some(idx);
          dashedUsed := l.dashed;
        }
        labels := labels + [l];
        idx := idx + 1;
      }
      assert LabelsOf(segments)[..idx] == LabelsOf(segments) && segments[..idx] == segments;
      ok := true;
    }

    /** `compile_template`. */
    method CompileTemplate(v: RawValue, hostNibbles: nat) returns (r: Option<FwdTemplate>)
      modifies this`errors
      ensures match TemplateVerdict(v.value, hostNibbles)
        case Ok(t) => r == Some(t) && errors == old(errors)
        case Err(kind) => r == None && errors == old(errors) + [v.Error(kind)]
    {
      var lowered := Lower(v.value);
      var hits := Hits(lowered, PLACEHOLDER) + Hits(lowered, PLACEHOLDER_DASHED);
      if hits == 0 {
        errors := errors + [v.Error(PlaceholderMissing)];
        return None;
      }
      if hits != 1 {
        errors := errors + [v.Error(PlaceholderRepeated(hits))];
        return None;
      }
      // The hit lies within one label, so the defensive error for a missing index cannot arise.
      OneHitWellFormed(v.value);
      var labels, digitsAt, dashedUsed, ok := CompileLabels(v);
      if !ok {
        return None;
      }
      var template := FwdTemplate(labels, digitsAt.value);
      if dashedUsed && hostNibbles % 4 != 0 {
        errors := errors + [v.Error(DashedDigitsNotNibbleMultipleOfFour(hostNibbles))];
        return None;
      }
      var rendered := Render(template, Repeat('f', Min(hostNibbles, ADDR_NIBBLES)));
      if rendered.None? {
        errors := errors + [v.Error(ForwardNameTooLong)];
        return None;
      }
      return Some(template);
    }

    /** `compile_zone`. */
    method CompileZone(env: Parsers, raw: RawZone) returns (r: Option<Zone>)
      modifies this
      ensures match ZoneVerdict(env, raw, old(seenNetworks), old(seenPatterns))
        case Err(e) =>
          r == None && errors == old(errors) + [e] && seenNetworks == old(seenNetworks) && seenPatterns == old(seenPatterns)
        case Ok(z) =>
          && r == Some(z) && errors == old(errors) && raw.resolvesTo.Some?
          && seenNetworks == old(seenNetworks)[(z.prefix, z.mask) := raw.network.line]
          && seenPatterns == old(seenPatterns)[PatternKey(z.resolvesTo) := raw.resolvesTo.value.line]
    {
      var network := CompileNetwork(env, raw.network);
      if network.None? {
        return None;
      }
      NetworkVerdictValid(env, raw.network);
      var (prefix, mask) := network.value;
      if (prefix, mask) in seenNetworks {
        errors := errors + [raw.network.Error(DuplicateNetwork(seenNetworks[(prefix, mask)]))];
        return None;
      }
      r := CompileBlock(env, raw, prefix, mask);
    }

    /** `compile_zone`, once the network stands. */
    method CompileBlock(env: Parsers, raw: RawZone, prefix: u128, mask: nat) returns (r: Option<Zone>)
      requires ValidMask(mask)
      modifies this
      ensures match BlockVerdict(env, raw, prefix, mask, old(seenPatterns))
        case Err(e) =>
          r == None && errors == old(errors) + [e] && seenNetworks == old(seenNetworks) && seenPatterns == old(seenPatterns)
        case Ok(z) =>
          && r == Some(z) && errors == old(errors) && raw.resolvesTo.Some? && (z.prefix, z.mask) == (prefix, mask)
          && seenNetworks == old(seenNetworks)[(prefix, mask) := raw.network.line]
          && seenPatterns == old(seenPatterns)[PatternKey(z.resolvesTo) := raw.resolvesTo.value.line]
    {
      if raw.resolvesTo.None? {
        errors := errors + [raw.network.Error(MissingResolvesTo)];
        return None;
      }
      var resolvesTo := raw.resolvesTo.value;
      var fwd := CompileTemplate(resolvesTo, HostNibbles(mask));
      if fwd.None? {
        return None;
      }
      AcceptedTemplate(resolvesTo.value, HostNibbles(mask));
      r := FinishZone(env, raw, prefix, mask, fwd.value);
    }

    /** The rest of `compile_zone`, once the network and the template stand. */
    method FinishZone(env: Parsers, raw: RawZone, prefix: u128, mask: nat, fwd: FwdTemplate) returns (r: Option<Zone>)
      requires ValidMask(mask) && raw.resolvesTo.Some?
      requires fwd == TemplateOf(raw.resolvesTo.value.value) && Parent(fwd).Some?
      modifies this
      ensures match RestVerdict(env, raw, prefix, mask, old(seenPatterns))
        case Err(e) =>
          r == None && errors == old(errors) + [e] && seenNetworks == old(seenNetworks) && seenPatterns == old(seenPatterns)
        case Ok(z) =>
          && r == Some(z) && errors == old(errors)
          && seenNetworks == old(seenNetworks)[(prefix, mask) := raw.network.line]
          && seenPatterns == old(seenPatterns)[PatternKey(z.resolvesTo) := raw.resolvesTo.value.line]
    {
      var resolvesTo := raw.resolvesTo.value;
      var key := Lower(resolvesTo.value);
      if key in seenPatterns {
        errors := errors + [resolvesTo.Error(DuplicateForwardPattern(seenPatterns[key]))];
        return None;
      }
      var upstream: Option<IpAddr> := None;
      if raw.upstream.Some? {
        upstream := env.address(raw.upstream.value.value);
        if upstream.None? {
          errors := errors + [raw.upstream.value.Error(InvalidUpstreamAddress)];
          return None;
        }
      }
      // Neither of the next two can fail: the mask is aligned, and the template renders.
      var ptrZone := NetmaskToPtrName(prefix, mask);
      var fwdParent := Parent(fwd);
      seenNetworks := seenNetworks[(prefix, mask) := raw.network.line];
      seenPatterns := seenPatterns[key := resolvesTo.line];
      return Some(Zone(raw.network.line, prefix, mask, HostNibbles(mask), ptrZone.value, resolvesTo.value, fwd,
                       fwdParent.value, DEFAULT_TTL, upstream));
    }

    /** The compiler and the zones it yielded stand where the specification stands after some blocks. */
    ghost predicate Reflects(before: seq<ConfigError>, zones: seq<Zone>, p: Progress)
      reads this
    {
      && zones == p.zones && errors == before + p.errors
      && seenNetworks == p.networks && seenPatterns == p.patterns
    }

    /** One turn of the loop over the blocks. */
    method CompileNext(env: Parsers, ttl: nat, raw: RawZone, zones: seq<Zone>, ghost before: seq<ConfigError>, ghost p: Progress)
      returns (zones': seq<Zone>)
      requires Reflects(before, zones, p)
      modifies this
      ensures Reflects(before, zones', Advance(env, ttl, p, raw))
    {
      var compiled := CompileZone(env, raw);
      if compiled.None? {
        assert forall e :: before + p.errors + [e] == before + (p.errors + [e]);
        return zones;
      }
      return zones + [compiled.value.(ttl := ttl)];
    }
  }

  lemma CompileAllStep(env: Parsers, ttl: nat, raws: seq<RawZone>, k: nat)
    requires k < |raws|
    ensures CompileAll(env, ttl, raws[..k + 1]) == Advance(env, ttl, CompileAll(env, ttl, raws[..k]), raws[k])
  {
    assert raws[..k + 1][..k] == raws[..k];
  }

  /** `compile`; `errors` are the ones the rest of the file already gave rise to. */
  method Compile(env: Parsers, raw: RawConfig, settings: Settings, errors: seq<ConfigError>)
    returns (c: Config, errors': seq<ConfigError>)
    ensures var p := CompileAll(env, settings.ttl, raw.zones);
      && errors' == errors + p.errors
      && c == Config(settings.listen, StableSort(p.zones), settings.soa, settings.nameservers, settings.outOfZone)
  {
    var compiler := new Compiler(errors);
    var zones: seq<Zone> := [];
    for k := 0 to |raw.zones|
      invariant fresh(compiler)
      invariant compiler.Reflects(errors, zones, CompileAll(env, settings.ttl, raw.zones[..k]))
    {
      CompileAllStep(env, settings.ttl, raw.zones, k);
      zones := compiler.CompileNext(env, settings.ttl, raw.zones[k], zones, errors, CompileAll(env, settings.ttl, raw.zones[..k]));
    }
    assert raw.zones[..|raw.zones|] == raw.zones;
    zones := StableSort(zones);
    return Config(settings.listen, zones, settings.soa, settings.nameservers, settings.outOfZone), compiler.errors;
  }
}
