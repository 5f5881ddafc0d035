/** What compilation guarantees for every input, and what it does not. */
module CompileFacts {
  import opened Wrappers
  import opened Bits
  import opened Ascii
  import opened ConfigModel
  import opened ConfigText
  import opened ConfigParse
  import opened ConfigCompile
  import opened MaskSort

  // ---- the invariants of the request path ----

  /** Everything compiled so far is valid, and the networks seen are exactly those of its zones. */
  predicate Sound(p: Progress) {
    && (forall i :: 0 <= i < |p.zones| ==> ValidZone(p.zones[i]))
    && DistinctNetworks(p.zones)
    && (forall i :: 0 <= i < |p.zones| ==> (p.zones[i].prefix, p.zones[i].mask) in p.networks)
  }

  lemma AdvanceSound(env: Parsers, ttl: nat, p: Progress, raw: RawZone)
    requires Sound(p)
    ensures Sound(Advance(env, ttl, p, raw))
  {
    match ZoneVerdict(env, raw, p.networks, p.patterns) {
      case Err(_) =>
      case Ok(z) =>
        ZoneVerdictValid(env, raw, p.networks, p.patterns);
        NetworkVerdictUnseen(env, raw, p.networks, p.patterns);
        SoundWith(p, Advance(env, ttl, p, raw), z.(ttl := ttl), raw.network.line);
    }
  }

  lemma SoundWith(p: Progress, q: Progress, z: Zone, line: nat)
    requires Sound(p) && ValidZone(z) && (z.prefix, z.mask) !in p.networks
    requires q.zones == p.zones + [z] && q.networks == p.networks[(z.prefix, z.mask) := line]
    ensures Sound(q)
  {
  }

  lemma NetworkVerdictUnseen(env: Parsers, raw: RawZone, networks: map<(u128, nat), nat>, patterns: map<string, nat>)
    requires ZoneVerdict(env, raw, networks, patterns).Ok?
    ensures var z := ZoneVerdict(env, raw, networks, patterns).value;
      && (z.prefix, z.mask) !in networks && NetworkVerdict(env, raw.network) == Ok((z.prefix, z.mask))
      && raw.resolvesTo.Some? && z.resolvesTo == raw.resolvesTo.value.value && PatternKey(z.resolvesTo) !in patterns
      && z == BuildZone(env, raw, z.prefix, z.mask)
  {
  }

  lemma {:induction false} CompileAllSound(env: Parsers, ttl: nat, raws: seq<RawZone>)
    ensures Sound(CompileAll(env, ttl, raws))
  {
    if raws != [] {
      CompileAllSound(env, ttl, raws[..|raws| - 1]);
      AdvanceSound(env, ttl, CompileAll(env, ttl, raws[..|raws| - 1]), raws[|raws| - 1]);
    }
  }

  /** Whatever the blocks say, the zones compiled from them satisfy everything a request relies on. */
  lemma CompiledIsValid(env: Parsers, ttl: nat, raws: seq<RawZone>, c: Config)
    requires c.zones == StableSort(CompileAll(env, ttl, raws).zones)
    ensures ValidConfig(c)
  {
    var zones := CompileAll(env, ttl, raws).zones;
    CompileAllSound(env, ttl, raws);
    StableSortSorted(zones);
    StableSortDistinct(zones);
    forall i | 0 <= i < |c.zones| ensures ValidZone(c.zones[i]) {
      StableSortMembers(zones, c.zones[i]);
    }
  }

  /** `Config::parse`; the settings outside the `network` blocks and their errors are given. */
  method ParseConfig(env: Parsers, input: string, settings: RawConfig -> (Settings, seq<ConfigError>))
    returns (r: Result<Config, seq<ConfigError>>)
    ensures r.Ok? ==> ValidConfig(r.value)
    ensures r.Err? ==> r.error != []
    ensures var raw := ConfigOf(Lines(input));
      var (given, found) := settings(raw);
      r.Ok? <==> ErrorsOf(Lines(input)) == [] && found == [] && Acceptable(env, raw.zones)
    ensures r.Ok? ==> r.value.zones == StableSort(WithTtl(BlockZones(env, ConfigOf(Lines(input)).zones), settings(ConfigOf(Lines(input))).0.ttl))
  {
    var raw, errors := Parse(input);
    var (given, found) := settings(raw);
    var c, all := Compile(env, raw, given, errors + found);
    CompiledIsValid(env, given.ttl, raw.zones, c);
    AcceptExact(env, given.ttl, raw.zones);
    return if all == [] then Ok(c) else Err(all);
  }

  // ---- acceptance ----

  /** The verdict on a block considered alone. */
  function Alone(env: Parsers, raw: RawZone): Result<Zone, ConfigError> {
    ZoneVerdict(env, raw, map[], map[])
  }

  lemma VerdictNextToOthers(env: Parsers, raw: RawZone, networks: map<(u128, nat), nat>, patterns: map<string, nat>)
    ensures ZoneVerdict(env, raw, networks, patterns).Ok? <==>
      && Alone(env, raw).Ok?
      && (Alone(env, raw).value.prefix, Alone(env, raw).value.mask) !in networks
      && PatternKey(Alone(env, raw).value.resolvesTo) !in patterns
    ensures ZoneVerdict(env, raw, networks, patterns).Ok? ==> ZoneVerdict(env, raw, networks, patterns) == Alone(env, raw)
  {
  }

  /** No two zones share a network or a pattern. */
  predicate Clash(v: Zone, w: Zone) {
    (v.prefix, v.mask) == (w.prefix, w.mask) || EqIgnoreCase(v.resolvesTo, w.resolvesTo)
  }

  predicate AllRight(env: Parsers, raws: seq<RawZone>) {
    forall i :: 0 <= i < |raws| ==> Alone(env, raws[i]).Ok?
  }

  /** The zones of blocks that are each right by themselves. */
  function BlockZones(env: Parsers, raws: seq<RawZone>): (r: seq<Zone>)
    requires AllRight(env, raws)
    ensures |r| == |raws|
  {
    seq(|raws|, i requires 0 <= i < |raws| => Alone(env, raws[i]).value)
  }

  function WithTtl(zones: seq<Zone>, ttl: nat): (r: seq<Zone>)
    ensures |r| == |zones|
  {
    seq(|zones|, i requires 0 <= i < |zones| => zones[i].(ttl := ttl))
  }

  predicate NoClash(zones: seq<Zone>) {
    forall i, j :: 0 <= i < j < |zones| ==> !Clash(zones[i], zones[j])
  }

  predicate ClashFreeWith(zones: seq<Zone>, z: Zone) {
    forall i :: 0 <= i < |zones| ==> !Clash(zones[i], z)
  }

  /** Every block is right by itself, and no two blocks clash. */
  predicate Acceptable(env: Parsers, raws: seq<RawZone>) {
    AllRight(env, raws) && NoClash(BlockZones(env, raws))
  }

  /** The maps hold exactly the keys of the zones compiled. */
  ghost predicate KeysExact(p: Progress) {
    && (forall k :: k in p.networks <==> exists i :: 0 <= i < |p.zones| && (p.zones[i].prefix, p.zones[i].mask) == k)
    && (forall k :: k in p.patterns <==> exists i :: 0 <= i < |p.zones| && PatternKey(p.zones[i].resolvesTo) == k)
  }

  lemma NetworkKeys(zones: seq<Zone>, z: Zone, networks: map<(u128, nat), nat>, line: nat)
    requires forall k :: k in networks <==> exists i :: 0 <= i < |zones| && (zones[i].prefix, zones[i].mask) == k
    ensures var all, seen := zones + [z], networks[(z.prefix, z.mask) := line];
      forall k :: k in seen <==> exists i :: 0 <= i < |all| && (all[i].prefix, all[i].mask) == k
  {
    var all := zones + [z];
    assert all[|zones|] == z && forall i :: 0 <= i < |zones| ==> all[i] == zones[i];
  }

  lemma PatternKeys(zones: seq<Zone>, z: Zone, patterns: map<string, nat>, line: nat)
    requires forall k :: k in patterns <==> exists i :: 0 <= i < |zones| && PatternKey(zones[i].resolvesTo) == k
    ensures var all, seen := zones + [z], patterns[PatternKey(z.resolvesTo) := line];
      forall k :: k in seen <==> exists i :: 0 <= i < |all| && PatternKey(all[i].resolvesTo) == k
  {
    var all := zones + [z];
    assert all[|zones|] == z && forall i :: 0 <= i < |zones| ==> all[i] == zones[i];
  }

  lemma KeysAdvance(env: Parsers, ttl: nat, p: Progress, raw: RawZone)
    requires KeysExact(p)
    ensures KeysExact(Advance(env, ttl, p, raw))
  {
    match ZoneVerdict(env, raw, p.networks, p.patterns) {
      case Err(_) =>
      case Ok(z) =>
        NetworkKeys(p.zones, z.(ttl := ttl), p.networks, raw.network.line);
        PatternKeys(p.zones, z.(ttl := ttl), p.patterns, match raw.resolvesTo case None => 0 case Some(v) => v.line);
    }
  }

  lemma {:induction false} KeysAll(env: Parsers, ttl: nat, raws: seq<RawZone>)
    ensures KeysExact(CompileAll(env, ttl, raws))
  {
    if raws != [] {
      KeysAll(env, ttl, raws[..|raws| - 1]);
      KeysAdvance(env, ttl, CompileAll(env, ttl, raws[..|raws| - 1]), raws[|raws| - 1]);
    }
  }

  /**
    The blocks compile without error if and only if each is right by itself and no two share a
    network or a pattern; the zones are then those of the blocks, in order.
   */
  lemma {:induction false} AcceptExact(env: Parsers, ttl: nat, raws: seq<RawZone>)
    ensures CompileAll(env, ttl, raws).errors == [] <==> Acceptable(env, raws)
    ensures Acceptable(env, raws) ==> CompileAll(env, ttl, raws).zones == WithTtl(BlockZones(env, raws), ttl)
  {
    if raws != [] {
      var front, last := raws[..|raws| - 1], raws[|raws| - 1];
      var p := CompileAll(env, ttl, front);
      assert raws == front + [last];
      AcceptExact(env, ttl, front);
      AcceptableSplit(env, front, last);
      AdvanceErrors(env, ttl, p, last);
      if Acceptable(env, front) {
        LastAccepted(env, ttl, front, last);
        AdvanceZones(env, ttl, p, last, BlockZones(env, front));
      }
    }
  }

  lemma AdvanceErrors(env: Parsers, ttl: nat, p: Progress, raw: RawZone)
    ensures Advance(env, ttl, p, raw).errors == [] <==> p.errors == [] && ZoneVerdict(env, raw, p.networks, p.patterns).Ok?
  {
  }

  lemma AdvanceZones(env: Parsers, ttl: nat, p: Progress, raw: RawZone, zones: seq<Zone>)
    requires p.zones == WithTtl(zones, ttl)
    ensures var v := ZoneVerdict(env, raw, p.networks, p.patterns);
      v.Ok? ==> Advance(env, ttl, p, raw).zones == WithTtl(zones + [v.value], ttl)
  {
  }

  /** The last block is accepted exactly when it is right by itself and clashes with none before it. */
  lemma LastAccepted(env: Parsers, ttl: nat, front: seq<RawZone>, last: RawZone)
    requires Acceptable(env, front)
    requires CompileAll(env, ttl, front).zones == WithTtl(BlockZones(env, front), ttl)
    ensures var p, alone := CompileAll(env, ttl, front), Alone(env, last);
      && (ZoneVerdict(env, last, p.networks, p.patterns).Ok? <==> alone.Ok? && ClashFreeWith(BlockZones(env, front), alone.value))
      && (ZoneVerdict(env, last, p.networks, p.patterns).Ok? ==> ZoneVerdict(env, last, p.networks, p.patterns) == alone)
  {
    var p := CompileAll(env, ttl, front);
    KeysAll(env, ttl, front);
    VerdictNextToOthers(env, last, p.networks, p.patterns);
    if Alone(env, last).Ok? {
      SeenIsClash(BlockZones(env, front), ttl, p, Alone(env, last).value);
    }
  }

  lemma SeenIsClash(zones: seq<Zone>, ttl: nat, p: Progress, z: Zone)
    requires p.zones == WithTtl(zones, ttl) && KeysExact(p)
    ensures (z.prefix, z.mask) !in p.networks && PatternKey(z.resolvesTo) !in p.patterns <==> ClashFreeWith(zones, z)
  {
    forall i | 0 <= i < |zones|
      ensures Clash(zones[i], z) <==>
        (p.zones[i].prefix, p.zones[i].mask) == (z.prefix, z.mask) || PatternKey(p.zones[i].resolvesTo) == PatternKey(z.resolvesTo)
    {
    }
  }

  lemma AcceptableSplit(env: Parsers, front: seq<RawZone>, last: RawZone)
    ensures AllRight(env, front + [last]) <==> AllRight(env, front) && Alone(env, last).Ok?
    ensures AllRight(env, front + [last]) ==> BlockZones(env, front + [last]) == BlockZones(env, front) + [Alone(env, last).value]
    ensures Acceptable(env, front + [last]) <==>
      Acceptable(env, front) && Alone(env, last).Ok? && ClashFreeWith(BlockZones(env, front), Alone(env, last).value)
  {
    var raws := front + [last];
    assert raws[|front|] == last;
    assert forall i :: 0 <= i < |front| ==> raws[i] == front[i];
    if AllRight(env, raws) {
      assert BlockZones(env, raws) == BlockZones(env, front) + [Alone(env, last).value];
      NoClashAppend(BlockZones(env, front), Alone(env, last).value);
    }
  }

  lemma NoClashAppend(zones: seq<Zone>, z: Zone)
    ensures NoClash(zones + [z]) <==> NoClash(zones) && ClashFreeWith(zones, z)
  {
    var all := zones + [z];
    assert forall i :: 0 <= i < |zones| ==> all[i] == zones[i];
    assert all[|zones|] == z;
  }
}
