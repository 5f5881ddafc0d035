/** Reordering the `network` blocks of a file changes neither acceptance nor the zone found for any address. */
module FileOrder {
  import opened Wrappers
  import opened Bits
  import opened ConfigModel
  import opened ConfigText
  import opened ConfigCompile
  import opened CompileFacts
  import opened MaskSort
  import opened Lookup
  import opened Resolution

  predicate SameText(a: Option<RawValue>, b: Option<RawValue>) {
    match (a, b)
    case (None, None) => true
    case (Some(v), Some(w)) => v.value == w.value
    case _ => false
  }

  /** Two blocks that say the same, on whatever lines. */
  predicate SameBlock(a: RawZone, b: RawZone) {
    a.network.value == b.network.value && SameText(a.resolvesTo, b.resolvesTo) && SameText(a.upstream, b.upstream)
  }

  /** Two zones that differ at most in the line they were read from. */
  predicate SameZone(v: Zone, w: Zone) {
    v.(srcLine := w.srcLine) == w
  }

  lemma SameBlockZone(env: Parsers, a: RawZone, b: RawZone)
    requires SameBlock(a, b) && Alone(env, a).Ok?
    ensures Alone(env, b).Ok? && SameZone(Alone(env, a).value, Alone(env, b).value)
  {
    SameNetwork(env, a.network, b.network);
    var (prefix, mask) := NetworkVerdict(env, a.network).value;
    SameBlockVerdict(env, a, b, prefix, mask);
  }

  lemma SameNetwork(env: Parsers, v: RawValue, w: RawValue)
    requires v.value == w.value && NetworkVerdict(env, v).Ok?
    ensures NetworkVerdict(env, w) == NetworkVerdict(env, v)
  {
  }

  lemma SameBlockVerdict(env: Parsers, a: RawZone, b: RawZone, prefix: u128, mask: nat)
    requires SameBlock(a, b) && BlockVerdict(env, a, prefix, mask, map[]).Ok?
    ensures BlockVerdict(env, b, prefix, mask, map[]).Ok?
    ensures SameZone(BlockVerdict(env, a, prefix, mask, map[]).value, BlockVerdict(env, b, prefix, mask, map[]).value)
  {
  }

  /** `p` and `q` are inverse rearrangements of the blocks of two files. */
  predicate Rearranged(a: seq<RawZone>, b: seq<RawZone>, p: seq<nat>, q: seq<nat>) {
    && |a| == |b| == |p| == |q|
    && (forall i :: 0 <= i < |b| ==> p[i] < |a| && q[p[i]] == i && SameBlock(a[p[i]], b[i]))
    && (forall i :: 0 <= i < |a| ==> q[i] < |b| && p[q[i]] == i && SameBlock(b[q[i]], a[i]))
  }

  lemma ZonesRearranged(env: Parsers, a: seq<RawZone>, b: seq<RawZone>, p: seq<nat>, q: seq<nat>)
    requires Rearranged(a, b, p, q) && AllRight(env, a)
    ensures AllRight(env, b)
    ensures forall i :: 0 <= i < |b| ==> SameZone(BlockZones(env, a)[p[i]], BlockZones(env, b)[i])
  {
    forall i | 0 <= i < |b| ensures Alone(env, b[i]).Ok? && SameZone(Alone(env, a[p[i]]).value, Alone(env, b[i]).value) {
      SameBlockZone(env, a[p[i]], b[i]);
    }
  }

  lemma AcceptedRearranged(env: Parsers, a: seq<RawZone>, b: seq<RawZone>, p: seq<nat>, q: seq<nat>)
    requires Rearranged(a, b, p, q) && Acceptable(env, a)
    ensures Acceptable(env, b)
  {
    ZonesRearranged(env, a, b, p, q);
    ClashFree(BlockZones(env, a), BlockZones(env, b), p, q);
  }

  lemma ClashFree(za: seq<Zone>, zb: seq<Zone>, p: seq<nat>, q: seq<nat>)
    requires |za| == |zb| == |p| == |q| && NoClash(za)
    requires forall i :: 0 <= i < |zb| ==> p[i] < |za| && q[p[i]] == i && SameZone(za[p[i]], zb[i])
    ensures NoClash(zb)
  {
    forall i, j | 0 <= i < j < |zb| ensures !Clash(zb[i], zb[j]) {
      assert q[p[i]] == i && q[p[j]] == j;
      var x, y := p[i], p[j];
      assert !Clash(za[if x < y then x else y], za[if x < y then y else x]);
    }
  }

  /** Every zone of `d` has a twin in `c`. */
  predicate Mirrors(c: Config, d: Config) {
    forall z {:trigger HasTwin(c, z)} :: z in d.zones ==> HasTwin(c, z)
  }

  predicate HasTwin(c: Config, z: Zone) {
    exists w :: w in c.zones && SameZone(w, z)
  }

  lemma RearrangedMirrors(env: Parsers, ttl: nat, a: seq<RawZone>, b: seq<RawZone>, p: seq<nat>, q: seq<nat>, c: Config, d: Config)
    requires Rearranged(a, b, p, q) && Acceptable(env, a) && Acceptable(env, b)
    requires c.zones == StableSort(WithTtl(BlockZones(env, a), ttl))
    requires d.zones == StableSort(WithTtl(BlockZones(env, b), ttl))
    ensures Mirrors(c, d)
  {
    ZonesRearranged(env, a, b, p, q);
    MirrorsThroughSort(WithTtl(BlockZones(env, a), ttl), WithTtl(BlockZones(env, b), ttl), p, c, d);
  }

  lemma MirrorsThroughSort(za: seq<Zone>, zb: seq<Zone>, p: seq<nat>, c: Config, d: Config)
    requires c.zones == StableSort(za) && d.zones == StableSort(zb) && |zb| == |p|
    requires forall i :: 0 <= i < |zb| ==> p[i] < |za| && SameZone(za[p[i]], zb[i])
    ensures Mirrors(c, d)
  {
    forall z | z in d.zones ensures HasTwin(c, z) {
      StableSortMembers(zb, z);
      var i :| 0 <= i < |zb| && zb[i] == z;
      var w := za[p[i]];
      assert w in za;
      StableSortMembers(za, w);
      assert w in c.zones && SameZone(w, z);
    }
  }

  lemma TwinFound(c: Config, d: Config, addr: u128)
    requires ValidConfig(c) && ValidConfig(d) && Mirrors(c, d) && Mirrors(d, c)
    requires ZoneForAddr(d, addr).Some?
    ensures ZoneForAddr(c, addr).Some? && SameZone(ZoneForAddr(c, addr).value, ZoneForAddr(d, addr).value)
  {
    var z := ZoneForAddr(d, addr).value;
    LongestPrefix(d, addr, z);
    assert HasTwin(c, z);
    var w :| w in c.zones && SameZone(w, z);
    TwinMostSpecific(c, d, addr, z, w);
    LongestPrefix(c, addr, w);
  }

  lemma TwinMostSpecific(c: Config, d: Config, addr: u128, z: Zone, w: Zone)
    requires DistinctNetworks(c.zones) && Mirrors(d, c)
    requires MostSpecific(d.zones, z, addr) && w in c.zones && SameZone(w, z)
    ensures MostSpecific(c.zones, w, addr)
  {
    assert InZone(w, addr);
    forall v | v in c.zones && v != w && InZone(v, addr) ensures v.mask < w.mask {
      assert HasTwin(d, v);
      var v' :| v' in d.zones && SameZone(v', v);
      assert InZone(v', addr);
      if v' == z {
        OneNetworkOneZone(c, v, w);
      }
    }
  }

  lemma OneNetworkOneZone(c: Config, v: Zone, w: Zone)
    requires DistinctNetworks(c.zones) && v in c.zones && w in c.zones
    requires (v.prefix, v.mask) == (w.prefix, w.mask)
    ensures v == w
  {
    var i :| 0 <= i < |c.zones| && c.zones[i] == v;
    var j :| 0 <= j < |c.zones| && c.zones[j] == w;
    assert !(i < j) && !(j < i);
  }

  /**
    Two files with the same blocks in any order are accepted alike, and then find the same zone
    for every address, apart from the line number it carries.
   */
  lemma FileOrderIrrelevant(
    env: Parsers, ttl: nat, a: seq<RawZone>, b: seq<RawZone>, p: seq<nat>, q: seq<nat>, c: Config, d: Config, addr: u128)
    requires Rearranged(a, b, p, q)
    requires c.zones == StableSort(CompileAll(env, ttl, a).zones)
    requires d.zones == StableSort(CompileAll(env, ttl, b).zones)
    ensures CompileAll(env, ttl, a).errors == [] <==> CompileAll(env, ttl, b).errors == []
    ensures CompileAll(env, ttl, a).errors == [] ==>
      && (ZoneForAddr(c, addr).Some? <==> ZoneForAddr(d, addr).Some?)
      && (ZoneForAddr(c, addr).Some? ==> SameZone(ZoneForAddr(c, addr).value, ZoneForAddr(d, addr).value))
  {
    AcceptExact(env, ttl, a);
    AcceptExact(env, ttl, b);
    if Acceptable(env, a) {
      AcceptedRearranged(env, a, b, p, q);
    }
    if Acceptable(env, b) {
      AcceptedRearranged(env, b, a, q, p);
      CompiledIsValid(env, ttl, a, c);
      CompiledIsValid(env, ttl, b, d);
      RearrangedMirrors(env, ttl, a, b, p, q, c, d);
      RearrangedMirrors(env, ttl, b, a, q, p, d, c);
      if ZoneForAddr(d, addr).Some? {
        TwinFound(c, d, addr);
      }
      if ZoneForAddr(c, addr).Some? {
        TwinFound(d, c, addr);
      }
    }
  }
}
