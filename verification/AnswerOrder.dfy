/**
  When forward answers depend on the order of the `network` blocks: zones of one prefix length
  keep the order of the file, and the first that matches a name answers it.
 */
module AnswerOrder {
  import opened Wrappers
  import opened Bits
  import opened Names
  import opened Nibble
  import opened ConfigModel
  import opened ConfigText
  import opened ConfigCompile
  import opened CompileFacts
  import opened FileOrder
  import opened MaskSort
  import opened Lookup
  import opened Synth
  import opened Resolution
  import opened Ambiguity

  /** No two zones of one prefix length have overlapping templates. A check on the text alone. */
  predicate NoTies(c: Config) {
    forall i, j :: 0 <= i < j < |c.zones| && c.zones[i].mask == c.zones[j].mask ==> !Overlap(c.zones[i], c.zones[j])
  }

  predicate Matches(z: Zone, qname: Name) {
    MatchZoneForward(z, qname).Some?
  }

  /** The zone matches the name, and no other zone of its prefix length or longer does. */
  predicate Foremost(zones: seq<Zone>, z: Zone, qname: Name) {
    && z in zones && Matches(z, qname)
    && forall w :: w in zones && w != z && Matches(w, qname) ==> w.mask < z.mask
  }

  lemma ForemostIsFound(c: Config, z: Zone, qname: Name)
    requires ValidConfig(c) && Foremost(c.zones, z, qname)
    ensures MatchForward(c, qname) == Some((z, MatchZoneForward(z, qname).value))
  {
    var k := FirstMatchFacts(c.zones, qname);
    var i :| 0 <= i < |c.zones| && c.zones[i] == z;
    assert k <= i && c.zones[k] in c.zones && Matches(c.zones[k], qname);
  }

  /** The zone found is the only one of its prefix length to match. */
  predicate Settled(c: Config, qname: Name) {
    MatchForward(c, qname).Some? ==> Foremost(c.zones, MatchForward(c, qname).value.0, qname)
  }

  /** Of two zones that match one name the later has the shorter prefix. */
  lemma LaterIsShorter(c: Config, k: nat, j: nat, qname: Name)
    requires ValidConfig(c) && NoTies(c) && k < j < |c.zones|
    requires Matches(c.zones[k], qname) && Matches(c.zones[j], qname)
    ensures c.zones[j].mask < c.zones[k].mask
  {
    assert BothMatch(c.zones[k], c.zones[j], qname);
    OverlapExact(c.zones[k], c.zones[j]);
  }

  lemma NoTiesSettles(c: Config, qname: Name)
    requires ValidConfig(c) && NoTies(c)
    ensures Settled(c, qname)
  {
    var k := FirstMatchFacts(c.zones, qname);
    if MatchForward(c, qname).Some? {
      forall w | w in c.zones && w != c.zones[k] && Matches(w, qname) ensures w.mask < c.zones[k].mask {
        var j :| 0 <= j < |c.zones| && c.zones[j] == w;
        LaterIsShorter(c, k, j, qname);
      }
    }
  }

  // ---- one configuration, any order ----

  ghost predicate SameZones(c: Config, d: Config) {
    forall z :: z in c.zones <==> z in d.zones
  }

  lemma NoneMatches(c: Config, qname: Name)
    ensures MatchForward(c, qname).None? <==> forall z :: z in c.zones ==> !Matches(z, qname)
  {
    var k := FirstMatchFacts(c.zones, qname);
    if MatchForward(c, qname).Some? {
      assert c.zones[k] in c.zones && Matches(c.zones[k], qname);
    }
  }

  lemma SettledOrder(c: Config, d: Config, qname: Name)
    requires ValidConfig(c) && ValidConfig(d) && SameZones(c, d) && Settled(c, qname)
    ensures MatchForward(d, qname) == MatchForward(c, qname)
  {
    if MatchForward(c, qname).Some? {
      var z := MatchForward(c, qname).value.0;
      ForemostIsFound(c, z, qname);
      ForemostIsFound(d, z, qname);
    } else {
      NoneMatches(c, qname);
      NoneMatches(d, qname);
    }
  }

  function Swapped(c: Config, i: nat, j: nat): Config
    requires i < |c.zones| && j < |c.zones|
  {
    c.(zones := c.zones[i := c.zones[j]][j := c.zones[i]])
  }

  lemma SwappedValid(c: Config, i: nat, j: nat)
    requires ValidConfig(c) && i < j < |c.zones| && c.zones[i].mask == c.zones[j].mask
    ensures ValidConfig(Swapped(c, i, j)) && SameZones(c, Swapped(c, i, j))
  {
    var d := Swapped(c, i, j);
    SwappedMembers(c, i, j);
    SwappedDistinct(c, i, j);
    forall k | 0 <= k < |d.zones| ensures ValidZone(d.zones[k]) {
    }
    assert forall k :: 0 <= k < |d.zones| ==> d.zones[k].mask == c.zones[k].mask;
  }

  lemma SwappedMembers(c: Config, i: nat, j: nat)
    requires i < j < |c.zones|
    ensures SameZones(c, Swapped(c, i, j))
  {
    var a, b := c.zones, Swapped(c, i, j).zones;
    forall z | z in a ensures z in b {
      var k :| 0 <= k < |a| && a[k] == z;
      assert b[if k == i then j else if k == j then i else k] == z;
    }
    forall z | z in b ensures z in a {
      var k :| 0 <= k < |b| && b[k] == z;
      assert a[if k == i then j else if k == j then i else k] == z;
    }
  }

  lemma SwappedDistinct(c: Config, i: nat, j: nat)
    requires DistinctNetworks(c.zones) && i < j < |c.zones|
    ensures DistinctNetworks(Swapped(c, i, j).zones)
  {
    var a, b := c.zones, Swapped(c, i, j).zones;
    forall k, m | 0 <= k < m < |b| ensures (b[k].prefix, b[k].mask) != (b[m].prefix, b[m].mask) {
      var x := if k == i then j else if k == j then i else k;
      var y := if m == i then j else if m == j then i else m;
      assert a[x] == b[k] && a[y] == b[m];
      DifferentPlaces(a, x, y);
    }
  }

  lemma DifferentPlaces(zones: seq<Zone>, x: nat, y: nat)
    requires DistinctNetworks(zones) && x < |zones| && y < |zones| && x != y
    ensures (zones[x].prefix, zones[x].mask) != (zones[y].prefix, zones[y].mask)
  {
    if x < y {
    } else {
      assert (zones[y].prefix, zones[y].mask) != (zones[x].prefix, zones[x].mask);
    }
  }

  /** Swapping the zone found with a later one that matches finds the later one. */
  lemma SwappedFinds(c: Config, i: nat, j: nat, qname: Name)
    requires i < j < |c.zones| && FirstMatchAt(c.zones, qname, i) && Matches(c.zones[j], qname)
    ensures MatchForward(Swapped(c, i, j), qname).Some? && MatchForward(Swapped(c, i, j), qname).value.0 == c.zones[j]
  {
    var d := Swapped(c, i, j);
    var k := FirstMatchFacts(d.zones, qname);
    assert d.zones[i] == c.zones[j] && forall m :: 0 <= m < i ==> d.zones[m] == c.zones[m];
    if MatchForward(d, qname).Some? {
      assert k == i;
    }
  }

  /** A second zone of the same prefix length, behind the one found. */
  lemma Rival(c: Config, qname: Name) returns (i: nat, j: nat)
    requires ValidConfig(c) && !Settled(c, qname)
    ensures i < j < |c.zones| && FirstMatchAt(c.zones, qname, i) && Matches(c.zones[j], qname)
    ensures c.zones[i].mask == c.zones[j].mask && c.zones[i] != c.zones[j]
    ensures MatchForward(c, qname).Some? && MatchForward(c, qname).value.0 == c.zones[i]
  {
    i := FirstMatchFacts(c.zones, qname);
    var w :| w in c.zones && w != c.zones[i] && Matches(w, qname) && w.mask >= c.zones[i].mask;
    j :| 0 <= j < |c.zones| && c.zones[j] == w;
    assert i < j;
  }

  /** Another order of the zones that finds another zone, if the one found is not alone. */
  lemma OtherOrder(c: Config, qname: Name) returns (d: Config)
    requires ValidConfig(c) && !Settled(c, qname)
    ensures ValidConfig(d) && SameZones(c, d) && MatchForward(d, qname) != MatchForward(c, qname)
  {
    var i, j := Rival(c, qname);
    SwappedValid(c, i, j);
    SwappedFinds(c, i, j, qname);
    d := Swapped(c, i, j);
  }

  /**
    What a name is looked up as is the same for every order of the zones if and only if the zone
    found is the only one of its prefix length to match the name.
   */
  lemma OrderMattersExactly(c: Config, qname: Name)
    requires ValidConfig(c)
    ensures Settled(c, qname) <==>
      forall d: Config :: ValidConfig(d) && SameZones(c, d) ==> MatchForward(d, qname) == MatchForward(c, qname)
  {
    if Settled(c, qname) {
      forall d: Config | ValidConfig(d) && SameZones(c, d) ensures MatchForward(d, qname) == MatchForward(c, qname) {
        SettledOrder(c, d, qname);
      }
    } else {
      var d := OtherOrder(c, qname);
    }
  }

  // ---- two files with the same blocks ----

  lemma SameZoneMatches(v: Zone, w: Zone, qname: Name)
    requires SameZone(v, w)
    ensures MatchZoneForward(v, qname) == MatchZoneForward(w, qname)
  {
  }

  /** A name matched in one file is matched in the other, by the twin of the zone. */
  lemma MatchHasTwin(c: Config, d: Config, z: Zone, qname: Name) returns (w: Zone)
    requires Mirrors(c, d) && z in d.zones && Matches(z, qname)
    ensures w in c.zones && SameZone(w, z) && Matches(w, qname)
  {
    assert HasTwin(c, z);
    w :| w in c.zones && SameZone(w, z);
    SameZoneMatches(w, z, qname);
  }

  lemma TwinForemost(c: Config, d: Config, z: Zone, w: Zone, qname: Name)
    requires DistinctNetworks(c.zones) && Mirrors(d, c)
    requires Foremost(d.zones, z, qname) && w in c.zones && SameZone(w, z)
    ensures Foremost(c.zones, w, qname)
  {
    SameZoneMatches(w, z, qname);
    forall v | v in c.zones && v != w && Matches(v, qname) ensures v.mask < w.mask {
      var v' := MatchHasTwin(d, c, v, qname);
      if v' == z {
        OneNetworkOneZone(c, v, w);
      }
    }
  }

  /** Found in both files, as the same address of the same zone, or in neither. */
  predicate SameMatch(a: Option<(Zone, nat)>, b: Option<(Zone, nat)>) {
    match (a, b)
    case (None, None) => true
    case (Some((v, x)), Some((w, y))) => SameZone(v, w) && x == y
    case _ => false
  }

  lemma ForwardTwins(c: Config, d: Config, qname: Name)
    requires ValidConfig(c) && ValidConfig(d) && Mirrors(c, d) && Mirrors(d, c) && Settled(d, qname)
    ensures SameMatch(MatchForward(c, qname), MatchForward(d, qname))
  {
    var i := FirstMatchFacts(c.zones, qname);
    if MatchForward(d, qname).Some? {
      var z := MatchForward(d, qname).value.0;
      var w := MatchHasTwin(c, d, z, qname);
      TwinForemost(c, d, z, w, qname);
      ForemostIsFound(c, w, qname);
      ForemostIsFound(d, z, qname);
      SameZoneMatches(w, z, qname);
    } else if MatchForward(c, qname).Some? {
      var w := MatchHasTwin(d, c, c.zones[i], qname);
      var k := FirstMatchFacts(d.zones, qname);
    }
  }

  /** The same records from the same zone, or no name, or no zone. */
  predicate SameReply(a: Outcome, b: Outcome) {
    match (a, b)
    case (Answer(v, rs), Answer(w, ss)) => SameZone(v, w) && rs == ss
    case (NoName(_), NoName(_)) => true
    case (NoZone, NoZone) => true
    case _ => false
  }

  lemma EnclosingTwins(c: Config, d: Config, qname: Name)
    requires Mirrors(c, d) && ZoneContaining(d, qname).Some?
    ensures ZoneContaining(c, qname).Some?
  {
    FirstEnclosingFacts(c.zones, qname);
    FirstEnclosingFacts(d.zones, qname);
    var z := ZoneContaining(d, qname).value;
    assert HasTwin(c, z);
    var w :| w in c.zones && SameZone(w, z);
    var i :| 0 <= i < |c.zones| && c.zones[i] == w;
    assert Encloses(c.zones[i], qname);
  }

  /** Reverse matches name the same address, and zones found alike. */
  predicate SamePtr(a: Option<(Zone, u128)>, b: Option<(Zone, u128)>) {
    match (a, b)
    case (None, None) => true
    case (Some((v, x)), Some((w, y))) => SameZone(v, w) && x == y
    case _ => false
  }

  lemma PtrTwins(c: Config, d: Config, qname: Name)
    requires ValidConfig(c) && ValidConfig(d) && Mirrors(c, d) && Mirrors(d, c)
    ensures SamePtr(MatchPtr(c, qname), MatchPtr(d, qname))
  {
    PtrAddrBound(qname);
    if PtrAddr(qname).Some? {
      var addr := PtrAddr(qname).value;
      if ZoneForAddr(d, addr).Some? {
        TwinFound(c, d, addr);
      }
      if ZoneForAddr(c, addr).Some? {
        TwinFound(d, c, addr);
      }
    }
  }

  lemma SameZoneRecords(v: Zone, w: Zone, qname: Name, addr: u128)
    requires SameZone(v, w)
    ensures PtrRecord(v, qname, addr) == PtrRecord(w, qname, addr)
    ensures AaaaRecord(v, qname, addr) == AaaaRecord(w, qname, addr)
  {
  }

  lemma ReplyTwins(c: Config, d: Config, qname: Name, qtype: RecordType)
    requires SamePtr(MatchPtr(c, qname), MatchPtr(d, qname))
    requires SameMatch(MatchForward(c, qname), MatchForward(d, qname))
    requires ZoneContaining(c, qname).Some? <==> ZoneContaining(d, qname).Some?
    ensures SameReply(Resolve(c, qname, qtype), Resolve(d, qname, qtype))
  {
    if MatchPtr(c, qname).Some? {
      SameZoneRecords(MatchPtr(c, qname).value.0, MatchPtr(d, qname).value.0, qname, MatchPtr(c, qname).value.1);
    }
  }

  lemma MirroredReplies(c: Config, d: Config, qname: Name, qtype: RecordType)
    requires ValidConfig(c) && ValidConfig(d) && Mirrors(c, d) && Mirrors(d, c) && Settled(d, qname)
    ensures SameReply(Resolve(c, qname, qtype), Resolve(d, qname, qtype))
  {
    PtrTwins(c, d, qname);
    ForwardTwins(c, d, qname);
    if ZoneContaining(c, qname).Some? {
      EnclosingTwins(d, c, qname);
    }
    if ZoneContaining(d, qname).Some? {
      EnclosingTwins(c, d, qname);
    }
    ReplyTwins(c, d, qname, qtype);
  }

  /**
    Two accepted files with the same blocks in any order resolve every query to the same records,
    or alike to no name or no zone, provided no two zones of one prefix length have overlapping
    templates.
   */
  lemma AnswersKeepOrder(
    env: Parsers, ttl: nat, a: seq<RawZone>, b: seq<RawZone>, p: seq<nat>, q: seq<nat>, c: Config, d: Config, qname: Name, qtype: RecordType)
    requires Rearranged(a, b, p, q) && CompileAll(env, ttl, a).errors == []
    requires c.zones == StableSort(CompileAll(env, ttl, a).zones)
    requires d.zones == StableSort(CompileAll(env, ttl, b).zones)
    requires NoTies(d)
    ensures SameReply(Resolve(c, qname, qtype), Resolve(d, qname, qtype))
  {
    CompiledIsValid(env, ttl, a, c);
    CompiledIsValid(env, ttl, b, d);
    FilesMirror(env, ttl, a, b, p, q, c, d);
    NoTiesSettles(d, qname);
    MirroredReplies(c, d, qname, qtype);
  }

  lemma FilesMirror(
    env: Parsers, ttl: nat, a: seq<RawZone>, b: seq<RawZone>, p: seq<nat>, q: seq<nat>, c: Config, d: Config)
    requires Rearranged(a, b, p, q) && CompileAll(env, ttl, a).errors == []
    requires c.zones == StableSort(CompileAll(env, ttl, a).zones)
    requires d.zones == StableSort(CompileAll(env, ttl, b).zones)
    ensures Mirrors(c, d) && Mirrors(d, c)
  {
    AcceptExact(env, ttl, a);
    AcceptedRearranged(env, a, b, p, q);
    AcceptExact(env, ttl, b);
    RearrangedMirrors(env, ttl, a, b, p, q, c, d);
    RearrangedMirrors(env, ttl, b, a, q, p, d, c);
  }
}
