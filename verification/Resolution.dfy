/** What the configuration says about a query (src/zone/mod.rs), and what that guarantees. */
module Resolution {
  import opened Wrappers
  import opened Bits
  import opened Names
  import opened Nibble
  import opened ConfigModel
  import opened Lookup
  import opened Synth
  import opened RoundTrip

  datatype Outcome =
    | Answer(zone: Zone, records: seq<Record>)
    | NoName(zone: Zone)
    | NoZone

  /** `resolve`. */
  function Resolve(c: Config, qname: Name, qtype: RecordType): Outcome {
    var reverse := if ReverseHasType(qtype) then MatchPtr(c, qname) else None;
    match reverse
    case Some((zone, addr)) =>
      Answer(zone, match PtrRecord(zone, qname, addr) case None => [] case Some(r) => [r])
    case None =>
      match MatchForward(c, qname)
      case Some((zone, addr)) =>
        Answer(zone, if ForwardHasType(qtype) then [AaaaRecord(zone, qname, addr)] else [])
      case None =>
        match ZoneContaining(c, qname)
        case Some(zone) => NoName(zone)
        case None => NoZone
  }

  /** A reverse match is the address whose name was asked for and the longest match for it. */
  lemma MatchPtrExact(c: Config, qname: Name, z: Zone, addr: u128)
    ensures MatchPtr(c, qname) == Some((z, addr)) <==> SameName(qname, PtrName(addr, 128)) && ZoneForAddr(c, addr) == Some(z)
  {
    PtrAddrBound(qname);
    PtrAddrExact(qname, addr);
  }

  /**
    The outcome, type by type: a reverse match answers PTR and ANY with its one PTR record and no
    other type; a forward match answers AAAA and ANY with its one AAAA record and every other type
    with an empty answer; short of both, the name does not exist or lies in no zone.
   */
  lemma ResolveExact(c: Config, qname: Name, qtype: RecordType)
    requires ValidConfig(c)
    ensures var reverse := (qtype == PTR || qtype == ANY) && MatchPtr(c, qname).Some?;
      && (reverse ==> var (z, addr) := MatchPtr(c, qname).value;
           Resolve(c, qname, qtype) == Answer(z, [Record(qname, ClassIN, z.ttl, PtrData(NameOf(z, addr)))]))
      && (!reverse && MatchForward(c, qname).Some? ==> var (z, addr) := MatchForward(c, qname).value;
           Resolve(c, qname, qtype) == Answer(z,
             if qtype == AAAA || qtype == ANY then [Record(qname, ClassIN, z.ttl, AaaaData(addr))] else []))
      && (!reverse && MatchForward(c, qname).None? && ZoneContaining(c, qname).Some? ==>
           Resolve(c, qname, qtype) == NoName(ZoneContaining(c, qname).value))
      && (!reverse && MatchForward(c, qname).None? && ZoneContaining(c, qname).None? ==> Resolve(c, qname, qtype) == NoZone)
  {
    if MatchPtr(c, qname).Some? {
      var (z, addr) := MatchPtr(c, qname).value;
      LongestPrefix(c, addr, z);
      ForwardNameTotal(z, addr);
    }
  }

  // ---- longest prefix ----

  predicate FirstAt(zones: seq<Zone>, addr: u128, i: nat)
    requires i < |zones|
  {
    InZone(zones[i], addr) && forall j :: 0 <= j < i ==> !InZone(zones[j], addr)
  }

  lemma {:induction false} FirstContainingFacts(zones: seq<Zone>, addr: u128) returns (i: nat)
    ensures FirstContaining(zones, addr).None? ==> i == |zones| && forall j :: 0 <= j < |zones| ==> !InZone(zones[j], addr)
    ensures FirstContaining(zones, addr).Some? ==>
      i < |zones| && zones[i] == FirstContaining(zones, addr).value && FirstAt(zones, addr, i)
  {
    if zones == [] || InZone(zones[0], addr) {
      i := 0;
    } else {
      var k := FirstContainingFacts(zones[1..], addr);
      i := k + 1;
      assert forall j :: 0 < j < |zones| ==> zones[j] == zones[1..][j - 1];
    }
  }

  /** The zone is one of the configured ones, contains the address, and beats every other that does. */
  predicate MostSpecific(zones: seq<Zone>, z: Zone, addr: u128) {
    && z in zones
    && InZone(z, addr)
    && forall w :: w in zones && w != z && InZone(w, addr) ==> w.mask < z.mask
  }

  /** Of two networks that contain an address the later has the shorter prefix. */
  lemma LaterIsWider(zones: seq<Zone>, addr: u128, i: nat, j: nat)
    requires SortedByMask(zones) && DistinctNetworks(zones) && i < j < |zones|
    requires InZone(zones[i], addr) && InZone(zones[j], addr)
    ensures zones[j].mask < zones[i].mask
  {
    assert (zones[i].prefix, zones[i].mask) != (zones[j].prefix, zones[j].mask);
  }

  lemma FirstIsMostSpecific(c: Config, addr: u128, i: nat)
    requires ValidConfig(c) && i < |c.zones| && FirstAt(c.zones, addr, i)
    ensures MostSpecific(c.zones, c.zones[i], addr)
  {
    forall w | w in c.zones && w != c.zones[i] && InZone(w, addr) ensures w.mask < c.zones[i].mask {
      var j :| 0 <= j < |c.zones| && c.zones[j] == w;
      LaterIsWider(c.zones, addr, i, j);
    }
  }

  /** Longest-prefix match: the scan finds the containing zone of strictly greatest mask. */
  lemma LongestPrefix(c: Config, addr: u128, z: Zone)
    requires ValidConfig(c)
    ensures ZoneForAddr(c, addr) == Some(z) <==> MostSpecific(c.zones, z, addr)
    ensures ZoneForAddr(c, addr).None? <==> forall w :: w in c.zones ==> !InZone(w, addr)
  {
    var i := FirstContainingFacts(c.zones, addr);
    if ZoneForAddr(c, addr).Some? {
      FirstIsMostSpecific(c, addr, i);
    }
  }

  /** The order in which the networks were written does not matter. */
  lemma OrderIndependent(c: Config, d: Config, addr: u128)
    requires ValidConfig(c) && ValidConfig(d)
    requires forall z :: z in c.zones <==> z in d.zones
    ensures ZoneForAddr(c, addr) == ZoneForAddr(d, addr)
  {
    if ZoneForAddr(c, addr).Some? {
      LongestPrefix(c, addr, ZoneForAddr(c, addr).value);
      LongestPrefix(d, addr, ZoneForAddr(c, addr).value);
    } else if ZoneForAddr(d, addr).Some? {
      LongestPrefix(c, addr, ZoneForAddr(d, addr).value);
      LongestPrefix(d, addr, ZoneForAddr(d, addr).value);
    }
  }

  // ---- from an address to its name and back ----

  /**
    End to end: a reverse query for any address of a configured network is answered with exactly
    one record, owned by the name asked for, and its target decodes to the address again under
    the chosen zone's template -- unless that template begins with the label `*`.
   */
  lemma ReverseEndToEnd(c: Config, addr: u128, qname: Name, qtype: RecordType)
    requires ValidConfig(c) && (qtype == PTR || qtype == ANY)
    requires SameName(qname, PtrName(addr, 128))
    requires ZoneForAddr(c, addr).Some?
    ensures var z := ZoneForAddr(c, addr).value;
      && Resolve(c, qname, qtype) == Answer(z, [NewRecord(qname, z.ttl, PtrData(NameOf(z, addr)))])
      && LabelsFit(NameOf(z, addr))
      && (MatchZoneForward(z, NameOf(z, addr)) == Some(addr) <==> !StarTemplate(z.fwd))
  {
    var z := ZoneForAddr(c, addr).value;
    LongestPrefix(c, addr, z);
    ReverseIsAnswered(c, addr, qname, qtype, z);
    RoundTripExact(z, addr);
    ForwardNameTotal(z, addr);
  }

  lemma ReverseIsAnswered(c: Config, addr: u128, qname: Name, qtype: RecordType, z: Zone)
    requires (qtype == PTR || qtype == ANY) && SameName(qname, PtrName(addr, 128))
    requires ZoneForAddr(c, addr) == Some(z) && ValidZone(z)
    ensures Resolve(c, qname, qtype) == Answer(z, [NewRecord(qname, z.ttl, PtrData(NameOf(z, addr)))])
  {
    PtrAddrExact(qname, addr);
    ForwardNameTotal(z, addr);
  }

  // ---- case ----

  predicate SameRecord(a: Record, b: Record) {
    SameName(a.owner, b.owner) && a.(owner := b.owner) == b
  }

  /** Outcomes that differ in the spelling of the echoed owner name only. */
  predicate SameOutcome(a: Outcome, b: Outcome) {
    match (a, b)
    case (Answer(z, rs), Answer(w, ss)) =>
      z == w && |rs| == |ss| && forall i :: 0 <= i < |rs| ==> SameRecord(rs[i], ss[i])
    case (NoName(z), NoName(w)) => z == w
    case (NoZone, NoZone) => true
    case _ => false
  }

  /** Section 3 of RFC 4343: recasing a query name changes nothing but the echoed owner. */
  lemma CaseInsensitive(c: Config, a: Name, b: Name, qtype: RecordType)
    requires SameName(a, b)
    ensures SameOutcome(Resolve(c, a, qtype), Resolve(c, b, qtype))
  {
    PtrSameName(a, b);
    FirstMatchSameName(c.zones, a, b);
    FirstEnclosingSameName(c.zones, a, b);
  }

  lemma PtrSameName(a: Name, b: Name)
    requires SameName(a, b)
    ensures PtrAddr(a) == PtrAddr(b)
  {
    PtrAddrBound(a);
    PtrAddrBound(b);
    if PtrAddr(a).Some? {
      PtrAddrExact(a, PtrAddr(a).value);
      PtrAddrExact(b, PtrAddr(a).value);
    } else if PtrAddr(b).Some? {
      PtrAddrExact(a, PtrAddr(b).value);
      PtrAddrExact(b, PtrAddr(b).value);
    }
  }

  lemma {:induction false} FirstMatchSameName(zones: seq<Zone>, a: Name, b: Name)
    requires SameName(a, b)
    ensures FirstMatch(zones, a) == FirstMatch(zones, b)
  {
    if zones != [] {
      MatchSameName(zones[0], a, b);
      FirstMatchSameName(zones[1..], a, b);
    }
  }

  lemma {:induction false} FirstEnclosingSameName(zones: seq<Zone>, a: Name, b: Name)
    requires SameName(a, b)
    ensures FirstEnclosing(zones, a) == FirstEnclosing(zones, b)
  {
    if zones != [] {
      ZoneOfSameName(zones[0].ptrZone, a, b);
      ZoneOfSameName(zones[0].fwdParent, a, b);
      FirstEnclosingSameName(zones[1..], a, b);
    }
  }

  // ---- a match lies inside a namespace ----

  lemma {:induction false} FirstEnclosingFacts(zones: seq<Zone>, qname: Name)
    ensures FirstEnclosing(zones, qname).Some? <==> exists i :: 0 <= i < |zones| && Encloses(zones[i], qname)
    ensures FirstEnclosing(zones, qname).Some? ==>
      FirstEnclosing(zones, qname).value in zones && Encloses(FirstEnclosing(zones, qname).value, qname)
  {
    if zones != [] && !Encloses(zones[0], qname) {
      FirstEnclosingFacts(zones[1..], qname);
      if i :| 0 <= i < |zones| && Encloses(zones[i], qname) {
        assert zones[1..][i - 1] == zones[i];
      }
      if i :| 0 <= i < |zones| - 1 && Encloses(zones[1..][i], qname) {
        assert zones[i + 1] == zones[1..][i];
      }
    }
  }

  predicate FirstEnclosingAt(zones: seq<Zone>, qname: Name, i: nat)
    requires i < |zones|
  {
    && (ZoneOf(zones[i].ptrZone, qname) || ZoneOf(zones[i].fwdParent, qname))
    && forall j :: 0 <= j < i ==> !ZoneOf(zones[j].ptrZone, qname) && !ZoneOf(zones[j].fwdParent, qname)
  }

  /** The zone a name lies in is the first whose reverse origin or forward apex encloses it. */
  lemma {:induction false} ContainingExact(zones: seq<Zone>, qname: Name, z: Zone)
    ensures FirstEnclosing(zones, qname) == Some(z)
       <==> exists i :: 0 <= i < |zones| && zones[i] == z && FirstEnclosingAt(zones, qname, i)
  {
    if zones != [] {
      if Encloses(zones[0], qname) {
        assert FirstEnclosingAt(zones, qname, 0);
      } else {
        ContainingExact(zones[1..], qname, z);
        forall i | 0 < i < |zones|
          ensures zones[1..][i - 1] == zones[i]
          ensures FirstEnclosingAt(zones, qname, i) <==> FirstEnclosingAt(zones[1..], qname, i - 1)
        {
          EnclosingBehind(zones, qname, i);
        }
        if FirstEnclosing(zones, qname) == Some(z) {
          var k :| 0 <= k < |zones| - 1 && zones[1..][k] == z && FirstEnclosingAt(zones[1..], qname, k);
          assert zones[k + 1] == z && FirstEnclosingAt(zones, qname, k + 1);
        }
      }
    }
  }

  lemma EnclosingBehind(zones: seq<Zone>, qname: Name, i: nat)
    requires 0 < i < |zones| && !Encloses(zones[0], qname)
    ensures FirstEnclosingAt(zones, qname, i) <==> FirstEnclosingAt(zones[1..], qname, i - 1)
  {
    forall j | 0 < j < |zones| ensures zones[1..][j - 1] == zones[j] {
    }
    if FirstEnclosingAt(zones[1..], qname, i - 1) {
      forall j | 0 <= j < i ensures !Encloses(zones[j], qname) {
        if j > 0 {
          assert !Encloses(zones[1..][j - 1], qname);
        }
      }
    }
  }

  predicate FirstMatchAt(zones: seq<Zone>, qname: Name, i: nat)
    requires i < |zones|
  {
    MatchZoneForward(zones[i], qname).Some? && forall j :: 0 <= j < i ==> MatchZoneForward(zones[j], qname).None?
  }

  lemma {:induction false} FirstMatchFacts(zones: seq<Zone>, qname: Name) returns (i: nat)
    ensures FirstMatch(zones, qname).None? ==> i == |zones| && forall j :: 0 <= j < |zones| ==> MatchZoneForward(zones[j], qname).None?
    ensures FirstMatch(zones, qname).Some? ==> i < |zones| && FirstMatchAt(zones, qname, i)
    ensures FirstMatch(zones, qname).Some? ==>
      FirstMatch(zones, qname).value == (zones[i], MatchZoneForward(zones[i], qname).value)
  {
    if zones == [] || MatchZoneForward(zones[0], qname).Some? {
      i := 0;
    } else {
      var k := FirstMatchFacts(zones[1..], qname);
      i := k + 1;
      assert forall j :: 0 < j < |zones| ==> zones[j] == zones[1..][j - 1];
    }
  }

  /** A matched reverse name lies under the reverse origin of the zone that matched it. */
  lemma ReverseEnclosed(c: Config, qname: Name)
    requires ValidConfig(c) && MatchPtr(c, qname).Some?
    ensures ZoneOf(MatchPtr(c, qname).value.0.ptrZone, qname)
    ensures ZoneContaining(c, qname).Some?
  {
    var (z, addr) := MatchPtr(c, qname).value;
    LongestPrefix(c, addr, z);
    SuffixIsMask(qname, addr, z.prefix, z.mask);
    FirstEnclosingFacts(c.zones, qname);
    var i :| 0 <= i < |c.zones| && c.zones[i] == z;
    assert Encloses(c.zones[i], qname);
  }

  /** A matched forward name lies under the apex, unless the template begins with `*`. */
  lemma ForwardEnclosed(z: Zone, qname: Name)
    requires ValidZone(z) && MatchZoneForward(z, qname).Some? && !StarTemplate(z.fwd)
    ensures ZoneOf(z.fwdParent, qname)
  {
    ForwardInZone(z, qname);
    var addr := MatchZoneForward(z, qname).value;
    ForwardExact(z, qname, addr);
    var printed := NameOf(z, addr);
    ParentIsTail(z.fwd, FixedHex(addr, z.hostNibbles));
    ZoneOfSameName(z.fwdParent, qname, printed);
    assert printed[|printed| - |z.fwdParent|..] == z.fwdParent;
  }

  /**
    A query that runs past a `*` template: nothing configured encloses it, yet a template
    beginning with `*` accepts it because the label count leaves the `*` out.
   */
  predicate Overrun(c: Config, qname: Name) {
    ZoneContaining(c, qname).None? && MatchForward(c, qname).Some?
  }

  /** Only a `*` template can be overrun, and only by a name one label too long. */
  lemma OverrunNeedsStar(c: Config, qname: Name)
    requires ValidConfig(c) && Overrun(c, qname)
    ensures var z := MatchForward(c, qname).value.0;
      z in c.zones && StarTemplate(z.fwd) && |qname| == |z.fwd.labels| + 1 && qname[0] == "*"
  {
    var z := MatchForward(c, qname).value.0;
    var i := FirstMatchFacts(c.zones, qname);
    FirstEnclosingFacts(c.zones, qname);
    assert !Encloses(c.zones[i], qname);
    if !StarTemplate(z.fwd) {
      ForwardEnclosed(z, qname);
    }
    ForwardInZone(z, qname);
    ForwardExact(z, qname, MatchZoneForward(z, qname).value);
  }

  // ---- a reverse name asked for another type ----

  /**
    The name of an address with a PTR record, asked for any other type, is reported not to
    exist: NXDOMAIN where an empty NOERROR would be expected. It is spared only if a forward
    template happens to produce that very name.
   */
  lemma ReverseNameOtherType(c: Config, addr: u128, qname: Name, qtype: RecordType)
    requires ValidConfig(c) && qtype != PTR && qtype != ANY
    requires SameName(qname, PtrName(addr, 128)) && ZoneForAddr(c, addr).Some?
    ensures Resolve(c, qname, qtype).NoName? <==> MatchForward(c, qname).None?
    ensures !Resolve(c, qname, qtype).NoZone?
    ensures exists z, r :: Resolve(c, qname, PTR) == Answer(z, [r])
  {
    PtrAddrExact(qname, addr);
    ReverseEnclosed(c, qname);
    ReverseEndToEnd(c, addr, qname, PTR);
  }
}
