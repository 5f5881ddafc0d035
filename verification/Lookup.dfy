/** Matching a query name against the configured zones (src/zone/lookup.rs). */
module Lookup {
  import opened Wrappers
  import opened Bits
  import opened Ascii
  import opened Names
  import opened Nibble
  import opened ConfigModel

  function StripPrefixCi(text: string, prefix: string): Option<string> {
    if |prefix| <= |text| && EqIgnoreCase(text[..|prefix|], prefix) then Some(text[|prefix|..]) else None
  }

  function StripSuffixCi(text: string, suffix: string): Option<string> {
    if |suffix| <= |text| && EqIgnoreCase(text[|text| - |suffix|..], suffix) then Some(text[..|text| - |suffix|]) else None
  }

  // ---- reverse ----

  predicate InZone(z: Zone, addr: u128) {
    And(addr, MaskBits(z.mask)) == z.prefix
  }

  /** The first zone, in configuration order, whose network contains the address. */
  function FirstContaining(zones: seq<Zone>, addr: u128): Option<Zone> {
    if zones == [] then None
    else if InZone(zones[0], addr) then Some(zones[0])
    else FirstContaining(zones[1..], addr)
  }

  /** `zone_for_addr`. */
  function ZoneForAddr(c: Config, addr: u128): Option<Zone> {
    FirstContaining(c.zones, addr)
  }

  /** `match_ptr`. */
  function MatchPtr(c: Config, qname: Name): Option<(Zone, u128)> {
    match PtrAddr(qname)
    case None => None
    case Some(addr) =>
      PtrAddrBound(qname);
      match ZoneForAddr(c, addr)
      case None => None
      case Some(zone) => Some((zone, addr))
  }

  // ---- forward ----

  function DecodeMiddle(middle: string, hostNibbles: nat, dashed: bool): Option<nat> {
    if dashed then
      match Undashed(middle, hostNibbles)
      case None => None
      case Some(undashed) => HostOf(undashed, hostNibbles)
    else HostOf(middle, hostNibbles)
  }

  /** Where the walk over a query name's labels stands. */
  datatype Scan = Mismatch | Matching(host: Option<nat>)

  function ScanLabel(l: FwdLabel, text: string, hostNibbles: nat, host: Option<nat>): Scan {
    match l
    case Literal(_, lower) =>
      if EqIgnoreCase(text, lower) then Matching(host) else Mismatch
    case Digits(_, preLower, _, postLower, dashed) =>
      match StripPrefixCi(text, preLower)
      case None => Mismatch
      case Some(rest) =>
        match StripSuffixCi(rest, postLower)
        case None => Mismatch
        case Some(middle) =>
          match DecodeMiddle(middle, hostNibbles, dashed)
          case None => Mismatch
          case Some(h) => Matching(Some(h))
  }

  /** The walk after the first `k` labels. */
  function ScanLabels(labels: seq<FwdLabel>, qname: Name, hostNibbles: nat, k: nat): Scan
    requires k <= |labels| && k <= |qname|
  {
    if k == 0 then Matching(None)
    else
      match ScanLabels(labels, qname, hostNibbles, k - 1)
      case Mismatch => Mismatch
      case Matching(host) => ScanLabel(labels[k - 1], qname[k - 1], hostNibbles, host)
  }

  function MatchZoneForward(z: Zone, qname: Name): Option<nat> {
    if NumLabels(qname) != |z.fwd.labels| then None
    else
      match ScanLabels(z.fwd.labels, qname, z.hostNibbles, |z.fwd.labels|)
      case Mismatch => None
      case Matching(None) => None
      case Matching(Some(host)) => Some(Or(z.prefix, host))
  }

  lemma {:induction false} MismatchStays(labels: seq<FwdLabel>, qname: Name, hostNibbles: nat, k: nat, n: nat)
    requires k <= n <= |labels| && n <= |qname|
    requires ScanLabels(labels, qname, hostNibbles, k).Mismatch?
    ensures ScanLabels(labels, qname, hostNibbles, n).Mismatch?
  {
    if k < n {
      MismatchStays(labels, qname, hostNibbles, k, n - 1);
    }
  }

  /** `match_zone_forward`. */
  method MatchOneZone(z: Zone, qname: Name) returns (r: Option<nat>)
    ensures r == MatchZoneForward(z, qname)
  {
    if NumLabels(qname) != |z.fwd.labels| {
      return None;
    }
    var n := z.hostNibbles;
    var labels := z.fwd.labels;
    var host: Option<nat> := None;
    var k := 0;
    while k < |labels| && k < |qname|
      invariant 0 <= k <= |labels| <= |qname|
      invariant ScanLabels(labels, qname, n, k) == Matching(host)
    {
      var text := qname[k];
      ghost var step := ScanLabel(labels[k], text, n, host);
      assert ScanLabels(labels, qname, n, k + 1) == step;
      if step.Mismatch? {
        MismatchStays(labels, qname, n, k + 1, |labels|);
      }
      match labels[k] {
        case Literal(_, lower) =>
          if !EqIgnoreCase(text, lower) {
            return None;
          }
        case Digits(_, preLower, _, postLower, dashed) =>
          var rest := StripPrefixCi(text, preLower);
          if rest.None? {
            return None;
          }
          var middle := StripSuffixCi(rest.value, postLower);
          if middle.None? {
            return None;
          }
          if dashed {
            var undashed := UndashGroup(middle.value, n);
            if undashed.None? {
              return None;
            }
            host := DigitsToHost(undashed.value, n);
          } else {
            host := DigitsToHost(middle.value, n);
          }
          if host.None? {
            return None;
          }
      }
      k := k + 1;
    }
    return match host case None => None case Some(h) => Some(Or(z.prefix, h));
  }

  function FirstMatch(zones: seq<Zone>, qname: Name): Option<(Zone, nat)> {
    if zones == [] then None
    else
      match MatchZoneForward(zones[0], qname)
      case Some(addr) => Some((zones[0], addr))
      case None => FirstMatch(zones[1..], qname)
  }

  /** `match_forward`. */
  function MatchForward(c: Config, qname: Name): Option<(Zone, nat)> {
    FirstMatch(c.zones, qname)
  }

  predicate Encloses(z: Zone, qname: Name) {
    ZoneOf(z.ptrZone, qname) || ZoneOf(z.fwdParent, qname)
  }

  function FirstEnclosing(zones: seq<Zone>, qname: Name): Option<Zone> {
    if zones == [] then None
    else if Encloses(zones[0], qname) then Some(zones[0])
    else FirstEnclosing(zones[1..], qname)
  }

  /** `zone_containing`. */
  function ZoneContaining(c: Config, qname: Name): Option<Zone> {
    FirstEnclosing(c.zones, qname)
  }
}
