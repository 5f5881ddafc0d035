/**
  What becomes of the names the server really prints: those of addresses for which the zone is
  the longest match. An address of a wider network that a narrower one takes over prints no name
  of the wider zone.
 */
module Served {
  import opened Wrappers
  import opened Bits
  import opened Ascii
  import opened Names
  import opened Nibble
  import opened ConfigModel
  import opened Lookup
  import opened Synth
  import opened RoundTrip
  import opened Resolution
  import opened Ambiguity

  /** No zone before this one matches the name it prints for the address. A check on the templates. */
  predicate NoneBefore(c: Config, i: nat, addr: u128)
    requires i < |c.zones|
  {
    forall j :: 0 <= j < i ==> !FitsZone(c.zones[j], NameOf(c.zones[i], addr))
  }

  lemma NoneBeforeExact(c: Config, i: nat, addr: u128)
    requires ValidConfig(c) && i < |c.zones|
    ensures NoneBefore(c, i, addr) <==> forall j :: 0 <= j < i ==> MatchZoneForward(c.zones[j], NameOf(c.zones[i], addr)).None?
  {
    forall j | 0 <= j < i
      ensures FitsZone(c.zones[j], NameOf(c.zones[i], addr)) <==> MatchZoneForward(c.zones[j], NameOf(c.zones[i], addr)).Some?
    {
      ZonePatternExact(c.zones[j], NameOf(c.zones[i], addr));
    }
  }

  /**
    A printed name leads back to its zone and address exactly when the template does not begin
    with `*` and no zone before it fits the name. Short of `*`, an earlier zone that does fit
    gives another address, so the condition is the same for the address alone.
   */
  lemma ServedExact(c: Config, i: nat, addr: u128)
    requires ValidConfig(c) && i < |c.zones| && ZoneForAddr(c, addr) == Some(c.zones[i])
    ensures var z := c.zones[i];
      var found := MatchForward(c, NameOf(z, addr));
      && (found == Some((z, addr)) <==> !StarTemplate(z.fwd) && NoneBefore(c, i, addr))
      && (!StarTemplate(z.fwd) ==> (found.Some? && found.value.1 == addr <==> NoneBefore(c, i, addr)))
  {
    LongestPrefix(c, addr, c.zones[i]);
    ComesBackExact(c, i, addr);
    NoneBeforeExact(c, i, addr);
    if !StarTemplate(c.zones[i].fwd) && !NoneBefore(c, i, addr) {
      EarlierElsewhere(c, i, addr);
    }
  }

  /** A zone before the longest match does not contain the address, so it decodes to another one. */
  lemma EarlierElsewhere(c: Config, i: nat, addr: u128)
    requires ValidConfig(c) && i < |c.zones| && ZoneForAddr(c, addr) == Some(c.zones[i])
    requires !forall j :: 0 <= j < i ==> MatchZoneForward(c.zones[j], NameOf(c.zones[i], addr)).None?
    ensures MatchForward(c, NameOf(c.zones[i], addr)).Some? && MatchForward(c, NameOf(c.zones[i], addr)).value.1 != addr
  {
    var printed := NameOf(c.zones[i], addr);
    var j :| 0 <= j < i && MatchZoneForward(c.zones[j], printed).Some?;
    var k := FirstMatchFacts(c.zones, printed);
    ForwardInZone(c.zones[k], printed);
    LongestPrefix(c, addr, c.zones[i]);
    assert k < i && (c.zones[k].prefix, c.zones[k].mask) != (c.zones[i].prefix, c.zones[i].mask);
    assert c.zones[k] in c.zones && c.zones[k].mask >= c.zones[i].mask;
  }

  /**
    The whole circle, exactly: the target of the answer to a reverse query, asked for AAAA, is
    answered from the same zone with the address the reverse query named if and only if that
    zone's template does not begin with `*` and no zone before it fits the target.
   */
  lemma CircleExact(c: Config, i: nat, addr: u128, qname: Name)
    requires ValidConfig(c) && i < |c.zones| && ZoneForAddr(c, addr) == Some(c.zones[i])
    requires SameName(qname, PtrName(addr, 128))
    ensures var z := c.zones[i]; Resolve(c, qname, PTR) == Answer(z, [NewRecord(qname, z.ttl, PtrData(NameOf(z, addr)))])
    ensures AnswersWith(c, NameOf(c.zones[i], addr), c.zones[i], addr) <==> !StarTemplate(c.zones[i].fwd) && NoneBefore(c, i, addr)
  {
    ReverseEndToEnd(c, addr, qname, PTR);
    ServedExact(c, i, addr);
    AnswerIsMatch(c, NameOf(c.zones[i], addr), c.zones[i], addr);
  }

  /** Asked for AAAA, the name is answered from the zone with exactly the address. */
  predicate AnswersWith(c: Config, qname: Name, z: Zone, addr: u128) {
    Resolve(c, qname, AAAA) == Answer(z, [NewRecord(qname, z.ttl, AaaaData(addr))])
  }

  lemma AnswerIsMatch(c: Config, qname: Name, z: Zone, addr: u128)
    ensures AnswersWith(c, qname, z, addr) <==> MatchForward(c, qname) == Some((z, addr))
  {
  }

  // ---- networks that do not nest ----

  /** The first network, of the longer prefix, lies inside the second. */
  predicate Inside(v: Zone, w: Zone) {
    And(v.prefix, MaskBits(w.mask)) == w.prefix
  }

  predicate Flat(c: Config) {
    forall i, j :: 0 <= i < j < |c.zones| ==> !Inside(c.zones[i], c.zones[j])
  }

  predicate ServedBack(c: Config, i: nat, addr: u128)
    requires i < |c.zones|
  {
    ZoneForAddr(c, addr) == Some(c.zones[i]) ==>
      MatchForward(c, NameOf(c.zones[i], addr)) == Some((c.zones[i], addr))
  }

  /** Every name the server prints leads back to the zone and address it was printed for. */
  ghost predicate AllServedBack(c: Config) {
    forall i: nat, addr: u128 :: i < |c.zones| ==> ServedBack(c, i, addr)
  }

  lemma {:induction false} ClearTwice(a: nat, j: nat, k: nat)
    requires j <= k
    ensures Clear(Clear(a, j), k) == Clear(a, k)
  {
    if j > 0 {
      assert Clear(a, j) / 16 == Clear(a / 16, j - 1);
      ClearTwice(a / 16, j - 1, k - 1);
    }
  }

  /** Two networks that share an address nest. */
  lemma SharedNests(v: Zone, w: Zone, addr: u128)
    requires ValidZone(v) && ValidZone(w) && v.mask >= w.mask && InZone(v, addr) && InZone(w, addr)
    ensures Inside(v, w)
  {
    ZoneIsClear(v, addr);
    ZoneIsClear(w, addr);
    ZoneIsClear(w, v.prefix);
    ClearTwice(addr, v.hostNibbles, w.hostNibbles);
  }

  lemma ZoneIsClear(z: Zone, addr: u128)
    requires ValidZone(z)
    ensures And(addr, MaskBits(z.mask)) == Clear(addr, z.hostNibbles)
    ensures InZone(z, addr) <==> Upper(addr, z.hostNibbles) == Upper(z.prefix, z.hostNibbles)
    ensures Clear(z.prefix, z.hostNibbles) == z.prefix
  {
    assert z.mask == 128 - 4 * z.hostNibbles;
    MaskIsClear(addr, z.hostNibbles);
    MaskIsClear(z.prefix, z.hostNibbles);
    UpperDecidesClear(addr, z.prefix, z.hostNibbles);
  }

  lemma FlatAlone(c: Config, i: nat, j: nat, addr: u128)
    requires ValidConfig(c) && Flat(c) && i < |c.zones| && j < |c.zones| && i != j
    requires InZone(c.zones[i], addr)
    ensures !InZone(c.zones[j], addr)
  {
    if InZone(c.zones[j], addr) {
      if i < j {
        SharedNests(c.zones[i], c.zones[j], addr);
      } else {
        SharedNests(c.zones[j], c.zones[i], addr);
      }
    }
  }

  lemma FlatServes(c: Config, i: nat, addr: u128)
    requires ValidConfig(c) && Flat(c) && i < |c.zones|
    ensures ZoneForAddr(c, addr) == Some(c.zones[i]) <==> InZone(c.zones[i], addr)
  {
    var k := FirstContainingFacts(c.zones, addr);
    if InZone(c.zones[i], addr) && k != i {
      FlatAlone(c, i, k, addr);
    }
  }

  /** Where no network lies inside another, every printed name leads back if and only if no template begins with `*` and no two overlap. */
  lemma FlatOneToOne(c: Config)
    requires ValidConfig(c) && Flat(c)
    ensures AllServedBack(c) <==> Unambiguous(c)
  {
    ForwardOneToOne(c);
    forall i: nat, addr: u128 | i < |c.zones| ensures ServedBack(c, i, addr) <==> ComesBack(c, i, addr) {
      FlatServes(c, i, addr);
    }
  }

  // ---- hex digits in front of the placeholder ----

  function PlainFwd(pre: string, tail: string): FwdTemplate {
    FwdTemplate([Digits(pre, Lower(pre), "", "", false), Literal(tail, Lower(tail))], 0)
  }

  /** Two plain zones, one with `hs` more in front of the placeholder and as many host digits fewer. */
  predicate Absorbing(v: Zone, w: Zone, pre: string, hs: string, tail: string) {
    && ValidZone(v) && ValidZone(w) && hs != "" && AllHex(hs)
    && v.fwd == PlainFwd(pre, tail) && w.fwd == PlainFwd(pre + hs, tail)
    && v.hostNibbles == w.hostNibbles + |hs|
  }

  /** The `k` digits of an address above its last `n`. */
  function DigitsAbove(addr: nat, n: nat, k: nat): (r: string)
    ensures |r| == k
  {
    FixedHex(Upper(addr, n), k)
  }

  /** The narrower network is the part of the wider one whose first host digits are `hs`. */
  predicate SitsAt(v: Zone, w: Zone, hs: string) {
    InZone(v, w.prefix) && DigitsAbove(w.prefix, w.hostNibbles, |hs|) == Lower(hs)
  }

  lemma PlainName(z: Zone, pre: string, tail: string, a: nat)
    requires z.fwd == PlainFwd(pre, tail)
    ensures |NameOf(z, a)| == 2
    ensures Lower(NameOf(z, a)[0]) == Lower(pre) + FixedHex(a, z.hostNibbles) && NameOf(z, a)[1] == tail
  {
    FixedHexIsLower(a, z.hostNibbles);
    LowerConcat(pre, FixedHex(a, z.hostNibbles));
    assert pre + FixedHex(a, z.hostNibbles) + "" == pre + FixedHex(a, z.hostNibbles);
  }

  lemma CutPrefix(p: string, x: string, y: string, a: string, b: string)
    requires |x| == |a|
    ensures p + (x + y) == p + a + b <==> x == a && y == b
  {
    if x == a && y == b {
      assert p + (x + y) == p + x + y;
    }
    if p + (x + y) == p + a + b {
      assert (p + (x + y))[|p|..] == x + y && (p + a + b)[|p|..] == a + b;
      assert (x + y)[..|x|] == x && (a + b)[..|a|] == a;
      assert (x + y)[|x|..] == y && (a + b)[|a|..] == b;
    }
  }

  lemma FirstLabelsAgree(p: string, hs: string, a: nat, b: nat, n: nat, k: nat)
    requires |hs| == k
    ensures Lower(p) + FixedHex(a, n + k) == Lower(p + hs) + FixedHex(b, n) <==>
      DigitsAbove(a, n, k) == Lower(hs) && FixedHex(a, n) == FixedHex(b, n)
  {
    LowerConcat(p, hs);
    FixedHexSplit(a, k, n);
    CutPrefix(Lower(p), DigitsAbove(a, n, k), FixedHex(a, n), Lower(hs), FixedHex(b, n));
  }

  /** The wider zone's name of `a` is the narrower zone's name of `b` exactly when their digits agree. */
  lemma AbsorbedNames(v: Zone, w: Zone, pre: string, hs: string, tail: string, a: nat, b: nat)
    requires Absorbing(v, w, pre, hs, tail)
    ensures SameName(NameOf(v, a), NameOf(w, b)) <==>
      DigitsAbove(a, w.hostNibbles, |hs|) == Lower(hs) && FixedHex(a, w.hostNibbles) == FixedHex(b, w.hostNibbles)
  {
    PlainName(v, pre, tail, a);
    PlainName(w, pre + hs, tail, b);
    FirstLabelsAgree(pre, hs, a, b, w.hostNibbles, |hs|);
    SameNameLabels(NameOf(v, a), NameOf(w, b));
  }

  lemma PlainIsNoStar(z: Zone, pre: string, tail: string)
    requires z.fwd == PlainFwd(pre, tail)
    ensures !StarTemplate(z.fwd)
  {
  }

  /** The narrower zone takes a name of the wider one exactly when its digits begin with `hs`. */
  lemma AbsorbedExact(v: Zone, w: Zone, pre: string, hs: string, tail: string, addr: u128)
    requires Absorbing(v, w, pre, hs, tail)
    ensures MatchZoneForward(w, NameOf(v, addr)).Some? <==> DigitsAbove(addr, w.hostNibbles, |hs|) == Lower(hs)
  {
    var n, printed := w.hostNibbles, NameOf(v, addr);
    PlainIsNoStar(w, pre + hs, tail);
    if MatchZoneForward(w, printed).Some? {
      ForwardInZone(w, printed);
      var b := MatchZoneForward(w, printed).value;
      ForwardExact(w, printed, b);
      AbsorbedNames(v, w, pre, hs, tail, addr, b);
    }
    if DigitsAbove(addr, n, |hs|) == Lower(hs) {
      var low := Low(addr, n);
      LowBound(addr, n);
      ZoneAddresses(w, low);
      FixedHexLow(addr, n);
      FixedHexLow(w.prefix + low, n);
      AbsorbedNames(v, w, pre, hs, tail, addr, w.prefix + low);
      ForwardExact(w, printed, w.prefix + low);
    }
  }

  /** Of the wider network's addresses that begin with `hs`, the narrower network has all or none. */
  lemma AllOrNone(v: Zone, w: Zone, hs: string, addr: u128)
    requires ValidZone(v) && ValidZone(w) && v.hostNibbles == w.hostNibbles + |hs|
    requires InZone(v, addr) && DigitsAbove(addr, w.hostNibbles, |hs|) == Lower(hs)
    ensures InZone(w, addr) <==> SitsAt(v, w, hs)
  {
    var n, k := w.hostNibbles, |hs|;
    ZoneIsClear(v, addr);
    ZoneIsClear(v, w.prefix);
    ZoneIsClear(w, addr);
    UpperTwice(addr, n, k);
    UpperTwice(w.prefix, n, k);
    if SitsAt(v, w, hs) {
      FixedHexInjective(Upper(addr, n), Upper(w.prefix, n), k);
    }
  }

  /** Every wide network has an address whose first host digits are the given ones. */
  lemma AddressWith(v: Zone, n: nat, hs: string) returns (addr: u128)
    requires ValidZone(v) && AllHex(hs) && v.hostNibbles == n + |hs|
    ensures InZone(v, addr) && DigitsAbove(addr, n, |hs|) == Lower(hs)
  {
    var h := HostWith(hs, n);
    ZoneAddresses(v, h);
    addr := v.prefix + h;
    SameDigitsAbove(addr, h, n, |hs|);
  }

  lemma HostWith(hs: string, n: nat) returns (h: nat)
    requires AllHex(hs)
    ensures h < Pow16(n + |hs|) && DigitsAbove(h, n, |hs|) == Lower(hs)
  {
    var d := DigitsValue(hs);
    DigitsValueBound(hs);
    DigitsValueUnique(hs, d);
    ShiftedBack(d, n, |hs|);
    h := Shifted(d, n);
  }

  lemma SameDigitsAbove(a: nat, h: nat, n: nat, k: nat)
    requires Low(a, n + k) == h
    ensures DigitsAbove(a, n, k) == DigitsAbove(h, n, k)
  {
    FixedHexLow(a, n + k);
    FixedHexSplit(a, k, n);
    FixedHexSplit(h, k, n);
    assert FixedHex(a, k + n)[..k] == DigitsAbove(a, n, k);
    assert FixedHex(h, k + n)[..k] == DigitsAbove(h, n, k);
  }

  /**
    With just these two zones, every printed name leads back if and only if the narrower network
    is the very part of the wider one that its extra digits name.
   */
  lemma AbsorbingServed(c: Config, v: Zone, w: Zone, pre: string, hs: string, tail: string)
    requires ValidConfig(c) && c.zones == [w, v] && Absorbing(v, w, pre, hs, tail)
    ensures AllServedBack(c) <==> SitsAt(v, w, hs)
  {
    forall addr: u128 ensures ServedBack(c, 0, addr) {
      NarrowServed(c, v, w, pre, hs, tail, addr);
    }
    if SitsAt(v, w, hs) {
      forall addr: u128 ensures ServedBack(c, 1, addr) {
        WideServed(c, v, w, pre, hs, tail, addr);
      }
    } else {
      var addr := AddressWith(v, w.hostNibbles, hs);
      WideServed(c, v, w, pre, hs, tail, addr);
      assert !ServedBack(c, 1, addr);
    }
  }

  lemma NarrowServed(c: Config, v: Zone, w: Zone, pre: string, hs: string, tail: string, addr: u128)
    requires ValidConfig(c) && c.zones == [w, v] && Absorbing(v, w, pre, hs, tail)
    ensures ServedBack(c, 0, addr)
  {
    PlainIsNoStar(w, pre + hs, tail);
    if ZoneForAddr(c, addr) == Some(c.zones[0]) {
      ServedExact(c, 0, addr);
    }
  }

  lemma WideServed(c: Config, v: Zone, w: Zone, pre: string, hs: string, tail: string, addr: u128)
    requires ValidConfig(c) && c.zones == [w, v] && Absorbing(v, w, pre, hs, tail)
    ensures ServedBack(c, 1, addr) <==>
      !InZone(v, addr) || DigitsAbove(addr, w.hostNibbles, |hs|) != Lower(hs) || SitsAt(v, w, hs)
  {
    PlainIsNoStar(v, pre, tail);
    AbsorbedExact(v, w, pre, hs, tail, addr);
    if InZone(v, addr) && DigitsAbove(addr, w.hostNibbles, |hs|) == Lower(hs) {
      AllOrNone(v, w, hs, addr);
    }
    WideIsServed(c, v, w, addr);
    if ZoneForAddr(c, addr) == Some(c.zones[1]) {
      ServedExact(c, 1, addr);
      NoneBeforeExact(c, 1, addr);
    }
  }

  lemma WideIsServed(c: Config, v: Zone, w: Zone, addr: u128)
    requires ValidConfig(c) && c.zones == [w, v]
    ensures ZoneForAddr(c, addr) == Some(c.zones[1]) <==> InZone(v, addr) && !InZone(w, addr)
  {
    var k := FirstContainingFacts(c.zones, addr);
    assert c.zones[0] == w && c.zones[1] == v;
    assert (w.prefix, w.mask) != (v.prefix, v.mask);
  }
}
