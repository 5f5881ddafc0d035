/**
  What matching means: the names a zone accepts are exactly the names it prints, up to ASCII
  case, and the address found is the address printed.
 */
module RoundTrip {
  import opened Wrappers
  import opened Bits
  import opened Ascii
  import opened Names
  import opened Nibble
  import opened ConfigModel
  import opened Lookup
  import opened Synth

  // ---- the digits inside the label ----

  /** The printed form of a host part, plain or grouped. */
  function Spelled(h: nat, n: nat, dashed: bool): string {
    if dashed then Dashed(FixedHex(h, n)) else FixedHex(h, n)
  }

  lemma {:induction false} UngroupLower(m: string, groups: nat)
    requires groups > 0
    ensures Ungroup(m, groups).Some? <==> Ungroup(Lower(m), groups).Some?
    ensures Ungroup(m, groups).Some? ==> Ungroup(Lower(m), groups).value == Lower(Ungroup(m, groups).value)
  {
    if groups > 1 && |m| > 4 {
      UngroupLower(m[5..], groups - 1);
      assert Lower(m)[5..] == Lower(m[5..]);
      assert Lower(m)[4] == '-' <==> m[4] == '-';
      if m[4] == '-' && Ungroup(m[5..], groups - 1).Some? {
        var rest := Ungroup(m[5..], groups - 1).value;
        assert Lower(m[..4] + rest) == Lower(m)[..4] + Lower(rest);
      }
    }
  }

  lemma DecodeExact(middle: string, n: nat, dashed: bool, h: nat)
    requires 0 < n <= ADDR_NIBBLES && (dashed ==> n % 4 == 0)
    ensures DecodeMiddle(middle, n, dashed) == Some(h) <==> h < Pow16(n) && Lower(middle) == Spelled(h, n, dashed)
  {
    if !dashed {
      HostOfExact(middle, n, h);
    } else {
      var g := n / 4;
      UngroupLower(middle, g);
      UngroupExact(Lower(middle), g, FixedHex(h, n));
      if Undashed(middle, n).Some? {
        HostOfExact(Undashed(middle, n).value, n, h);
      }
    }
  }

  lemma SpelledLower(h: nat, n: nat, dashed: bool)
    ensures Lower(Spelled(h, n, dashed)) == Spelled(h, n, dashed)
  {
    FixedHexIsLower(h, n);
    DashedLower(FixedHex(h, n));
  }

  // ---- one label ----

  /** A label matches when it is the rendered label in some spelling. */
  predicate Spells(l: FwdLabel, text: string, h: nat, n: nat) {
    EqIgnoreCase(text, RenderLabel(l, FixedHex(h, n)))
  }

  /** The text begins and ends as asked, in any case, without overlap. */
  predicate Framed(text: string, pre: string, post: string) {
    && |pre| + |post| <= |text|
    && EqIgnoreCase(text[..|pre|], pre)
    && EqIgnoreCase(text[|text| - |post|..], post)
  }

  function Middle(text: string, pre: string, post: string): string
    requires |pre| + |post| <= |text|
  {
    text[|pre|..|text| - |post|]
  }

  /** A text folds to three given parts exactly when it is framed by the outer two around the third. */
  lemma ThreeParts(text: string, x: string, d: string, y: string)
    requires Lower(x) == x && Lower(y) == y
    ensures Lower(text) == x + d + y <==> Framed(text, x, y) && Lower(Middle(text, x, y)) == d
  {
    var p, q := |x|, |y|;
    if p + q <= |text| {
      var m := |text| - q;
      LowerSlice(text, 0, p);
      LowerSlice(text, p, m);
      LowerTail(text, m);
      assert Lower(text) == Lower(text)[..p] + Lower(text)[p..m] + Lower(text)[m..];
    }
  }

  /** Stripping both ends leaves the middle. */
  lemma StripBoth(text: string, pre: string, post: string)
    ensures var rest := StripPrefixCi(text, pre);
      (rest.Some? && StripSuffixCi(rest.value, post).Some?) <==> Framed(text, pre, post)
    ensures Framed(text, pre, post) ==>
      StripSuffixCi(StripPrefixCi(text, pre).value, post).value == Middle(text, pre, post)
  {
    var p, q := |pre|, |post|;
    if p + q <= |text| {
      var rest := text[p..];
      assert rest[|rest| - q..] == text[|text| - q..];
      assert rest[..|rest| - q] == text[p..|text| - q];
    }
  }

  /** A digits label matches by its frame and what the middle decodes to. */
  lemma ScanDigits(l: FwdLabel, text: string, n: nat, host: Option<nat>)
    requires l.Digits?
    ensures ScanLabel(l, text, n, host) ==
      if Framed(text, l.preLower, l.postLower) then
        match DecodeMiddle(Middle(text, l.preLower, l.postLower), n, l.dashed) case None => Mismatch case Some(h) => Matching(Some(h))
      else Mismatch
  {
    StripBoth(text, l.preLower, l.postLower);
  }

  lemma FramedSpells(l: FwdLabel, text: string, n: nat, h: nat)
    requires l.Digits? && ValidLabel(l) && 0 < n <= ADDR_NIBBLES && (l.dashed ==> n % 4 == 0)
    ensures Framed(text, l.preLower, l.postLower) && DecodeMiddle(Middle(text, l.preLower, l.postLower), n, l.dashed) == Some(h)
       <==> h < Pow16(n) && Spells(l, text, h, n)
  {
    RenderedLower(l, h, n);
    LowerTwice(l.pre);
    LowerTwice(l.post);
    ThreeParts(text, l.preLower, Spelled(h, n, l.dashed), l.postLower);
    if |l.preLower| + |l.postLower| <= |text| {
      DecodeExact(Middle(text, l.preLower, l.postLower), n, l.dashed, h);
    }
  }

  lemma DigitsLabelExact(l: FwdLabel, text: string, n: nat, host: Option<nat>, h: nat)
    requires l.Digits? && ValidLabel(l) && 0 < n <= ADDR_NIBBLES && (l.dashed ==> n % 4 == 0)
    ensures ScanLabel(l, text, n, host) == Matching(Some(h)) <==> h < Pow16(n) && Spells(l, text, h, n)
    ensures ScanLabel(l, text, n, host) != Matching(None)
  {
    ScanDigits(l, text, n, host);
    FramedSpells(l, text, n, h);
  }

  lemma RenderedLower(l: FwdLabel, h: nat, n: nat)
    requires l.Digits? && ValidLabel(l)
    ensures Lower(RenderLabel(l, FixedHex(h, n))) == l.preLower + Spelled(h, n, l.dashed) + l.postLower
  {
    var digits := Spelled(h, n, l.dashed);
    SpelledLower(h, n, l.dashed);
    LowerConcat(l.pre + digits, l.post);
    LowerConcat(l.pre, digits);
  }

  // ---- all labels ----

  lemma {:induction false} ScanExact(t: FwdTemplate, qname: Name, n: nat, k: nat, h: nat)
    requires WellFormed(t) && 0 < n <= ADDR_NIBBLES && (t.labels[t.digitsAt].dashed ==> n % 4 == 0)
    requires k <= |t.labels| <= |qname|
    ensures k <= t.digitsAt ==> ScanLabels(t.labels, qname, n, k) in {Mismatch, Matching(None)}
    ensures k > t.digitsAt ==> ScanLabels(t.labels, qname, n, k) != Matching(None)
    ensures ScanLabels(t.labels, qname, n, k) == Matching(if k <= t.digitsAt then None else Some(h))
       <==> (k > t.digitsAt ==> h < Pow16(n)) && forall i :: 0 <= i < k ==> Spells(t.labels[i], qname[i], h, n)
  {
    if k > 0 {
      ScanExact(t, qname, n, k - 1, h);
      if t.labels[k - 1].Digits? {
        DigitsLabelExact(t.labels[k - 1], qname[k - 1], n, None, h);
      } else {
        LiteralExact(t.labels[k - 1], qname[k - 1], n, None, h);
        LiteralExact(t.labels[k - 1], qname[k - 1], n, Some(h), h);
      }
    }
  }

  lemma LiteralExact(l: FwdLabel, text: string, n: nat, host: Option<nat>, h: nat)
    requires l.Literal? && ValidLabel(l)
    ensures ScanLabel(l, text, n, host) == if Spells(l, text, h, n) then Matching(host) else Mismatch
  {
    LowerTwice(l.verbatim);
  }

  // ---- addresses of a zone ----

  lemma {:induction false} ClearRoom(p: nat, j: nat, n: nat)
    requires j <= n && Clear(p, j) == p < Pow16(n)
    ensures p + Pow16(j) <= Pow16(n)
  {
    if j > 0 {
      ClearRoom(p / 16, j - 1, n - 1);
    }
  }

  /** A cleared prefix and a host part that fits below it add up to one address. */
  lemma HostSum(p: u128, n: nat, h: nat)
    requires n <= ADDR_NIBBLES && Clear(p, n) == p && h < Pow16(n)
    ensures Or(p, h) == p + h < U128_LIMIT && Clear(p + h, n) == p && Low(p + h, n) == h
  {
    U128IsPow16();
    ClearRoom(p, n, 32);
    OrDisjoint(p, h, n);
    SplitSum(p, h, n);
  }

  lemma ZoneIsCleared(z: Zone)
    requires ValidZone(z)
    ensures z.mask == 128 - 4 * z.hostNibbles && z.hostNibbles <= ADDR_NIBBLES && Clear(z.prefix, z.hostNibbles) == z.prefix
  {
    ClearedPrefix(z.prefix, z.mask, z.hostNibbles);
  }

  lemma ClearedPrefix(prefix: u128, mask: nat, n: nat)
    requires ValidMask(mask) && n == (128 - mask) / 4 && And(prefix, MaskBits(mask)) == prefix
    ensures mask == 128 - 4 * n && n <= ADDR_NIBBLES && Clear(prefix, n) == prefix
  {
    MaskIsClear(prefix, n);
  }

  /** The addresses of a zone are its prefix plus a host part, each in one way. */
  lemma ZoneAddresses(z: Zone, h: nat)
    requires ValidZone(z) && h < Pow16(z.hostNibbles)
    ensures Or(z.prefix, h) == z.prefix + h < U128_LIMIT
    ensures InZone(z, z.prefix + h) && Low(z.prefix + h, z.hostNibbles) == h
  {
    ZoneIsCleared(z);
    HostSum(z.prefix, z.hostNibbles, h);
    MaskIsClear(z.prefix + h, z.hostNibbles);
  }

  lemma InZoneSplit(z: Zone, a: u128)
    requires ValidZone(z)
    ensures InZone(z, a) <==> a == z.prefix + Low(a, z.hostNibbles)
    ensures Low(a, z.hostNibbles) < Pow16(z.hostNibbles)
    ensures NameOf(z, a) == NameOf(z, Low(a, z.hostNibbles))
  {
    var n := z.hostNibbles;
    assert z.mask == 128 - 4 * n;
    MaskIsClear(a, n);
    ClearPlusLow(a, n);
    LowBound(a, n);
    FixedHexLow(a, n);
  }

  // ---- the main theorem about one zone ----

  /** A template whose first label is a literal `*`, which the label count does not include. */
  predicate StarTemplate(t: FwdTemplate) {
    |t.labels| > 0 && t.labels[0].Literal? && t.labels[0].verbatim == "*"
  }

  /**
    The names a zone accepts for `addr`. Ordinarily these are the printed name in any spelling.
    A template that begins with the label `*` accepts that name only when one more label,
    of any content, follows it.
   */
  predicate Accepts(z: Zone, qname: Name, addr: nat) {
    var k := |z.fwd.labels|;
    if StarTemplate(z.fwd) then |qname| == k + 1 && SameName(qname[..k], NameOf(z, addr))
    else SameName(qname, NameOf(z, addr))
  }

  lemma FirstLabelStar(z: Zone, h: nat)
    requires ValidZone(z)
    ensures Lower(NameOf(z, h)[0]) == "*" <==> StarTemplate(z.fwd)
  {
    var l := z.fwd.labels[0];
    var n := z.hostNibbles;
    if l.Literal? {
      StarCase(l.verbatim);
    } else {
      RenderedLower(l, h, n);
      SpelledStart(h, n, l.dashed);
      var lowered := Lower(RenderLabel(l, FixedHex(h, n)));
      assert lowered[|l.preLower|] == Spelled(h, n, l.dashed)[0];
      assert |lowered| > |l.preLower|;
    }
  }

  lemma SpelledStart(h: nat, n: nat, dashed: bool)
    requires n > 0
    ensures |Spelled(h, n, dashed)| > 0 && Spelled(h, n, dashed)[0] != '*'
  {
    FixedHexStart(h, n);
  }

  lemma {:induction false} FixedHexStart(h: nat, n: nat)
    requires n > 0
    ensures FixedHex(h, n)[0] != '*'
  {
    if n > 1 {
      FixedHexStart(h / 16, n - 1);
    }
  }

  lemma AcceptsLabels(z: Zone, qname: Name, h: nat)
    requires ValidZone(z)
    ensures var k := |z.fwd.labels|;
      Accepts(z, qname, h) <==>
        NumLabels(qname) == k && forall i :: 0 <= i < k ==> Spells(z.fwd.labels[i], qname[i], h, z.hostNibbles)
  {
    var k := |z.fwd.labels|;
    var printed := NameOf(z, h);
    FirstLabelStar(z, h);
    if |qname| >= k {
      SameNameLabels(qname[..k], printed);
      assert forall i :: 0 <= i < k ==> Lower(qname[..k][i]) == Lower(qname[i]);
      StarCase(qname[0]);
    }
    SameNameLabels(qname, printed);
    if |qname| == k {
      assert qname[..k] == qname;
    }
  }

  /** Matching succeeds with host part `h` exactly when the name spells `h`. */
  lemma HostExact(z: Zone, qname: Name, h: nat)
    requires ValidZone(z)
    ensures h < Pow16(z.hostNibbles) && Accepts(z, qname, h) <==>
      NumLabels(qname) == |z.fwd.labels| && ScanLabels(z.fwd.labels, qname, z.hostNibbles, |z.fwd.labels|) == Matching(Some(h))
  {
    AcceptsLabels(z, qname, h);
    if NumLabels(qname) == |z.fwd.labels| {
      ScanExact(z.fwd, qname, z.hostNibbles, |z.fwd.labels|, h);
    }
  }

  ghost function HostFound(z: Zone, qname: Name): (h: nat)
    requires ValidZone(z) && MatchZoneForward(z, qname).Some?
    ensures h < Pow16(z.hostNibbles)
    ensures ScanLabels(z.fwd.labels, qname, z.hostNibbles, |z.fwd.labels|) == Matching(Some(h))
  {
    var h := ScanLabels(z.fwd.labels, qname, z.hostNibbles, |z.fwd.labels|).host.value;
    HostExact(z, qname, h);
    h
  }

  /**
    Exact inverse, both ways: matching `qname` against a compiled zone finds `addr` if and only
    if `addr` lies in the zone's network and `qname` is an accepted spelling of its name.
   */
  lemma ForwardExact(z: Zone, qname: Name, addr: u128)
    requires ValidZone(z)
    ensures MatchZoneForward(z, qname) == Some(addr) <==> InZone(z, addr) && Accepts(z, qname, addr)
  {
    if MatchZoneForward(z, qname).Some? {
      MatchIsAccepted(z, qname);
    }
    if InZone(z, addr) && Accepts(z, qname, addr) {
      AcceptedIsMatched(z, qname, addr);
    }
  }

  lemma MatchIsAccepted(z: Zone, qname: Name)
    requires ValidZone(z) && MatchZoneForward(z, qname).Some?
    ensures var addr := MatchZoneForward(z, qname).value; addr < U128_LIMIT && InZone(z, addr) && Accepts(z, qname, addr)
  {
    var h := HostFound(z, qname);
    HostExact(z, qname, h);
    HostIsAccepted(z, qname, h);
  }

  lemma HostIsAccepted(z: Zone, qname: Name, h: nat)
    requires ValidZone(z) && h < Pow16(z.hostNibbles) && Accepts(z, qname, h)
    ensures Or(z.prefix, h) == z.prefix + h < U128_LIMIT
    ensures InZone(z, z.prefix + h) && Accepts(z, qname, z.prefix + h)
  {
    ZoneAddresses(z, h);
    NameOfHost(z, h);
    AcceptsSameName(z, qname, h, z.prefix + h);
  }

  /** An address prints the name of its host part. */
  lemma NameOfHost(z: Zone, h: nat)
    requires ValidZone(z) && h < Pow16(z.hostNibbles)
    ensures NameOf(z, h) == NameOf(z, z.prefix + h)
  {
    ZoneAddresses(z, h);
    InZoneSplit(z, z.prefix + h);
  }

  lemma AcceptedIsMatched(z: Zone, qname: Name, addr: u128)
    requires ValidZone(z) && InZone(z, addr) && Accepts(z, qname, addr)
    ensures MatchZoneForward(z, qname) == Some(addr)
  {
    InZoneSplit(z, addr);
    var h := Low(addr, z.hostNibbles);
    AcceptsSameName(z, qname, addr, h);
    SpelledIsMatched(z, qname, h);
  }

  lemma SpelledIsMatched(z: Zone, qname: Name, h: nat)
    requires ValidZone(z) && h < Pow16(z.hostNibbles) && Accepts(z, qname, h)
    ensures MatchZoneForward(z, qname) == Some(z.prefix + h)
  {
    HostExact(z, qname, h);
    ZoneAddresses(z, h);
  }

  lemma AcceptsSameName(z: Zone, qname: Name, a: nat, b: nat)
    requires NameOf(z, a) == NameOf(z, b)
    ensures Accepts(z, qname, a) <==> Accepts(z, qname, b)
  {
  }

  /** Whatever a zone's template decodes is an address of that zone's network. */
  lemma ForwardInZone(z: Zone, qname: Name)
    requires ValidZone(z) && MatchZoneForward(z, qname).Some?
    ensures MatchZoneForward(z, qname).value < U128_LIMIT
    ensures InZone(z, MatchZoneForward(z, qname).value)
  {
    MatchIsAccepted(z, qname);
  }

  /**
    The printed name comes back as the same address exactly when the address is in the network
    and the template does not begin with the label `*`.
   */
  lemma RoundTripExact(z: Zone, addr: u128)
    requires ValidZone(z)
    ensures ForwardName(z, addr).Some?
    ensures MatchZoneForward(z, ForwardName(z, addr).value) == Some(addr) <==> InZone(z, addr) && !StarTemplate(z.fwd)
  {
    ForwardNameTotal(z, addr);
    ForwardExact(z, NameOf(z, addr), addr);
  }

  /** Different addresses of one zone never print the same name, in any spelling. */
  lemma NamesDiffer(z: Zone, a: u128, b: u128)
    requires ValidZone(z) && InZone(z, a) && InZone(z, b) && a != b
    ensures !SameName(NameOf(z, a), NameOf(z, b))
  {
    var at, n := z.fwd.digitsAt, z.hostNibbles;
    var l := z.fwd.labels[at];
    InZoneSplit(z, a);
    InZoneSplit(z, b);
    var ha, hb := Low(a, n), Low(b, n);
    var text := RenderLabel(l, FixedHex(hb, n));
    DigitsLabelExact(l, text, n, None, ha);
    DigitsLabelExact(l, text, n, None, hb);
    assert Lower(NameOf(z, b)[at]) != Lower(NameOf(z, a)[at]);
    SameNameLabels(NameOf(z, a), NameOf(z, b));
  }

  /** Spelling does not matter: a recased query name decodes to the same address. */
  lemma {:induction false} ScanSameName(labels: seq<FwdLabel>, a: Name, b: Name, n: nat, k: nat)
    requires SameName(a, b) && k <= |labels| && k <= |a| && k <= |b|
    ensures ScanLabels(labels, a, n, k) == ScanLabels(labels, b, n, k)
  {
    if k > 0 {
      ScanSameName(labels, a, b, n, k - 1);
      SameNameLabels(a, b);
      match ScanLabels(labels, a, n, k - 1) {
        case Mismatch =>
        case Matching(host) => ScanLabelSameCase(labels[k - 1], a[k - 1], b[k - 1], n, host);
      }
    }
  }

  lemma ScanLabelSameCase(l: FwdLabel, a: string, b: string, n: nat, host: Option<nat>)
    requires Lower(a) == Lower(b)
    ensures ScanLabel(l, a, n, host) == ScanLabel(l, b, n, host)
  {
    if l.Digits? {
      ScanDigits(l, a, n, host);
      ScanDigits(l, b, n, host);
      FramedSameCase(a, b, l.preLower, l.postLower);
      if |l.preLower| + |l.postLower| <= |a| {
        DecodeSameCase(Middle(a, l.preLower, l.postLower), Middle(b, l.preLower, l.postLower), n, l.dashed);
      }
    }
  }

  lemma FramedSameCase(a: string, b: string, pre: string, post: string)
    requires Lower(a) == Lower(b)
    ensures |a| == |b| && (Framed(a, pre, post) <==> Framed(b, pre, post))
    ensures |pre| + |post| <= |a| ==> Lower(Middle(a, pre, post)) == Lower(Middle(b, pre, post))
  {
    assert |a| == |Lower(a)| == |Lower(b)| == |b|;
    if |pre| + |post| <= |a| {
      var p, m := |pre|, |a| - |post|;
      LowerSlice(a, 0, p);
      LowerSlice(b, 0, p);
      LowerSlice(a, p, m);
      LowerSlice(b, p, m);
      LowerTail(a, m);
      LowerTail(b, m);
    }
  }

  lemma LowerTail(s: string, i: nat)
    requires i <= |s|
    ensures Lower(s[i..]) == Lower(s)[i..]
  {
  }

  lemma DecodeSameCase(a: string, b: string, n: nat, dashed: bool)
    requires Lower(a) == Lower(b)
    ensures DecodeMiddle(a, n, dashed) == DecodeMiddle(b, n, dashed)
  {
    if !dashed {
      HostSameCase(a, b, n);
    } else if n >= 4 {
      UngroupLower(a, n / 4);
      UngroupLower(b, n / 4);
      if Undashed(a, n).Some? {
        HostSameCase(Undashed(a, n).value, Undashed(b, n).value, n);
      }
    }
  }

  lemma HostSameCase(a: string, b: string, n: nat)
    requires Lower(a) == Lower(b)
    ensures HostOf(a, n) == HostOf(b, n)
  {
    ValueSameCase(a, b);
  }

  lemma {:induction false} ValueSameCase(a: string, b: string)
    requires Lower(a) == Lower(b)
    ensures |a| == |b| && (AllHex(a) <==> AllHex(b))
    ensures AllHex(a) ==> DigitsValue(a) == DigitsValue(b)
  {
    assert |a| == |Lower(a)| == |Lower(b)| == |b|;
    if a != "" {
      var k := |a| - 1;
      LowerSlice(a, 0, k);
      LowerSlice(b, 0, k);
      ValueSameCase(a[..k], b[..k]);
      assert Lower(a)[k] == Lower(b)[k];
      HexValSameCase(a[k], b[k]);
      assert AllHex(a) <==> AllHex(a[..k]) && HexVal(a[k]).Some?;
      assert AllHex(b) <==> AllHex(b[..k]) && HexVal(b[k]).Some?;
    }
  }

  lemma HexValSameCase(a: char, b: char)
    requires LowerChar(a) == LowerChar(b)
    ensures HexVal(a) == HexVal(b)
  {
  }

  lemma MatchSameName(z: Zone, a: Name, b: Name)
    requires SameName(a, b)
    ensures MatchZoneForward(z, a) == MatchZoneForward(z, b)
  {
    SameNameStar(a, b);
    var k := |z.fwd.labels|;
    if NumLabels(a) == k {
      ScanSameName(z.fwd.labels, a, b, z.hostNibbles, k);
    }
  }
}
