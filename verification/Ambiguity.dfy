/**
  When is the forward mapping one-to-one over the whole configuration?

  Each template label accepts a fixed-width pattern of cells, a given character or any hex digit.
  Two zones share a name exactly when their patterns agree cell by cell, so whether every printed
  name comes back is decided by comparing templates, without looking at any address.
 */
module Ambiguity {
  import opened Wrappers
  import opened Bits
  import opened Ascii
  import opened Names
  import opened Nibble
  import opened ConfigModel
  import opened Lookup
  import opened Synth
  import opened RoundTrip
  import opened Resolution

  // ---- patterns ----

  datatype Cell = Fixed(c: char) | AnyHex

  predicate Fits(cell: Cell, c: char) {
    match cell
    case Fixed(f) => LowerChar(c) == f
    case AnyHex => HexVal(c).Some?
  }

  predicate FitsAll(cells: seq<Cell>, text: string) {
    |cells| == |text| && forall i :: 0 <= i < |cells| ==> Fits(cells[i], text[i])
  }

  function FixedCells(lower: string): (r: seq<Cell>)
    ensures |r| == |lower|
  {
    seq(|lower|, i requires 0 <= i < |lower| => Fixed(lower[i]))
  }

  function HexCells(n: nat): (r: seq<Cell>)
    ensures |r| == n
  {
    seq(n, _ => AnyHex)
  }

  function DashedCells(groups: nat): seq<Cell> {
    if groups <= 1 then HexCells(4 * groups) else HexCells(4) + [Fixed('-')] + DashedCells(groups - 1)
  }

  function DigitCells(n: nat, dashed: bool): seq<Cell> {
    if dashed then DashedCells(n / 4) else HexCells(n)
  }

  function Pattern(l: FwdLabel, n: nat): seq<Cell> {
    match l
    case Literal(_, lower) => FixedCells(lower)
    case Digits(_, preLower, _, postLower, dashed) => FixedCells(preLower) + DigitCells(n, dashed) + FixedCells(postLower)
  }

  lemma FixedFits(lower: string, text: string)
    requires Lower(lower) == lower
    ensures FitsAll(FixedCells(lower), text) <==> EqIgnoreCase(text, lower)
  {
    if EqIgnoreCase(text, lower) {
      assert |text| == |Lower(text)| == |lower|;
      forall i | 0 <= i < |text| ensures Fits(FixedCells(lower)[i], text[i]) {
        assert Lower(text)[i] == LowerChar(text[i]);
      }
    }
  }

  lemma FitsConcat(a: seq<Cell>, b: seq<Cell>, text: string)
    ensures FitsAll(a + b, text) <==> |a| <= |text| && FitsAll(a, text[..|a|]) && FitsAll(b, text[|a|..])
  {
    if |a| <= |text| && FitsAll(a, text[..|a|]) && FitsAll(b, text[|a|..]) {
      forall i | 0 <= i < |a + b| ensures Fits((a + b)[i], text[i]) {
        if i >= |a| {
          assert text[i] == text[|a|..][i - |a|];
        }
      }
    }
    if FitsAll(a + b, text) {
      forall i | 0 <= i < |b| ensures Fits(b[i], text[|a|..][i]) {
        assert (a + b)[|a| + i] == b[i];
      }
      forall i | 0 <= i < |a| ensures Fits(a[i], text[..|a|][i]) {
        assert (a + b)[i] == a[i];
      }
    }
  }

  lemma HexFits(n: nat, text: string)
    ensures FitsAll(HexCells(n), text) <==> HostOf(text, n).Some?
  {
    if FitsAll(HexCells(n), text) {
      forall i | 0 <= i < n ensures HexVal(text[i]).Some? {
        assert Fits(HexCells(n)[i], text[i]);
      }
    }
  }

  lemma {:induction false} DashedFits(groups: nat, text: string)
    requires groups > 0
    ensures FitsAll(DashedCells(groups), text) <==> Ungroup(text, groups).Some? && AllHex(Ungroup(text, groups).value)
  {
    HexFits(4, text);
    if groups > 1 {
      var head, tail := HexCells(4) + [Fixed('-')], DashedCells(groups - 1);
      FitsConcat(head, tail, text);
      if |text| >= 5 {
        FitsConcat(HexCells(4), [Fixed('-')], text[..5]);
        assert text[..5][..4] == text[..4] && text[..5][4..] == [text[4]];
        HexFits(4, text[..4]);
        DashedFits(groups - 1, text[5..]);
        assert FitsAll([Fixed('-')], [text[4]]) <==> text[4] == '-' by {
          assert Fits(Fixed('-'), text[4]) <==> text[4] == '-';
          assert [Fixed('-')][0] == Fixed('-') && [text[4]][0] == text[4];
        }
        if Ungroup(text[5..], groups - 1).Some? {
          var rest := Ungroup(text[5..], groups - 1).value;
          AllHexConcat(text[..4], rest);
        }
      }
    }
  }

  lemma AllHexConcat(a: string, b: string)
    ensures AllHex(a + b) <==> AllHex(a) && AllHex(b)
  {
    if AllHex(a + b) {
      assert forall i :: 0 <= i < |a| ==> a[i] == (a + b)[i];
      assert forall i :: 0 <= i < |b| ==> b[i] == (a + b)[|a| + i];
    }
  }

  lemma DigitsFit(middle: string, n: nat, dashed: bool)
    requires 0 < n && (dashed ==> n % 4 == 0)
    ensures FitsAll(DigitCells(n, dashed), middle) <==> DecodeMiddle(middle, n, dashed).Some?
  {
    if dashed {
      DashedFits(n / 4, middle);
      if Undashed(middle, n).Some? {
        UngroupExact(middle, n / 4, Undashed(middle, n).value);
      }
    } else {
      HexFits(n, middle);
    }
  }

  lemma FramedFits(pre: string, cells: seq<Cell>, post: string, text: string)
    requires Lower(pre) == pre && Lower(post) == post
    ensures FitsAll(FixedCells(pre) + cells + FixedCells(post), text) <==> Framed(text, pre, post) && FitsAll(cells, Middle(text, pre, post))
  {
    var a, b := FixedCells(pre), FixedCells(post);
    FitsConcat(a + cells, b, text);
    if |a| + |cells| + |b| == |text| {
      var m := |a| + |cells|;
      FitsConcat(a, cells, text[..m]);
      assert text[..m][..|a|] == text[..|a|] && text[..m][|a|..] == text[|a|..m];
      FixedFits(pre, text[..|a|]);
      FixedFits(post, text[m..]);
    }
  }

  /** The matcher accepts a label exactly when it fits the label's pattern. */
  lemma PatternExact(l: FwdLabel, text: string, n: nat, host: Option<nat>)
    requires ValidLabel(l) && 0 < n && (l.Digits? && l.dashed ==> n % 4 == 0)
    ensures ScanLabel(l, text, n, host).Matching? <==> FitsAll(Pattern(l, n), text)
  {
    match l {
      case Literal(verbatim, lower) =>
        LowerTwice(verbatim);
        FixedFits(lower, text);
      case Digits(pre, preLower, post, postLower, dashed) =>
        LowerTwice(pre);
        LowerTwice(post);
        ScanDigits(l, text, n, host);
        FramedFits(preLower, DigitCells(n, dashed), postLower, text);
        if |preLower| + |postLower| <= |text| {
          DigitsFit(Middle(text, preLower, postLower), n, dashed);
        }
    }
  }

  // ---- agreement of patterns ----

  predicate Agree(x: Cell, y: Cell) {
    match (x, y)
    case (Fixed(c), Fixed(d)) => c == d
    case (Fixed(c), AnyHex) => HexVal(c).Some?
    case (AnyHex, Fixed(d)) => HexVal(d).Some?
    case (AnyHex, AnyHex) => true
  }

  predicate AgreeAll(x: seq<Cell>, y: seq<Cell>) {
    |x| == |y| && forall i :: 0 <= i < |x| ==> Agree(x[i], y[i])
  }

  /** Cells hold folded characters only. */
  predicate Folded(cell: Cell) {
    cell.Fixed? ==> LowerChar(cell.c) == cell.c
  }

  function Common(x: Cell, y: Cell): char {
    if x.Fixed? then x.c else if y.Fixed? then y.c else '0'
  }

  lemma CommonFits(x: Cell, y: Cell)
    requires Folded(x) && Folded(y) && Agree(x, y)
    ensures Fits(x, Common(x, y)) && Fits(y, Common(x, y))
  {
  }

  lemma FitsBoth(x: Cell, y: Cell, c: char)
    requires Folded(x) && Folded(y) && Fits(x, c) && Fits(y, c)
    ensures Agree(x, y)
  {
    HexValSameCase(c, LowerChar(c));
  }

  function CommonText(x: seq<Cell>, y: seq<Cell>): string
    requires |x| == |y|
  {
    seq(|x|, i requires 0 <= i < |x| => Common(x[i], y[i]))
  }

  predicate FoldedAll(cells: seq<Cell>) {
    forall i :: 0 <= i < |cells| ==> Folded(cells[i])
  }

  lemma {:induction false} DashedFolded(groups: nat)
    ensures FoldedAll(DashedCells(groups))
  {
    if groups > 1 {
      DashedFolded(groups - 1);
    }
  }

  lemma PatternFolded(l: FwdLabel, n: nat)
    requires ValidLabel(l)
    ensures FoldedAll(Pattern(l, n))
  {
    match l {
      case Literal(verbatim, lower) =>
        FixedFolded(verbatim);
      case Digits(pre, _, post, _, _) =>
        FixedFolded(pre);
        FixedFolded(post);
        DashedFolded(n / 4);
    }
  }

  lemma FixedFolded(text: string)
    ensures FoldedAll(FixedCells(Lower(text)))
  {
    forall i | 0 <= i < |text| ensures Folded(FixedCells(Lower(text))[i]) {
      assert LowerChar(Lower(text)[i]) == Lower(text)[i];
    }
  }

  /** Some text fits both patterns exactly when they agree cell by cell. */
  lemma CommonTextExact(x: seq<Cell>, y: seq<Cell>)
    requires FoldedAll(x) && FoldedAll(y)
    ensures AgreeAll(x, y) ==> FitsAll(x, CommonText(x, y)) && FitsAll(y, CommonText(x, y))
    ensures forall text :: FitsAll(x, text) && FitsAll(y, text) ==> AgreeAll(x, y)
  {
    if AgreeAll(x, y) {
      forall i | 0 <= i < |x| ensures Fits(x[i], CommonText(x, y)[i]) && Fits(y[i], CommonText(x, y)[i]) {
        CommonFits(x[i], y[i]);
      }
    }
    forall text | FitsAll(x, text) && FitsAll(y, text) ensures AgreeAll(x, y) {
      forall i | 0 <= i < |x| ensures Agree(x[i], y[i]) {
        FitsBoth(x[i], y[i], text[i]);
      }
    }
  }

  // ---- two zones ----

  /** The templates have as many labels, and their patterns agree. A check on the text alone. */
  predicate Overlap(v: Zone, w: Zone) {
    && |v.fwd.labels| == |w.fwd.labels|
    && forall i :: 0 <= i < |v.fwd.labels| ==>
         AgreeAll(Pattern(v.fwd.labels[i], v.hostNibbles), Pattern(w.fwd.labels[i], w.hostNibbles))
  }

  predicate BothMatch(v: Zone, w: Zone, qname: Name) {
    MatchZoneForward(v, qname).Some? && MatchZoneForward(w, qname).Some?
  }

  predicate FitsZone(z: Zone, qname: Name) {
    && NumLabels(qname) == |z.fwd.labels|
    && forall i :: 0 <= i < |z.fwd.labels| ==> FitsAll(Pattern(z.fwd.labels[i], z.hostNibbles), qname[i])
  }

  lemma {:induction false} ScanFits(z: Zone, qname: Name, k: nat)
    requires ValidZone(z) && k <= |z.fwd.labels| <= |qname|
    ensures ScanLabels(z.fwd.labels, qname, z.hostNibbles, k).Matching?
       <==> forall i :: 0 <= i < k ==> FitsAll(Pattern(z.fwd.labels[i], z.hostNibbles), qname[i])
  {
    if k > 0 {
      ScanFits(z, qname, k - 1);
      var scan := ScanLabels(z.fwd.labels, qname, z.hostNibbles, k - 1);
      PatternExact(z.fwd.labels[k - 1], qname[k - 1], z.hostNibbles, if scan.Matching? then scan.host else None);
    }
  }

  /** A zone accepts a name exactly when every label fits its pattern. */
  lemma ZonePatternExact(z: Zone, qname: Name)
    requires ValidZone(z)
    ensures MatchZoneForward(z, qname).Some? <==> FitsZone(z, qname)
  {
    var k := |z.fwd.labels|;
    if NumLabels(qname) == k {
      ScanFits(z, qname, k);
      ScanExact(z.fwd, qname, z.hostNibbles, k, 0);
    }
  }

  function SharedName(v: Zone, w: Zone): Name
    requires Overlap(v, w)
  {
    var k := |v.fwd.labels|;
    var labels := seq(k, i requires 0 <= i < k =>
      CommonText(Pattern(v.fwd.labels[i], v.hostNibbles), Pattern(w.fwd.labels[i], w.hostNibbles)));
    if k > 0 && labels[0] == "*" then labels + ["x"] else labels
  }

  lemma SharedNameMatches(v: Zone, w: Zone)
    requires ValidZone(v) && ValidZone(w) && Overlap(v, w)
    ensures BothMatch(v, w, SharedName(v, w))
  {
    var q := SharedName(v, w);
    forall i | 0 <= i < |v.fwd.labels|
      ensures FitsAll(Pattern(v.fwd.labels[i], v.hostNibbles), q[i])
      ensures FitsAll(Pattern(w.fwd.labels[i], w.hostNibbles), q[i])
    {
      PatternFolded(v.fwd.labels[i], v.hostNibbles);
      PatternFolded(w.fwd.labels[i], w.hostNibbles);
      CommonTextExact(Pattern(v.fwd.labels[i], v.hostNibbles), Pattern(w.fwd.labels[i], w.hostNibbles));
    }
    ZonePatternExact(v, q);
    ZonePatternExact(w, q);
  }

  /** Two zones accept a common query name if and only if their templates overlap. */
  lemma OverlapExact(v: Zone, w: Zone)
    requires ValidZone(v) && ValidZone(w)
    ensures (exists qname :: BothMatch(v, w, qname)) <==> Overlap(v, w)
  {
    if qname :| BothMatch(v, w, qname) {
      ZonePatternExact(v, qname);
      ZonePatternExact(w, qname);
      forall i | 0 <= i < |v.fwd.labels|
        ensures AgreeAll(Pattern(v.fwd.labels[i], v.hostNibbles), Pattern(w.fwd.labels[i], w.hostNibbles))
      {
        PatternFolded(v.fwd.labels[i], v.hostNibbles);
        PatternFolded(w.fwd.labels[i], w.hostNibbles);
        CommonTextExact(Pattern(v.fwd.labels[i], v.hostNibbles), Pattern(w.fwd.labels[i], w.hostNibbles));
        assert FitsAll(Pattern(v.fwd.labels[i], v.hostNibbles), qname[i]);
      }
    }
    if Overlap(v, w) {
      SharedNameMatches(v, w);
    }
  }

  // ---- the whole configuration ----

  /** No template begins with the label `*`, and no two overlap. */
  predicate Unambiguous(c: Config) {
    && (forall i :: 0 <= i < |c.zones| ==> !StarTemplate(c.zones[i].fwd))
    && (forall i, j :: 0 <= i < j < |c.zones| ==> !Overlap(c.zones[i], c.zones[j]))
  }

  /**
    The name a zone's template gives one of its addresses is looked up as that zone and address.
    This asks it of every address of the network, also of one that a longer prefix takes over, for
    which the server prints another name.
   */
  predicate ComesBack(c: Config, i: nat, addr: u128)
    requires i < |c.zones|
  {
    InZone(c.zones[i], addr) ==> MatchForward(c, NameOf(c.zones[i], addr)) == Some((c.zones[i], addr))
  }

  /** A printed name comes back exactly when its own zone takes it and no zone before that one does. */
  lemma ComesBackExact(c: Config, i: nat, addr: u128)
    requires ValidConfig(c) && i < |c.zones| && InZone(c.zones[i], addr)
    ensures ComesBack(c, i, addr) <==>
      && !StarTemplate(c.zones[i].fwd)
      && forall j :: 0 <= j < i ==> MatchZoneForward(c.zones[j], NameOf(c.zones[i], addr)).None?
  {
    var z := c.zones[i];
    var printed := NameOf(z, addr);
    ForwardNameTotal(z, addr);
    RoundTripExact(z, addr);
    var k := FirstMatchFacts(c.zones, printed);
    if ComesBack(c, i, addr) {
      SameZoneSamePlace(c, i, k);
    }
  }

  lemma SameZoneSamePlace(c: Config, i: nat, k: nat)
    requires DistinctNetworks(c.zones) && i < |c.zones| && k < |c.zones| && c.zones[i] == c.zones[k]
    ensures i == k
  {
    assert !(i < k) && !(k < i);
  }

  lemma UnambiguousComesBack(c: Config, i: nat, addr: u128)
    requires ValidConfig(c) && Unambiguous(c) && i < |c.zones|
    ensures ComesBack(c, i, addr)
  {
    var z := c.zones[i];
    if InZone(z, addr) {
      ForwardNameTotal(z, addr);
      RoundTripExact(z, addr);
      forall j | 0 <= j < i ensures MatchZoneForward(c.zones[j], NameOf(z, addr)).None? {
        OverlapExact(c.zones[j], z);
        assert !BothMatch(c.zones[j], z, NameOf(z, addr));
      }
      ComesBackExact(c, i, addr);
    }
  }

  lemma StarDoesNotComeBack(c: Config, i: nat)
    requires ValidConfig(c) && i < |c.zones| && StarTemplate(c.zones[i].fwd)
    ensures !ComesBack(c, i, c.zones[i].prefix)
  {
    ZoneAddresses(c.zones[i], 0);
    ComesBackExact(c, i, c.zones[i].prefix);
  }

  lemma OverlapDoesNotComeBack(c: Config, i: nat, j: nat) returns (addr: u128)
    requires ValidConfig(c) && i < j < |c.zones|
    requires !StarTemplate(c.zones[j].fwd) && Overlap(c.zones[i], c.zones[j])
    ensures !ComesBack(c, j, addr)
  {
    var v, w := c.zones[i], c.zones[j];
    OverlapExact(v, w);
    var shared :| BothMatch(v, w, shared);
    ForwardInZone(w, shared);
    addr := MatchZoneForward(w, shared).value;
    ForwardExact(w, shared, addr);
    MatchSameName(v, shared, NameOf(w, addr));
    var k := FirstMatchFacts(c.zones, NameOf(w, addr));
    assert k <= i;
    assert (c.zones[k].prefix, c.zones[k].mask) != (w.prefix, w.mask);
  }

  /**
    The name of every address of every network, taken over by a longer prefix or not, comes back
    as its zone and address if and only if no template begins with `*` and no two templates overlap.
   */
  lemma ForwardOneToOne(c: Config)
    requires ValidConfig(c)
    ensures (forall i: nat, addr: u128 :: i < |c.zones| ==> ComesBack(c, i, addr)) <==> Unambiguous(c)
  {
    if Unambiguous(c) {
      forall i: nat, addr: u128 | i < |c.zones| ensures ComesBack(c, i, addr) {
        UnambiguousComesBack(c, i, addr);
      }
    } else if i :| 0 <= i < |c.zones| && StarTemplate(c.zones[i].fwd) {
      StarDoesNotComeBack(c, i);
    } else {
      var i, j :| 0 <= i < j < |c.zones| && Overlap(c.zones[i], c.zones[j]);
      var addr := OverlapDoesNotComeBack(c, i, j);
    }
  }

  /**
    The whole circle: in an unambiguous configuration, the target of the answer to a reverse
    query, asked for AAAA, is answered with the very address the reverse query named.
   */
  lemma FullCircle(c: Config, addr: u128, qname: Name)
    requires ValidConfig(c) && Unambiguous(c) && ZoneForAddr(c, addr).Some?
    requires SameName(qname, PtrName(addr, 128))
    ensures var z, target := ZoneForAddr(c, addr).value, NameOf(ZoneForAddr(c, addr).value, addr);
      && Resolve(c, qname, PTR) == Answer(z, [NewRecord(qname, z.ttl, PtrData(target))])
      && Resolve(c, target, AAAA) == Answer(z, [NewRecord(target, z.ttl, AaaaData(addr))])
  {
    var z := ZoneForAddr(c, addr).value;
    ReverseEndToEnd(c, addr, qname, PTR);
    NameResolves(c, addr, z);
  }

  lemma NameResolves(c: Config, addr: u128, z: Zone)
    requires ValidConfig(c) && Unambiguous(c) && ZoneForAddr(c, addr) == Some(z)
    ensures Resolve(c, NameOf(z, addr), AAAA) == Answer(z, [NewRecord(NameOf(z, addr), z.ttl, AaaaData(addr))])
  {
    LongestPrefix(c, addr, z);
    var i :| 0 <= i < |c.zones| && c.zones[i] == z;
    UnambiguousComesBack(c, i, addr);
    MatchIsAnswered(c, NameOf(z, addr), z, addr);
  }

  lemma MatchIsAnswered(c: Config, qname: Name, z: Zone, addr: u128)
    requires MatchForward(c, qname) == Some((z, addr))
    ensures Resolve(c, qname, AAAA) == Answer(z, [NewRecord(qname, z.ttl, AaaaData(addr))])
  {
  }

  /**
    The name of an address with a PTR record, asked for another type, is reported not to exist if
    and only if it fits no template, label by label.
   */
  lemma ReverseNameMissing(c: Config, addr: u128, qname: Name, qtype: RecordType)
    requires ValidConfig(c) && qtype != PTR && qtype != ANY
    requires SameName(qname, PtrName(addr, 128)) && ZoneForAddr(c, addr).Some?
    ensures Resolve(c, qname, qtype).NoName? <==> forall i :: 0 <= i < |c.zones| ==> !FitsZone(c.zones[i], qname)
  {
    ReverseNameOtherType(c, addr, qname, qtype);
    var k := FirstMatchFacts(c.zones, qname);
    forall i | 0 <= i < |c.zones| ensures FitsZone(c.zones[i], qname) <==> MatchZoneForward(c.zones[i], qname).Some? {
      ZonePatternExact(c.zones[i], qname);
    }
  }

  /**
    Zones under one parent, told apart by what precedes the digits, do not overlap as soon as
    neither lowered prefix begins the other.
   */
  lemma PrefixFreeDoNotOverlap(v: Zone, w: Zone)
    requires ValidZone(v) && ValidZone(w) && v.fwd.digitsAt == w.fwd.digitsAt
    requires var p, q := v.fwd.labels[v.fwd.digitsAt].preLower, w.fwd.labels[w.fwd.digitsAt].preLower;
      !(p <= q) && !(q <= p)
    ensures !Overlap(v, w)
  {
    var at := v.fwd.digitsAt;
    var p, q := v.fwd.labels[at].preLower, w.fwd.labels[at].preLower;
    var k := FirstDifference(p, q);
    if |v.fwd.labels| == |w.fwd.labels| {
      var x, y := Pattern(v.fwd.labels[at], v.hostNibbles), Pattern(w.fwd.labels[at], w.hostNibbles);
      assert x[k] == Fixed(p[k]) && y[k] == Fixed(q[k]);
      assert !Agree(x[k], y[k]);
    }
  }

  lemma {:induction false} FirstDifference(p: string, q: string) returns (k: nat)
    requires !(p <= q) && !(q <= p)
    ensures k < |p| && k < |q| && p[k] != q[k]
  {
    if p[0] != q[0] {
      k := 0;
    } else {
      assert p == [p[0]] + p[1..] && q == [q[0]] + q[1..];
      k := FirstDifference(p[1..], q[1..]);
      k := k + 1;
    }
  }
}
