/**
  Conversions between IPv6 addresses and names, one hex digit at a time (src/nibble.rs).

  Each loop of the source is a method proved equal to a specification function; the lemmas
  about those functions say what the conversions mean.
 */
module Nibble {
  import opened Wrappers
  import opened Bits
  import opened Ascii
  import opened Names

  const PTR_QUERY_LABELS: nat := ADDR_NIBBLES + 2

  const HEX_LOWER: string := "0123456789abcdef"

  type nibble = n: nat | n < 16

  function HexDigit(n: nibble): char {
    HEX_LOWER[n]
  }

  /** Decode one hex digit of either case. */
  function HexVal(c: char): (r: Option<nibble>)
  {
    if '0' <= c <= '9' then Some(c as int - '0' as int)
    else if 'a' <= c <= 'f' then Some(c as int - 'a' as int + 10)
    else if 'A' <= c <= 'F' then Some(c as int - 'A' as int + 10)
    else None
  }

  /** Decoding is exactly the case-insensitive inverse of the digit table. */
  lemma HexValExact(c: char, n: nibble)
    ensures HexVal(c) == Some(n) <==> LowerChar(c) == HexDigit(n)
  {
  }

  /** The network part of a `mask`-bit prefix; wider masks saturate. */
  function MaskBits(mask: nat): u128 {
    if mask == 0 then 0
    else if mask >= 128 then U128_MAX
    else
      ShrFits(U128_MAX, mask);
      Not(Shr(U128_MAX, mask))
  }

  lemma {:induction false} ShrFits(x: nat, n: nat)
    ensures Shr(x, n) <= x
  {
    if n > 0 {
      ShrFits(x / 2, n - 1);
    }
  }

  lemma MaskIsHigh(k: nat)
    requires k <= 128
    ensures Pow2(k) <= U128_LIMIT && MaskBits(128 - k) == U128_LIMIT - Pow2(k)
  {
    U128IsPow2();
    Pow2Monotone(k, 128);
    if 0 < k < 128 {
      ShrOnes(128, 128 - k);
    } else {
      assert Pow2(0) == 1;
    }
  }

  lemma AndMask(a: u128, k: nat)
    requires k <= 128
    ensures Pow2(k) <= U128_LIMIT && And(a, U128_LIMIT - Pow2(k)) == ClearBits(a, k)
  {
    U128IsPow2();
    AndHigh(a, k, 128);
  }

  lemma AndHostMask(a: u128, k: nat)
    requires k <= 128
    ensures And(a, Not(MaskBits(128 - k))) == LowBits(a, k)
  {
    MaskIsHigh(k);
    AndOnes(a, k);
  }

  lemma AndNetworkMask(a: u128, k: nat)
    requires k <= 128
    ensures And(a, MaskBits(128 - k)) == ClearBits(a, k)
  {
    MaskIsHigh(k);
    AndMask(a, k);
  }

  /** On nibble boundaries, masking keeps the cleared address and unmasking keeps the low part. */
  lemma MaskIsClear(a: u128, j: nat)
    requires j <= ADDR_NIBBLES
    ensures And(a, MaskBits(128 - 4 * j)) == Clear(a, j)
    ensures And(a, Not(MaskBits(128 - 4 * j))) == Low(a, j)
  {
    AndNetworkMask(a, 4 * j);
    AndHostMask(a, 4 * j);
    NibbleBits(a, j);
  }

  // ---- reverse names ----

  /** One-digit labels, least significant nibble first. */
  function NibbleLabels(a: nat, k: nat): (labels: seq<string>)
    ensures |labels| == k
  {
    if k == 0 then [] else [[HexDigit(a % 16)]] + NibbleLabels(a / 16, k - 1)
  }

  /** The `ip6.arpa` name of the `mask`-bit network `prefix`, section 2.5 of RFC 3596. */
  function PtrName(prefix: nat, mask: nat): Name
    requires mask <= 128 && mask % 4 == 0
  {
    NibbleLabels(Upper(prefix, ADDR_NIBBLES - mask / 4), mask / 4) + ["ip6", "arpa"]
  }

  /** The shape of a full reverse query name. */
  predicate IsArpaName(name: Name) {
    && |name| == PTR_QUERY_LABELS
    && (forall i :: 0 <= i < ADDR_NIBBLES ==> IsNibbleLabel(name[i]))
    && EqIgnoreCase(name[32], "ip6")
    && EqIgnoreCase(name[33], "arpa")
  }

  predicate IsNibbleLabel(lbl: string) {
    |lbl| == 1 && HexVal(lbl[0]).Some?
  }

  function LabelsValue(labels: seq<string>): nat
    requires forall i :: 0 <= i < |labels| ==> IsNibbleLabel(labels[i])
  {
    if labels == [] then 0
    else
      assert IsNibbleLabel(labels[0]);
      HexVal(labels[0][0]).value + 16 * LabelsValue(labels[1..])
  }

  /** The address a reverse query name denotes, if it is a full address. */
  function PtrAddr(name: Name): Option<nat> {
    if IsArpaName(name) then Some(LabelsValue(name[..ADDR_NIBBLES])) else None
  }

  lemma {:induction false} LabelsValueAppend(labels: seq<string>, last: string)
    requires forall i :: 0 <= i < |labels| ==> IsNibbleLabel(labels[i])
    requires IsNibbleLabel(last)
    ensures LabelsValue(labels + [last]) == LabelsValue(labels) + Shifted(HexVal(last[0]).value, |labels|)
  {
    if labels == [] {
      assert labels + [last] == [last];
    } else {
      assert (labels + [last])[1..] == labels[1..] + [last];
      LabelsValueAppend(labels[1..], last);
    }
  }

  /** `ptr_name_to_addr`. */
  method PtrNameToAddr(name: Name) returns (r: Option<nat>)
    ensures r == PtrAddr(name)
  {
    if NumLabels(name) != PTR_QUERY_LABELS {
      if |name| == PTR_QUERY_LABELS {
        assert name[0] == "*" && !IsNibbleLabel(name[0]);
      }
      return None;
    }
    var addr: nat := 0;
    var position := 0;
    while position < ADDR_NIBBLES
      invariant 0 <= position <= ADDR_NIBBLES <= |name|
      invariant forall i :: 0 <= i < position ==> IsNibbleLabel(name[i])
      invariant addr == LabelsValue(name[..position]) < Pow16(position)
    {
      var lbl := name[position];
      if |lbl| != 1 {
        return None;
      }
      match HexVal(lbl[0]) {
        case None =>
          return None;
        case Some(value) =>
          OrNibble(addr, value, position);
          LabelsValueAppend(name[..position], lbl);
          assert name[..position + 1] == name[..position] + [lbl];
          addr := Or(addr, Shl(value, position * 4));
      }
      position := position + 1;
    }
    assert name[0] != "*" by {
      assert IsNibbleLabel(name[0]);
    }
    if !EqIgnoreCase(name[32], "ip6") {
      return None;
    }
    if !EqIgnoreCase(name[33], "arpa") {
      return None;
    }
    return Some(addr);
  }

  /** `netmask_to_ptr_name`. */
  method NetmaskToPtrName(prefix: u128, mask: nat) returns (r: Option<Name>)
    ensures r == if mask <= 128 && mask % 4 == 0 then Some(PtrName(prefix, mask)) else None
  {
    if mask > 128 || mask % 4 != 0 {
      return None;
    }
    var ptrNibbles := mask / 4;
    var start := ADDR_NIBBLES - ptrNibbles;
    var labels: seq<string> := [];
    var position := start;
    while position < ADDR_NIBBLES
      invariant start <= position <= ADDR_NIBBLES
      invariant labels + NibbleLabels(Upper(prefix, position), ADDR_NIBBLES - position)
             == NibbleLabels(Upper(prefix, start), ptrNibbles)
    {
      ExtractNibble(prefix, position);
      UpperStep(prefix, position);
      var digit := HEX_LOWER[And(Shr(prefix, position * 4), 0xF)];
      assert labels + ([[digit]] + NibbleLabels(Upper(prefix, position + 1), ADDR_NIBBLES - position - 1))
          == labels + [[digit]] + NibbleLabels(Upper(prefix, position + 1), ADDR_NIBBLES - position - 1);
      labels := labels + [[digit]];
      position := position + 1;
    }
    assert labels == NibbleLabels(Upper(prefix, start), ptrNibbles);
    PtrNameFits(prefix, mask);
    labels := labels + ["ip6"];
    labels := labels + ["arpa"];
    assert labels == PtrName(prefix, mask);
    return FromLabels(labels);
  }

  lemma {:induction false} NibbleLabelsLength(a: nat, k: nat)
    ensures WireLength(NibbleLabels(a, k)) == 2 * k + 1
    ensures forall i :: 0 <= i < k ==> IsNibbleLabel(NibbleLabels(a, k)[i])
    ensures LowerAll(NibbleLabels(a, k)) == NibbleLabels(a, k)
  {
    if k > 0 {
      var rest := NibbleLabels(a / 16, k - 1);
      NibbleLabelsLength(a / 16, k - 1);
      var d := HexDigit(a % 16);
      HexValExact(d, a % 16);
      assert Lower([d]) == [d];
      forall i | 0 <= i < k ensures LowerAll([[d]] + rest)[i] == ([[d]] + rest)[i] {
        if i > 0 {
          assert LowerAll(rest)[i - 1] == rest[i - 1];
        }
      }
    }
  }

  /** A reverse zone name is always a legal name: at most 74 bytes. */
  lemma PtrNameFits(prefix: nat, mask: nat)
    requires mask <= 128 && mask % 4 == 0
    ensures LabelsFit(PtrName(prefix, mask))
  {
    var k := mask / 4;
    var up := Upper(prefix, ADDR_NIBBLES - k);
    NibbleLabelsLength(up, k);
    WireLengthConcat(NibbleLabels(up, k), ["ip6", "arpa"]);
    assert WireLength(["ip6", "arpa"]) == 10 by {
      assert WireLength(["arpa"]) == 5 + WireLength([]);
      assert ["ip6", "arpa"][1..] == ["arpa"];
    }
  }

  // ---- what the reverse codec means ----

  lemma {:induction false} LabelsValueUnique(labels: seq<string>, a: nat)
    requires forall i :: 0 <= i < |labels| ==> IsNibbleLabel(labels[i])
    requires a < Pow16(|labels|)
    ensures LabelsValue(labels) == a <==> LowerAll(labels) == NibbleLabels(a, |labels|)
  {
    if labels != [] {
      var v := HexVal(labels[0][0]).value;
      HexValExact(labels[0][0], v);
      HexValExact(labels[0][0], a % 16);
      LabelsValueUnique(labels[1..], a / 16);
      assert LowerAll(labels) == [Lower(labels[0])] + LowerAll(labels[1..]);
      assert Lower(labels[0])[0] == LowerChar(labels[0][0]);
      var rest := NibbleLabels(a / 16, |labels| - 1);
      assert NibbleLabels(a, |labels|)[1..] == rest;
      assert LowerAll(labels)[1..] == LowerAll(labels[1..]);
      if LabelsValue(labels) == a {
        assert v == a % 16 && LabelsValue(labels[1..]) == a / 16;
        assert Lower(labels[0]) == [HexDigit(a % 16)];
      }
    }
  }

  /** Reading a full name gives `a` exactly when its first 32 labels spell the nibbles of `a`. */
  lemma ArpaLabelsExact(name: Name, a: u128)
    ensures PtrAddr(name) == Some(a) <==>
      && |name| == PTR_QUERY_LABELS && LowerAll(name[..32]) == NibbleLabels(a, 32)
      && EqIgnoreCase(name[32], "ip6") && EqIgnoreCase(name[33], "arpa")
  {
    U128IsPow16();
    if |name| == PTR_QUERY_LABELS {
      if LowerAll(name[..32]) == NibbleLabels(a, 32) {
        SpelledNibbles(name[..32], a);
      }
      if IsArpaName(name) {
        LabelsValueUnique(name[..32], a);
      }
    }
  }

  lemma SpelledNibbles(labels: seq<string>, a: nat)
    requires LowerAll(labels) == NibbleLabels(a, |labels|)
    ensures forall i :: 0 <= i < |labels| ==> IsNibbleLabel(labels[i])
  {
    NibbleLabelsLength(a, |labels|);
    forall i | 0 <= i < |labels| ensures IsNibbleLabel(labels[i]) {
      var printed := NibbleLabels(a, |labels|)[i];
      assert IsNibbleLabel(printed) && LowerAll(labels)[i] == Lower(labels[i]) == printed;
      assert |labels[i]| == |printed| == 1;
      HexOfFolded(labels[i][0], printed[0]);
    }
  }

  lemma HexOfFolded(c: char, printed: char)
    requires LowerChar(c) == printed && HexVal(printed).Some?
    ensures HexVal(c).Some?
  {
  }

  /** The printer and the parser are exact inverses, up to ASCII case. */
  lemma PtrAddrExact(name: Name, a: u128)
    ensures PtrAddr(name) == Some(a) <==> SameName(name, PtrName(a, 128))
  {
    ArpaLabelsExact(name, a);
    NibbleLabelsLength(a, 32);
    var digits := NibbleLabels(a, 32);
    assert Upper(a, 0) == a;
    assert PtrName(a, 128) == digits + ["ip6", "arpa"];
    SameAsParts(name, digits, "ip6", "arpa");
  }

  lemma SameAsParts(name: Name, front: seq<string>, x: string, y: string)
    requires LowerAll(front) == front
    ensures SameName(name, front + [x, y]) <==>
      && |name| == |front| + 2 && LowerAll(name[..|front|]) == front
      && EqIgnoreCase(name[|front|], x) && EqIgnoreCase(name[|front| + 1], y)
  {
    var whole := front + [x, y];
    var k := |front|;
    SameNameLabels(name, whole);
    if |name| == k + 2 {
      assert whole[k] == x && whole[k + 1] == y;
      SameNameLabels(name[..k], front);
      assert forall i :: 0 <= i < k ==> name[..k][i] == name[i] && whole[i] == front[i];
    }
  }

  lemma {:induction false} LabelsValueBound(labels: seq<string>)
    requires forall i :: 0 <= i < |labels| ==> IsNibbleLabel(labels[i])
    ensures LabelsValue(labels) < Pow16(|labels|)
  {
    if labels != [] {
      LabelsValueBound(labels[1..]);
    }
  }

  /** What a reverse name denotes is always a 128-bit address. */
  lemma PtrAddrBound(name: Name)
    ensures PtrAddr(name).Some? ==> PtrAddr(name).value < U128_LIMIT
  {
    if PtrAddr(name).Some? {
      LabelsValueBound(name[..32]);
      U128IsPow16();
    }
  }

  lemma {:induction false} NibbleLabelsDrop(a: nat, k: nat, j: nat)
    requires j <= k
    ensures NibbleLabels(a, k)[j..] == NibbleLabels(Upper(a, j), k - j)
  {
    if j > 0 {
      NibbleLabelsDrop(a / 16, k - 1, j - 1);
      assert NibbleLabels(a, k)[1..] == NibbleLabels(a / 16, k - 1);
      assert NibbleLabels(a, k)[j..] == NibbleLabels(a, k)[1..][j - 1..];
    }
  }

  lemma {:induction false} NibbleLabelsInjective(a: nat, b: nat, k: nat)
    requires a < Pow16(k) && b < Pow16(k)
    ensures NibbleLabels(a, k) == NibbleLabels(b, k) <==> a == b
  {
    if k > 0 {
      NibbleLabelsInjective(a / 16, b / 16, k - 1);
      var la, lb := NibbleLabels(a, k), NibbleLabels(b, k);
      assert la[1..] == NibbleLabels(a / 16, k - 1) && lb[1..] == NibbleLabels(b / 16, k - 1);
      if la == lb {
        assert la[0][0] == HexDigit(a % 16) && lb[0][0] == HexDigit(b % 16);
        HexValExact(la[0][0], a % 16);
        HexValExact(la[0][0], b % 16);
      }
    }
  }

  /**
    Suffix equals arithmetic: for a name that denotes `a`, the zone name of a masked
    nibble-aligned network is a label suffix exactly when the masked address is the prefix.
   */
  lemma SuffixIsMask(name: Name, a: u128, prefix: u128, mask: nat)
    requires PtrAddr(name) == Some(a)
    requires mask <= 128 && mask % 4 == 0
    requires And(prefix, MaskBits(mask)) == prefix
    ensures ZoneOf(PtrName(prefix, mask), name) <==> And(a, MaskBits(mask)) == prefix
  {
    var full := PtrName(a, 128);
    PtrAddrExact(name, a);
    ZoneOfSameName(PtrName(prefix, mask), name, full);
    MaskIsUpper(a, prefix, ADDR_NIBBLES - mask / 4);
    NetworkTails(full, a, prefix, mask);
    TailMatches(PtrName(prefix, mask), full, Upper(prefix, ADDR_NIBBLES - mask / 4), Upper(a, ADDR_NIBBLES - mask / 4), mask / 4);
  }

  /** A network's name and the tail of a full name are the upper nibbles of their addresses. */
  lemma NetworkTails(full: Name, a: u128, prefix: u128, mask: nat)
    requires mask <= 128 && mask % 4 == 0 && full == PtrName(a, 128)
    ensures var k := mask / 4;
      && Upper(prefix, 32 - k) < Pow16(k) && Upper(a, 32 - k) < Pow16(k) && |full| == 34
      && PtrName(prefix, mask) == NibbleLabels(Upper(prefix, 32 - k), k) + ["ip6", "arpa"]
      && full[32 - k..] == NibbleLabels(Upper(a, 32 - k), k) + ["ip6", "arpa"]
  {
    UpperFits(a, 32 - mask / 4);
    UpperFits(prefix, 32 - mask / 4);
    FullNameTail(a, 32 - mask / 4);
  }

  lemma MaskIsUpper(a: u128, prefix: u128, j: nat)
    requires j <= ADDR_NIBBLES && And(prefix, MaskBits(128 - 4 * j)) == prefix
    ensures Upper(a, j) == Upper(prefix, j) <==> And(a, MaskBits(128 - 4 * j)) == prefix
  {
    MaskIsClear(a, j);
    MaskIsClear(prefix, j);
    UpperDecidesClear(a, prefix, j);
  }

  lemma UpperFits(a: u128, j: nat)
    requires j <= ADDR_NIBBLES
    ensures Upper(a, j) < Pow16(32 - j)
  {
    U128IsPow16();
    UpperBound(a, j, 32);
  }

  lemma TailMatches(zone: Name, full: Name, x: nat, y: nat, k: nat)
    requires k <= 32 && x < Pow16(k) && y < Pow16(k) && |full| == 34
    requires zone == NibbleLabels(x, k) + ["ip6", "arpa"] && full[32 - k..] == NibbleLabels(y, k) + ["ip6", "arpa"]
    ensures ZoneOf(zone, full) <==> y == x
  {
    NibbleListsAgree(x, y, k, ["ip6", "arpa"]);
  }

  lemma NibbleListsAgree(x: nat, y: nat, k: nat, tail: seq<string>)
    requires x < Pow16(k) && y < Pow16(k)
    ensures SameName(NibbleLabels(x, k) + tail, NibbleLabels(y, k) + tail) <==> x == y
  {
    NibbleLabelsInjective(x, y, k);
    NibbleLabelsLength(x, k);
    NibbleLabelsLength(y, k);
    LowercaseListsAgree(NibbleLabels(x, k), NibbleLabels(y, k), tail);
  }

  /** Below the host labels, a full reverse name is the name of the enclosing network. */
  lemma FullNameTail(a: nat, j: nat)
    requires j <= ADDR_NIBBLES
    ensures |PtrName(a, 128)| == 34
    ensures PtrName(a, 128)[j..] == PtrName(a, 128 - 4 * j)
  {
    assert Upper(a, 0) == a;
    NibbleLabelsDrop(a, 32, j);
    assert (128 - 4 * j) / 4 == 32 - j;
  }

  lemma LowercaseListsAgree(a: seq<string>, b: seq<string>, tail: seq<string>)
    requires |a| == |b| && LowerAll(a) == a && LowerAll(b) == b
    ensures SameName(a + tail, b + tail) <==> a == b
  {
    SameNameLabels(a + tail, b + tail);
    if SameName(a + tail, b + tail) {
      forall i | 0 <= i < |a| ensures a[i] == b[i] {
        assert Lower((a + tail)[i]) == Lower((b + tail)[i]);
        assert LowerAll(a)[i] == Lower(a[i]) && LowerAll(b)[i] == Lower(b[i]);
      }
    }
  }

  // ---- host digits ----

  /** Lowercase hex without padding. */
  function HexLower(v: nat): (s: string)
    ensures |s| >= 1
  {
    if v < 16 then [HexDigit(v)] else HexLower(v / 16) + [HexDigit(v % 16)]
  }

  function Zeros(n: nat): (s: string)
    ensures |s| == n
  {
    if n == 0 then "" else "0" + Zeros(n - 1)
  }

  /** `padStart` and `{:0>width}`: zeros on the left, up to `width`. */
  function Padded(s: string, width: nat): string {
    if |s| >= width then s else Zeros(width - |s|) + s
  }

  /** Hex padded on the left with zeros to at least `width` digits. */
  function HexPadded(v: nat, width: nat): string {
    Padded(HexLower(v), width)
  }

  /** `host_digits`. */
  function HostDigits(addr: u128, hostNibbles: nat): Option<string> {
    if hostNibbles > ADDR_NIBBLES then None
    else if hostNibbles == 0 then Some("")
    else Some(HexPadded(And(addr, Not(MaskBits(128 - hostNibbles * 4))), hostNibbles))
  }

  /** Exactly `n` digits: the low `n` nibbles of `a`, most significant first. */
  function FixedHex(a: nat, n: nat): (s: string)
    ensures |s| == n
  {
    if n == 0 then "" else FixedHex(a / 16, n - 1) + [HexDigit(a % 16)]
  }

  lemma {:induction false} ZerosAppend(n: nat)
    ensures Zeros(n) + "0" == Zeros(n + 1)
  {
    if n > 0 {
      ZerosAppend(n - 1);
      assert Zeros(n) + "0" == "0" + (Zeros(n - 1) + "0");
    }
  }

  lemma {:induction false} FixedHexZero(n: nat)
    ensures FixedHex(0, n) == Zeros(n)
  {
    if n > 0 {
      FixedHexZero(n - 1);
      ZerosAppend(n - 1);
    }
  }

  lemma PadOne(s: string, d: string, width: nat)
    requires |s| <= width && |d| == 1
    ensures Padded(s, width) + d == Padded(s + d, width + 1)
  {
    assert |s| < width ==> Zeros(width - |s|) + s + d == Zeros(width - |s|) + (s + d);
  }

  lemma PaddedDigit(v: nibble, width: nat)
    requires width >= 1
    ensures Padded([HexDigit(v)], width) == FixedHex(v, width)
  {
    FixedHexZero(width - 1);
    assert v / 16 == 0 && v % 16 == v;
    assert Zeros(0) + [HexDigit(v)] == [HexDigit(v)];
  }

  /** Padding to a width the value fits in gives exactly that many digits. */
  lemma {:induction false} PaddedIsFixed(v: nat, width: nat)
    requires width >= 1 && v < Pow16(width)
    ensures |HexLower(v)| <= width
    ensures HexPadded(v, width) == FixedHex(v, width)
  {
    if v < 16 {
      PaddedDigit(v, width);
    } else {
      assert Pow16(1) == 16 * Pow16(0);
      PaddedIsFixed(v / 16, width - 1);
      PadOne(HexLower(v / 16), [HexDigit(v % 16)], width - 1);
    }
  }

  lemma {:induction false} FixedHexLow(a: nat, n: nat)
    ensures FixedHex(Low(a, n), n) == FixedHex(a, n)
  {
    if n > 0 {
      FixedHexLow(a / 16, n - 1);
      assert Low(a, n) / 16 == Low(a / 16, n - 1) && Low(a, n) % 16 == a % 16;
    }
  }

  lemma {:induction false} FixedHexIsLower(h: nat, n: nat)
    ensures Lower(FixedHex(h, n)) == FixedHex(h, n)
  {
    if n > 0 {
      FixedHexIsLower(h / 16, n - 1);
      HexValExact(HexDigit(h % 16), h % 16);
    }
  }

  lemma LowDigits(addr: nat, n: nat)
    requires n > 0
    ensures HexPadded(Low(addr, n), n) == FixedHex(addr, n)
  {
    LowBound(addr, n);
    PaddedIsFixed(Low(addr, n), n);
    FixedHexLow(addr, n);
  }

  lemma HostPart(addr: u128, n: nat)
    requires n <= ADDR_NIBBLES
    ensures And(addr, Not(MaskBits(128 - n * 4))) == Low(addr, n)
  {
    MaskIsClear(addr, n);
  }

  /** The host digits are the low nibbles, zero-padded to exactly the advertised width. */
  lemma HostDigitsExact(addr: u128, n: nat)
    requires n <= ADDR_NIBBLES
    ensures HostDigits(addr, n) == Some(FixedHex(addr, n))
  {
    if n > 0 {
      HostPart(addr, n);
      LowDigits(addr, n);
    }
  }

  /** Fixed-width digits are those of the upper part, then those of the lower. */
  lemma {:induction false} FixedHexSplit(v: nat, m: nat, n: nat)
    ensures FixedHex(v, m + n) == FixedHex(Upper(v, n), m) + FixedHex(v, n)
  {
    if n > 0 {
      FixedHexSplit(v / 16, m, n - 1);
      assert FixedHex(v, m + n) == FixedHex(v / 16, m + n - 1) + [HexDigit(v % 16)];
      var a, b, d := FixedHex(Upper(v, n), m), FixedHex(v / 16, n - 1), [HexDigit(v % 16)];
      assert a + b + d == a + (b + d);
    } else {
      assert FixedHex(Upper(v, 0), m) + "" == FixedHex(v, m);
    }
  }

  /** Digits and what lies above them determine a number. */
  lemma {:induction false} FixedHexInjective(x: nat, y: nat, k: nat)
    requires FixedHex(x, k) == FixedHex(y, k) && Upper(x, k) == Upper(y, k)
    ensures x == y
  {
    if k > 0 {
      var s, t := FixedHex(x, k), FixedHex(y, k);
      assert s[..k - 1] == FixedHex(x / 16, k - 1) && t[..k - 1] == FixedHex(y / 16, k - 1);
      assert s[k - 1] == HexDigit(x % 16) && t[k - 1] == HexDigit(y % 16);
      HexValExact(s[k - 1], x % 16);
      HexValExact(s[k - 1], y % 16);
      FixedHexInjective(x / 16, y / 16, k - 1);
    }
  }

  // ---- reading host digits back ----

  predicate AllHex(s: string) {
    forall i :: 0 <= i < |s| ==> HexVal(s[i]).Some?
  }

  function DigitsValue(s: string): nat
    requires AllHex(s)
  {
    if s == "" then 0 else 16 * DigitsValue(s[..|s| - 1]) + HexVal(s[|s| - 1]).value
  }

  /**
    The host part denoted by exactly `hostNibbles` hex digits. An address has room for 32; of a
    longer run the register would keep the last 32.
   */
  function HostOf(digits: string, hostNibbles: nat): Option<nat> {
    if |digits| == hostNibbles && AllHex(digits) then Some(Low(DigitsValue(digits), ADDR_NIBBLES)) else None
  }

  lemma {:induction false} LowOfLow(x: nat, k: nat, n: nat)
    requires k <= n
    ensures Low(Low(x, n), k) == Low(x, k)
  {
    if k > 0 {
      LowOfLow(x / 16, k - 1, n - 1);
      assert Low(x, n) / 16 == Low(x / 16, n - 1) && Low(x, n) % 16 == x % 16;
    }
  }

  /** `digits_to_host`. */
  method DigitsToHost(digits: string, hostNibbles: nat) returns (r: Option<nat>)
    ensures r == HostOf(digits, hostNibbles)
  {
    if |digits| != hostNibbles {
      return None;
    }
    var host: nat := 0;
    var i := 0;
    assert Low(0, 32) == 0 by {
      LowIdentity(0, 32);
    }
    while i < |digits|
      invariant 0 <= i <= |digits|
      invariant AllHex(digits[..i]) && host == Low(DigitsValue(digits[..i]), ADDR_NIBBLES)
    {
      match HexVal(digits[i]) {
        case None =>
          return None;
        case Some(value) =>
          HostStep(digits, i, host);
          host := Or(Shl(host, 4), value);
      }
      i := i + 1;
    }
    assert digits[..i] == digits;
    return Some(host);
  }

  lemma HostStep(digits: string, i: nat, host: nat)
    requires i < |digits| && HexVal(digits[i]).Some?
    requires AllHex(digits[..i]) && host == Low(DigitsValue(digits[..i]), ADDR_NIBBLES)
    ensures AllHex(digits[..i + 1])
    ensures Or(Shl(host, 4), HexVal(digits[i]).value) == Low(DigitsValue(digits[..i + 1]), ADDR_NIBBLES)
  {
    var front, next := digits[..i], digits[..i + 1];
    var x, v := DigitsValue(front), HexVal(digits[i]).value;
    assert next[..i] == front;
    assert forall k :: 0 <= k < |next| ==> k == i || next[k] == front[k];
    ShlOrNibble(host, v);
    LowOfLow(x, 31, 32);
    LowShift(x, v);
    assert DigitsValue(next) == 16 * x + v;
  }

  lemma LowShift(x: nat, v: nat)
    requires v < 16
    ensures Low(16 * x + v, ADDR_NIBBLES) == 16 * Low(x, 31) + v
  {
    assert (16 * x + v) / 16 == x && (16 * x + v) % 16 == v;
  }

  lemma {:induction false} DigitsValueUnique(s: string, a: nat)
    requires a < Pow16(|s|)
    ensures AllHex(s) && DigitsValue(s) == a <==> Lower(s) == FixedHex(a, |s|)
  {
    if s != "" {
      var n := |s| - 1;
      var front, last := s[..n], s[n];
      DigitsValueUnique(front, a / 16);
      HexValExact(last, a % 16);
      assert Lower(s) == Lower(front) + [LowerChar(last)];
      var f := FixedHex(a, |s|);
      assert f[..n] == FixedHex(a / 16, n) && f[n] == HexDigit(a % 16);
      if AllHex(s) && DigitsValue(s) == a {
        assert AllHex(front);
        assert DigitsValue(front) == a / 16 && HexVal(last).value == a % 16;
      }
      if Lower(s) == f {
        assert Lower(s)[..n] == f[..n] && Lower(s)[n] == f[n];
        assert AllHex(front) && DigitsValue(front) == a / 16;
        assert HexVal(last) == Some(a % 16);
        assert forall i :: 0 <= i < |s| ==> i == n || s[i] == front[i];
      }
    }
  }

  lemma {:induction false} DigitsValueBound(s: string)
    requires AllHex(s)
    ensures DigitsValue(s) < Pow16(|s|)
  {
    if s != "" {
      DigitsValueBound(s[..|s| - 1]);
    }
  }

  /** Reading digits is the case-insensitive inverse of printing them. */
  lemma HostOfExact(digits: string, n: nat, h: nat)
    requires n <= ADDR_NIBBLES
    ensures HostOf(digits, n) == Some(h) <==> h < Pow16(n) && Lower(digits) == FixedHex(h, n)
  {
    Pow16Monotone(n, ADDR_NIBBLES);
    if |digits| == n {
      if AllHex(digits) {
        DigitsValueBound(digits);
        LowIdentity(DigitsValue(digits), ADDR_NIBBLES);
        DigitsValueUnique(digits, DigitsValue(digits));
      }
      if h < Pow16(n) {
        DigitsValueUnique(digits, h);
      }
    }
  }

  // ---- dashed grouping ----

  /** Groups of four, dash-separated; the last group may be shorter. */
  function Dashed(digits: string): string {
    if |digits| <= 4 then digits else digits[..4] + "-" + Dashed(digits[4..])
  }

  /** What the loop of `dash_group` still has to append to `out` before `rest` is used up. */
  ghost function Pending(out: string, first: bool, rest: string): string {
    if rest == "" then out else out + (if first then "" else "-") + Dashed(rest)
  }

  function Chunk(rest: string): string {
    if |rest| < 4 then rest else rest[..4]
  }

  lemma PendingStep(out: string, first: bool, rest: string)
    requires rest != ""
    ensures Pending(out, first, rest) == Pending(out + (if first then "" else "-") + Chunk(rest), false, rest[|Chunk(rest)|..])
  {
    var joined := out + (if first then "" else "-");
    if |rest| > 4 {
      assert joined + (rest[..4] + "-" + Dashed(rest[4..])) == joined + rest[..4] + "-" + Dashed(rest[4..]);
    }
  }

  /** `dash_group`. */
  method DashGroup(digits: string) returns (out: string)
    ensures out == Dashed(digits)
  {
    out := "";
    var i := 0;
    assert "" + "" + Dashed(digits) == Dashed(digits);
    while 4 * i < |digits|
      invariant 0 <= 4 * i < |digits| + 4
      invariant Pending(out, i == 0, if 4 * i < |digits| then digits[4 * i..] else "") == Dashed(digits)
    {
      var rest := digits[4 * i..];
      PendingStep(out, i == 0, rest);
      assert |rest| > 4 ==> rest[4..] == digits[4 * (i + 1)..];
      if i > 0 {
        out := out + "-";
      }
      out := out + Chunk(rest);
      i := i + 1;
    }
  }

  /** Strip exactly `groups` groups of four with a dash between neighbours. */
  function Ungroup(input: string, groups: nat): Option<string>
    requires groups > 0
  {
    if |input| < 4 then None
    else if groups == 1 then (if |input| == 4 then Some(input) else None)
    else if |input| == 4 || input[4] != '-' then None
    else
      Prepend(input[..4], Ungroup(input[5..], groups - 1))
  }

  function Prepend(front: string, rest: Option<string>): Option<string> {
    match rest
    case None => None
    case Some(tail) => Some(front + tail)
  }

  function Undashed(input: string, hostNibbles: nat): Option<string> {
    if hostNibbles < 4 then None else Ungroup(input, hostNibbles / 4)
  }

  /** `undash_group`. */
  method UndashGroup(input: string, hostNibbles: nat) returns (r: Option<string>)
    ensures r == Undashed(input, hostNibbles)
  {
    var groups := hostNibbles / 4;
    if groups == 0 {
      return None;
    }
    var rest := input;
    var out := "";
    PrependNothing(Ungroup(input, groups));
    var g := 0;
    while g < groups
      invariant 0 <= g <= groups
      invariant g < groups ==> Undashed(input, hostNibbles) == Prepend(out, Ungroup(rest, groups - g))
      invariant g == groups ==> Undashed(input, hostNibbles) == if rest == "" then Some(out) else None
    {
      if |rest| < 4 {
        return None;
      }
      ghost var whole := rest;
      var chunk := rest[..4];
      ghost var prior := out;
      out := out + chunk;
      rest := rest[4..];
      if g + 1 < groups {
        if |rest| < 1 {
          return None;
        }
        if rest[..1] != "-" {
          return None;
        }
        rest := rest[1..];
        assert rest == whole[5..];
        PrependTwice(prior, chunk, Ungroup(rest, groups - g - 1));
      } else {
        assert rest == "" ==> whole == chunk;
      }
      g := g + 1;
    }
    return if rest == "" then Some(out) else None;
  }

  lemma PrependNothing(rest: Option<string>)
    ensures Prepend("", rest) == rest
  {
    if rest.Some? {
      assert "" + rest.value == rest.value;
    }
  }

  lemma PrependTwice(a: string, b: string, rest: Option<string>)
    ensures Prepend(a, Prepend(b, rest)) == Prepend(a + b, rest)
  {
    if rest.Some? {
      assert a + (b + rest.value) == a + b + rest.value;
    }
  }

  /** Ungrouping is the exact inverse of grouping: no dash missing, misplaced or extra. */
  lemma {:induction false} UngroupExact(input: string, groups: nat, d: string)
    requires groups > 0
    ensures Ungroup(input, groups) == Some(d) <==> |d| == 4 * groups && input == Dashed(d)
  {
    if groups == 1 {
    } else if |input| > 4 && |d| >= 4 {
      UngroupExact(input[5..], groups - 1, d[4..]);
      assert d == d[..4] + d[4..];
      if Ungroup(input, groups) == Some(d) {
        var rest := Ungroup(input[5..], groups - 1).value;
        assert d[4..] == rest;
        UngroupExact(input[5..], groups - 1, rest);
        assert input == input[..4] + "-" + input[5..];
      }
      if |d| == 4 * groups && input == Dashed(d) {
        assert input[..4] == d[..4] && input[4] == '-' && input[5..] == Dashed(d[4..]);
      }
    } else if Ungroup(input, groups).Some? {
      UngroupExact(input[5..], groups - 1, Ungroup(input[5..], groups - 1).value);
    } else if |d| == 4 * groups {
      assert |Dashed(d)| >= 5;
    }
  }

  /** The grouped width depends on the digit count only. */
  lemma {:induction false} DashedLength(a: string, b: string)
    requires |a| == |b|
    ensures |Dashed(a)| == |Dashed(b)|
  {
    if |a| > 4 {
      DashedLength(a[4..], b[4..]);
    }
  }

  lemma {:induction false} DashedLower(d: string)
    ensures Lower(Dashed(d)) == Dashed(Lower(d))
  {
    if |d| > 4 {
      DashedLower(d[4..]);
      LowerConcat(d[..4] + "-", Dashed(d[4..]));
      LowerConcat(d[..4], "-");
      assert Lower(d)[..4] == Lower(d[..4]) && Lower(d)[4..] == Lower(d[4..]);
      assert Lower("-") == "-";
    }
  }
}
