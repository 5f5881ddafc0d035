/**
  The browser's address-to-name mapper (site/mapper.js, `update`), a second implementation of the
  mapping, and its agreement with the server. Output is plain text: highlighting and HTML
  escaping are left aside.
 */
module Mapper {
  import opened Wrappers
  import opened Bits
  import opened Ascii
  import opened Names
  import opened Nibble
  import opened Text
  import opened ConfigModel
  import opened TemplateText
  import opened Lookup
  import opened Synth
  import opened Ipv6Text
  import Pitfalls

  const DIGITS: string := "%DIGITS%"
  const DIGITS_DASHED: string := "%DIGITS-DASHED%"

  // ---- the arithmetic of `update` ----

  /** `((1n << 128n) - 1n) ^ ((1n << BigInt(128 - plen)) - 1n)`, or zero for no prefix at all. */
  function BrowserMask(plen: nat): nat
    requires plen <= 128
  {
    if plen == 0 then 0 else Xor(Ones(128), Ones(128 - plen))
  }

  /** `(1n << k) - 1n`. */
  function Ones(k: nat): nat {
    DoubledOne(k);
    Doubled(1, k) - 1
  }

  lemma {:induction false} DoubledOne(k: nat)
    ensures Doubled(1, k) == Pow2(k)
  {
    if k > 0 {
      DoubledOne(k - 1);
    }
  }

  /** `h.split("").reverse()`. */
  function ReversedChars(h: string): seq<string> {
    if h == "" then [] else [[h[|h| - 1]]] + ReversedChars(h[..|h| - 1])
  }

  function BrowserPtr(addr: nat): string {
    Join(ReversedChars(HexPadded(addr, 32)), '.') + ".ip6.arpa."
  }

  /** `match(/.{1,4}/g)`. */
  function Fours(digits: string): seq<string> {
    if |digits| == 0 then []
    else if |digits| <= 4 then [digits]
    else [digits[..4]] + Fours(digits[4..])
  }

  /** `replace` with a string pattern: the first occurrence only. */
  function ReplaceFirst(text: string, p: string, t: string): string {
    match Find(text, p)
    case None => text
    case Some(i) => text[..i] + t + text[i + |p|..]
  }

  /** The name the page shows, for the host digits of the address. */
  function BrowserName(text: string, digits: string): string {
    (if Find(text, DIGITS_DASHED).Some? then ReplaceFirst(text, DIGITS_DASHED, Join(Fours(digits), '-'))
     else ReplaceFirst(text, DIGITS, digits)) + "."
  }

  // ---- the network field ----

  predicate IsDecimal(s: string) {
    forall i :: 0 <= i < |s| ==> '0' <= s[i] <= '9'
  }

  function DecimalValue(s: string): nat
    requires IsDecimal(s)
  {
    if s == "" then 0 else 10 * DecimalValue(s[..|s| - 1]) + (s[|s| - 1] as int - '0' as int)
  }

  /** `/^\s*([0-9a-fA-F:]+)\/(\d{1,3})\s*$/`, then `parse6` and `parseInt` of its groups. */
  function NetworkField(text: string): Option<(nat, nat)> {
    var s := TrimBack(TrimFront(text));
    var slash := SepAt(s, '/');
    if slash == |s| then None else NetworkOf(s[..slash], s[slash + 1..])
  }

  function NetworkOf(left: string, right: string): Option<(nat, nat)> {
    if IsAddressText(Lower(left)) && 1 <= |right| <= 3 && IsDecimal(right) && Parsed(left).Some?
    then Some((Parsed(left).value, DecimalValue(right)))
    else None
  }

  /** The digits and colons of an address, in either case. */
  predicate IsNetworkText(s: string) {
    s != "" && forall i :: 0 <= i < |s| ==>
      '0' <= s[i] <= '9' || 'a' <= s[i] <= 'f' || 'A' <= s[i] <= 'F' || s[i] == ':'
  }

  function Digit(c: char): int {
    c as int - '0' as int
  }

  /** One to three decimal digits and their number. */
  predicate SaysLength(s: string, plen: nat) {
    && IsDecimal(s)
    && ((|s| == 1 && plen == Digit(s[0]))
      || (|s| == 2 && plen == 10 * Digit(s[0]) + Digit(s[1]))
      || (|s| == 3 && plen == 100 * Digit(s[0]) + 10 * Digit(s[1]) + Digit(s[2])))
  }

  /** An address and a length with a slash between them, and white space around. */
  ghost predicate SaysNetwork(text: string, net: nat, plen: nat, left: string, right: string) {
    && Holds(text, left + "/" + right)
    && IsNetworkText(left) && SaysLength(right, plen)
    && Parsed(left) == Some(net)
  }

  lemma NetworkTextFolds(left: string)
    ensures IsAddressText(Lower(left)) <==> IsNetworkText(left)
  {
    forall i | 0 <= i < |left|
      ensures (IsLowerHex(LowerChar(left[i])) || LowerChar(left[i]) == ':')
         <==> ('0' <= left[i] <= '9' || 'a' <= left[i] <= 'f' || 'A' <= left[i] <= 'F' || left[i] == ':')
    {
    }
    forall i | 0 <= i < |left| ensures Lower(left)[i] == LowerChar(left[i]) {
    }
  }

  lemma DecimalStep(s: string)
    requires IsDecimal(s) && s != ""
    ensures IsDecimal(s[..|s| - 1]) && DecimalValue(s) == 10 * DecimalValue(s[..|s| - 1]) + Digit(s[|s| - 1])
  {
  }

  lemma DecimalExact(s: string, plen: nat)
    requires IsDecimal(s)
    ensures 1 <= |s| <= 3 && DecimalValue(s) == plen <==> SaysLength(s, plen)
  {
    if 1 <= |s| <= 3 {
      DecimalStep(s);
      if |s| == 1 {
        assert s[..0] == "";
      } else {
        DecimalStep(s[..|s| - 1]);
        if |s| == 2 {
          assert s[..1][..0] == "";
        } else {
          DecimalStep(s[..2][..1]);
          assert s[..2][..1][..0] == "";
        }
      }
    }
  }

  lemma NetworkOfExact(left: string, right: string, net: nat, plen: nat)
    ensures NetworkOf(left, right) == Some((net, plen))
       <==> IsNetworkText(left) && SaysLength(right, plen) && Parsed(left) == Some(net)
  {
    NetworkTextFolds(left);
    if IsDecimal(right) {
      DecimalExact(right, plen);
    }
  }

  lemma AtSlash(s: string, left: string, right: string)
    requires Without(left, '/')
    ensures SepAt(s, '/') < |s| && s[..SepAt(s, '/')] == left && s[SepAt(s, '/') + 1..] == right <==> s == left + "/" + right
  {
    if SepAt(s, '/') < |s| {
      CutApart(s, SepAt(s, '/'), '/');
    }
    SepAtConcat(left, '/', right);
    assert (left + "/" + right)[..|left|] == left && (left + "/" + right)[|left| + 1..] == right;
  }

  lemma CutApart(s: string, k: nat, c: char)
    requires k < |s| && s[k] == c
    ensures s == s[..k] + [c] + s[k + 1..]
  {
  }

  /** The network field denotes a network exactly when it spells an address and a length. */
  lemma NetworkFieldExact(text: string, net: nat, plen: nat)
    ensures NetworkField(text) == Some((net, plen)) <==> exists left, right :: SaysNetwork(text, net, plen, left, right)
  {
    var s := TrimBack(TrimFront(text));
    var slash := SepAt(s, '/');
    if NetworkField(text) == Some((net, plen)) {
      var left, right := s[..slash], s[slash + 1..];
      NetworkOfExact(left, right, net, plen);
      AtSlash(s, left, right);
      TrimExact(text, left + "/" + right);
      assert SaysNetwork(text, net, plen, left, right);
    }
    if left, right :| SaysNetwork(text, net, plen, left, right) {
      TrimExact(text, left + "/" + right);
      AtSlash(s, left, right);
      NetworkOfExact(left, right, net, plen);
    }
  }

  datatype Shown =
    | InvalidAddress
    | InvalidPrefix(ptr: string)
    | Outside(ptr: string)
    | NotGrouped(ptr: string)
    | Mapped(ptr: string, name: string)

  /** What the page shows for an address, a network and a template. */
  function Mapping(addr: nat, net: nat, plen: nat, text: string): Shown {
    var ptr := BrowserPtr(addr);
    if plen > 124 || plen % 4 != 0 then InvalidPrefix(ptr)
    else if And(addr, BrowserMask(plen)) != And(net, BrowserMask(plen)) then Outside(ptr)
    else if Find(text, DIGITS_DASHED).Some? && plen % 16 != 0 then NotGrouped(ptr)
    else
      var h, start := HexPadded(addr, 32), 32 - (128 - plen) / 4;
      Mapped(ptr, BrowserName(text, if start <= |h| then h[start..] else ""))
  }

  lemma LeadingDigits(a: u128, k: nat)
    requires k <= 32
    ensures |HexPadded(a, 32)| == 32 && HexPadded(a, 32)[..k] == FixedHex(Upper(a, 32 - k), k)
  {
    U128IsPow16();
    PaddedIsFixed(a, 32);
    FixedHexSplit(a, k, 32 - k);
  }

  lemma SameUpper(a: u128, net: u128, plen: nat, j: nat)
    requires j <= 32 && plen == 128 - 4 * j
    ensures And(a, BrowserMask(plen)) == And(net, BrowserMask(plen)) <==> Upper(a, j) == Upper(net, j)
  {
    MasksAgree(plen);
    MaskIsClear(a, j);
    MaskIsClear(net, j);
    UpperDecidesClear(a, net, j);
  }

  lemma SameNetwork(a: u128, net: u128, plen: nat, k: nat)
    requires k < 32 && plen == 4 * k
    ensures |HexPadded(a, 32)| == |HexPadded(net, 32)| == 32
    ensures And(a, BrowserMask(plen)) == And(net, BrowserMask(plen)) <==> HexPadded(a, 32)[..k] == HexPadded(net, 32)[..k]
  {
    var j := 32 - k;
    SameUpper(a, net, plen, j);
    LeadingDigits(a, k);
    LeadingDigits(net, k);
    UpperFits(a, j);
    UpperFits(net, j);
    SameDigits(Upper(a, j), Upper(net, j), k);
  }

  lemma SameDigits(x: nat, y: nat, k: nat)
    requires x < Pow16(k) && y < Pow16(k)
    ensures FixedHex(x, k) == FixedHex(y, k) <==> x == y
  {
    if FixedHex(x, k) == FixedHex(y, k) {
      UpperBound(x, k, k);
      UpperBound(y, k, k);
      FixedHexInjective(x, y, k);
    }
  }

  lemma Aligned(plen: nat, k: nat)
    requires k < 32 && plen == 4 * k
    ensures plen <= 124 && plen % 4 == 0 && 32 - (128 - plen) / 4 == k && (plen % 16 == 0 <==> k % 4 == 0)
  {
  }

  lemma AlignedRow(a: u128, net: u128, plen: nat, k: nat, text: string, h: string, mask: nat)
    requires k < 32 && plen == 4 * k && mask == BrowserMask(plen) && h == HexPadded(a, 32) && |h| == 32
    ensures Mapping(a, net, plen, text) ==
      if And(a, mask) != And(net, mask) then Outside(BrowserPtr(a))
      else if Find(text, DIGITS_DASHED).Some? && k % 4 != 0 then NotGrouped(BrowserPtr(a))
      else Mapped(BrowserPtr(a), BrowserName(text, h[k..]))
  {
    Aligned(plen, k);
  }

  /** The lengths the page takes are 0, 4, 8, .. 124. */
  lemma LengthExact(a: u128, net: u128, plen: nat, text: string)
    ensures Mapping(a, net, plen, text) == InvalidPrefix(BrowserPtr(a)) <==> forall k :: 0 <= k < 32 ==> plen != 4 * k
  {
    InvalidRow(a, net, plen, text);
    Fours32(plen);
  }

  lemma InvalidRow(a: u128, net: u128, plen: nat, text: string)
    ensures Mapping(a, net, plen, text) == InvalidPrefix(BrowserPtr(a)) <==> plen > 124 || plen % 4 != 0
  {
  }

  lemma Fours32(plen: nat)
    ensures plen > 124 || plen % 4 != 0 <==> forall k :: 0 <= k < 32 ==> plen != 4 * k
  {
    if plen <= 124 && plen % 4 == 0 {
      assert plen == 4 * (plen / 4);
    }
  }

  /**
    Which row the page shows for such a length: the address must share the network's leading hex
    digits, and a dashed placeholder needs whole groups. The name then holds the digits that remain.
   */
  lemma RowExact(a: u128, net: u128, plen: nat, k: nat, text: string)
    requires k < 32 && plen == 4 * k
    ensures var h, g := HexPadded(a, 32), HexPadded(net, 32);
      && |h| == |g| == 32
      && Mapping(a, net, plen, text) ==
        if h[..k] != g[..k] then Outside(BrowserPtr(a))
        else if !Never(text, "%DIGITS-DASHED%") && k % 4 != 0 then NotGrouped(BrowserPtr(a))
        else Mapped(BrowserPtr(a), BrowserName(text, h[k..]))
  {
    NeverExact(text, DIGITS_DASHED);
    SameNetwork(a, net, plen, k);
    AlignedRow(a, net, plen, k, text, HexPadded(a, 32), BrowserMask(plen));
  }

  /** `update`: the rows shown and, for a mapped address, its own text. */
  method Update(addrText: string, netText: string, text: string) returns (r: Shown, aaaa: Option<string>)
    ensures r == match (Parsed(addrText), NetworkField(netText))
      case (None, _) => InvalidAddress
      case (Some(addr), None) => InvalidPrefix(BrowserPtr(addr))
      case (Some(addr), Some((net, plen))) => Mapping(addr, net, plen, text)
    ensures aaaa.Some? <==> r.Mapped?
    ensures aaaa.Some? ==> Parsed(aaaa.value) == Parsed(addrText) && Parsed(addrText).value < U128_LIMIT
    ensures aaaa.Some? ==> Prints(Parsed(addrText).value, aaaa.value)
  {
    var addr := Parse6(addrText);
    if addr.None? {
      return InvalidAddress, None;
    }
    ParsedBound(addrText);
    var field := NetworkField(netText);
    if field.None? {
      return InvalidPrefix(BrowserPtr(addr.value)), None;
    }
    var (net, plen) := field.value;
    r, aaaa := Mapping(addr.value, net, plen, text), None;
    if r.Mapped? {
      var printed := Fmt6(addr.value);
      aaaa := Some(printed);
    }
  }

  // ---- the mask ----

  /** The browser's exclusive-or mask is the server's. */
  lemma MasksAgree(plen: nat)
    requires plen <= 128
    ensures BrowserMask(plen) == MaskBits(plen)
  {
    if plen > 0 {
      RegisterXor(128 - plen, 128);
      MaskIsHigh(128 - plen);
    }
  }

  lemma RegisterXor(k: nat, n: nat)
    requires k <= n && n == 128
    ensures Xor(Ones(n), Ones(k)) == U128_LIMIT - Pow2(k)
  {
    OnesXor(k, n);
    U128IsPow2();
  }

  lemma OnesXor(k: nat, n: nat)
    requires k <= n
    ensures Xor(Ones(n), Ones(k)) == Pow2(n) - Pow2(k)
  {
    DoubledOne(n);
    DoubledOne(k);
    XorOnes(k, n);
  }

  // ---- the reverse name ----

  /** The labels of a name joined by dots, with one more at the end; nothing is escaped. */
  function Display(name: Name): string {
    Join(name, '.') + "."
  }

  lemma {:induction false} ReversedIsNibbles(a: nat, k: nat)
    ensures ReversedChars(FixedHex(a, k)) == NibbleLabels(a, k)
  {
    if k > 0 {
      ReversedIsNibbles(a / 16, k - 1);
      var h := FixedHex(a, k);
      assert h[..k - 1] == FixedHex(a / 16, k - 1) && h[k - 1] == HexDigit(a % 16);
    }
  }

  lemma JoinTwo(x: string, y: string)
    ensures Join([x, y], '.') == x + "." + y
  {
    assert [x, y][1..] == [y];
  }

  lemma {:induction false} JoinTwoMore(front: seq<string>, x: string, y: string)
    requires front != []
    ensures Join(front + [x, y], '.') == Join(front, '.') + "." + x + "." + y
  {
    var all := front + [x, y];
    var rest := front[1..];
    assert all[1..] == rest + [x, y];
    if |front| == 1 {
      assert rest + [x, y] == [x, y];
      JoinTwo(x, y);
      assert front[0] + "." + (x + "." + y) == front[0] + "." + x + "." + y;
    } else {
      JoinTwoMore(rest, x, y);
      var j := Join(rest, '.');
      assert front[0] + "." + (j + "." + x + "." + y) == front[0] + "." + j + "." + x + "." + y;
    }
  }

  lemma PtrLabels(addr: u128, h: string, n: nat)
    requires n == 32 && h == HexPadded(addr, n)
    ensures h == FixedHex(addr, n) && ReversedChars(h) == NibbleLabels(addr, n)
  {
    U128IsPow16();
    PaddedIsFixed(addr, n);
    ReversedIsNibbles(addr, n);
  }

  lemma FullPtrName(addr: u128, labels: seq<string>, n: nat)
    requires n == 32 && labels == NibbleLabels(addr, n)
    ensures PtrName(addr, 4 * n) == labels + ["ip6", "arpa"]
  {
    assert Upper(addr, 0) == addr;
  }

  /** Both implementations print one reverse name. */
  lemma PtrNamesAgree(addr: u128)
    ensures BrowserPtr(addr) == Display(PtrName(addr, 128))
  {
    var h := HexPadded(addr, 32);
    PtrLabels(addr, h, 32);
    FullPtrName(addr, ReversedChars(h), 32);
    ArpaText(ReversedChars(h));
  }

  lemma ArpaText(labels: seq<string>)
    requires labels != []
    ensures Display(labels + ["ip6", "arpa"]) == Join(labels, '.') + ".ip6.arpa."
  {
    JoinTwoMore(labels, "ip6", "arpa");
    var j := Join(labels, '.');
    assert j + "." + "ip6" + "." + "arpa" + "." == j + ".ip6.arpa.";
  }

  // ---- the digits ----

  lemma {:induction false} FixedHexTail(a: nat, m: nat, n: nat)
    requires n <= m
    ensures FixedHex(a, m)[m - n..] == FixedHex(a, n)
  {
    if n > 0 {
      FixedHexTail(a / 16, m - 1, n - 1);
      var front := FixedHex(a / 16, m - 1);
      assert FixedHex(a, m) == front + [HexDigit(a % 16)];
      assert (front + [HexDigit(a % 16)])[m - n..] == front[m - n..] + [HexDigit(a % 16)];
    }
  }

  /** The slice the browser cuts is the server's host part. */
  lemma DigitsAgree(addr: u128, n: nat)
    requires n <= 32
    ensures |HexPadded(addr, 32)| == 32 && HexPadded(addr, 32)[32 - n..] == FixedHex(addr, n)
  {
    PtrLabels(addr, HexPadded(addr, 32), 32);
    FixedHexTail(addr, 32, n);
  }

  lemma {:induction false} FoursAreGroups(digits: string)
    ensures Join(Fours(digits), '-') == Dashed(digits)
  {
    if |digits| > 4 {
      FoursAreGroups(digits[4..]);
      assert Fours(digits)[1..] == Fours(digits[4..]);
    }
  }

  // ---- the placeholder ----

  /** The operator spelled the placeholder in capitals, the only spelling the page looks for. */
  predicate Capital(text: string)
    requires TotalHits(text) == 1
  {
    SpelledPlaceholder(text) == DIGITS || SpelledPlaceholder(text) == DIGITS_DASHED
  }

  lemma Capitals()
    ensures Lower(DIGITS) == PLACEHOLDER && Lower(DIGITS_DASHED) == PLACEHOLDER_DASHED
    ensures Without(DIGITS, '.') && Without(DIGITS_DASHED, '.')
  {
  }

  lemma OccursFolded(s: string, p: string, x: nat)
    requires OccursAt(s, p, x)
    ensures OccursAt(Lower(s), Lower(p), x)
  {
    LowerSlice(s, x, x + |p|);
  }

  /** Where the digits label's placeholder begins in the text, and what is around it. */
  function Place(text: string): nat
    requires TotalHits(text) == 1
  {
    OneHitWellFormed(text);
    var t := TemplateOf(text);
    Offset(Segments(text), '.', t.digitsAt) + |t.labels[t.digitsAt].pre|
  }

  function Ahead(text: string): string
    requires TotalHits(text) == 1
  {
    OneHitWellFormed(text);
    var t := TemplateOf(text);
    Before(Segments(text)[..t.digitsAt], '.') + t.labels[t.digitsAt].pre
  }

  function Rest(text: string): string
    requires TotalHits(text) == 1
  {
    OneHitWellFormed(text);
    var t := TemplateOf(text);
    t.labels[t.digitsAt].post + Behind(Segments(text)[t.digitsAt + 1..], '.')
  }

  function Dot(text: string): string {
    if Pitfalls.EndsInDot(text) then "." else ""
  }

  /** A text is what comes before its placeholder, the placeholder, and what comes after. */
  lemma TextAroundPlaceholder(text: string)
    requires TotalHits(text) == 1
    ensures text == Ahead(text) + SpelledPlaceholder(text) + (Rest(text) + Dot(text))
    ensures |Ahead(text)| == Place(text)
  {
    OneHitWellFormed(text);
    SegmentsAround(text, TemplateOf(text).digitsAt);
    DotBack(text, Ahead(text), SpelledPlaceholder(text), Rest(text));
  }

  lemma DotBack(text: string, a: string, p: string, b: string)
    requires StripDot(text) == a + p + b
    ensures text == a + p + (b + Dot(text))
  {
    assert text == StripDot(text) + Dot(text);
    assert a + p + b + Dot(text) == a + p + (b + Dot(text));
  }

  lemma AroundSegment(s: string, segs: seq<string>, at: nat)
    requires segs == Split(s, '.') && at < |segs|
    ensures s == Before(segs[..at], '.') + segs[at] + Behind(segs[at + 1..], '.')
  {
    JoinSplit(s, '.');
    assert segs[at := segs[at]] == segs;
    JoinReplaced(segs, '.', at, segs[at]);
  }

  lemma SegmentsAround(text: string, at: nat)
    requires TotalHits(text) == 1 && at == TemplateOf(text).digitsAt < |Segments(text)|
    requires LabelOf(Segments(text)[at]).Digits?
    ensures StripDot(text) == Ahead(text) + SpelledPlaceholder(text) + Rest(text)
  {
    var l := LabelOf(Segments(text)[at]);
    DigitsCut(text, at, l, Segments(text)[at]);
    AroundCut(StripDot(text), Segments(text), at, l.pre, SpelledPlaceholder(text), l.post);
  }

  lemma DigitsCut(text: string, at: nat, l: FwdLabel, seg: string)
    requires TotalHits(text) == 1 && at == TemplateOf(text).digitsAt < |Segments(text)|
    requires seg == Segments(text)[at] && l == LabelOf(seg) && l.Digits?
    ensures l.pre + SpelledPlaceholder(text) + l.post == seg
    ensures Ahead(text) == Before(Segments(text)[..at], '.') + l.pre
    ensures Rest(text) == l.post + Behind(Segments(text)[at + 1..], '.')
  {
    CutAndPasted(seg);
  }

  lemma AroundCut(s: string, segs: seq<string>, at: nat, pre: string, mid: string, post: string)
    requires segs == Split(s, '.') && at < |segs| && segs[at] == pre + mid + post
    ensures s == (Before(segs[..at], '.') + pre) + mid + (post + Behind(segs[at + 1..], '.'))
  {
    AroundSegment(s, segs, at);
    Reassociate(Before(segs[..at], '.'), pre, mid, post, Behind(segs[at + 1..], '.'));
  }

  lemma Reassociate(a: string, b: string, c: string, d: string, e: string)
    ensures a + (b + c + d) + e == (a + b) + c + (d + e)
  {
  }

  lemma DigitsPlace(text: string) returns (at: nat, l: FwdLabel)
    requires TotalHits(text) == 1
    ensures at == TemplateOf(text).digitsAt < |Segments(text)| && l == TemplateOf(text).labels[at] && l.Digits?
    ensures UsesDashes(TemplateOf(text)) <==> l.dashed
    ensures Ahead(text) == Before(Segments(text)[..at], '.') + l.pre
    ensures Rest(text) == l.post + Behind(Segments(text)[at + 1..], '.')
  {
    OneHitWellFormed(text);
    at := TemplateOf(text).digitsAt;
    l := TemplateOf(text).labels[at];
  }

  lemma PrintedLabel(text: string, digits: string, l: FwdLabel, at: nat)
    requires TotalHits(text) == 1 && at == TemplateOf(text).digitsAt < |Segments(text)|
    requires l == TemplateOf(text).labels[at] && l.Digits?
    ensures Join(RenderedLabels(TemplateOf(text).labels, digits), '.')
         == (Before(Segments(text)[..at], '.') + l.pre) + (if l.dashed then Dashed(digits) else digits)
            + (l.post + Behind(Segments(text)[at + 1..], '.'))
  {
    var shown := if l.dashed then Dashed(digits) else digits;
    RenderedIsReplaced(text, digits, at, l.pre + shown + l.post);
    ReplacedLabel(Segments(text), at, l.pre, shown, l.post);
  }

  lemma ReplacedLabel(segs: seq<string>, at: nat, pre: string, shown: string, post: string)
    requires at < |segs|
    ensures Join(segs[at := pre + shown + post], '.') == (Before(segs[..at], '.') + pre) + shown + (post + Behind(segs[at + 1..], '.'))
  {
    JoinReplaced(segs, '.', at, pre + shown + post);
    Reassociate(Before(segs[..at], '.'), pre, shown, post, Behind(segs[at + 1..], '.'));
  }

  lemma RenderedIsReplaced(text: string, digits: string, at: nat, rendered: string)
    requires TotalHits(text) == 1 && at == TemplateOf(text).digitsAt < |Segments(text)|
    requires rendered == RenderLabel(TemplateOf(text).labels[at], digits)
    ensures RenderedLabels(TemplateOf(text).labels, digits) == Segments(text)[at := rendered]
  {
    OneHitWellFormed(text);
    var t, segs := TemplateOf(text), Segments(text);
    forall i | 0 <= i < |segs| && i != at ensures RenderLabel(t.labels[i], digits) == segs[i] {
      assert t.labels[i].Literal?;
    }
  }

  /** Any capital placeholder in the text stands where the digits label was cut, or behind. */
  lemma NoEarlierPlaceholder(text: string, p: string, y: nat)
    requires TotalHits(text) == 1 && p in {DIGITS, DIGITS_DASHED} && OccursAt(text, p, y)
    ensures WellFormed(TemplateOf(text))
    ensures Lower(p) == PlaceholderOf(TemplateOf(text).labels[TemplateOf(text).digitsAt])
    ensures Place(text) <= y
  {
    OneHitWellFormed(text);
    Capitals();
    StripDotKeeps(text, p, y);
    var k, x := OccurrenceInSegment(StripDot(text), '.', p, y);
    var seg := Segments(text)[k];
    OccursFolded(seg, p, x);
    FindIsFirst(Lower(seg), Lower(p), x);
    SamePlaceholder(text, p, y);
    assert LabelOf(seg) == TemplateOf(text).labels[k];
    assert k == TemplateOf(text).digitsAt;
  }

  /** With one hit in all, plain and dashed placeholders do not both occur. */
  lemma SamePlaceholder(text: string, p: string, y: nat)
    requires TotalHits(text) == 1 && p in {DIGITS, DIGITS_DASHED} && OccursAt(text, p, y)
    ensures WellFormed(TemplateOf(text))
    ensures Lower(p) == PlaceholderOf(TemplateOf(text).labels[TemplateOf(text).digitsAt])
  {
    OneHitWellFormed(text);
    Capitals();
    var at := TemplateOf(text).digitsAt;
    var z := DigitsOccurrence(text, at);
    OccursFolded(text, p, y);
    OneHit(Lower(text), Lower(p), y);
    OneHit(Lower(text), PlaceholderOf(TemplateOf(text).labels[at]), z);
  }

  lemma InsertedOccurs(a: string, p: string, b: string)
    ensures OccursAt(a + p + b, p, |a|)
  {
    assert (a + p + b)[|a|..|a| + |p|] == p;
  }

  lemma ReplacedAround(a: string, p: string, b: string, t: string)
    requires p != "" && Find(a + p + b, p) == Some(|a|)
    ensures ReplaceFirst(a + p + b, p, t) == a + t + b
  {
    var s := a + p + b;
    assert s[..|a|] == a && s[|a| + |p|..] == b;
  }

  /** A placeholder in capitals is found where the server cut. */
  lemma FoundInPlace(text: string)
    requires TotalHits(text) == 1 && Capital(text)
    ensures Find(text, SpelledPlaceholder(text)) == Some(Place(text))
  {
    var p := SpelledPlaceholder(text);
    TextAroundPlaceholder(text);
    InsertedOccurs(Ahead(text), p, Rest(text) + Dot(text));
    FindIsFirst(text, p, Place(text));
    NoEarlierPlaceholder(text, p, Find(text, p).value);
  }

  /** For a capital placeholder the page takes the branch of the template's own style. */
  lemma BranchAgrees(text: string)
    requires TotalHits(text) == 1 && Capital(text)
    ensures WellFormed(TemplateOf(text))
    ensures SpelledPlaceholder(text) == if UsesDashes(TemplateOf(text)) then DIGITS_DASHED else DIGITS
    ensures Find(text, DIGITS_DASHED).Some? <==> UsesDashes(TemplateOf(text))
  {
    OneHitWellFormed(text);
    Rejoined(text);
    Capitals();
    FoundInPlace(text);
    if Find(text, DIGITS_DASHED).Some? {
      SamePlaceholder(text, DIGITS_DASHED, Find(text, DIGITS_DASHED).value);
    }
  }

  /** The digits as the template shows them. */
  function ShownDigits(text: string, digits: string): string {
    if UsesDashes(TemplateOf(text)) then Dashed(digits) else digits
  }

  lemma CapitalName(text: string, digits: string)
    requires TotalHits(text) == 1 && Capital(text)
    ensures BrowserName(text, digits) == Ahead(text) + ShownDigits(text, digits) + (Rest(text) + Dot(text)) + "."
  {
    BranchAgrees(text);
    FoundInPlace(text);
    TextAroundPlaceholder(text);
    FoursAreGroups(digits);
    ReplacedAround(Ahead(text), SpelledPlaceholder(text), Rest(text) + Dot(text), ShownDigits(text, digits));
  }

  /** The name the server prints is the text with the digits in place of the placeholder. */
  lemma ServerName(text: string, digits: string)
    requires TotalHits(text) == 1
    ensures Display(RenderedLabels(TemplateOf(text).labels, digits)) == Ahead(text) + ShownDigits(text, digits) + Rest(text) + "."
  {
    var at, l := DigitsPlace(text);
    PrintedLabel(text, digits, l, at);
  }

  /** A placeholder not in capitals is left standing: the page shows its percent sign. */
  lemma PlaceholderStays(text: string, digits: string)
    requires TotalHits(text) == 1 && !Capital(text)
    ensures var shown := BrowserName(text, digits); Place(text) < |shown| && shown[Place(text)] == '%'
  {
    PercentInPlace(text);
    if Find(text, DIGITS_DASHED).Some? {
      CapitalIsLater(text, DIGITS_DASHED, Find(text, DIGITS_DASHED).value);
    }
    if Find(text, DIGITS).Some? {
      CapitalIsLater(text, DIGITS, Find(text, DIGITS).value);
    }
  }

  lemma PercentInPlace(text: string)
    requires TotalHits(text) == 1
    ensures Place(text) < |text| && text[Place(text)] == '%'
  {
    TextAroundPlaceholder(text);
    Rejoined(text);
    var p := SpelledPlaceholder(text);
    assert |p| == |Lower(p)| && Lower(p)[0] == LowerChar(p[0]) == '%';
    assert text[Place(text)] == p[0];
  }

  lemma CapitalIsLater(text: string, p: string, y: nat)
    requires TotalHits(text) == 1 && !Capital(text) && p in {DIGITS, DIGITS_DASHED} && OccursAt(text, p, y)
    ensures Place(text) < y
  {
    NoEarlierPlaceholder(text, p, y);
    if y == Place(text) {
      TextAroundPlaceholder(text);
      Rejoined(text);
      var q := SpelledPlaceholder(text);
      assert |q| == |Lower(q)| == |Lower(p)| == |p|;
      InsertedOccurs(Ahead(text), q, Rest(text) + Dot(text));
    }
  }

  /**
    The page shows the server's forward name exactly when the placeholder is written in capitals
    and no dot ends the pattern.
   */
  lemma NamesAgreeExactly(text: string, digits: string)
    requires TotalHits(text) == 1 && digits != "" && AllHex(digits)
    ensures BrowserName(text, digits) == Display(RenderedLabels(TemplateOf(text).labels, digits))
       <==> Capital(text) && !Pitfalls.EndsInDot(text)
  {
    ServerName(text, digits);
    if Capital(text) {
      CapitalName(text, digits);
      DotMatters(Ahead(text), ShownDigits(text, digits), Rest(text), text);
    } else {
      PlaceholderDiffers(text, digits);
    }
  }

  lemma PlaceholderDiffers(text: string, digits: string)
    requires TotalHits(text) == 1 && digits != "" && AllHex(digits) && !Capital(text)
    ensures BrowserName(text, digits) != Ahead(text) + ShownDigits(text, digits) + Rest(text) + "."
  {
    PlaceholderStays(text, digits);
    TextAroundPlaceholder(text);
    ShownFirst(text, digits);
    CharBetween(Ahead(text), ShownDigits(text, digits), Rest(text));
  }

  lemma DotMatters(a: string, x: string, b: string, text: string)
    ensures a + x + (b + Dot(text)) + "." == a + x + b + "." <==> !Pitfalls.EndsInDot(text)
  {
    if Pitfalls.EndsInDot(text) {
      assert |a + x + (b + Dot(text)) + "."| != |a + x + b + "."|;
    } else {
      assert b + Dot(text) == b;
    }
  }

  lemma ShownFirst(text: string, digits: string)
    requires digits != ""
    ensures ShownDigits(text, digits) != "" && ShownDigits(text, digits)[0] == digits[0]
  {
  }

  lemma CharBetween(a: string, x: string, b: string)
    requires x != ""
    ensures |a| < |a + x + b| && (a + x + b)[|a|] == x[0]
  {
  }

  // ---- the two implementations ----

  /** What the server makes of the address, in the page's terms. */
  function Served(z: Zone, addr: u128): Shown {
    if InZone(z, addr) then Mapped(Display(PtrName(addr, 128)), Display(NameOf(z, addr)))
    else Outside(Display(PtrName(addr, 128)))
  }

  lemma SixteenBits(mask: nat)
    requires mask <= 128 && mask % 4 == 0 && (128 - mask) / 4 % 4 == 0
    ensures mask % 16 == 0
  {
  }

  lemma DashedFound(text: string)
    requires TotalHits(text) == 1 && Find(text, DIGITS_DASHED).Some?
    ensures UsesDashes(TemplateOf(text))
  {
    SamePlaceholder(text, DIGITS_DASHED, Find(text, DIGITS_DASHED).value);
    Capitals();
  }

  lemma DashedPrefixAligned(text: string, n: nat, mask: nat)
    requires TotalHits(text) == 1 && mask <= 128 && mask % 4 == 0 && n == (128 - mask) / 4
    requires UsesDashes(TemplateOf(text)) ==> n % 4 == 0
    ensures Find(text, DIGITS_DASHED).Some? ==> mask % 16 == 0
  {
    if Find(text, DIGITS_DASHED).Some? {
      DashedFound(text);
      SixteenBits(mask);
    }
  }

  lemma ZoneNumbers(z: Zone)
    requires ValidZone(z)
    ensures 0 < z.mask <= 124 && z.mask % 4 == 0 && z.hostNibbles == (128 - z.mask) / 4 <= 32
    ensures UsesDashes(z.fwd) ==> z.hostNibbles % 4 == 0
  {
  }

  lemma MappedRow(z: Zone, text: string, addr: u128, net: u128)
    requires ValidZone(z) && z.fwd == TemplateOf(text) && TotalHits(text) == 1
    requires And(net, MaskBits(z.mask)) == z.prefix
    ensures Mapping(addr, net, z.mask, text) ==
      if InZone(z, addr) then Mapped(Display(PtrName(addr, 128)), BrowserName(text, FixedHex(addr, z.hostNibbles)))
      else Outside(Display(PtrName(addr, 128)))
  {
    ZoneNumbers(z);
    DashedPrefixAligned(text, z.hostNibbles, z.mask);
    RowParts(text, z.mask, z.hostNibbles, addr, net);
  }

  lemma RowParts(text: string, plen: nat, n: nat, addr: u128, net: u128)
    requires plen <= 124 && plen % 4 == 0 && n == (128 - plen) / 4 <= 32
    requires Find(text, DIGITS_DASHED).Some? ==> plen % 16 == 0
    ensures Mapping(addr, net, plen, text) ==
      if And(addr, MaskBits(plen)) == And(net, MaskBits(plen)) then Mapped(Display(PtrName(addr, 128)), BrowserName(text, FixedHex(addr, n)))
      else Outside(Display(PtrName(addr, 128)))
  {
    PtrNamesAgree(addr);
    MasksAgree(plen);
    DigitsAgree(addr, n);
  }

  /**
    Two implementations agree: for a zone compiled from `text` and any network text with its
    prefix, the page and the server give every address the same row -- for the addresses of the
    network if and only if the placeholder is in capitals and no dot ends the pattern.
   */
  lemma ImplementationsAgree(z: Zone, text: string, addr: u128, net: u128)
    requires ValidZone(z) && z.fwd == TemplateOf(text) && TemplateVerdict(text, z.hostNibbles).Ok?
    requires And(net, MaskBits(z.mask)) == z.prefix
    ensures TotalHits(text) == 1
    ensures Mapping(addr, net, z.mask, text) == Served(z, addr) <==> !InZone(z, addr) || (Capital(text) && !Pitfalls.EndsInDot(text))
    ensures Mapping(addr, net, z.mask, text).Mapped? <==> InZone(z, addr)
  {
    VerdictMeans(text, z.hostNibbles);
    MappedRow(z, text, addr, net);
    HexDigits(addr, z.hostNibbles);
    NamesAgreeExactly(text, FixedHex(addr, z.hostNibbles));
  }

  lemma {:induction false} HexDigits(a: nat, n: nat)
    ensures AllHex(FixedHex(a, n))
  {
    if n > 0 {
      HexDigits(a / 16, n - 1);
    }
  }
}
