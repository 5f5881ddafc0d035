/**
  The browser's reader and printer of IPv6 addresses (site/mapper.js, `parse6` and `fmt6`).

  A text stands for at most eight groups of hex digits, or for two lists of groups with `::`
  between them. Reading is characterised by those spellings, printing by the rule of section 4.2
  of RFC 5952, and the two are proved inverse.
 */
module Ipv6Text {
  import opened Wrappers
  import opened Bits
  import opened Ascii
  import opened Nibble
  import opened Text

  // ---- spellings ----

  datatype Spelling = Full(groups: seq<string>) | Elided(head: seq<string>, tail: seq<string>)

  predicate IsLowerHex(c: char) {
    '0' <= c <= '9' || 'a' <= c <= 'f'
  }

  /** `/^[0-9a-f]{1,4}$/`. */
  predicate IsGroup(s: string) {
    1 <= |s| <= 4 && forall i :: 0 <= i < |s| ==> IsLowerHex(s[i])
  }

  predicate AllGroups(groups: seq<string>) {
    forall i :: 0 <= i < |groups| ==> IsGroup(groups[i])
  }

  predicate Legal(sp: Spelling) {
    match sp
    case Full(groups) => |groups| == 8 && AllGroups(groups)
    case Elided(head, tail) => |head| + |tail| < 8 && AllGroups(head) && AllGroups(tail)
  }

  function TextOf(sp: Spelling): string {
    match sp
    case Full(groups) => Join(groups, ':')
    case Elided(head, tail) => Join(head, ':') + "::" + Join(tail, ':')
  }

  function ZeroGroups(n: nat): (r: seq<string>)
    ensures |r| == n
  {
    seq(n, _ => "0")
  }

  /** All eight groups, the elided ones put back. */
  function Expanded(sp: Spelling): seq<string> {
    match sp
    case Full(groups) => groups
    case Elided(head, tail) =>
      head + ZeroGroups(if |head| + |tail| < 8 then 8 - |head| - |tail| else 0) + tail
  }

  /** Groups as the digits of a number to the base 65536. */
  function GroupsValue(groups: seq<string>): nat
    requires AllGroups(groups)
  {
    if groups == [] then 0
    else
      GroupIsHex(groups[|groups| - 1]);
      0x1_0000 * GroupsValue(groups[..|groups| - 1]) + DigitsValue(groups[|groups| - 1])
  }

  lemma GroupIsHex(s: string)
    requires IsGroup(s)
    ensures AllHex(s)
  {
  }

  lemma ExpandedIsLegal(sp: Spelling)
    requires Legal(sp)
    ensures |Expanded(sp)| == 8 && AllGroups(Expanded(sp))
  {
    assert IsGroup("0");
  }

  // ---- reading ----

  /** What `trim` removes: white space and line terminators of ECMAScript. */
  predicate IsTrimmed(c: char) {
    || '\t' <= c <= '\r' || c == ' ' || c == '\U{A0}' || c == '\U{1680}' || '\U{2000}' <= c <= '\U{200A}'
    || c == '\U{2028}' || c == '\U{2029}' || c == '\U{202F}' || c == '\U{205F}' || c == '\U{3000}' || c == '\U{FEFF}'
  }

  function TrimFront(s: string): string {
    if s != "" && IsTrimmed(s[0]) then TrimFront(s[1..]) else s
  }

  function TrimBack(s: string): string {
    if s != "" && IsTrimmed(s[|s| - 1]) then TrimBack(s[..|s| - 1]) else s
  }

  /** `trim().toLowerCase()`, as far as the characters an address may contain are concerned. */
  function Normal(text: string): string {
    Lower(TrimBack(TrimFront(text)))
  }

  predicate AllTrimmed(s: string) {
    forall i :: 0 <= i < |s| ==> IsTrimmed(s[i])
  }

  /** Nothing to trim at either end. */
  predicate Tight(s: string) {
    s == "" || (!IsTrimmed(s[0]) && !IsTrimmed(s[|s| - 1]))
  }

  /** The text is a tight body between white space. */
  predicate Framed(text: string, a: string, body: string, b: string) {
    text == a + body + b && AllTrimmed(a) && AllTrimmed(b) && Tight(body)
  }

  /** The text is this body and white space around it. */
  ghost predicate Holds(text: string, body: string) {
    exists a, b :: Framed(text, a, body, b)
  }

  lemma {:induction false} TrimFrontCuts(a: string, rest: string)
    requires AllTrimmed(a)
    ensures TrimFront(a + rest) == TrimFront(rest)
  {
    if a == "" {
      assert a + rest == rest;
    } else {
      assert (a + rest)[1..] == a[1..] + rest;
      TrimFrontCuts(a[1..], rest);
    }
  }

  lemma {:induction false} TrimBackCuts(front: string, b: string)
    requires AllTrimmed(b)
    ensures TrimBack(front + b) == TrimBack(front)
  {
    if b == "" {
      assert front + b == front;
    } else {
      var n := |front + b| - 1;
      assert (front + b)[n] == b[|b| - 1] && (front + b)[..n] == front + b[..|b| - 1];
      TrimBackCuts(front, b[..|b| - 1]);
    }
  }

  lemma {:induction false} TrimFrontKeeps(s: string) returns (a: string)
    ensures AllTrimmed(a) && s == a + TrimFront(s) && (TrimFront(s) != "" ==> !IsTrimmed(TrimFront(s)[0]))
  {
    a := "";
    if s != "" && IsTrimmed(s[0]) {
      var more := TrimFrontKeeps(s[1..]);
      a := [s[0]] + more;
      assert s == [s[0]] + s[1..];
      assert [s[0]] + (more + TrimFront(s)) == a + TrimFront(s);
    }
  }

  lemma {:induction false} TrimBackKeeps(s: string) returns (b: string)
    ensures AllTrimmed(b) && s == TrimBack(s) + b
    ensures TrimBack(s) != "" ==> !IsTrimmed(TrimBack(s)[|TrimBack(s)| - 1]) && TrimBack(s)[0] == s[0]
  {
    b := "";
    if s != "" && IsTrimmed(s[|s| - 1]) {
      var n := |s| - 1;
      var more := TrimBackKeeps(s[..n]);
      b := more + [s[n]];
      assert s == s[..n] + [s[n]];
      assert (TrimBack(s) + more) + [s[n]] == TrimBack(s) + b;
    }
  }

  lemma TrimFramed(text: string, a: string, body: string, b: string)
    requires Framed(text, a, body, b)
    ensures TrimBack(TrimFront(text)) == body
  {
    assert text == a + (body + b);
    TrimFrontCuts(a, body + b);
    if body == "" {
      TrimFrontCuts(b, "");
      assert body + b == b && b + "" == b;
    } else {
      TrimBackCuts(body, b);
    }
  }

  /** Trimming leaves exactly the tight body of a text. */
  lemma TrimExact(text: string, body: string)
    ensures TrimBack(TrimFront(text)) == body <==> Holds(text, body)
  {
    if TrimBack(TrimFront(text)) == body {
      var a := TrimFrontKeeps(text);
      var b := TrimBackKeeps(TrimFront(text));
      assert a + (body + b) == a + body + b;
      assert Framed(text, a, body, b);
    }
    if Holds(text, body) {
      var a, b :| Framed(text, a, body, b);
      TrimFramed(text, a, body, b);
    }
  }

  /** `/^[0-9a-f:]+$/`. */
  predicate IsAddressText(s: string) {
    s != "" && forall i :: 0 <= i < |s| ==> IsLowerHex(s[i]) || s[i] == ':'
  }

  function SplitGroups(half: string): seq<string> {
    if half == "" then [] else Split(half, ':')
  }

  /** The spelling a normal text has, before its groups are looked at. */
  function ReadSpelling(s: string): Option<Spelling> {
    if !IsAddressText(s) || Find(s, ":::").Some? then None
    else
      match Find(s, "::")
      case None =>
        var groups := SplitGroups(s);
        if |groups| == 8 then Some(Full(groups)) else None
      case Some(i) =>
        var rest := s[i + 2..];
        if Find(rest, "::").Some? then None
        else
          var head, tail := SplitGroups(s[..i]), SplitGroups(rest);
          if |head| + |tail| < 8 then Some(Elided(head, tail)) else None
  }

  /** The address a text denotes. */
  function Parsed(text: string): Option<nat> {
    match ReadSpelling(Normal(text))
    case None => None
    case Some(sp) => if AllGroups(Expanded(sp)) then Some(GroupsValue(Expanded(sp))) else None
  }

  lemma ShiftIn(v: nat, h: nat)
    requires h < 0x1_0000
    ensures Or(Doubled(v, 16), h) == 0x1_0000 * v + h
  {
    assert Pow16(4) == 0x1_0000;
    DoubledIsShifted(v, 4);
    var s := Shifted(v, 4);
    assert s == 0x1_0000 * v by {
      assert Shifted(v, 1) == 16 * v && Shifted(v, 2) == 256 * v && Shifted(v, 3) == 4096 * v;
    }
    ShiftedIsClear(v, 4);
    OrDisjoint(s, h, 4);
  }

  lemma {:induction false} ShiftedIsClear(v: nat, j: nat)
    ensures Clear(Shifted(v, j), j) == Shifted(v, j)
  {
    if j > 0 {
      ShiftedIsClear(v, j - 1);
      assert Shifted(v, j) / 16 == Shifted(v, j - 1);
    }
  }

  lemma GroupBound(s: string)
    requires IsGroup(s)
    ensures AllHex(s) && DigitsValue(s) < 0x1_0000
  {
    GroupIsHex(s);
    DigitsValueBound(s);
    Pow16Monotone(|s|, 4);
    assert Pow16(4) == 0x1_0000;
  }

  /** The loop of `parse6`. */
  method ReadGroups(groups: seq<string>) returns (r: Option<nat>)
    requires |groups| == 8
    ensures r == if AllGroups(groups) then Some(GroupsValue(groups)) else None
  {
    var v: nat := 0;
    for i := 0 to 8
      invariant AllGroups(groups[..i]) && v == GroupsValue(groups[..i])
    {
      if !IsGroup(groups[i]) {
        return None;
      }
      assert groups[..i + 1] == groups[..i] + [groups[i]];
      GroupBound(groups[i]);
      ShiftIn(v, DigitsValue(groups[i]));
      ValueAppend(groups[..i], groups[i]);
      v := Or(Doubled(v, 16), DigitsValue(groups[i]));
    }
    assert groups[..8] == groups;
    return Some(v);
  }

  /** The part of `parse6` that splits the text; the groups, if there are eight. */
  method CutText(s: string) returns (groups: Option<seq<string>>)
    ensures groups == match ReadSpelling(s) case None => None case Some(sp) => Some(Expanded(sp))
    ensures groups.Some? ==> |groups.value| == 8
  {
    if !IsAddressText(s) || Find(s, ":::").Some? {
      return None;
    }
    var cut := Find(s, "::");
    if cut.Some? && Find(s[cut.value + 2..], "::").Some? {
      return None;
    }
    var head := SplitGroups(if cut.None? then s else s[..cut.value]);
    var tail := if cut.None? then [] else SplitGroups(s[cut.value + 2..]);
    var missing := 8 - |head| - |tail|;
    if if cut.None? then missing != 0 else missing < 1 {
      return None;
    }
    if cut.None? {
      assert head + ZeroGroups(0) + tail == head;
    }
    return Some(head + ZeroGroups(if cut.None? then 0 else missing) + tail);
  }

  /** `parse6`. */
  method Parse6(text: string) returns (r: Option<nat>)
    ensures r == Parsed(text)
  {
    var groups := CutText(Normal(text));
    if groups.None? {
      return None;
    }
    r := ReadGroups(groups.value);
  }

  lemma ValueAppend(front: seq<string>, last: string)
    requires AllGroups(front) && IsGroup(last)
    ensures AllGroups(front + [last]) && AllHex(last)
    ensures GroupsValue(front + [last]) == 0x1_0000 * GroupsValue(front) + DigitsValue(last)
  {
    GroupIsHex(last);
    assert (front + [last])[..|front|] == front;
  }

  // ---- what reading means ----

  /** Joined groups hold no empty group: no colon at either end, no two side by side. */
  predicate Tidy(s: string) {
    && (forall i :: 0 <= i < |s| ==> IsLowerHex(s[i]) || s[i] == ':')
    && (s != "" ==> s[0] != ':' && s[|s| - 1] != ':')
    && (forall i :: 0 <= i < |s| - 1 ==> !(s[i] == ':' && s[i + 1] == ':'))
  }

  lemma TidyGroup(s: string)
    requires IsGroup(s)
    ensures Tidy(s) && Without(s, ':')
  {
  }

  lemma TidyPair(a: string, b: string)
    requires Tidy(a) && Tidy(b) && a != "" && b != ""
    ensures Tidy(a + [':'] + b)
  {
    var s := a + [':'] + b;
    forall i | 0 <= i < |s| - 1 ensures !(s[i] == ':' && s[i + 1] == ':') {
      if i < |a| - 1 {
        assert s[i] == a[i] && s[i + 1] == a[i + 1];
      } else if i == |a| - 1 {
        assert s[i] == a[i];
      } else if i == |a| {
        assert s[i + 1] == b[0];
      } else {
        assert s[i] == b[i - |a| - 1] && s[i + 1] == b[i - |a|];
      }
    }
  }

  lemma {:induction false} TidyJoin(groups: seq<string>)
    requires AllGroups(groups)
    ensures Tidy(Join(groups, ':')) && (groups == [] <==> Join(groups, ':') == "")
  {
    if |groups| > 0 {
      TidyGroup(groups[0]);
      if |groups| > 1 {
        TidyJoin(groups[1..]);
        TidyPair(groups[0], Join(groups[1..], ':'));
      }
    }
  }

  lemma SplitGroupsJoin(groups: seq<string>)
    requires AllGroups(groups)
    ensures SplitGroups(Join(groups, ':')) == groups
  {
    TidyJoin(groups);
    if groups != [] {
      forall i | 0 <= i < |groups| ensures Without(groups[i], ':') {
        TidyGroup(groups[i]);
      }
      SplitJoin(groups, ':');
    }
  }

  lemma JoinSplitGroups(half: string)
    ensures Join(SplitGroups(half), ':') == half
  {
    JoinSplit(half, ':');
  }

  /** Two colons side by side stand where `::` was found. */
  lemma ColonsAt(s: string, p: string, i: nat)
    requires p in {"::", ":::"} && OccursAt(s, p, i)
    ensures s[i] == ':' && s[i + 1] == ':' && (p == ":::" ==> s[i + 2] == ':')
  {
    assert s[i..i + |p|][0] == p[0] && s[i..i + |p|][1] == p[1];
    assert p == ":::" ==> s[i..i + |p|][2] == p[2];
  }

  lemma TidyHasNoDouble(s: string)
    requires Tidy(s)
    ensures Find(s, "::").None? && Find(s, ":::").None?
  {
    if Find(s, "::").Some? {
      ColonsAt(s, "::", Find(s, "::").value);
    }
    if Find(s, ":::").Some? {
      ColonsAt(s, ":::", Find(s, ":::").value);
    }
  }

  /** Between two tidy texts, `::` is the only pair of colons. */
  lemma OnePair(a: string, b: string, i: nat)
    requires Tidy(a) && Tidy(b)
    requires var s := a + "::" + b; i + 1 < |s| && s[i] == ':' && s[i + 1] == ':'
    ensures i == |a|
  {
    var s := a + "::" + b;
    assert forall k :: 0 <= k < |s| ==> s[k] == if k < |a| then a[k] else if k < |a| + 2 then ':' else b[k - |a| - 2];
  }

  lemma DoubleFound(a: string, b: string)
    requires Tidy(a) && Tidy(b)
    ensures Find(a + "::" + b, "::") == Some(|a|) && Find(a + "::" + b, ":::").None?
  {
    var s := a + "::" + b;
    assert s[|a|..|a| + 2] == "::";
    FindIsFirst(s, "::", |a|);
    var i := Find(s, "::").value;
    ColonsAt(s, "::", i);
    OnePair(a, b, i);
    if Find(s, ":::").Some? {
      var j := Find(s, ":::").value;
      ColonsAt(s, ":::", j);
      OnePair(a, b, j + 1);
    }
  }

  /** A legal spelling is read back from its text. */
  lemma SpellingRead(sp: Spelling)
    requires Legal(sp)
    ensures ReadSpelling(TextOf(sp)) == Some(sp)
  {
    match sp {
      case Full(groups) =>
        TidyJoin(groups);
        TidyHasNoDouble(Join(groups, ':'));
        SplitGroupsJoin(groups);
      case Elided(head, tail) =>
        ElidedRead(head, tail, Join(head, ':'), Join(tail, ':'));
    }
  }

  lemma TidyAddressText(a: string, b: string)
    requires Tidy(a) && Tidy(b)
    ensures IsAddressText(a + "::" + b)
  {
    var s := a + "::" + b;
    assert forall i :: 0 <= i < |s| ==> s[i] == if i < |a| then a[i] else if i < |a| + 2 then ':' else b[i - |a| - 2];
  }

  lemma ElidedRead(head: seq<string>, tail: seq<string>, a: string, b: string)
    requires Legal(Elided(head, tail)) && a == Join(head, ':') && b == Join(tail, ':')
    ensures ReadSpelling(a + "::" + b) == Some(Elided(head, tail))
  {
    var s := a + "::" + b;
    TidyJoin(head);
    TidyJoin(tail);
    DoubleFound(a, b);
    TidyHasNoDouble(b);
    assert s[..|a|] == a && s[|a| + 2..] == b;
    SplitGroupsJoin(head);
    SplitGroupsJoin(tail);
    TidyAddressText(a, b);
  }

  /** A spelling that was read has the text it was read from. */
  lemma ReadSpelled(s: string)
    requires ReadSpelling(s).Some?
    ensures TextOf(ReadSpelling(s).value) == s
    ensures match ReadSpelling(s).value
      case Full(groups) => |groups| == 8
      case Elided(head, tail) => |head| + |tail| < 8
  {
    match Find(s, "::") {
      case None => JoinSplitGroups(s);
      case Some(i) =>
        JoinSplitGroups(s[..i]);
        JoinSplitGroups(s[i + 2..]);
        assert s == s[..i] + s[i..i + 2] + s[i + 2..];
    }
  }

  /** `text` spells `v` in this way. */
  predicate Spells(sp: Spelling, text: string, v: nat) {
    Legal(sp) && TextOf(sp) == Normal(text) && (ExpandedIsLegal(sp); GroupsValue(Expanded(sp)) == v)
  }

  /**
    Reading is exact: a text is read as `v` if and only if, trimmed and folded, it is the text of
    eight groups, or of fewer around one `::`, whose value is `v` (section 2.2 of RFC 4291).
   */
  lemma ReadingExact(text: string, v: nat)
    ensures Parsed(text) == Some(v) <==> exists sp :: Spells(sp, text, v)
  {
    var s := Normal(text);
    if Parsed(text) == Some(v) {
      var sp := ReadSpelling(s).value;
      ReadSpelled(s);
      PartsAreGroups(sp);
      assert Spells(sp, text, v);
    }
    if sp :| Spells(sp, text, v) {
      SpellingRead(sp);
      ExpandedIsLegal(sp);
    }
  }

  lemma PartsAreGroups(sp: Spelling)
    requires AllGroups(Expanded(sp))
    requires match sp case Full(groups) => |groups| == 8 case Elided(head, tail) => |head| + |tail| < 8
    ensures Legal(sp)
  {
    match sp {
      case Full(_) =>
      case Elided(head, tail) =>
        var all, k := Expanded(sp), 8 - |tail|;
        assert forall i :: 0 <= i < |head| ==> all[i] == head[i];
        assert forall i :: 0 <= i < |tail| ==> all[k + i] == tail[i];
    }
  }

  lemma {:induction false} GroupsValueBound(groups: seq<string>)
    requires AllGroups(groups)
    ensures GroupsValue(groups) < Pow16(4 * |groups|)
  {
    if groups != [] {
      var n := |groups| - 1;
      GroupsValueBound(groups[..n]);
      GroupBound(groups[n]);
      var k := 4 * |groups|;
      assert Pow16(k) == 16 * Pow16(k - 1);
      assert Pow16(k - 1) == 16 * Pow16(k - 2);
      assert Pow16(k - 2) == 16 * Pow16(k - 3);
    }
  }

  /** What is read is always a 128-bit address. */
  lemma ParsedBound(text: string)
    ensures Parsed(text).Some? ==> Parsed(text).value < U128_LIMIT
  {
    if Parsed(text).Some? {
      ReadingExact(text, Parsed(text).value);
      var sp :| Spells(sp, text, Parsed(text).value);
      ExpandedIsLegal(sp);
      GroupsValueBound(Expanded(sp));
      U128IsPow16();
    }
  }

  // ---- printing ----

  /** `replace(/^0+(?=.)/, "")`: no leading zero, but at least one digit. */
  function DropZeros(s: string): string {
    if |s| > 1 && s[0] == '0' then DropZeros(s[1..]) else s
  }

  /** The last `k` groups of four digits of an address. */
  function Words(v: nat, k: nat): (r: seq<string>)
    ensures |r| == k
    decreases k
  {
    if k == 0 then [] else Words(Upper(v, 4), k - 1) + [FixedHex(v, 4)]
  }

  /** The eight groups, each without leading zeros. */
  function Groups(v: nat): (r: seq<string>)
    ensures |r| == 8
  {
    var words := Words(v, 8);
    seq(8, i requires 0 <= i < 8 => DropZeros(words[i]))
  }

  /** Slicing the digits four at a time gives the words. */
  lemma {:induction false} WordAt(v: nat, k: nat, i: nat)
    requires i < k
    ensures FixedHex(v, 4 * k)[4 * i..4 * i + 4] == Words(v, k)[i]
    decreases k
  {
    var front := FixedHex(Upper(v, 4), 4 * (k - 1));
    FixedHexSplit(v, 4 * (k - 1), 4);
    var whole := FixedHex(v, 4 * k);
    assert whole == front + FixedHex(v, 4);
    if i == k - 1 {
      assert whole[4 * i..4 * i + 4] == FixedHex(v, 4);
    } else {
      WordAt(Upper(v, 4), k - 1, i);
      assert whole[4 * i..4 * i + 4] == front[4 * i..4 * i + 4];
    }
  }

  // ---- the run of zeros ----

  predicate ZeroRun(g: seq<string>, s: nat, e: nat) {
    s <= e <= |g| && forall k :: s <= k < e ==> g[k] == "0"
  }

  /** The leftmost of the longest runs of two or more zero groups; `len` is 0 if there is none. */
  ghost predicate LeftmostLongest(g: seq<string>, best: nat, len: nat) {
    && len != 1 && ZeroRun(g, best, best + len)
    && (forall s: nat, e: nat :: ZeroRun(g, s, e) ==> e - s <= len || e - s <= 1)
    && (len == 0 ==> best == 0)
    && (forall s: nat, e: nat :: len > 0 && ZeroRun(g, s, e) && e - s == len ==> best <= s)
  }

  function Compressed(g: seq<string>, best: nat, len: nat): Spelling
    requires best + len <= |g|
  {
    if len == 0 then Full(g) else Elided(g[..best], g[best + len..])
  }

  /** `text` is how the address is printed: the zero run chosen by section 4.2 of RFC 5952 elided. */
  ghost predicate Prints(v: nat, text: string) {
    exists best: nat, len: nat :: LeftmostLongest(Groups(v), best, len) && text == TextOf(Compressed(Groups(v), best, len))
  }

  /** The search for the run to elide. */
  method LongestRun(g: seq<string>) returns (best: int, len: nat)
    requires |g| == 8
    ensures best < 0 ==> len == 0 && LeftmostLongest(g, 0, 0)
    ensures best >= 0 ==> len > 0 && LeftmostLongest(g, best, len)
  {
    best, len := -1, 0;
    for s := 0 to 8
      invariant best < 0 ==> len == 0
      invariant best >= 0 ==> 2 <= len && best < s && ZeroRun(g, best, best + len)
      invariant forall a: nat, e: nat :: a < s && ZeroRun(g, a, e) ==> e - a <= len || e - a <= 1
      invariant forall a: nat, e: nat :: a < s && len > 0 && ZeroRun(g, a, e) && e - a == len ==> best <= a
    {
      var e := s;
      while e < 8 && g[e] == "0"
        invariant s <= e <= 8 && ZeroRun(g, s, e)
      {
        e := e + 1;
      }
      assert forall f: nat :: ZeroRun(g, s, f) ==> f <= e;
      if e - s > len && e - s > 1 {
        best, len := s, e - s;
      }
    }
    assert forall a: nat, e: nat :: ZeroRun(g, a, e) && a >= 8 ==> e - a <= 1;
  }

  lemma CutDigits(v: u128, h: string, k: nat, n: nat)
    requires k < n && n == 8 && h == HexPadded(v, 4 * n)
    ensures |h| == 4 * n && h[4 * k..4 * k + 4] == Words(v, n)[k]
  {
    U128IsPow16();
    PaddedIsFixed(v, 4 * n);
    WordAt(v, n, k);
  }

  lemma NextGroup(v: u128, h: string, k: nat)
    requires k < 8 && h == HexPadded(v, 32)
    ensures |h| == 32 && Groups(v)[..k + 1] == Groups(v)[..k] + [DropZeros(h[4 * k..4 * k + 4])]
  {
    CutDigits(v, h, k, 8);
  }

  /** The loop of `fmt6` that cuts the digits into groups. */
  method CutGroups(v: u128) returns (g: seq<string>)
    ensures g == Groups(v)
  {
    var h := HexPadded(v, 32);
    g := [];
    for k := 0 to 8
      invariant g == Groups(v)[..k]
    {
      NextGroup(v, h, k);
      g := g + [DropZeros(h[4 * k..4 * k + 4])];
    }
  }

  /** `fmt6`. */
  method Fmt6(v: u128) returns (text: string)
    ensures Prints(v, text)
    ensures Parsed(text) == Some(v)
  {
    var g := CutGroups(v);
    var best, len := LongestRun(g);
    if best < 0 {
      text := Join(g, ':');
      assert text == TextOf(Compressed(g, 0, 0));
    } else {
      text := Join(g[..best], ':') + "::" + Join(g[best + len..], ':');
      assert text == TextOf(Compressed(g, best, len));
    }
    PrintedIsRead(v, text);
  }

  // ---- printing and reading are inverse ----

  lemma {:induction false} LeadingZero(s: string)
    requires AllHex(s)
    ensures AllHex("0" + s) && DigitsValue("0" + s) == DigitsValue(s)
  {
    var t := "0" + s;
    assert forall i :: 0 <= i < |t| ==> t[i] == if i == 0 then '0' else s[i - 1];
    if s == "" {
      assert t[..0] == "";
    } else {
      var n := |s| - 1;
      assert t[..n + 1] == "0" + s[..n];
      LeadingZero(s[..n]);
    }
  }

  lemma {:induction false} DropZerosExact(s: string)
    requires IsGroup(s)
    ensures IsGroup(DropZeros(s)) && AllHex(s) && AllHex(DropZeros(s)) && DigitsValue(DropZeros(s)) == DigitsValue(s)
    ensures DropZeros(s)[0] == '0' ==> DropZeros(s) == "0"
  {
    GroupIsHex(s);
    if |s| > 1 && s[0] == '0' {
      DropZerosExact(s[1..]);
      LeadingZero(s[1..]);
      assert s == "0" + s[1..];
    }
  }

  lemma {:induction false} FixedHexLowered(v: nat, n: nat)
    ensures forall i :: 0 <= i < n ==> IsLowerHex(FixedHex(v, n)[i])
  {
    if n > 0 {
      FixedHexLowered(v / 16, n - 1);
    }
  }

  lemma WordIsGroup(v: nat)
    ensures IsGroup(FixedHex(v, 4)) && AllHex(FixedHex(v, 4)) && DigitsValue(FixedHex(v, 4)) == Low(v, 4)
  {
    FixedHexLowered(v, 4);
    GroupIsHex(FixedHex(v, 4));
    LowBound(v, 4);
    FixedHexLow(v, 4);
    DigitsOfPrinted(FixedHex(v, 4), Low(v, 4));
  }

  lemma DigitsOfPrinted(s: string, h: nat)
    requires h < Pow16(|s|) && s == FixedHex(h, |s|) && AllHex(s)
    ensures DigitsValue(s) == h
  {
    FixedHexIsLower(h, |s|);
    DigitsValueUnique(s, h);
  }

  lemma {:induction false} WordsAreGroups(v: nat, k: nat)
    ensures AllGroups(Words(v, k))
    decreases k
  {
    if k > 0 {
      WordsAreGroups(Upper(v, 4), k - 1);
      WordIsGroup(v);
    }
  }

  lemma {:induction false} WordsValue(v: nat, k: nat)
    requires v < Pow16(4 * k)
    ensures AllGroups(Words(v, k)) && GroupsValue(Words(v, k)) == v
    decreases k
  {
    if k > 0 {
      UpperWord(v, k);
      WordsValue(Upper(v, 4), k - 1);
      LastWord(v, Words(Upper(v, 4), k - 1));
    }
  }

  lemma UpperWord(v: nat, k: nat)
    requires k > 0 && v < Pow16(4 * k)
    ensures Upper(v, 4) < Pow16(4 * (k - 1))
  {
    UpperBound(v, 4, 4 * k);
  }

  lemma LastWord(v: nat, front: seq<string>)
    requires AllGroups(front) && GroupsValue(front) == Upper(v, 4)
    ensures AllGroups(front + [FixedHex(v, 4)]) && GroupsValue(front + [FixedHex(v, 4)]) == v
  {
    WordIsGroup(v);
    ValueAppend(front, FixedHex(v, 4));
    UpperLow(v);
  }

  lemma UpperLow(v: nat)
    ensures 0x1_0000 * Upper(v, 4) + Low(v, 4) == v
  {
    var a, b, c := v / 16, v / 16 / 16, v / 16 / 16 / 16;
    assert Upper(v, 4) == Upper(a, 3) == Upper(b, 2) == Upper(c, 1) == Upper(c / 16, 0) == c / 16;
    assert Low(c, 1) == c % 16 + 16 * Low(c / 16, 0);
    assert Low(b, 2) == b % 16 + 16 * Low(c, 1);
    assert Low(a, 3) == a % 16 + 16 * Low(b, 2);
    assert Low(v, 4) == v % 16 + 16 * Low(a, 3);
  }

  /** Dropping leading zeros keeps every group a group and the value the same. */
  lemma {:induction false} DroppedValue(a: seq<string>, b: seq<string>)
    requires |a| == |b| && AllGroups(a) && forall i :: 0 <= i < |a| ==> b[i] == DropZeros(a[i])
    ensures AllGroups(b) && GroupsValue(b) == GroupsValue(a)
  {
    forall i | 0 <= i < |b| ensures IsGroup(b[i]) {
      DropZerosExact(a[i]);
    }
    if a != [] {
      var n := |a| - 1;
      DroppedValue(a[..n], b[..n]);
      DropZerosExact(a[n]);
    }
  }

  lemma GroupsExact(v: u128)
    ensures AllGroups(Groups(v)) && GroupsValue(Groups(v)) == v
  {
    U128IsPow16();
    WordsValue(v, 8);
    DroppedValue(Words(v, 8), Groups(v));
  }

  /** Putting the elided zeros back restores the groups. */
  lemma CompressedExact(g: seq<string>, best: nat, len: nat)
    requires |g| == 8 && AllGroups(g) && LeftmostLongest(g, best, len)
    ensures Legal(Compressed(g, best, len)) && Expanded(Compressed(g, best, len)) == g
  {
    if len > 0 {
      assert g == g[..best] + g[best..best + len] + g[best + len..];
      assert g[best..best + len] == ZeroGroups(len);
    }
  }

  lemma TextIsNormal(sp: Spelling)
    requires Legal(sp)
    ensures Normal(TextOf(sp)) == TextOf(sp)
  {
    SpellingRead(sp);
    var s := TextOf(sp);
    assert !IsTrimmed(s[0]) && !IsTrimmed(s[|s| - 1]);
    assert Lower(s) == s;
  }

  /** Reading what was printed gives the address back. */
  lemma PrintedIsRead(v: u128, text: string)
    requires Prints(v, text)
    ensures Parsed(text) == Some(v)
  {
    var g := Groups(v);
    var best: nat, len: nat :| LeftmostLongest(g, best, len) && text == TextOf(Compressed(g, best, len));
    var sp := Compressed(g, best, len);
    GroupsExact(v);
    CompressedExact(g, best, len);
    TextIsNormal(sp);
    assert Spells(sp, text, v);
    ReadingExact(text, v);
  }

  /** The printed form is unique, and different addresses are printed differently. */
  lemma PrintedUniquely(v: u128, w: u128, a: string, b: string)
    requires Prints(v, a) && Prints(w, b)
    ensures a == b <==> v == w
  {
    PrintedIsRead(v, a);
    PrintedIsRead(w, b);
    if v == w {
      var g := Groups(v);
      var best: nat, len: nat :| LeftmostLongest(g, best, len) && a == TextOf(Compressed(g, best, len));
      var best': nat, len': nat :| LeftmostLongest(g, best', len') && b == TextOf(Compressed(g, best', len'));
      OneLeftmostLongest(g, best, len, best', len');
    }
  }

  lemma OneLeftmostLongest(g: seq<string>, best: nat, len: nat, best': nat, len': nat)
    requires LeftmostLongest(g, best, len) && LeftmostLongest(g, best', len')
    ensures best == best' && len == len'
  {
    assert ZeroRun(g, best, best + len) && ZeroRun(g, best', best' + len');
  }

  /** No printed group has a leading zero. */
  lemma NoLeadingZeros(v: u128, k: nat)
    requires k < 8
    ensures Groups(v)[k] != "" && (Groups(v)[k][0] == '0' ==> Groups(v)[k] == "0")
  {
    WordsAreGroups(v, 8);
    DropZerosExact(Words(v, 8)[k]);
  }
}
