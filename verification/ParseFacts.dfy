/** What the configuration parser guarantees for every input. */
module ParseFacts {
  import opened Wrappers
  import opened Ascii
  import opened ConfigText
  import opened ConfigParse

  // ---- at most one keyword fits a line ----

  /** Keyword words are made of lowercase letters and dashes. */
  predicate CleanWord(w: string) {
    w != "" && forall i :: 0 <= i < |w| ==> 'a' <= w[i] <= 'z' || w[i] == '-'
  }

  lemma CleanIsLower(w: string)
    requires CleanWord(w)
    ensures Lower(w) == w
  {
  }

  predicate CleanWords(words: seq<string>) {
    forall i :: 0 <= i < |words| ==> CleanWord(words[i])
  }

  /** Offset `n` is the end of the line or the start of white space. */
  predicate Delimited(line: string, n: nat) {
    n == |line| || (n < |line| && IsSpace(line[n]))
  }

  /** Two words that start the same text and both end at a delimiter are one word. */
  lemma SameWord(body: string, w: string, x: string)
    requires CleanWord(w) && CleanWord(x)
    requires |w| <= |body| && EqIgnoreCase(body[..|w|], w) && Delimited(body, |w|)
    requires |x| <= |body| && EqIgnoreCase(body[..|x|], x) && Delimited(body, |x|)
    ensures w == x
  {
    CleanIsLower(w);
    CleanIsLower(x);
    NotLonger(body, w, x);
    NotLonger(body, x, w);
    assert Lower(body[..|w|]) == w && Lower(body[..|x|]) == x;
  }

  lemma NotLonger(body: string, w: string, x: string)
    requires CleanWord(x)
    requires |w| <= |body| && Delimited(body, |w|)
    requires |x| <= |body| && EqIgnoreCase(body[..|x|], x)
    ensures |x| <= |w|
  {
    CleanIsLower(x);
    forall k | 0 <= k < |x| ensures !IsSpace(body[k]) {
      assert Lower(body[..|x|])[k] == x[k];
    }
  }

  lemma {:induction false} KeywordDelimited(line: string, words: seq<string>, first: bool)
    requires words != [] && Keyword(line, words, first).Some?
    requires Delimited(line, Keyword(line, words, first).value)
    ensures var body := if first then line else TrimStart(line);
      && |words[0]| <= |body| && EqIgnoreCase(body[..|words[0]|], words[0]) && Delimited(body, |words[0]|)
      && Keyword(body[|words[0]|..], words[1..], false).Some?
      && Delimited(body[|words[0]|..], Keyword(body[|words[0]|..], words[1..], false).value)
  {
    TrimStartExact(line);
    var body := if first then line else TrimStart(line);
    var w := |words[0]|;
    var rest := body[w..];
    var n := Keyword(rest, words[1..], false).value;
    KeywordBound(rest, words[1..], false);
    var k := |line| - |body|;
    assert body == line[k..];
    if n < |rest| {
      assert rest[n] == body[w + n] == line[k + w + n];
    }
    if words[1..] != [] {
      TrimStartExact(rest);
      assert IsSpace(rest[0]);
    }
  }

  /** Of two keywords that both fit a line up to a delimiter, one begins the other. */
  lemma {:induction false} KeywordsComparable(line: string, u: seq<string>, v: seq<string>, first: bool)
    requires CleanWords(u) && CleanWords(v)
    requires Keyword(line, u, first).Some? && Delimited(line, Keyword(line, u, first).value)
    requires Keyword(line, v, first).Some? && Delimited(line, Keyword(line, v, first).value)
    ensures u <= v || v <= u
    decreases |u|
  {
    if u != [] && v != [] {
      KeywordDelimited(line, u, first);
      KeywordDelimited(line, v, first);
      var body := if first then line else TrimStart(line);
      SameWord(body, u[0], v[0]);
      KeywordsComparable(body[|u[0]|..], u[1..], v[1..], false);
      assert u == [u[0]] + u[1..] && v == [v[0]] + v[1..];
    }
  }

  lemma StripKeywordDelimited(line: string, words: seq<string>)
    requires StripKeyword(line, words).Some?
    ensures Keyword(line, words, true).Some? && Delimited(line, Keyword(line, words, true).value)
  {
    KeywordBound(line, words, true);
    TrimStartExact(line[Keyword(line, words, true).value..]);
  }

  lemma FlagDelimited(line: string, words: seq<string>)
    requires MatchesFlag(line, words)
    ensures Delimited(line, Keyword(line, words, true).value)
  {
    KeywordBound(line, words, true);
    var rest := line[Keyword(line, words, true).value..];
    TrimStartExact(rest);
    TrimEndExact(TrimStart(rest));
  }

  /** The position in the table of keywords of the one a word list could be, told by a few letters. */
  function Which(words: seq<string>): nat {
    if words == [] || |words[0]| < 2 then 15
    else
      var a, b := words[0][0], words[0][1];
      if a == 'r' && b == 'e' then 0
      else if a == 'w' then 1
      else if a == 'r' then
        if |words| < 2 || words[1] == "" then 15
        else if words[1][0] == 'r' then 2
        else if words[1][0] == 'b' then 3
        else if words[1][0] == 's' then 4
        else 14
      else if a == 'u' then 5
      else if a == 'm' then 6
      else if a == 'o' then 7
      else if a == 'h' then 8
      else if a == 'p' then 9
      else if a == 'n' && b == 'e' then 10
      else if a == 'l' then 11
      else if a == 't' then 12
      else 13
  }

  lemma TableIsDistinct(i: nat)
    requires i < |DIRECTIVES|
    ensures CleanWords(DIRECTIVES[i].words) && Which(DIRECTIVES[i].words) == i
  {
    if i < 3 {
      TableStart(i);
    } else if i < 6 {
      TableMiddle(i);
    } else {
      TableRest(i);
    }
  }

  lemma TableStart(i: nat)
    requires i < 3
    ensures CleanWords(DIRECTIVES[i].words) && Which(DIRECTIVES[i].words) == i
  {
  }

  lemma TableMiddle(i: nat)
    requires 3 <= i < 6
    ensures CleanWords(DIRECTIVES[i].words) && Which(DIRECTIVES[i].words) == i
  {
  }

  lemma TableRest(i: nat)
    requires 6 <= i < 14
    ensures CleanWords(DIRECTIVES[i].words) && Which(DIRECTIVES[i].words) == i
  {
  }

  lemma FlagIsDistinct()
    ensures CleanWords(FLAG_WORDS) && Which(FLAG_WORDS) == 14
  {
  }

  lemma PrefixWhich(u: seq<string>, v: seq<string>)
    requires u <= v && Which(u) < 15
    ensures Which(u) == Which(v)
  {
  }

  /** A line fits at most one directive, and none if it is the flag. */
  lemma AtMostOneDirective(line: string, i: nat, j: nat)
    requires i < |DIRECTIVES| && StripKeyword(line, DIRECTIVES[i].words).Some?
    ensures j < |DIRECTIVES| && StripKeyword(line, DIRECTIVES[j].words).Some? ==> i == j
    ensures !MatchesFlag(line, FLAG_WORDS)
  {
    TableIsDistinct(i);
    FlagIsDistinct();
    var u := DIRECTIVES[i].words;
    StripKeywordDelimited(line, u);
    if j < |DIRECTIVES| && StripKeyword(line, DIRECTIVES[j].words).Some? {
      TableIsDistinct(j);
      StripKeywordDelimited(line, DIRECTIVES[j].words);
      ComparableWhich(line, u, DIRECTIVES[j].words);
    }
    if MatchesFlag(line, FLAG_WORDS) {
      FlagDelimited(line, FLAG_WORDS);
      ComparableWhich(line, u, FLAG_WORDS);
    }
  }

  lemma ComparableWhich(line: string, u: seq<string>, v: seq<string>)
    requires CleanWords(u) && CleanWords(v) && Which(u) < 15 && Which(v) < 15
    requires Keyword(line, u, true).Some? && Delimited(line, Keyword(line, u, true).value)
    requires Keyword(line, v, true).Some? && Delimited(line, Keyword(line, v, true).value)
    ensures Which(u) == Which(v)
  {
    KeywordsComparable(line, u, v, true);
    if u <= v {
      PrefixWhich(u, v);
    } else {
      PrefixWhich(v, u);
    }
  }

  // ---- nothing is lost ----

  function Is(line: nat, k: nat): nat {
    if line == k then 1 else 0
  }

  /** How many of the values were read from line `k`. */
  function ValuesOn(values: seq<RawValue>, k: nat): nat {
    if values == [] then 0
    else ValuesOn(values[..|values| - 1], k) + Is(values[|values| - 1].line, k)
  }

  function SlotOn(slot: Option<RawValue>, k: nat): nat {
    match slot case None => 0 case Some(v) => Is(v.line, k)
  }

  function ZoneOn(z: RawZone, k: nat): nat {
    Is(z.network.line, k) + SlotOn(z.resolvesTo, k) + SlotOn(z.upstream, k)
  }

  function ZonesOn(zones: seq<RawZone>, k: nat): nat {
    if zones == [] then 0
    else ZonesOn(zones[..|zones| - 1], k) + ZoneOn(zones[|zones| - 1], k)
  }

  function GlobalsOn(globals: seq<RawGlobal>, k: nat): nat {
    if globals == [] then 0
    else GlobalsOn(globals[..|globals| - 1], k) + Is(globals[|globals| - 1].value.line, k)
  }

  function ErrorsOn(errors: seq<ConfigError>, k: nat): nat {
    if errors == [] then 0
    else ErrorsOn(errors[..|errors| - 1], k) + Is(errors[|errors| - 1].line, k)
  }

  /** How many listen addresses, networks, filled slots, globals and errors line `k` is charged with. */
  function Ledger(cfg: RawConfig, errors: seq<ConfigError>, k: nat): nat {
    ValuesOn(cfg.listen, k) + ZonesOn(cfg.zones, k) + GlobalsOn(cfg.globals, k) + ErrorsOn(errors, k)
  }

  /** How many significant lines carry the number `k`. */
  function SignificantOn(lines: seq<string>, k: nat): nat {
    if lines == [] then 0
    else
      var n := |lines| - 1;
      SignificantOn(lines[..n], k) + if Significant(lines[n]) then Is(LineNumber(n), k) else 0
  }

  /** The line an effect accounts for, if it accounts for one at all. */
  predicate AccountsFor(cfg: RawConfig, effect: Effect, line: nat) {
    match effect
    case Nothing => false
    case AddListen(v) => v.line == line
    case AddZone(v) => v.line == line
    case FillResolves(v) => v.line == line && cfg.zones != [] && cfg.zones[|cfg.zones| - 1].resolvesTo.None?
    case FillUpstream(v) => v.line == line && cfg.zones != [] && cfg.zones[|cfg.zones| - 1].upstream.None?
    case AddGlobal(_, v) => v.line == line
    case Report(e) => e.line == line
  }

  lemma {:induction false} FindDirectiveInTable(ds: seq<Directive>, body: string) returns (i: nat)
    requires FindDirective(ds, body).Some?
    ensures i < |ds| && ds[i] == FindDirective(ds, body).value.0
    ensures StripKeyword(body, ds[i].words) == Some((FindDirective(ds, body).value.1, FindDirective(ds, body).value.2))
  {
    if StripKeyword(body, ds[0].words).Some? {
      i := 0;
    } else {
      i := FindDirectiveInTable(ds[1..], body);
      i := i + 1;
    }
  }

  lemma SlotsAreZoneScoped(i: nat)
    requires i < |DIRECTIVES|
    ensures DIRECTIVES[i].target.ToResolves? || DIRECTIVES[i].target.ToUpstream? <==> DIRECTIVES[i].scope.ZoneScope?
    ensures DIRECTIVES[i].target.ToGlobal? <==> DIRECTIVES[i].scope.GlobalScope?
    ensures DIRECTIVES[i].target != ToGlobal(RrlOff)
  {
  }

  /** What reading a line guarantees. */
  predicate FaithfulReading(reading: Reading, line: nat, raw: string) {
    match reading
    case Blank => !Significant(raw)
    case Flag(value) => Significant(raw) && value.line == line && value.rawLine == StripCr(raw) && FlagAnchored(value)
    case Unreadable(error) => Significant(raw) && error.line == line && InLine(error)
    case Setting(d, value) =>
      && Significant(raw) && value.line == line && value.rawLine == StripCr(raw) && value.Anchored()
      && (d.target.ToResolves? || d.target.ToUpstream? <==> d.scope.ZoneScope?)
      && (d.target.ToGlobal? <==> d.scope.GlobalScope?)
      && d.target != ToGlobal(RrlOff)
  }

  /** The flag has no value; its span is the flag itself, up to the end of the line. */
  predicate FlagAnchored(v: RawValue) {
    && v.span.start <= v.span.end == |v.rawLine|
    && v.value == "" && MatchesFlag(v.rawLine[v.span.start..], FLAG_WORDS)
  }

  lemma SettingFaithful(line: nat, raw: string, d: Directive, offset: nat, text: string)
    requires FindDirective(DIRECTIVES, TrimStart(raw)) == Some((d, offset, text))
    ensures ValueAt(line, raw, |raw| - |TrimStart(raw)| + offset, d, text).Anchored()
    ensures d.target.ToResolves? || d.target.ToUpstream? <==> d.scope.ZoneScope?
    ensures d.target.ToGlobal? <==> d.scope.GlobalScope?
    ensures d.target != ToGlobal(RrlOff)
  {
    var i := FindDirectiveInTable(DIRECTIVES, TrimStart(raw));
    SlotsAreZoneScoped(i);
    DirectiveSlice(DIRECTIVES, TrimStart(raw), d, offset, text);
    ValueIsAnchored(line, raw, d, offset, text);
  }

  lemma ReadLineFaithful(line: nat, raw: string)
    ensures FaithfulReading(ReadLine(line, raw), line, raw)
  {
    var text := StripCr(raw);
    TrimStartExact(text);
    if !MatchesFlag(TrimStart(text), FLAG_WORDS) {
      match FindDirective(DIRECTIVES, TrimStart(text)) {
        case None =>
        case Some((d, offset, value)) => SettingFaithful(line, text, d, offset, value);
      }
    }
  }

  /** A line contributes something exactly when it is significant, and then under its own number. */
  lemma LineAccounts(cfg: RawConfig, line: nat, raw: string)
    ensures LineEffect(cfg, line, raw).Nothing? <==> !Significant(raw)
    ensures Significant(raw) ==> AccountsFor(cfg, LineEffect(cfg, line, raw), line)
  {
    ReadLineFaithful(line, raw);
  }

  lemma EffectLedger(cfg: RawConfig, errors: seq<ConfigError>, effect: Effect, line: nat, k: nat)
    requires AccountsFor(cfg, effect, line)
    ensures Ledger(ApplyEffect(cfg, effect), ApplyErrors(errors, effect), k) == Ledger(cfg, errors, k) + Is(line, k)
  {
    match effect {
      case AddListen(v) => assert (cfg.listen + [v])[..|cfg.listen|] == cfg.listen;
      case AddZone(v) => assert (cfg.zones + [RawZone(v, None, None)])[..|cfg.zones|] == cfg.zones;
      case FillResolves(v) => SlotLedger(cfg.zones, cfg.zones[|cfg.zones| - 1].(resolvesTo := Some(v)), k);
      case FillUpstream(v) => SlotLedger(cfg.zones, cfg.zones[|cfg.zones| - 1].(upstream := Some(v)), k);
      case AddGlobal(key, v) => assert (cfg.globals + [RawGlobal(key, v)])[..|cfg.globals|] == cfg.globals;
      case Report(e) => assert (errors + [e])[..|errors|] == errors;
    }
  }

  lemma SlotLedger(zones: seq<RawZone>, z: RawZone, k: nat)
    requires zones != []
    ensures ZonesOn(zones[|zones| - 1 := z], k) == ZonesOn(zones, k) - ZoneOn(zones[|zones| - 1], k) + ZoneOn(z, k)
  {
    assert zones[|zones| - 1 := z][..|zones| - 1] == zones[..|zones| - 1];
  }

  /**
    Nothing is silently lost: every line that is neither blank nor a comment is accounted for by
    exactly one listen address, network, filled slot, global setting or error, and nothing else is.
   */
  lemma {:induction false} NothingIsLost(lines: seq<string>, k: nat)
    ensures Ledger(ConfigOf(lines), ErrorsOf(lines), k) == SignificantOn(lines, k)
  {
    if lines != [] {
      var n := |lines| - 1;
      NothingIsLost(lines[..n], k);
      var before := ConfigOf(lines[..n]);
      LineAccounts(before, LineNumber(n), lines[n]);
      if Significant(lines[n]) {
        EffectLedger(before, ErrorsOf(lines[..n]), LineEffect(before, LineNumber(n), lines[n]), LineNumber(n), k);
      }
    }
  }

  // ---- the networks, in the order written ----

  /** The network a line opens, if it opens one. */
  function NetworkOn(line: nat, untrimmed: string): Option<RawValue> {
    match ReadLine(line, untrimmed)
    case Setting(d, value) => if d.target.ToNetwork? then Some(value) else None
    case _ => None
  }

  function NetworkLines(lines: seq<string>): seq<RawValue> {
    if lines == [] then []
    else
      var n := |lines| - 1;
      NetworkLines(lines[..n]) + match NetworkOn(LineNumber(n), lines[n]) case None => [] case Some(v) => [v]
  }

  function Networks(zones: seq<RawZone>): seq<RawValue> {
    seq(|zones|, i requires 0 <= i < |zones| => zones[i].network)
  }

  lemma NetworkEffect(cfg: RawConfig, line: nat, raw: string)
    ensures NetworkOn(line, raw).Some? ==> LineEffect(cfg, line, raw) == AddZone(NetworkOn(line, raw).value)
    ensures NetworkOn(line, raw).None? ==> !LineEffect(cfg, line, raw).AddZone?
  {
    ReadLineFaithful(line, raw);
  }

  lemma EffectNetworks(cfg: RawConfig, effect: Effect)
    ensures Networks(ApplyEffect(cfg, effect).zones) == Networks(cfg.zones) + if effect.AddZone? then [effect.value] else []
  {
  }

  /** Every `network` line opens a zone, in order, and only those do. */
  lemma {:induction false} NetworksInOrder(lines: seq<string>)
    ensures Networks(ConfigOf(lines).zones) == NetworkLines(lines)
  {
    if lines != [] {
      var n := |lines| - 1;
      NetworksInOrder(lines[..n]);
      var before := ConfigOf(lines[..n]);
      NetworkEffect(before, LineNumber(n), lines[n]);
      EffectNetworks(before, LineEffect(before, LineNumber(n), lines[n]));
    }
  }

  // ---- diagnostics point at what they are about ----

  lemma StripKeywordExact(line: string, words: seq<string>)
    requires StripKeyword(line, words).Some?
    ensures var (offset, value) := StripKeyword(line, words).value;
      offset + |value| <= |line| && line[offset..offset + |value|] == value && value != ""
  {
    KeywordBound(line, words, true);
    TrimmedBehind(line, Keyword(line, words, true).value);
  }

  lemma TrimmedBehind(line: string, k: nat)
    requires k <= |line|
    ensures var rest := line[k..];
      var start := k + (|rest| - |TrimStart(rest)|);
      start + |Trim(rest)| <= |line| && line[start..start + |Trim(rest)|] == Trim(rest)
  {
    var rest := line[k..];
    TrimmedAt(rest);
    SliceOfSuffix(line, rest, |rest| - |TrimStart(rest)|, Trim(rest));
  }

  /** Where the text left by trimming stands. */
  lemma TrimmedAt(s: string)
    ensures var m := |s| - |TrimStart(s)|; m + |Trim(s)| <= |s| && s[m..m + |Trim(s)|] == Trim(s)
  {
    TrimStartExact(s);
    TrimEndExact(TrimStart(s));
  }

  /** The directive read from a line has its value where the span says, up to folded case. */
  lemma ValueIsAnchored(line: nat, raw: string, d: Directive, offset: nat, text: string)
    requires offset + |text| <= |TrimStart(raw)| && TrimStart(raw)[offset..offset + |text|] == text
    ensures ValueAt(line, raw, |raw| - |TrimStart(raw)| + offset, d, text).Anchored()
  {
    SliceBehindIndent(raw, offset, text);
    FoldedAnchored(line, raw, |raw| - |TrimStart(raw)| + offset, d, text);
  }

  lemma SliceBehindIndent(raw: string, offset: nat, text: string)
    requires offset + |text| <= |TrimStart(raw)| && TrimStart(raw)[offset..offset + |text|] == text
    ensures var start := |raw| - |TrimStart(raw)| + offset; start + |text| <= |raw| && raw[start..start + |text|] == text
  {
    TrimStartExact(raw);
    SliceOfSuffix(raw, TrimStart(raw), offset, text);
  }

  lemma DirectiveSlice(ds: seq<Directive>, body: string, d: Directive, offset: nat, text: string)
    requires FindDirective(ds, body) == Some((d, offset, text))
    ensures offset + |text| <= |body| && body[offset..offset + |text|] == text
  {
    var i := FindDirectiveInTable(ds, body);
    StripKeywordExact(body, ds[i].words);
  }

  lemma FoldedAnchored(line: nat, raw: string, start: nat, d: Directive, text: string)
    requires start + |text| <= |raw| && raw[start..start + |text|] == text
    ensures ValueAt(line, raw, start, d, text).Anchored()
  {
    LowerTwice(text);
  }

  lemma SliceOfSuffix(raw: string, body: string, offset: nat, text: string)
    requires |body| <= |raw| && body == raw[|raw| - |body|..]
    requires offset + |text| <= |body| && body[offset..offset + |text|] == text
    ensures var start := |raw| - |body| + offset; start + |text| <= |raw| && raw[start..start + |text|] == text
  {
  }

  /** Everything read from a file lies where it claims to: values in their lines, carets in their snippets. */
  predicate ZoneAnchored(z: RawZone) {
    && z.network.Anchored()
    && (z.resolvesTo.Some? ==> z.resolvesTo.value.Anchored())
    && (z.upstream.Some? ==> z.upstream.value.Anchored())
  }

  predicate GlobalAnchored(key: GlobalKey, v: RawValue) {
    if key == RrlOff then FlagAnchored(v) else v.Anchored()
  }

  predicate AllAnchored(cfg: RawConfig) {
    && (forall i :: 0 <= i < |cfg.listen| ==> cfg.listen[i].Anchored())
    && (forall i :: 0 <= i < |cfg.zones| ==> ZoneAnchored(cfg.zones[i]))
    && (forall i :: 0 <= i < |cfg.globals| ==> GlobalAnchored(cfg.globals[i].key, cfg.globals[i].value))
  }

  predicate EffectAnchored(effect: Effect) {
    match effect
    case Nothing => true
    case AddListen(v) => v.Anchored()
    case AddZone(v) => v.Anchored()
    case FillResolves(v) => v.Anchored()
    case FillUpstream(v) => v.Anchored()
    case AddGlobal(key, v) => GlobalAnchored(key, v)
    case Report(e) => InLine(e)
  }

  lemma LineAnchored(cfg: RawConfig, line: nat, untrimmed: string)
    ensures EffectAnchored(LineEffect(cfg, line, untrimmed))
  {
    ReadLineFaithful(line, untrimmed);
  }

  lemma {:induction false} ParsedAnchored(lines: seq<string>)
    ensures AllAnchored(ConfigOf(lines))
    ensures forall i :: 0 <= i < |ErrorsOf(lines)| ==> InLine(ErrorsOf(lines)[i])
  {
    if lines != [] {
      var n := |lines| - 1;
      var before := ConfigOf(lines[..n]);
      ParsedAnchored(lines[..n]);
      LineAnchored(before, LineNumber(n), lines[n]);
      EffectKeepsAnchors(before, LineEffect(before, LineNumber(n), lines[n]));
    }
  }

  lemma EffectKeepsAnchors(cfg: RawConfig, effect: Effect)
    requires AllAnchored(cfg) && EffectAnchored(effect)
    ensures AllAnchored(ApplyEffect(cfg, effect))
  {
  }

  // ---- lines that fit no keyword ----

  lemma {:induction false} FirstWordExact(s: string)
    ensures Delimited(s, |FirstWord(s)|) && FirstWord(s) == s[..|FirstWord(s)|]
    ensures forall i :: 0 <= i < |FirstWord(s)| ==> !IsSpace(s[i])
  {
    if s != "" && !IsSpace(s[0]) {
      FirstWordExact(s[1..]);
      var k := |FirstWord(s)|;
      assert s == [s[0]] + s[1..];
    }
  }

  /** A line starts with a keyword's first word exactly when its own first word is that, in any case. */
  lemma StartsWithWordExact(body: string, word: string)
    requires CleanWord(word)
    ensures StartsWithWord(body, word) <==> EqIgnoreCase(FirstWord(body), word)
  {
    FirstWordExact(body);
    var w := FirstWord(body);
    if StartsWithWord(body, word) {
      NotLonger(body, w, word);
    }
    if EqIgnoreCase(w, word) {
      assert |w| == |Lower(w)| == |Lower(word)| == |word|;
    }
  }

  /**
    A significant line that fits nothing is reported as a keyword missing its value exactly when
    its first word is, in any case, the first word of some keyword; otherwise as unknown.
   */
  lemma UnmatchedExact(line: nat, raw: string, indent: nat, body: string)
    ensures UnmatchedLine(line, raw, indent, body).kind.MissingValue? <==>
      EqIgnoreCase(FirstWord(body), FLAG_WORDS[0]) || exists i :: 0 <= i < |DIRECTIVES| && EqIgnoreCase(FirstWord(body), DIRECTIVES[i].words[0])
    ensures !UnmatchedLine(line, raw, indent, body).kind.MissingValue? ==>
      UnmatchedLine(line, raw, indent, body).kind == UnknownDirective(FirstWord(body))
  {
    forall i | 0 <= i < |DIRECTIVES|
      ensures DIRECTIVES[i].words != [] && CleanWord(DIRECTIVES[i].words[0])
      ensures StartsWithWord(body, DIRECTIVES[i].words[0]) <==> EqIgnoreCase(FirstWord(body), DIRECTIVES[i].words[0])
    {
      TableIsDistinct(i);
      StartsWithWordExact(body, DIRECTIVES[i].words[0]);
    }
    FlagIsDistinct();
    StartsWithWordExact(body, FLAG_WORDS[0]);
    KnownKeywordExact(DIRECTIVES, body);
  }

  lemma {:induction false} KnownKeywordExact(ds: seq<Directive>, body: string)
    requires forall i :: 0 <= i < |ds| ==> ds[i].words != []
    ensures KnownKeyword(ds, body).Some? <==>
      StartsWithWord(body, FLAG_WORDS[0]) || exists i :: 0 <= i < |ds| && StartsWithWord(body, ds[i].words[0])
  {
    if ds != [] {
      KnownKeywordExact(ds[1..], body);
      if i :| 0 <= i < |ds| - 1 && StartsWithWord(body, ds[1..][i].words[0]) {
        assert ds[i + 1] == ds[1..][i];
      }
      if i :| 0 <= i < |ds| && StartsWithWord(body, ds[i].words[0]) {
        if i > 0 {
          assert ds[1..][i - 1] == ds[i];
        }
      }
    }
  }
}
