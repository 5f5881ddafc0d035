/** The line-oriented configuration parser (src/config/parse.rs). */
module ConfigParse {
  import opened Wrappers
  import opened Ascii
  import opened Text
  import opened ConfigText

  datatype Scope = GlobalScope | ZoneScope | Anywhere

  datatype Target = ToListen | ToNetwork | ToResolves | ToUpstream | ToGlobal(key: GlobalKey)

  datatype Directive = Directive(words: seq<string>, display: string, scope: Scope, target: Target, lowercase: bool)

  const DIRECTIVES: seq<Directive> := [
    Directive(["resolves", "to"], "resolves to", ZoneScope, ToResolves, false),
    Directive(["with", "upstream"], "with upstream", ZoneScope, ToUpstream, true),
    Directive(["rrl", "responses-per-second"], "rrl responses-per-second", GlobalScope, ToGlobal(RrlRps), true),
    Directive(["rrl", "burst"], "rrl burst", GlobalScope, ToGlobal(RrlBurst), true),
    Directive(["rrl", "slip"], "rrl slip", GlobalScope, ToGlobal(RrlSlip), true),
    Directive(["upstream-timeout"], "upstream-timeout", GlobalScope, ToGlobal(UpstreamTimeout), true),
    Directive(["max-udp-payload"], "max-udp-payload", GlobalScope, ToGlobal(MaxUdpPayload), true),
    Directive(["out-of-zone"], "out-of-zone", GlobalScope, ToGlobal(OutOfZone), true),
    Directive(["hostmaster"], "hostmaster", GlobalScope, ToGlobal(Hostmaster), true),
    Directive(["primary"], "primary", GlobalScope, ToGlobal(Primary), true),
    Directive(["network"], "network", Anywhere, ToNetwork, true),
    Directive(["listen"], "listen", Anywhere, ToListen, true),
    Directive(["ttl"], "ttl", GlobalScope, ToGlobal(Ttl), true),
    Directive(["ns"], "ns", GlobalScope, ToGlobal(NsKey), true)
  ]

  /** The one keyword whose entire line is the directive. */
  const FLAG_WORDS: seq<string> := ["rrl", "off"]
  const FLAG_DISPLAY: string := "rrl off"

  const LINE_MAX: nat := 0xFFFF_FFFF

  // ---- keywords ----

  /**
    How many bytes the keyword words take up at the start of `line`, if they match: words are
    compared without case and separated by white space.
   */
  function Keyword(line: string, words: seq<string>, first: bool): Option<nat>
    decreases |words|
  {
    if words == [] then Some(0)
    else
      var body := if first then line else TrimStart(line);
      if !first && |body| == |line| then None
      else if |body| < |words[0]| || !EqIgnoreCase(body[..|words[0]|], words[0]) then None
      else Shifted(|line| - |body| + |words[0]|, Keyword(body[|words[0]|..], words[1..], false))
  }

  function Shifted(offset: nat, r: Option<nat>): Option<nat> {
    match r
    case None => None
    case Some(n) => Some(offset + n)
  }

  lemma {:induction false} KeywordBound(line: string, words: seq<string>, first: bool)
    ensures Keyword(line, words, first).Some? ==> Keyword(line, words, first).value <= |line|
    decreases |words|
  {
    if words != [] {
      var body := if first then line else TrimStart(line);
      if |words[0]| <= |body| {
        KeywordBound(body[|words[0]|..], words[1..], false);
      }
    }
  }

  /** `match_words`: the offset of what follows the keyword. */
  method MatchWords(line: string, words: seq<string>) returns (r: Option<nat>)
    ensures r == Keyword(line, words, true)
    ensures r.Some? ==> r.value <= |line|
  {
    KeywordBound(line, words, true);
    var rest := line;
    var consumed: nat := 0;
    var i := 0;
    while i < |words|
      invariant 0 <= i <= |words|
      invariant Keyword(line, words, true) == Shifted(consumed, Keyword(rest, words[i..], i == 0))
    {
      var word := words[i];
      assert words[i..][0] == word && words[i..][1..] == words[i + 1..];
      if i > 0 {
        var trimmed := TrimStart(rest);
        if |trimmed| == |rest| {
          return None;
        }
        consumed := consumed + (|rest| - |trimmed|);
        rest := trimmed;
      }
      if |rest| < |word| || !EqIgnoreCase(rest[..|word|], word) {
        return None;
      }
      consumed := consumed + |word|;
      rest := rest[|word|..];
      i := i + 1;
    }
    assert words[i..] == [];
    return Some(consumed);
  }

  /** `strip_keyword`: the offset of the value, and the value without trailing white space. */
  function StripKeyword(line: string, words: seq<string>): Option<(nat, string)> {
    KeywordBound(line, words, true);
    match Keyword(line, words, true)
    case None => None
    case Some(consumed) =>
      var rest := line[consumed..];
      var trimmed := TrimStart(rest);
      var value := TrimEnd(trimmed);
      if |trimmed| == |rest| || value == "" then None
      else Some((consumed + (|rest| - |trimmed|), value))
  }

  /** `matches_flag`. */
  predicate MatchesFlag(line: string, words: seq<string>) {
    KeywordBound(line, words, true);
    Keyword(line, words, true).Some? && Trim(line[Keyword(line, words, true).value..]) == ""
  }

  /** `starts_with_word`. */
  predicate StartsWithWord(line: string, word: string) {
    && |word| <= |line|
    && EqIgnoreCase(line[..|word|], word)
    && (|line| == |word| || IsSpace(line[|word|]))
  }

  /** Everything up to the first white space. */
  function FirstWord(s: string): (w: string)
    ensures w <= s
  {
    if s == "" || IsSpace(s[0]) then "" else [s[0]] + FirstWord(s[1..])
  }

  function FindDirective(ds: seq<Directive>, body: string): Option<(Directive, nat, string)> {
    if ds == [] then None
    else
      match StripKeyword(body, ds[0].words)
      case Some((offset, value)) => Some((ds[0], offset, value))
      case None => FindDirective(ds[1..], body)
  }

  function KnownKeyword(ds: seq<Directive>, body: string): Option<string> {
    if ds == [] then (if StartsWithWord(body, FLAG_WORDS[0]) then Some(FLAG_DISPLAY) else None)
    else if ds[0].words != [] && StartsWithWord(body, ds[0].words[0]) then Some(ds[0].display)
    else KnownKeyword(ds[1..], body)
  }

  /** `unmatched_line_error`. */
  function UnmatchedLine(line: nat, raw: string, indent: nat, body: string): ConfigError {
    var word := FirstWord(body);
    var len := if |word| < 1 then 1 else |word|;
    ConfigError(line, raw, Some(Span(indent, indent + len)),
                match KnownKeyword(DIRECTIVES, body)
                case Some(display) => MissingValue(display)
                case None => UnknownDirective(word))
  }

  // ---- one line ----

  /** What one line contributes. */
  datatype Effect =
    | Nothing
    | AddListen(value: RawValue)
    | AddZone(value: RawValue)
    | FillResolves(value: RawValue)
    | FillUpstream(value: RawValue)
    | AddGlobal(key: GlobalKey, value: RawValue)
    | Report(error: ConfigError)

  function StripCr(raw: string): string {
    if raw != "" && raw[|raw| - 1] == '\r' then raw[..|raw| - 1] else raw
  }

  function FindGlobal(globals: seq<RawGlobal>, key: GlobalKey): Option<RawGlobal> {
    if globals == [] then None
    else if globals[0].key == key then Some(globals[0])
    else FindGlobal(globals[1..], key)
  }

  /** A line with something on it other than white space or a comment. */
  predicate Significant(raw: string) {
    var body := TrimStart(StripCr(raw));
    body != "" && body[0] != '#'
  }

  function DirectiveEffect(cfg: RawConfig, d: Directive, value: RawValue): Effect {
    if d.scope.GlobalScope? && cfg.zones != [] then Report(value.Error(GlobalAfterNetwork(d.display)))
    else if d.scope.ZoneScope? && cfg.zones == [] then Report(value.Error(DirectiveBeforeNetwork(d.display)))
    else
      match d.target
      case ToListen => AddListen(value)
      case ToNetwork => AddZone(value)
      case ToResolves => SlotEffect(cfg, d, value)
      case ToUpstream => SlotEffect(cfg, d, value)
      case ToGlobal(key) =>
        match FindGlobal(cfg.globals, key)
        case Some(first) =>
          if key == NsKey then AddGlobal(key, value)
          else Report(value.Error(DuplicateDirective(d.display, first.value.line)))
        case None => AddGlobal(key, value)
  }

  /** A value for a slot of the latest zone, which must still be empty. */
  function SlotEffect(cfg: RawConfig, d: Directive, value: RawValue): Effect {
    if cfg.zones == [] then Nothing
    else
      var zone := cfg.zones[|cfg.zones| - 1];
      match if d.target.ToResolves? then zone.resolvesTo else zone.upstream
      case Some(first) => Report(value.Error(DuplicateDirective(d.display, first.line)))
      case None => if d.target.ToResolves? then FillResolves(value) else FillUpstream(value)
  }

  /** How a line reads, whatever came before it. */
  datatype Reading = Blank | Flag(value: RawValue) | Setting(directive: Directive, value: RawValue) | Unreadable(error: ConfigError)

  function ReadLine(line: nat, untrimmed: string): Reading {
    var raw := StripCr(untrimmed);
    var body := TrimStart(raw);
    var indent := |raw| - |body|;
    if body == "" || body[0] == '#' then Blank
    else if MatchesFlag(body, FLAG_WORDS) then Flag(RawValue(line, raw, Span(indent, |raw|), ""))
    else
      match FindDirective(DIRECTIVES, body)
      case None => Unreadable(UnmatchedLine(line, raw, indent, body))
      case Some((d, offset, text)) => Setting(d, ValueAt(line, raw, indent + offset, d, text))
  }

  /** What it then does depends on what was read so far. */
  function ReadingEffect(cfg: RawConfig, reading: Reading): Effect {
    match reading
    case Blank => Nothing
    case Flag(value) => FlagEffect(cfg, value)
    case Setting(d, value) => DirectiveEffect(cfg, d, value)
    case Unreadable(error) => Report(error)
  }

  function LineEffect(cfg: RawConfig, line: nat, untrimmed: string): Effect {
    ReadingEffect(cfg, ReadLine(line, untrimmed))
  }

  /** The value of a directive, folded unless the directive keeps case. */
  function ValueAt(line: nat, raw: string, start: nat, d: Directive, text: string): RawValue {
    var folded := if d.lowercase then Lower(text) else text;
    RawValue(line, raw, Span(start, start + |folded|), folded)
  }

  function FlagEffect(cfg: RawConfig, value: RawValue): Effect {
    if cfg.zones != [] then Report(value.Error(GlobalAfterNetwork(FLAG_DISPLAY))) else AddGlobal(RrlOff, value)
  }

  function ApplyEffect(cfg: RawConfig, effect: Effect): RawConfig {
    match effect
    case Nothing => cfg
    case Report(_) => cfg
    case AddListen(v) => cfg.(listen := cfg.listen + [v])
    case AddZone(v) => cfg.(zones := cfg.zones + [RawZone(v, None, None)])
    case FillResolves(v) =>
      if cfg.zones == [] then cfg
      else
        var n := |cfg.zones| - 1;
        cfg.(zones := cfg.zones[n := cfg.zones[n].(resolvesTo := Some(v))])
    case FillUpstream(v) =>
      if cfg.zones == [] then cfg
      else
        var n := |cfg.zones| - 1;
        cfg.(zones := cfg.zones[n := cfg.zones[n].(upstream := Some(v))])
    case AddGlobal(key, v) => cfg.(globals := cfg.globals + [RawGlobal(key, v)])
  }

  function ApplyErrors(errors: seq<ConfigError>, effect: Effect): seq<ConfigError> {
    if effect.Report? then errors + [effect.error] else errors
  }

  // ---- the whole file ----

  /** `str::lines`: the final line break is optional, and a carriage return before one is dropped. */
  function Lines(input: string): seq<string> {
    if input == "" then []
    else
      var n := SepAt(input, '\n');
      if n == |input| then [input] else [StripCr(input[..n])] + Lines(input[n + 1..])
  }

  function LineNumber(index: nat): nat {
    if index + 1 < LINE_MAX then index + 1 else LINE_MAX
  }

  const EMPTY := RawConfig([], [], [])

  function ConfigOf(lines: seq<string>): RawConfig {
    if lines == [] then EMPTY
    else
      var n := |lines| - 1;
      var before := ConfigOf(lines[..n]);
      ApplyEffect(before, LineEffect(before, LineNumber(n), lines[n]))
  }

  function ErrorsOf(lines: seq<string>): seq<ConfigError> {
    if lines == [] then []
    else
      var n := |lines| - 1;
      ApplyErrors(ErrorsOf(lines[..n]), LineEffect(ConfigOf(lines[..n]), LineNumber(n), lines[n]))
  }

  /** `parse`. */
  method Parse(input: string) returns (cfg: RawConfig, errors: seq<ConfigError>)
    ensures cfg == ConfigOf(Lines(input)) && errors == ErrorsOf(Lines(input))
  {
    var lines := Lines(input);
    cfg, errors := EMPTY, [];
    for idx := 0 to |lines|
      invariant cfg == ConfigOf(lines[..idx]) && errors == ErrorsOf(lines[..idx])
    {
      assert lines[..idx + 1][..idx] == lines[..idx];
      cfg, errors := ParseLine(cfg, errors, LineNumber(idx), lines[idx]);
    }
    assert lines[..|lines|] == lines;
  }

  /** The body of the loop over the lines. */
  method ParseLine(cfg: RawConfig, errors: seq<ConfigError>, lineNo: nat, line: string)
    returns (cfg': RawConfig, errors': seq<ConfigError>)
    ensures cfg' == ApplyEffect(cfg, LineEffect(cfg, lineNo, line))
    ensures errors' == ApplyErrors(errors, LineEffect(cfg, lineNo, line))
  {
    ghost var reading := ReadLine(lineNo, line);
    cfg', errors' := cfg, errors;
    var raw := StripCr(line);
    var body := TrimStart(raw);
    var indent := |raw| - |body|;
    if body == "" || body[0] == '#' {
      return;
    }
    if MatchesFlag(body, FLAG_WORDS) {
      var value := RawValue(lineNo, raw, Span(indent, |raw|), "");
      assert reading == Flag(value);
      if cfg.zones != [] {
        errors' := errors + [value.Error(GlobalAfterNetwork(FLAG_DISPLAY))];
      } else {
        cfg' := cfg.(globals := cfg.globals + [RawGlobal(RrlOff, value)]);
      }
      return;
    }
    match FindDirective(DIRECTIVES, body) {
      case None =>
        errors' := errors + [UnmatchedLine(lineNo, raw, indent, body)];
      case Some((d, offset, text)) =>
        cfg', errors' := Attach(cfg, errors, d, ValueAt(lineNo, raw, indent + offset, d, text));
    }
  }

  /** The scope check and the attachment of a value to its target. */
  method Attach(cfg: RawConfig, errors: seq<ConfigError>, d: Directive, value: RawValue)
    returns (cfg': RawConfig, errors': seq<ConfigError>)
    ensures cfg' == ApplyEffect(cfg, DirectiveEffect(cfg, d, value))
    ensures errors' == ApplyErrors(errors, DirectiveEffect(cfg, d, value))
  {
    cfg', errors' := cfg, errors;
    if d.scope.GlobalScope? && cfg.zones != [] {
      errors' := errors + [value.Error(GlobalAfterNetwork(d.display))];
      return;
    }
    if d.scope.ZoneScope? && cfg.zones == [] {
      errors' := errors + [value.Error(DirectiveBeforeNetwork(d.display))];
      return;
    }
    match d.target {
      case ToListen =>
        cfg' := cfg.(listen := cfg.listen + [value]);
      case ToNetwork =>
        cfg' := cfg.(zones := cfg.zones + [RawZone(value, None, None)]);
      case ToResolves =>
        cfg', errors' := FillSlot(cfg, errors, d, value);
      case ToUpstream =>
        cfg', errors' := FillSlot(cfg, errors, d, value);
      case ToGlobal(key) =>
        if key != NsKey {
          var first := FindGlobal(cfg.globals, key);
          if first.Some? {
            errors' := errors + [value.Error(DuplicateDirective(d.display, first.value.value.line))];
            return;
          }
        }
        cfg' := cfg.(globals := cfg.globals + [RawGlobal(key, value)]);
    }
  }

  /** Fills a slot of the latest zone, once. */
  method FillSlot(cfg: RawConfig, errors: seq<ConfigError>, d: Directive, value: RawValue)
    returns (cfg': RawConfig, errors': seq<ConfigError>)
    requires d.target.ToResolves? || d.target.ToUpstream?
    ensures cfg' == ApplyEffect(cfg, SlotEffect(cfg, d, value))
    ensures errors' == ApplyErrors(errors, SlotEffect(cfg, d, value))
  {
    cfg', errors' := cfg, errors;
    if cfg.zones != [] {
      var n := |cfg.zones| - 1;
      var zone := cfg.zones[n];
      var slot := if d.target.ToResolves? then zone.resolvesTo else zone.upstream;
      match slot {
        case Some(first) =>
          errors' := errors + [value.Error(DuplicateDirective(d.display, first.line))];
        case None =>
          zone := if d.target.ToResolves? then zone.(resolvesTo := Some(value)) else zone.(upstream := Some(value));
          cfg' := cfg.(zones := cfg.zones[n := zone]);
      }
    }
  }
}
