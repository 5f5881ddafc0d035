/** Which repeated lines the configuration parser reports, and which it takes (src/config/parse.rs). */
module Repeats {
  import opened Wrappers
  import opened Ascii
  import opened ConfigText
  import opened ConfigParse
  import opened ParseFacts

  /** What each line of a file did, in order. */
  function Effects(lines: seq<string>): (r: seq<Effect>)
    ensures |r| == |lines|
  {
    if lines == [] then []
    else
      var n := |lines| - 1;
      Effects(lines[..n]) + [LineEffect(ConfigOf(lines[..n]), LineNumber(n), lines[n])]
  }

  function Applied(effects: seq<Effect>): RawConfig {
    if effects == [] then EMPTY else ApplyEffect(Applied(effects[..|effects| - 1]), effects[|effects| - 1])
  }

  /** The targets that hold one value only. */
  predicate SingleValued(target: Target) {
    match target
    case ToListen => false
    case ToNetwork => false
    case ToResolves => true
    case ToUpstream => true
    case ToGlobal(key) => key != NsKey
  }

  predicate Fills(effect: Effect, target: Target) {
    match target
    case ToListen => false
    case ToNetwork => false
    case ToResolves => effect.FillResolves?
    case ToUpstream => effect.FillUpstream?
    case ToGlobal(key) => effect.AddGlobal? && effect.key == key
  }

  /** Step `k` accepted a value for the target: for a slot, the slot of the block still open. */
  predicate Filling(effects: seq<Effect>, k: nat, target: Target) {
    && k < |effects|
    && Fills(effects[k], target)
    && (target.ToGlobal? || forall j :: k <= j < |effects| ==> !effects[j].AddZone?)
  }

  /** The scope check. */
  predicate InScope(cfg: RawConfig, d: Directive) {
    match d.scope
    case GlobalScope => cfg.zones == []
    case ZoneScope => cfg.zones != []
    case Anywhere => true
  }

  /** The line is turned away as a repetition. */
  predicate IsRepeat(effect: Effect) {
    effect.Report? && effect.error.kind.DuplicateDirective?
  }

  // ---- the state remembers the lines ----

  /** The value a target holds, as the parser looks it up. */
  function Held(cfg: RawConfig, target: Target): Option<RawValue> {
    match target
    case ToListen => None
    case ToNetwork => None
    case ToResolves => if cfg.zones == [] then None else cfg.zones[|cfg.zones| - 1].resolvesTo
    case ToUpstream => if cfg.zones == [] then None else cfg.zones[|cfg.zones| - 1].upstream
    case ToGlobal(key) => match FindGlobal(cfg.globals, key) case None => None case Some(g) => Some(g.value)
  }

  lemma {:induction false} FindGlobalAppend(globals: seq<RawGlobal>, g: RawGlobal, key: GlobalKey)
    ensures FindGlobal(globals + [g], key) ==
      if FindGlobal(globals, key).Some? then FindGlobal(globals, key) else if g.key == key then Some(g) else None
  {
    if globals == [] {
      assert globals + [g] == [g];
    } else {
      assert (globals + [g])[1..] == globals[1..] + [g];
      FindGlobalAppend(globals[1..], g, key);
    }
  }

  /** How one accepted effect changes what a target holds. */
  lemma HeldAfter(cfg: RawConfig, effect: Effect, target: Target)
    requires effect.FillResolves? || effect.FillUpstream? ==> cfg.zones != []
    requires Fills(effect, target) && !target.ToGlobal? ==> Held(cfg, target).None?
    ensures Held(ApplyEffect(cfg, effect), target) ==
      if Held(cfg, target).Some? && (target.ToGlobal? || !effect.AddZone?) then Held(cfg, target)
      else if Fills(effect, target) then Some(effect.value)
      else None
  {
    if effect.AddGlobal? && target.ToGlobal? {
      FindGlobalAppend(cfg.globals, RawGlobal(effect.key, effect.value), target.key);
    }
  }

  /** Every step does what some line with its number does. */
  predicate Accounted(effects: seq<Effect>) {
    forall k :: 0 <= k < |effects| ==>
      effects[k].Nothing? || AccountsFor(Applied(effects[..k]), effects[k], LineNumber(k))
  }

  lemma {:induction false} EffectsAccounted(lines: seq<string>)
    ensures Applied(Effects(lines)) == ConfigOf(lines) && Accounted(Effects(lines))
  {
    if lines != [] {
      var n := |lines| - 1;
      EffectsAccounted(lines[..n]);
      LineAccounts(ConfigOf(lines[..n]), LineNumber(n), lines[n]);
      AccountedAppend(Effects(lines[..n]), LineEffect(ConfigOf(lines[..n]), LineNumber(n), lines[n]));
    }
  }

  lemma AccountedAppend(front: seq<Effect>, effect: Effect)
    requires Accounted(front)
    requires effect.Nothing? || AccountsFor(Applied(front), effect, LineNumber(|front|))
    ensures Accounted(front + [effect]) && Applied(front + [effect]) == ApplyEffect(Applied(front), effect)
  {
    var all := front + [effect];
    assert all[..|front|] == front;
    forall k | 0 <= k < |front| ensures all[..k] == front[..k] && all[k] == front[k] {
    }
  }

  lemma AccountedFront(effects: seq<Effect>)
    requires Accounted(effects) && effects != []
    ensures Accounted(effects[..|effects| - 1])
  {
    var front := effects[..|effects| - 1];
    forall k | 0 <= k < |front| ensures front[..k] == effects[..k] && front[k] == effects[k] {
    }
  }

  /** What a target holds is the value of the step that filled it. */
  lemma {:induction false} HeldFrom(effects: seq<Effect>, target: Target) returns (k: nat)
    requires Accounted(effects) && Held(Applied(effects), target).Some?
    ensures Filling(effects, k, target) && Held(Applied(effects), target).value.line == LineNumber(k)
  {
    var n := |effects| - 1;
    var front := effects[..n];
    AccountedFront(effects);
    HeldAfter(Applied(front), effects[n], target);
    if Held(Applied(front), target).Some? && (target.ToGlobal? || !effects[n].AddZone?) {
      k := HeldFrom(front, target);
    } else {
      k := n;
    }
  }

  lemma {:induction false} FilledIsHeld(effects: seq<Effect>, k: nat, target: Target)
    requires Accounted(effects) && Filling(effects, k, target)
    ensures Held(Applied(effects), target).Some?
  {
    var n := |effects| - 1;
    var front := effects[..n];
    AccountedFront(effects);
    if k < n {
      FilledIsHeld(front, k, target);
    }
    HeldAfter(Applied(front), effects[n], target);
  }

  // ---- repetitions are reported exactly ----

  lemma DirectiveRepeat(cfg: RawConfig, d: Directive, value: RawValue)
    ensures IsRepeat(DirectiveEffect(cfg, d, value)) <==> InScope(cfg, d) && SingleValued(d.target) && Held(cfg, d.target).Some?
    ensures IsRepeat(DirectiveEffect(cfg, d, value)) ==>
      DirectiveEffect(cfg, d, value).error == value.Error(DuplicateDirective(d.display, Held(cfg, d.target).value.line))
    ensures DirectiveEffect(cfg, d, value).Report? <==> !InScope(cfg, d) || IsRepeat(DirectiveEffect(cfg, d, value))
  {
  }

  /** Some earlier line filled the target. */
  predicate AlreadyFilled(lines: seq<string>, target: Target) {
    exists k :: 0 <= k < |lines| && Filling(Effects(lines), k, target)
  }

  /** What is reported about a value names the line that filled its target first. */
  predicate NamesFilling(lines: seq<string>, d: Directive, value: RawValue, error: ConfigError) {
    exists k :: 0 <= k < |lines| && Filling(Effects(lines), k, d.target) && error == value.Error(DuplicateDirective(d.display, LineNumber(k)))
  }

  lemma HeldIsFilled(lines: seq<string>, target: Target) returns (k: nat)
    requires Held(ConfigOf(lines), target).Some?
    ensures k < |lines| && Filling(Effects(lines), k, target) && Held(ConfigOf(lines), target).value.line == LineNumber(k)
  {
    EffectsAccounted(lines);
    k := HeldFrom(Effects(lines), target);
  }

  lemma FilledExact(lines: seq<string>, target: Target)
    ensures Held(ConfigOf(lines), target).Some? <==> AlreadyFilled(lines, target)
  {
    EffectsAccounted(lines);
    if Held(ConfigOf(lines), target).Some? {
      var k := HeldIsFilled(lines, target);
    }
    if k :| 0 <= k < |lines| && Filling(Effects(lines), k, target) {
      FilledIsHeld(Effects(lines), k, target);
    }
  }

  /** What becomes of a directive read after `lines`. */
  predicate ReportedExactly(lines: seq<string>, d: Directive, value: RawValue, effect: Effect) {
    && (IsRepeat(effect) <==> InScope(ConfigOf(lines), d) && SingleValued(d.target) && AlreadyFilled(lines, d.target))
    && (IsRepeat(effect) ==> NamesFilling(lines, d, value, effect.error))
    && (effect.Report? <==> !InScope(ConfigOf(lines), d) || IsRepeat(effect))
  }

  lemma SettingExact(lines: seq<string>, d: Directive, value: RawValue)
    ensures ReportedExactly(lines, d, value, DirectiveEffect(ConfigOf(lines), d, value))
  {
    DirectiveRepeat(ConfigOf(lines), d, value);
    FilledExact(lines, d.target);
    if Held(ConfigOf(lines), d.target).Some? {
      var k := HeldIsFilled(lines, d.target);
    }
  }

  /**
    A line is reported as a repetition if and only if it reads as a directive in scope, for a
    target of a single value, which an earlier accepted line already filled; the report names
    that line. Any other directive in scope is accepted.
   */
  lemma RepeatExact(lines: seq<string>, line: nat, raw: string)
    ensures var reading, effect := ReadLine(line, raw), LineEffect(ConfigOf(lines), line, raw);
      && (reading.Setting? ==> ReportedExactly(lines, reading.directive, reading.value, effect))
      && (!reading.Setting? ==> !IsRepeat(effect))
  {
    var reading := ReadLine(line, raw);
    if reading.Setting? {
      SettingExact(lines, reading.directive, reading.value);
    } else {
      UnreadableIsNoRepeat(line, raw);
    }
  }

  lemma UnreadableIsNoRepeat(line: nat, raw: string)
    ensures ReadLine(line, raw).Unreadable? ==> !ReadLine(line, raw).error.kind.DuplicateDirective?
  {
  }

  // ---- what can occur twice ----

  function CountKey(globals: seq<RawGlobal>, key: GlobalKey): nat {
    if globals == [] then 0
    else CountKey(globals[..|globals| - 1], key) + if globals[|globals| - 1].key == key then 1 else 0
  }

  lemma {:induction false} NotFoundIsZero(globals: seq<RawGlobal>, key: GlobalKey)
    requires FindGlobal(globals, key).None?
    ensures CountKey(globals, key) == 0
  {
    if globals != [] {
      var n := |globals| - 1;
      FindGlobalAppend(globals[..n], globals[n], key);
      assert globals == globals[..n] + [globals[n]];
      NotFoundIsZero(globals[..n], key);
    }
  }

  lemma OnlyUnheldAdded(cfg: RawConfig, line: nat, raw: string, key: GlobalKey)
    requires key != NsKey && key != RrlOff
    ensures var effect := LineEffect(cfg, line, raw);
      effect.AddGlobal? && effect.key == key ==> FindGlobal(cfg.globals, key).None?
  {
  }

  lemma EffectCount(cfg: RawConfig, effect: Effect, key: GlobalKey)
    ensures CountKey(ApplyEffect(cfg, effect).globals, key) ==
      CountKey(cfg.globals, key) + if effect.AddGlobal? && effect.key == key then 1 else 0
  {
    if effect.AddGlobal? {
      assert (cfg.globals + [RawGlobal(effect.key, effect.value)])[..|cfg.globals|] == cfg.globals;
    }
  }

  /** In every file each global setting is kept at most once, name servers and the flag apart. */
  lemma {:induction false} SettingsOnce(lines: seq<string>, key: GlobalKey)
    requires key != NsKey && key != RrlOff
    ensures CountKey(ConfigOf(lines).globals, key) <= 1
  {
    if lines != [] {
      var n := |lines| - 1;
      var before := ConfigOf(lines[..n]);
      SettingsOnce(lines[..n], key);
      OnlyUnheldAdded(before, LineNumber(n), lines[n], key);
      EffectCount(before, LineEffect(before, LineNumber(n), lines[n]), key);
      if FindGlobal(before.globals, key).None? {
        NotFoundIsZero(before.globals, key);
      }
    }
  }

  /** The flag is kept once for each line of it before the first block, with no report. */
  lemma FlagCounts(lines: seq<string>, n: nat)
    requires |lines| == n + 1 && ReadLine(LineNumber(n), lines[n]).Flag? && ConfigOf(lines[..n]).zones == []
    ensures ConfigOf(lines).zones == []
    ensures CountKey(ConfigOf(lines).globals, RrlOff) == CountKey(ConfigOf(lines[..n]).globals, RrlOff) + 1
    ensures ErrorsOf(lines) == ErrorsOf(lines[..n])
  {
    FlagIsAdded(ConfigOf(lines[..n]), LineNumber(n), lines[n]);
  }

  lemma FlagIsAdded(cfg: RawConfig, line: nat, raw: string)
    requires ReadLine(line, raw).Flag? && cfg.zones == []
    ensures var effect := LineEffect(cfg, line, raw);
      && effect == AddGlobal(RrlOff, ReadLine(line, raw).value)
      && ApplyEffect(cfg, effect).zones == []
      && CountKey(ApplyEffect(cfg, effect).globals, RrlOff) == CountKey(cfg.globals, RrlOff) + 1
  {
    EffectCount(cfg, AddGlobal(RrlOff, ReadLine(line, raw).value), RrlOff);
  }

  const FLAG_LINE: string := "rrl off"

  lemma FlagLineReads(line: nat)
    ensures ReadLine(line, FLAG_LINE).Flag?
  {
    var s := FLAG_LINE;
    assert StripCr(s) == s && TrimStart(s) == s;
    var rest := s[3..];
    assert s[..3] == "rrl" && rest == " off";
    assert rest[1..] == "off" && TrimStart(rest) == "off";
    assert "off"[..3] == "off" && "off"[3..] == "";
    assert FLAG_WORDS[1..] == ["off"] && FLAG_WORDS[1..][1..] == [];
    assert Keyword("", [], false) == Some(0);
    assert Keyword(rest, ["off"], false) == Some(4);
    assert Keyword(s, FLAG_WORDS, true) == Some(7);
    assert s[7..] == "" && Trim("") == "";
  }

  /** A file that says `rrl off` twice is read without complaint and holds the setting twice. */
  lemma RepeatedFlag()
    ensures CountKey(ConfigOf([FLAG_LINE, FLAG_LINE]).globals, RrlOff) == 2
    ensures ErrorsOf([FLAG_LINE, FLAG_LINE]) == []
  {
    FlagLineReads(LineNumber(0));
    FlagLineReads(LineNumber(1));
    assert [FLAG_LINE][..0] == [] && [FLAG_LINE, FLAG_LINE][..1] == [FLAG_LINE];
    FlagCounts([FLAG_LINE], 0);
    FlagCounts([FLAG_LINE, FLAG_LINE], 1);
  }
}
