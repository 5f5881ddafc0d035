/**
  What each line of a configuration file does, by the keywords written on it: words in any case,
  separated by white space, and a value behind them (src/config/parse.rs).
 */
module Keywords {
  import opened Wrappers
  import opened Ascii
  import opened Text
  import opened ConfigText
  import opened ConfigParse
  import opened ParseFacts

  // ---- the lines of a file ----

  /** The line without a carriage return that ends it. */
  predicate Chomped(piece: string, line: string) {
    piece == line + "\r" || (piece == line && (line == "" || line[|line| - 1] != '\r'))
  }

  lemma StripCrExact(piece: string, line: string)
    ensures StripCr(piece) == line <==> Chomped(piece, line)
  {
    if piece != "" && piece[|piece| - 1] == '\r' {
      assert piece == piece[..|piece| - 1] + "\r";
    }
  }

  /**
    The pieces of a file between line feeds, and its lines: every piece before a feed without the
    carriage return that ends it, and the last piece as it is unless it is empty.
   */
  predicate LinesOf(pieces: seq<string>, lines: seq<string>)
    requires pieces != []
  {
    var n := |pieces| - 1;
    && |lines| == (if pieces[n] == "" then n else n + 1)
    && (forall i :: 0 <= i < n ==> Chomped(pieces[i], lines[i]))
    && (pieces[n] != "" ==> lines[n] == pieces[n])
  }

  lemma OneMoreLine(piece: string, line: string, pieces: seq<string>, lines: seq<string>)
    requires pieces != [] && LinesOf(pieces, lines) && Chomped(piece, line)
    ensures LinesOf([piece] + pieces, [line] + lines)
  {
  }

  /** The lines are read off the pieces, and the pieces put back together with line feeds are the file. */
  lemma {:induction false} LinesExact(input: string)
    ensures Join(Split(input, '\n'), '\n') == input
    ensures LinesOf(Split(input, '\n'), Lines(input))
  {
    JoinSplit(input, '\n');
    var k := SepAt(input, '\n');
    if k < |input| {
      var rest := input[k + 1..];
      LinesExact(rest);
      StripCrExact(input[..k], StripCr(input[..k]));
      OneMoreLine(input[..k], StripCr(input[..k]), Split(rest, '\n'), Lines(rest));
    }
  }

  // ---- words and value of a line ----

  /** What follows the first word, without the white space between. */
  function AfterWord(s: string): string {
    TrimStart(s[|FirstWord(s)|..])
  }

  /** The line begins with these words, in any case. */
  predicate StartsWords(s: string, words: seq<string>)
    decreases |words|
  {
    words == [] || (EqIgnoreCase(FirstWord(s), words[0]) && StartsWords(AfterWord(s), words[1..]))
  }

  /** What follows as many words, without the white space between. */
  function AfterWords(s: string, count: nat): string
    decreases count
  {
    if count == 0 then s else AfterWords(AfterWord(s), count - 1)
  }

  /** The line without indentation. */
  function Body(raw: string): string {
    TrimStart(StripCr(raw))
  }

  /** The line consists of the words, in any case, and the text behind them, which is not empty. */
  predicate Says(raw: string, words: seq<string>, text: string) {
    StartsWords(Body(raw), words) && TrimEnd(AfterWords(Body(raw), |words|)) == text && text != ""
  }

  /** The line consists of the words alone. */
  predicate SaysOnly(raw: string, words: seq<string>) {
    StartsWords(Body(raw), words) && TrimEnd(AfterWords(Body(raw), |words|)) == ""
  }

  // ---- keywords are matched word by word ----

  lemma TrimShorter(s: string)
    ensures |TrimStart(s)| < |s| <==> s != "" && IsSpace(s[0])
  {
  }

  lemma OneWord(body: string, w: string)
    requires CleanWord(w)
    ensures |w| <= |body| && EqIgnoreCase(body[..|w|], w) && Delimited(body, |w|) <==> EqIgnoreCase(FirstWord(body), w)
    ensures EqIgnoreCase(FirstWord(body), w) ==> |FirstWord(body)| == |w|
  {
    StartsWithWordExact(body, w);
    assert EqIgnoreCase(FirstWord(body), w) ==> |Lower(FirstWord(body))| == |Lower(w)|;
  }

  lemma NoWordNoText(s: string, words: seq<string>)
    requires words != [] && CleanWords(words) && StartsWords(s, words)
    ensures s != ""
  {
    assert |Lower(FirstWord(s))| == |Lower(words[0])|;
  }

  /** Where the keyword ends, what is left of the line behind white space is what follows the words. */
  predicate Fits(line: string, words: seq<string>, first: bool) {
    Keyword(line, words, first).Some? && Delimited(line, Keyword(line, words, first).value)
  }

  lemma KeywordHead(line: string, words: seq<string>, first: bool, body: string)
    requires words != [] && CleanWords(words) && body == (if first then line else TrimStart(line))
    ensures Fits(line, words, first) ==>
      && (first || |body| < |line|)
      && |words[0]| <= |body| && EqIgnoreCase(body[..|words[0]|], words[0]) && Delimited(body, |words[0]|)
      && Fits(body[|words[0]|..], words[1..], false)
  {
    if Fits(line, words, first) {
      KeywordDelimited(line, words, first);
    }
  }

  lemma KeywordBack(line: string, words: seq<string>, first: bool, body: string, rest: string, n: nat)
    requires words != [] && body == (if first then line else TrimStart(line)) && (first || |body| < |line|)
    requires |words[0]| <= |body| && EqIgnoreCase(body[..|words[0]|], words[0]) && rest == body[|words[0]|..]
    requires n <= |rest| && Keyword(rest, words[1..], false) == Some(n) && Delimited(rest, n)
    ensures Fits(line, words, first) && KeywordEnd(line, words, first) == rest[n..]
  {
    BodyIsTail(line, first, body);
    KeywordStep(line, words, first, body);
    EndsLater(line, words, first, body, rest, n);
  }

  lemma EndsLater(line: string, words: seq<string>, first: bool, body: string, rest: string, n: nat)
    requires words != [] && |body| <= |line| && body == line[|line| - |body|..]
    requires |words[0]| <= |body| && rest == body[|words[0]|..] && n <= |rest| && Delimited(rest, n)
    requires Keyword(line, words, first) == Some(|line| - |body| + |words[0]| + n)
    ensures Fits(line, words, first) && KeywordEnd(line, words, first) == rest[n..]
  {
    EndInTail(line, body, rest, |words[0]|, n);
    EndsAt(line, words, first, |line| - |body| + |words[0]| + n);
  }

  lemma EndsAt(line: string, words: seq<string>, first: bool, n: nat)
    requires n <= |line| && Keyword(line, words, first) == Some(n)
    ensures Fits(line, words, first) <==> Delimited(line, n)
    ensures Fits(line, words, first) ==> KeywordEnd(line, words, first) == line[n..]
  {
  }

  lemma KeywordStep(line: string, words: seq<string>, first: bool, body: string)
    requires words != [] && body == (if first then line else TrimStart(line))
    requires first || |body| < |line|
    requires |words[0]| <= |body| && EqIgnoreCase(body[..|words[0]|], words[0])
    ensures Keyword(line, words, first) == Shifted(|line| - |body| + |words[0]|, Keyword(body[|words[0]|..], words[1..], false))
  {
  }

  lemma BodyIsTail(line: string, first: bool, body: string)
    requires body == (if first then line else TrimStart(line))
    ensures |body| <= |line| && body == line[|line| - |body|..]
  {
    TrimStartExact(line);
  }

  lemma EndInTail(line: string, body: string, rest: string, w: nat, n: nat)
    requires |body| <= |line| && body == line[|line| - |body|..] && w <= |body| && rest == body[w..] && n <= |rest|
    ensures line[|line| - |body| + w + n..] == rest[n..]
    ensures Delimited(rest, n) <==> Delimited(line, |line| - |body| + w + n)
  {
  }

  /** What is left behind a keyword. */
  function KeywordEnd(line: string, words: seq<string>, first: bool): string
    requires Fits(line, words, first)
  {
    KeywordBound(line, words, first);
    line[Keyword(line, words, first).value..]
  }

  lemma {:induction false} FitsExact(line: string, words: seq<string>, first: bool, body: string)
    requires words != [] && CleanWords(words) && body == (if first then line else TrimStart(line))
    ensures Fits(line, words, first) <==> (first || |body| < |line|) && StartsWords(body, words)
    ensures Fits(line, words, first) ==> TrimStart(KeywordEnd(line, words, first)) == AfterWords(body, |words|)
    decreases |words|
  {
    KeywordHead(line, words, first, body);
    OneWord(body, words[0]);
    if EqIgnoreCase(FirstWord(body), words[0]) && (first || |body| < |line|) {
      var rest := body[|words[0]|..];
      assert rest == body[|FirstWord(body)|..];
      if |words| == 1 {
        NoMoreWords(rest, words);
        KeywordBack(line, words, first, body, rest, 0);
        assert AfterWords(body, 1) == AfterWords(AfterWord(body), 0);
      } else {
        FitsExact(rest, words[1..], false, TrimStart(rest));
        MoreWords(body, words, rest);
        if Fits(rest, words[1..], false) {
          KeywordBound(rest, words[1..], false);
          KeywordBack(line, words, first, body, rest, Keyword(rest, words[1..], false).value);
        }
      }
    }
  }

  lemma NoMoreWords(rest: string, words: seq<string>)
    requires |words| == 1
    ensures Keyword(rest, words[1..], false) == Some(0) && rest[0..] == rest
    ensures Delimited(rest, 0) ==> Fits(rest, words[1..], false) && KeywordEnd(rest, words[1..], false) == rest
  {
  }

  /** Words that follow stand behind white space. */
  lemma MoreWords(body: string, words: seq<string>, rest: string)
    requires |words| > 1 && CleanWords(words) && |words[0]| <= |body| && rest == body[|words[0]|..] && Delimited(body, |words[0]|)
    ensures StartsWords(TrimStart(rest), words[1..]) ==> |TrimStart(rest)| < |rest|
  {
    TrimShorter(rest);
    if StartsWords(TrimStart(rest), words[1..]) {
      NoWordNoText(TrimStart(rest), words[1..]);
      SpaceBehind(body, rest, |words[0]|);
    }
  }

  lemma SpaceBehind(body: string, rest: string, w: nat)
    requires w <= |body| && rest == body[w..] && Delimited(body, w) && TrimStart(rest) != ""
    ensures rest != "" && IsSpace(rest[0])
  {
  }

  /** The value of a keyword is found exactly on lines that say the words and a text, and is that text. */
  lemma StripExact(s: string, words: seq<string>)
    requires words != [] && CleanWords(words)
    ensures StripKeyword(s, words).Some? <==> StartsWords(s, words) && TrimEnd(AfterWords(s, |words|)) != ""
    ensures StripKeyword(s, words).Some? ==> StripKeyword(s, words).value.1 == TrimEnd(AfterWords(s, |words|))
  {
    FitsExact(s, words, true, s);
    KeywordBound(s, words, true);
    if Keyword(s, words, true).Some? {
      var rest := s[Keyword(s, words, true).value..];
      TrimShorter(rest);
      TrimStartExact(rest);
    }
    if StripKeyword(s, words).Some? {
      StripKeywordDelimited(s, words);
    }
  }

  lemma FlagExact(s: string, words: seq<string>)
    requires words != [] && CleanWords(words)
    ensures MatchesFlag(s, words) <==> StartsWords(s, words) && TrimEnd(AfterWords(s, |words|)) == ""
  {
    FitsExact(s, words, true, s);
    KeywordBound(s, words, true);
    if MatchesFlag(s, words) {
      FlagDelimited(s, words);
    }
  }

  // ---- reading a line ----

  /** A value read from this line: its text, where it stands. */
  predicate Carries(v: RawValue, line: nat, raw: string, text: string) {
    v.line == line && v.rawLine == StripCr(raw) && v.value == text && v.Anchored()
  }

  lemma WordsAreSignificant(s: string, words: seq<string>)
    requires words != [] && CleanWords(words) && StartsWords(s, words)
    ensures s != "" && s[0] != '#'
  {
    NoWordNoText(s, words);
    FirstWordExact(s);
    assert |Lower(FirstWord(s))| == |Lower(words[0])|;
    assert Lower(FirstWord(s))[0] == Lower(words[0])[0];
    CleanIsLower(words[0]);
    assert LowerChar(s[0]) == words[0][0];
  }

  lemma FirstInTable(body: string, i: nat)
    requires i < |DIRECTIVES| && StripKeyword(body, DIRECTIVES[i].words).Some?
    ensures FindDirective(DIRECTIVES, body).Some? && FindDirective(DIRECTIVES, body).value.0 == DIRECTIVES[i]
    ensures !MatchesFlag(body, FLAG_WORDS)
  {
    SomeDirective(DIRECTIVES, body, i);
    var k := FindDirectiveInTable(DIRECTIVES, body);
    AtMostOneDirective(body, i, k);
  }

  lemma {:induction false} SomeDirective(ds: seq<Directive>, body: string, i: nat)
    requires i < |ds| && StripKeyword(body, ds[i].words).Some?
    ensures FindDirective(ds, body).Some?
  {
    if StripKeyword(body, ds[0].words).None? {
      SomeDirective(ds[1..], body, i - 1);
    }
  }

  /** A line that says the words of a directive reads as that directive, with the text as its value. */
  lemma Reads(line: nat, raw: string, i: nat, text: string) returns (v: RawValue)
    requires i < |DIRECTIVES| && Says(raw, DIRECTIVES[i].words, text)
    ensures ReadLine(line, raw) == Setting(DIRECTIVES[i], v)
    ensures Carries(v, line, raw, if DIRECTIVES[i].lowercase then Lower(text) else text)
  {
    var d := DIRECTIVES[i];
    TableIsDistinct(i);
    NotEmptyWords(i);
    StripExact(Body(raw), d.words);
    WordsAreSignificant(Body(raw), d.words);
    FirstInTable(Body(raw), i);
    var k := FindDirectiveInTable(DIRECTIVES, Body(raw));
    AtMostOneDirective(Body(raw), i, k);
    v := ReadLine(line, raw).value;
    ReadLineFaithful(line, raw);
  }

  lemma NotEmptyWords(i: nat)
    requires i < |DIRECTIVES|
    ensures DIRECTIVES[i].words != []
  {
  }

  /** What such a line does. */
  lemma Does(cfg: RawConfig, line: nat, raw: string, i: nat, text: string) returns (v: RawValue)
    requires i < |DIRECTIVES| && Says(raw, DIRECTIVES[i].words, text)
    ensures LineEffect(cfg, line, raw) == DirectiveEffect(cfg, DIRECTIVES[i], v)
    ensures Carries(v, line, raw, if DIRECTIVES[i].lowercase then Lower(text) else text)
  {
    v := Reads(line, raw, i, text);
  }

  /** The error about a value. */
  function About(v: RawValue, kind: ErrorKind): Effect {
    Report(ConfigError(v.line, v.rawLine, Some(v.span), kind))
  }

  // ---- the keywords, one by one ----

  /** `network` opens a block. */
  lemma NetworkLine(cfg: RawConfig, line: nat, raw: string, text: string) returns (v: RawValue)
    requires Says(raw, ["network"], text)
    ensures Carries(v, line, raw, Lower(text)) && LineEffect(cfg, line, raw) == AddZone(v)
    ensures ApplyEffect(cfg, AddZone(v)) == cfg.(zones := cfg.zones + [RawZone(v, None, None)])
  {
    v := Does(cfg, line, raw, 10, text);
  }

  /** `listen` adds an address, wherever it stands. */
  lemma ListenLine(cfg: RawConfig, line: nat, raw: string, text: string) returns (v: RawValue)
    requires Says(raw, ["listen"], text)
    ensures Carries(v, line, raw, Lower(text)) && LineEffect(cfg, line, raw) == AddListen(v)
    ensures ApplyEffect(cfg, AddListen(v)) == cfg.(listen := cfg.listen + [v])
  {
    v := Does(cfg, line, raw, 11, text);
  }

  predicate ResolvesOnce(cfg: RawConfig, v: RawValue, effect: Effect) {
    var n := |cfg.zones| - 1;
    if n < 0 then effect == About(v, DirectiveBeforeNetwork("resolves to"))
    else if cfg.zones[n].resolvesTo.Some? then
      effect == About(v, DuplicateDirective("resolves to", cfg.zones[n].resolvesTo.value.line))
    else
      && !effect.Report?
      && ApplyEffect(cfg, effect) == cfg.(zones := cfg.zones[n := cfg.zones[n].(resolvesTo := Some(v))])
  }

  lemma ResolvesEffect(cfg: RawConfig, v: RawValue)
    ensures ResolvesOnce(cfg, v, DirectiveEffect(cfg, DIRECTIVES[0], v))
  {
  }

  /** `resolves to` gives the latest block its pattern, as written, once. */
  lemma ResolvesLine(cfg: RawConfig, line: nat, raw: string, text: string) returns (v: RawValue)
    requires Says(raw, ["resolves", "to"], text)
    ensures Carries(v, line, raw, text) && ResolvesOnce(cfg, v, LineEffect(cfg, line, raw))
  {
    v := Does(cfg, line, raw, 0, text);
    ResolvesEffect(cfg, v);
  }

  predicate UpstreamOnce(cfg: RawConfig, v: RawValue, effect: Effect) {
    var n := |cfg.zones| - 1;
    if n < 0 then effect == About(v, DirectiveBeforeNetwork("with upstream"))
    else if cfg.zones[n].upstream.Some? then
      effect == About(v, DuplicateDirective("with upstream", cfg.zones[n].upstream.value.line))
    else
      && !effect.Report?
      && ApplyEffect(cfg, effect) == cfg.(zones := cfg.zones[n := cfg.zones[n].(upstream := Some(v))])
  }

  lemma UpstreamEffect(cfg: RawConfig, v: RawValue)
    ensures UpstreamOnce(cfg, v, DirectiveEffect(cfg, DIRECTIVES[1], v))
  {
  }

  /** `with upstream` gives the latest block its upstream, folded, once. */
  lemma UpstreamLine(cfg: RawConfig, line: nat, raw: string, text: string) returns (v: RawValue)
    requires Says(raw, ["with", "upstream"], text)
    ensures Carries(v, line, raw, Lower(text)) && UpstreamOnce(cfg, v, LineEffect(cfg, line, raw))
  {
    v := Does(cfg, line, raw, 1, text);
    UpstreamEffect(cfg, v);
  }

  /** The ten settings of the whole file and how they are written. */
  predicate GlobalKeyword(words: seq<string>, key: GlobalKey, display: string) {
    || (words == ["rrl", "responses-per-second"] && key == RrlRps && display == "rrl responses-per-second")
    || (words == ["rrl", "burst"] && key == RrlBurst && display == "rrl burst")
    || (words == ["rrl", "slip"] && key == RrlSlip && display == "rrl slip")
    || (words == ["upstream-timeout"] && key == UpstreamTimeout && display == "upstream-timeout")
    || (words == ["max-udp-payload"] && key == MaxUdpPayload && display == "max-udp-payload")
    || (words == ["out-of-zone"] && key == OutOfZone && display == "out-of-zone")
    || (words == ["hostmaster"] && key == Hostmaster && display == "hostmaster")
    || (words == ["primary"] && key == Primary && display == "primary")
    || (words == ["ttl"] && key == Ttl && display == "ttl")
    || (words == ["ns"] && key == NsKey && display == "ns")
  }

  predicate TableHas(i: nat, words: seq<string>, key: GlobalKey, display: string) {
    i < |DIRECTIVES| && DIRECTIVES[i] == Directive(words, display, GlobalScope, ToGlobal(key), true)
  }

  lemma GlobalInTable(words: seq<string>, key: GlobalKey, display: string) returns (i: nat)
    requires GlobalKeyword(words, key, display)
    ensures TableHas(i, words, key, display)
  {
    if words == ["rrl", "responses-per-second"] {
      i := 2;
    } else if words == ["rrl", "burst"] {
      i := 3;
    } else if words == ["rrl", "slip"] {
      i := 4;
    } else if words == ["upstream-timeout"] {
      i := 5;
    } else if words == ["max-udp-payload"] {
      i := 6;
    } else if words == ["out-of-zone"] {
      i := 7;
    } else if words == ["hostmaster"] {
      i := 8;
    } else if words == ["primary"] {
      i := 9;
    } else if words == ["ttl"] {
      i := 12;
    } else {
      i := 13;
    }
  }

  predicate GlobalOnce(cfg: RawConfig, key: GlobalKey, display: string, v: RawValue, effect: Effect) {
    var first := FindGlobal(cfg.globals, key);
    if cfg.zones != [] then effect == About(v, GlobalAfterNetwork(display))
    else if key != NsKey && first.Some? then effect == About(v, DuplicateDirective(display, first.value.value.line))
    else !effect.Report? && ApplyEffect(cfg, effect) == cfg.(globals := cfg.globals + [RawGlobal(key, v)])
  }

  lemma GlobalEffect(cfg: RawConfig, words: seq<string>, key: GlobalKey, display: string, v: RawValue)
    ensures GlobalOnce(cfg, key, display, v, DirectiveEffect(cfg, Directive(words, display, GlobalScope, ToGlobal(key), true), v))
  {
  }

  lemma DoesOnce(cfg: RawConfig, line: nat, raw: string, text: string,
                 i: nat, words: seq<string>, key: GlobalKey, display: string) returns (v: RawValue)
    requires TableHas(i, words, key, display) && Says(raw, words, text)
    ensures Carries(v, line, raw, Lower(text)) && GlobalOnce(cfg, key, display, v, LineEffect(cfg, line, raw))
  {
    v := Does(cfg, line, raw, i, text);
    GlobalEffect(cfg, words, key, display, v);
  }

  /** A setting of the whole file is kept before the first block, and once unless it is `ns`. */
  lemma GlobalLine(cfg: RawConfig, line: nat, raw: string, text: string, words: seq<string>, key: GlobalKey, display: string)
    returns (v: RawValue)
    requires GlobalKeyword(words, key, display) && Says(raw, words, text)
    ensures Carries(v, line, raw, Lower(text)) && GlobalOnce(cfg, key, display, v, LineEffect(cfg, line, raw))
  {
    var i := GlobalInTable(words, key, display);
    v := DoesOnce(cfg, line, raw, text, i, words, key, display);
  }

  /** `rrl off` stands alone, before the first block. */
  lemma FlagLine(cfg: RawConfig, line: nat, raw: string) returns (v: RawValue)
    requires SaysOnly(raw, ["rrl", "off"])
    ensures v.line == line && v.rawLine == StripCr(raw) && v.value == "" && FlagAnchored(v)
    ensures LineEffect(cfg, line, raw) == if cfg.zones != [] then About(v, GlobalAfterNetwork("rrl off")) else AddGlobal(RrlOff, v)
  {
    FlagIsDistinct();
    FlagExact(Body(raw), FLAG_WORDS);
    WordsAreSignificant(Body(raw), FLAG_WORDS);
    ReadLineFaithful(line, raw);
    v := ReadLine(line, raw).value;
  }

  /** Blank lines and comments do nothing. */
  lemma BlankLine(cfg: RawConfig, line: nat, raw: string)
    ensures Body(raw) == "" || Body(raw)[0] == '#' ==> LineEffect(cfg, line, raw) == Nothing
  {
  }

  /** The words of the fourteen keywords that take a value. */
  const KEYWORDS: seq<seq<string>> := [
    ["resolves", "to"], ["with", "upstream"], ["rrl", "responses-per-second"], ["rrl", "burst"], ["rrl", "slip"],
    ["upstream-timeout"], ["max-udp-payload"], ["out-of-zone"], ["hostmaster"], ["primary"], ["network"], ["listen"],
    ["ttl"], ["ns"]
  ]

  lemma TableWords(i: nat)
    requires i < |DIRECTIVES|
    ensures |KEYWORDS| == |DIRECTIVES| && KEYWORDS[i] == DIRECTIVES[i].words
  {
  }

  lemma {:induction false} NoDirective(ds: seq<Directive>, body: string)
    requires forall i :: 0 <= i < |ds| ==> StripKeyword(body, ds[i].words).None?
    ensures FindDirective(ds, body).None?
  {
    if ds != [] {
      assert StripKeyword(body, ds[0].words).None?;
      NoDirective(ds[1..], body);
    }
  }

  predicate SaysKeyword(raw: string) {
    exists i :: 0 <= i < |KEYWORDS| && Says(raw, KEYWORDS[i], TrimEnd(AfterWords(Body(raw), |KEYWORDS[i]|)))
  }

  // ---- lines that say no keyword ----

  /** The first words of the keywords, each with the keyword it is taken to begin. */
  const FIRST_WORDS: seq<(string, string)> := [
    ("resolves", "resolves to"), ("with", "with upstream"), ("rrl", "rrl responses-per-second"),
    ("upstream-timeout", "upstream-timeout"), ("max-udp-payload", "max-udp-payload"), ("out-of-zone", "out-of-zone"),
    ("hostmaster", "hostmaster"), ("primary", "primary"), ("network", "network"), ("listen", "listen"), ("ttl", "ttl"),
    ("ns", "ns")
  ]

  /** The first word of a keyword misses its value, any other is unknown. */
  predicate BlamesWord(kind: ErrorKind, word: string) {
    && (forall k :: 0 <= k < |FIRST_WORDS| && EqIgnoreCase(word, FIRST_WORDS[k].0) ==> kind == MissingValue(FIRST_WORDS[k].1))
    && ((forall k :: 0 <= k < |FIRST_WORDS| ==> !EqIgnoreCase(word, FIRST_WORDS[k].0)) ==> kind == UnknownDirective(word))
  }

  lemma PlaceInTable(k: nat) returns (i: nat)
    requires k < |FIRST_WORDS|
    ensures i == (if k < 3 then k else k + 2) < |DIRECTIVES| && DIRECTIVES[i].words != []
    ensures DIRECTIVES[i].words[0] == FIRST_WORDS[k].0 && DIRECTIVES[i].display == FIRST_WORDS[k].1
  {
    i := if k < 3 then k else k + 2;
    if k < 4 {
    } else if k < 8 {
    } else {
    }
  }

  lemma PlaceInWords(i: nat) returns (k: nat)
    requires i < |DIRECTIVES|
    ensures k == (if i < 3 then i else if i < 5 then 2 else i - 2) < |FIRST_WORDS|
    ensures DIRECTIVES[i].words != [] && DIRECTIVES[i].words[0] == FIRST_WORDS[k].0
  {
    k := if i < 3 then i else if i < 5 then 2 else i - 2;
    if i == 3 || i == 4 {
    } else {
      var j := PlaceInTable(k);
    }
  }

  lemma {:induction false} FirstKnown(ds: seq<Directive>, body: string, i: nat)
    requires i < |ds| && ds[i].words != [] && StartsWithWord(body, ds[i].words[0])
    requires forall j :: 0 <= j < i ==> ds[j].words == [] || !StartsWithWord(body, ds[j].words[0])
    ensures KnownKeyword(ds, body) == Some(ds[i].display)
  {
    if i > 0 {
      FirstKnown(ds[1..], body, i - 1);
    }
  }

  lemma NoEarlierWord(word: string, k: nat, j: nat)
    requires k < |FIRST_WORDS| && j < (if k < 3 then k else k + 2) && EqIgnoreCase(word, FIRST_WORDS[k].0)
    ensures DIRECTIVES[j].words != [] && !EqIgnoreCase(word, DIRECTIVES[j].words[0])
  {
    var i := PlaceInTable(k);
    TableIsDistinct(i);
    TableIsDistinct(j);
    NotEmptyWords(j);
    CleanIsLower(DIRECTIVES[i].words[0]);
    CleanIsLower(DIRECTIVES[j].words[0]);
    var l := PlaceInWords(j);
    WordsDiffer(k, l);
  }

  lemma WordsDiffer(k: nat, l: nat)
    requires k < |FIRST_WORDS| && l < |FIRST_WORDS| && k != l
    ensures FIRST_WORDS[k].0 != FIRST_WORDS[l].0
  {
    assert FIRST_WORDS[k].0[0] != FIRST_WORDS[l].0[0] || FIRST_WORDS[k].0[1] != FIRST_WORDS[l].0[1];
  }

  lemma KnownWord(body: string, k: nat)
    requires k < |FIRST_WORDS| && EqIgnoreCase(FirstWord(body), FIRST_WORDS[k].0)
    ensures KnownKeyword(DIRECTIVES, body) == Some(FIRST_WORDS[k].1)
  {
    var i := PlaceInTable(k);
    TableIsDistinct(i);
    StartsWithWordExact(body, DIRECTIVES[i].words[0]);
    forall j | 0 <= j < i ensures DIRECTIVES[j].words == [] || !StartsWithWord(body, DIRECTIVES[j].words[0]) {
      NoEarlierWord(FirstWord(body), k, j);
      TableIsDistinct(j);
      StartsWithWordExact(body, DIRECTIVES[j].words[0]);
    }
    FirstKnown(DIRECTIVES, body, i);
  }

  lemma UnmatchedBlames(line: nat, raw: string, indent: nat, body: string)
    ensures BlamesWord(UnmatchedLine(line, raw, indent, body).kind, FirstWord(body))
  {
    var kind := UnmatchedLine(line, raw, indent, body).kind;
    forall k | 0 <= k < |FIRST_WORDS| && EqIgnoreCase(FirstWord(body), FIRST_WORDS[k].0)
      ensures kind == MissingValue(FIRST_WORDS[k].1)
    {
      KnownWord(body, k);
    }
    UnmatchedExact(line, raw, indent, body);
    if kind.MissingValue? {
      if EqIgnoreCase(FirstWord(body), "rrl") {
        assert EqIgnoreCase(FirstWord(body), FIRST_WORDS[2].0);
      } else {
        var i :| 0 <= i < |DIRECTIVES| && EqIgnoreCase(FirstWord(body), DIRECTIVES[i].words[0]);
        var k := PlaceInWords(i);
        assert EqIgnoreCase(FirstWord(body), FIRST_WORDS[k].0);
      }
    }
  }

  /** The error is about a line and points at its first word. */
  predicate PointsAtWord(e: ConfigError, line: nat, raw: string) {
    && e.line == line && e.snippet == StripCr(raw) && e.span.Some?
    && e.span.value.start <= e.span.value.end <= |e.snippet|
    && e.snippet[e.span.value.start..e.span.value.end] == FirstWord(Body(raw)) != ""
    && (forall i :: 0 <= i < e.span.value.start ==> IsSpace(e.snippet[i]))
  }

  lemma UnmatchedPoints(line: nat, raw: string, indent: nat, body: string)
    requires body == Body(raw) != "" && indent == |StripCr(raw)| - |body|
    ensures PointsAtWord(UnmatchedLine(line, StripCr(raw), indent, body), line, raw)
  {
    TrimStartExact(StripCr(raw));
    FirstWordExact(body);
    var word := FirstWord(body);
    assert |word| >= 1;
    WordBehindIndent(StripCr(raw), indent, body, word);
  }

  lemma WordBehindIndent(s: string, k: nat, body: string, word: string)
    requires k <= |s| && body == s[k..] && word <= body
    ensures s[k..k + |word|] == word
  {
  }

  /** Any other line is reported under its own number, with its first word. */
  lemma OtherLine(cfg: RawConfig, line: nat, raw: string)
    requires Body(raw) != "" && Body(raw)[0] != '#' && !SaysOnly(raw, ["rrl", "off"]) && !SaysKeyword(raw)
    ensures var effect := LineEffect(cfg, line, raw);
      effect.Report? && PointsAtWord(effect.error, line, raw) && BlamesWord(effect.error.kind, FirstWord(Body(raw)))
  {
    SaysNothing(raw);
    NoDirective(DIRECTIVES, Body(raw));
    UnreadableEffect(cfg, line, raw, |StripCr(raw)| - |Body(raw)|, Body(raw));
    UnmatchedBlames(line, StripCr(raw), |StripCr(raw)| - |Body(raw)|, Body(raw));
    UnmatchedPoints(line, raw, |StripCr(raw)| - |Body(raw)|, Body(raw));
  }

  lemma UnreadableEffect(cfg: RawConfig, line: nat, raw: string, indent: nat, body: string)
    requires body == Body(raw) != "" && body[0] != '#' && indent == |StripCr(raw)| - |body|
    requires !MatchesFlag(body, FLAG_WORDS) && FindDirective(DIRECTIVES, body).None?
    ensures LineEffect(cfg, line, raw) == Report(UnmatchedLine(line, StripCr(raw), indent, body))
  {
  }

  lemma SaysNothing(raw: string)
    requires !SaysOnly(raw, ["rrl", "off"]) && !SaysKeyword(raw)
    ensures !MatchesFlag(Body(raw), FLAG_WORDS)
    ensures forall i :: 0 <= i < |DIRECTIVES| ==> StripKeyword(Body(raw), DIRECTIVES[i].words).None?
  {
    FlagIsDistinct();
    FlagExact(Body(raw), FLAG_WORDS);
    forall i | 0 <= i < |DIRECTIVES| ensures StripKeyword(Body(raw), DIRECTIVES[i].words).None? {
      TableIsDistinct(i);
      NotEmptyWords(i);
      TableWords(i);
      StripExact(Body(raw), DIRECTIVES[i].words);
      assert !Says(raw, KEYWORDS[i], TrimEnd(AfterWords(Body(raw), |KEYWORDS[i]|)));
    }
  }

  // ---- the blocks of a file ----

  /** The network a line opens: the text behind the word `network`. */
  function NetworkSaid(raw: string): Option<string> {
    var text := TrimEnd(AfterWords(Body(raw), 1));
    if Says(raw, ["network"], text) then Some(Lower(text)) else None
  }

  /** The networks said in a file, with their line numbers, in order. */
  function NetworksSaid(lines: seq<string>): seq<(nat, string)> {
    if lines == [] then []
    else
      var n := |lines| - 1;
      NetworksSaid(lines[..n]) + match NetworkSaid(lines[n]) case None => [] case Some(text) => [(LineNumber(n), text)]
  }

  function Opened(zones: seq<RawZone>): seq<(nat, string)> {
    seq(|zones|, i requires 0 <= i < |zones| => (zones[i].network.line, zones[i].network.value))
  }

  lemma NetworkIsTenth(i: nat)
    requires i < |DIRECTIVES|
    ensures DIRECTIVES[i].target.ToNetwork? <==> i == 10
    ensures DIRECTIVES[10].words == ["network"]
  {
  }

  lemma AddsZone(cfg: RawConfig, reading: Reading)
    requires ReadingEffect(cfg, reading).AddZone?
    ensures reading.Setting? && reading.directive.target.ToNetwork?
  {
  }

  lemma ReadsNetwork(line: nat, raw: string)
    requires ReadLine(line, raw).Setting? && ReadLine(line, raw).directive.target.ToNetwork?
    ensures StripKeyword(Body(raw), ["network"]).Some?
  {
    var i := FindDirectiveInTable(DIRECTIVES, Body(raw));
    NetworkIsTenth(i);
  }

  lemma OnlyNetworkOpens(cfg: RawConfig, line: nat, raw: string)
    requires ReadingEffect(cfg, ReadLine(line, raw)).AddZone?
    ensures NetworkSaid(raw).Some?
  {
    AddsZone(cfg, ReadLine(line, raw));
    ReadsNetwork(line, raw);
    NetworkIsTenth(10);
    TableIsDistinct(10);
    StripExact(Body(raw), ["network"]);
  }

  lemma OpenedAfter(cfg: RawConfig, line: nat, raw: string)
    ensures Opened(ApplyEffect(cfg, LineEffect(cfg, line, raw)).zones) ==
      Opened(cfg.zones) + match NetworkSaid(raw) case None => [] case Some(text) => [(line, text)]
  {
    if NetworkSaid(raw).Some? {
      var v := NetworkLine(cfg, line, raw, TrimEnd(AfterWords(Body(raw), 1)));
      OpenedApplied(cfg, AddZone(v));
    } else {
      if LineEffect(cfg, line, raw).AddZone? {
        OnlyNetworkOpens(cfg, line, raw);
      }
      OpenedApplied(cfg, LineEffect(cfg, line, raw));
    }
  }

  lemma OpenedApplied(cfg: RawConfig, effect: Effect)
    ensures Opened(ApplyEffect(cfg, effect).zones) ==
      Opened(cfg.zones) + if effect.AddZone? then [(effect.value.line, effect.value.value)] else []
  {
  }

  /** The blocks of a file are the lines whose first word is `network`, in order, each with the text behind it. */
  lemma {:induction false} BlocksAreSaid(lines: seq<string>)
    ensures Opened(ConfigOf(lines).zones) == NetworksSaid(lines)
  {
    if lines != [] {
      var n := |lines| - 1;
      BlocksAreSaid(lines[..n]);
      OpenedAfter(ConfigOf(lines[..n]), LineNumber(n), lines[n]);
    }
  }
}
