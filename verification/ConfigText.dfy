/** Raw directives, where they came from, and the errors anchored at them (src/config/parse.rs, src/config/error.rs). */
module ConfigText {
  import opened Wrappers
  import opened Ascii

  datatype ErrorKind =
    | UnknownDirective(keyword: string)
    | MissingValue(keyword: string)
    | DirectiveBeforeNetwork(keyword: string)
    | GlobalAfterNetwork(keyword: string)
    | DuplicateDirective(keyword: string, firstLine: nat)
    | MissingResolvesTo
    | NetworkMissingPrefixLen
    | NetworkInvalidAddress
    | NetworkPrefixLenNotANumber
    | NetworkPrefixLenOutOfRange(len: nat)
    | NetworkPrefixNotNibbleAligned(mask: nat)
    | NetworkHostBitsSet(suggested: nat, mask: nat)
    | NetworkPrefixTooShort(mask: nat)
    | NetworkIsSingleAddress
    | DuplicateNetwork(firstLine: nat)
    | PlaceholderMissing
    | PlaceholderRepeated(count: nat)
    | DashedDigitsNotNibbleMultipleOfFour(hostNibbles: nat)
    | ResolvesToInvalidName
    | ForwardNameTooLong
    | DuplicateForwardPattern(firstLine: nat)
    | InvalidUpstreamAddress
    | GlobalSettingInvalid

  datatype Span = Span(start: nat, end: nat)

  datatype ConfigError = ConfigError(line: nat, snippet: string, span: Option<Span>, kind: ErrorKind)

  /** A directive value with the line and the byte range it was read from. */
  datatype RawValue = RawValue(line: nat, rawLine: string, span: Span, value: string) {
    function Error(kind: ErrorKind): ConfigError {
      ConfigError(line, rawLine, Some(span), kind)
    }

    /** An error anchored at a part of the value, clamped to the value. */
    function ErrorAt(offset: nat, len: nat, kind: ErrorKind): ConfigError {
      var start := if span.start + offset < span.end then span.start + offset else span.end;
      var limit := if span.end < start then start else span.end;
      var end := if start + len < limit then start + len else limit;
      ConfigError(line, rawLine, Some(Span(start, end)), kind)
    }

    /** The span lies in the line and covers the value, up to the case the directive folds. */
    predicate Anchored() {
      span.start <= span.end <= |rawLine| && EqIgnoreCase(rawLine[span.start..span.end], value)
    }
  }

  /** A caret never leaves the line it is drawn under. */
  predicate InLine(e: ConfigError) {
    e.span.Some? ==> e.span.value.start <= e.span.value.end <= |e.snippet|
  }

  /** An error at part of an anchored value stays inside the value, and a part inside is exact. */
  lemma ErrorAtInside(v: RawValue, offset: nat, len: nat, kind: ErrorKind)
    requires v.Anchored()
    ensures var s := v.ErrorAt(offset, len, kind).span.value;
      && v.span.start <= s.start <= s.end <= v.span.end
      && (offset + len <= |v.value| ==> s == Span(v.span.start + offset, v.span.start + offset + len))
  {
    assert |Lower(v.rawLine[v.span.start..v.span.end])| == |Lower(v.value)|;
  }

  datatype RawZone = RawZone(network: RawValue, resolvesTo: Option<RawValue>, upstream: Option<RawValue>)

  datatype GlobalKey =
    | Primary | Hostmaster | NsKey | Ttl | OutOfZone | MaxUdpPayload | UpstreamTimeout
    | RrlOff | RrlRps | RrlBurst | RrlSlip

  datatype RawGlobal = RawGlobal(key: GlobalKey, value: RawValue)

  datatype RawConfig = RawConfig(listen: seq<RawValue>, zones: seq<RawZone>, globals: seq<RawGlobal>)
}
