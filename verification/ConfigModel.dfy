/** The compiled configuration and the forward-name template (src/config/mod.rs). */
module ConfigModel {
  import opened Wrappers
  import opened Bits
  import opened Ascii
  import opened Names
  import opened Nibble

  datatype IpAddr = V4(v4: nat) | V6(v6: u128)

  datatype ListenAddr = ListenAddr(addr: IpAddr, port: nat)

  /** One label of a template, verbatim for printing and lowercased for matching. */
  datatype FwdLabel =
    | Literal(verbatim: string, lower: string)
    | Digits(pre: string, preLower: string, post: string, postLower: string, dashed: bool)

  datatype FwdTemplate = FwdTemplate(labels: seq<FwdLabel>, digitsAt: nat)

  datatype Zone = Zone(
    srcLine: nat,
    prefix: u128,
    mask: nat,
    hostNibbles: nat,
    ptrZone: Name,
    resolvesTo: string,
    fwd: FwdTemplate,
    fwdParent: Name,
    ttl: nat,
    upstream: Option<IpAddr>)

  datatype OutOfZonePolicy = PolicyRefused | PolicyNxDomain

  datatype SoaParams = SoaParams(
    primary: Name,
    hostmaster: Name,
    serial: nat,
    refresh: nat,
    retry: nat,
    expire: nat,
    minimum: nat)

  datatype Config = Config(
    listen: seq<ListenAddr>,
    zones: seq<Zone>,
    soa: Option<SoaParams>,
    nameservers: seq<Name>,
    outOfZone: OutOfZonePolicy)

  // ---- rendering ----

  function RenderLabel(l: FwdLabel, digits: string): string {
    match l
    case Literal(verbatim, _) => verbatim
    case Digits(pre, _, post, _, dashed) => pre + (if dashed then Dashed(digits) else digits) + post
  }

  function RenderedLabels(labels: seq<FwdLabel>, digits: string): (r: seq<string>)
    ensures |r| == |labels|
  {
    seq(|labels|, i requires 0 <= i < |labels| => RenderLabel(labels[i], digits))
  }

  function Rendered(t: FwdTemplate, digits: string): Option<Name> {
    FromLabels(RenderedLabels(t.labels, digits))
  }

  /** `FwdTemplate::render`. */
  method Render(t: FwdTemplate, digits: string) returns (r: Option<Name>)
    ensures r == Rendered(t, digits)
  {
    var labels: seq<string> := [];
    for i := 0 to |t.labels|
      invariant labels == RenderedLabels(t.labels, digits)[..i]
    {
      match t.labels[i] {
        case Literal(verbatim, _) =>
          labels := labels + [verbatim];
        case Digits(pre, _, post, _, dashed) =>
          var joined := pre;
          if dashed {
            var grouped := DashGroup(digits);
            joined := joined + grouped;
          } else {
            joined := joined + digits;
          }
          joined := joined + post;
          labels := labels + [joined];
      }
    }
    assert labels == RenderedLabels(t.labels, digits);
    return FromLabels(labels);
  }

  /** The labels to the right of the digits label. */
  function ParentLabels(t: FwdTemplate): seq<string> {
    if t.digitsAt + 1 >= |t.labels| then []
    else
      var tail := t.labels[t.digitsAt + 1..];
      seq(|tail|, i requires 0 <= i < |tail| =>
        match tail[i]
        case Literal(verbatim, _) => verbatim
        case Digits(pre, _, post, _, _) => pre + post)
  }

  /** `FwdTemplate::parent`. */
  function Parent(t: FwdTemplate): Option<Name> {
    FromLabels(ParentLabels(t))
  }

  // ---- what the compiler establishes ----

  function Repeat(c: char, n: nat): (s: string)
    ensures |s| == n
  {
    seq(n, _ => c)
  }

  predicate ValidLabel(l: FwdLabel) {
    match l
    case Literal(verbatim, lower) => lower == Lower(verbatim)
    case Digits(pre, preLower, post, postLower, _) => preLower == Lower(pre) && postLower == Lower(post)
  }

  /** Exactly one digits label, at `digitsAt`, and every lowered form in step with its original. */
  predicate WellFormed(t: FwdTemplate) {
    && t.digitsAt < |t.labels|
    && (forall i :: 0 <= i < |t.labels| ==> (t.labels[i].Digits? <==> i == t.digitsAt))
    && (forall i :: 0 <= i < |t.labels| ==> ValidLabel(t.labels[i]))
  }

  predicate ValidTemplate(t: FwdTemplate, hostNibbles: nat) {
    && WellFormed(t)
    && (t.labels[t.digitsAt].dashed ==> hostNibbles % 4 == 0)
    && Rendered(t, Repeat('f', hostNibbles)).Some?
  }

  predicate ValidMask(mask: nat) {
    0 < mask < 128 && mask % 4 == 0
  }

  predicate ValidZone(z: Zone) {
    && ValidMask(z.mask)
    && z.hostNibbles == (128 - z.mask) / 4
    && And(z.prefix, MaskBits(z.mask)) == z.prefix
    && z.ptrZone == PtrName(z.prefix, z.mask)
    && ValidTemplate(z.fwd, z.hostNibbles)
    && Parent(z.fwd) == Some(z.fwdParent)
  }

  /** Longest prefixes first, and no network twice. */
  predicate SortedByMask(zones: seq<Zone>) {
    forall i, j :: 0 <= i < j < |zones| ==> zones[i].mask >= zones[j].mask
  }

  predicate DistinctNetworks(zones: seq<Zone>) {
    forall i, j :: 0 <= i < j < |zones| ==> (zones[i].prefix, zones[i].mask) != (zones[j].prefix, zones[j].mask)
  }

  predicate ValidConfig(c: Config) {
    && (forall i :: 0 <= i < |c.zones| ==> ValidZone(c.zones[i]))
    && SortedByMask(c.zones)
    && DistinctNetworks(c.zones)
  }

  // ---- what those invariants give ----

  lemma SameWidths(labels: seq<FwdLabel>, a: string, b: string)
    requires |a| == |b|
    ensures SameLengths(RenderedLabels(labels, a), RenderedLabels(labels, b))
  {
    DashedLength(a, b);
  }

  /**
    The widest probe suffices: if the template renders the all-`f` digits, it renders any
    digits of that width, dashes included.
   */
  lemma WidestProbeSuffices(t: FwdTemplate, hostNibbles: nat, digits: string)
    requires |digits| == hostNibbles
    ensures Rendered(t, Repeat('f', hostNibbles)).Some? <==> Rendered(t, digits).Some?
  {
    SameWidths(t.labels, Repeat('f', hostNibbles), digits);
    FitDependsOnLengths(RenderedLabels(t.labels, Repeat('f', hostNibbles)), RenderedLabels(t.labels, digits));
  }

  /** The apex is what follows the digits label in every name the template renders. */
  lemma ParentIsTail(t: FwdTemplate, digits: string)
    requires WellFormed(t)
    ensures ParentLabels(t) == RenderedLabels(t.labels, digits)[t.digitsAt + 1..]
  {
  }

  /** A template that renders has a legal apex, so compiling the apex cannot fail. */
  lemma RenderableHasParent(t: FwdTemplate, digits: string)
    requires WellFormed(t) && Rendered(t, digits).Some?
    ensures Parent(t).Some?
  {
    ParentIsTail(t, digits);
    SuffixFits(RenderedLabels(t.labels, digits), t.digitsAt + 1);
  }

  // ---- the apexes ----

  /** `Vec::contains` with the case-insensitive equality of names. */
  predicate Listed(out: seq<Name>, name: Name) {
    exists i :: 0 <= i < |out| && SameName(out[i], name)
  }

  function AddName(out: seq<Name>, name: Name): seq<Name> {
    if Listed(out, name) then out else out + [name]
  }

  function ApexesOf(zones: seq<Zone>): seq<Name> {
    if zones == [] then []
    else
      var z := zones[|zones| - 1];
      AddName(AddName(ApexesOf(zones[..|zones| - 1]), z.ptrZone), z.fwdParent)
  }

  /** `Config::apexes`. */
  method Apexes(c: Config) returns (out: seq<Name>)
    ensures out == ApexesOf(c.zones)
  {
    out := [];
    for k := 0 to |c.zones|
      invariant out == ApexesOf(c.zones[..k])
    {
      var pair := [c.zones[k].ptrZone, c.zones[k].fwdParent];
      ghost var start := out;
      for m := 0 to 2
        invariant m == 0 ==> out == start
        invariant m == 1 ==> out == AddName(start, pair[0])
        invariant m == 2 ==> out == AddName(AddName(start, pair[0]), pair[1])
      {
        if !Listed(out, pair[m]) {
          out := out + [pair[m]];
        }
      }
      assert c.zones[..k + 1][..k] == c.zones[..k];
    }
    assert c.zones[..|c.zones|] == c.zones;
  }

  predicate IsApexOf(z: Zone, name: Name) {
    SameName(z.ptrZone, name) || SameName(z.fwdParent, name)
  }

  lemma AddNameFacts(out: seq<Name>, name: Name, q: Name)
    ensures Listed(AddName(out, name), q) <==> Listed(out, q) || SameName(name, q)
  {
    var r := AddName(out, name);
    if Listed(out, q) {
      var i :| 0 <= i < |out| && SameName(out[i], q);
      assert r[i] == out[i];
    }
    if SameName(name, q) {
      if Listed(out, name) {
        var i :| 0 <= i < |out| && SameName(out[i], name);
        assert SameName(r[i], q);
      } else {
        assert SameName(r[|out|], q);
      }
    }
  }

  /** The list holds exactly the reverse origins and forward apexes of the zones. */
  lemma {:induction false} ApexesExact(zones: seq<Zone>, q: Name)
    ensures Listed(ApexesOf(zones), q) <==> exists i :: 0 <= i < |zones| && IsApexOf(zones[i], q)
  {
    if zones != [] {
      var n := |zones| - 1;
      var front := zones[..n];
      ApexesExact(front, q);
      AddNameFacts(ApexesOf(front), zones[n].ptrZone, q);
      AddNameFacts(AddName(ApexesOf(front), zones[n].ptrZone), zones[n].fwdParent, q);
      if i :| 0 <= i < |front| && IsApexOf(front[i], q) {
        assert IsApexOf(zones[i], q);
      }
      if i :| 0 <= i < |zones| && IsApexOf(zones[i], q) {
        assert i == n || IsApexOf(front[i], q);
      }
    }
  }

  predicate NoNameTwice(out: seq<Name>) {
    forall i, j :: 0 <= i < j < |out| ==> !SameName(out[i], out[j])
  }

  /** No apex is listed twice, not even in two spellings. */
  lemma {:induction false} ApexesDistinct(zones: seq<Zone>)
    ensures NoNameTwice(ApexesOf(zones))
  {
    if zones != [] {
      var n := |zones| - 1;
      ApexesDistinct(zones[..n]);
      AddNameDistinct(ApexesOf(zones[..n]), zones[n].ptrZone);
      AddNameDistinct(AddName(ApexesOf(zones[..n]), zones[n].ptrZone), zones[n].fwdParent);
    }
  }

  lemma AddNameDistinct(out: seq<Name>, name: Name)
    requires NoNameTwice(out)
    ensures NoNameTwice(AddName(out, name))
  {
  }
}
