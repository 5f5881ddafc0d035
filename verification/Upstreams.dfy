/**
  The optional upstream lookup (src/upstream.rs): the record allowlist, the circuit breaker and
  the pool of 64 in-flight lookups, the latter two as a machine whose steps interleave freely.
 */
module Upstreams {
  import opened Wrappers
  import opened Names
  import opened Synth

  const MAX_RELAYED_RECORDS: nat := 8
  const MIN_RELAY_TTL: nat := 30
  const MAX_RELAY_TTL: nat := 3600
  const MAX_INFLIGHT: nat := 64
  const BREAKER_THRESHOLD: nat := 8

  /** Ten seconds, in nanoseconds. */
  const BREAKER_COOLDOWN: nat := 10_000_000_000

  const U32_MAX: nat := 0xFFFF_FFFF

  type u32 = n: nat | n <= U32_MAX

  // ---- the allowlist ----

  predicate Allowed(record: Record, upQname: Name) {
    && record.dnsClass == ClassIN
    && record.data.PtrData?
    && SameName(record.owner, upQname)
  }

  function Clamp(ttl: nat): nat {
    if ttl < MIN_RELAY_TTL then MIN_RELAY_TTL else if ttl > MAX_RELAY_TTL then MAX_RELAY_TTL else ttl
  }

  function Rebuilt(qname: Name, record: Record): Record {
    NewRecord(qname, Clamp(record.ttl), record.data)
  }

  /** The allowed records, in order. */
  function Kept(upQname: Name, answers: seq<Record>): seq<Record> {
    if answers == [] then []
    else if Allowed(answers[0], upQname) then [answers[0]] + Kept(upQname, answers[1..])
    else Kept(upQname, answers[1..])
  }

  /** `filter_upstream`: filter, take the first eight, rebuild. */
  function FilterUpstream(qname: Name, upQname: Name, answers: seq<Record>): seq<Record> {
    var kept := Kept(upQname, answers);
    var taken := if |kept| > MAX_RELAYED_RECORDS then kept[..MAX_RELAYED_RECORDS] else kept;
    seq(|taken|, i requires 0 <= i < |taken| => Rebuilt(qname, taken[i]))
  }

  /** `upstream_qname`: append one label, if the name still fits. */
  function UpstreamQname(qname: Name): Option<Name> {
    FromLabels(qname + ["upstream"])
  }

  /** The positions of the allowed records. */
  function Positions(upQname: Name, answers: seq<Record>): (p: seq<nat>)
    ensures forall i :: 0 <= i < |p| ==> p[i] < |answers|
  {
    if answers == [] then []
    else
      var n := |answers| - 1;
      Positions(upQname, answers[..n]) + if Allowed(answers[n], upQname) then [n] else []
  }

  lemma {:induction false} KeptAppend(upQname: Name, front: seq<Record>, last: Record)
    ensures Kept(upQname, front + [last]) == Kept(upQname, front) + if Allowed(last, upQname) then [last] else []
  {
    if front == [] {
      assert front + [last] == [last];
    } else {
      assert (front + [last])[1..] == front[1..] + [last];
      KeptAppend(upQname, front[1..], last);
    }
  }

  lemma {:induction false} PositionsExact(upQname: Name, answers: seq<Record>)
    ensures var p := Positions(upQname, answers);
      && |p| == |Kept(upQname, answers)|
      && (forall i :: 0 <= i < |p| ==> Allowed(answers[p[i]], upQname) && Kept(upQname, answers)[i] == answers[p[i]])
      && (forall i, j :: 0 <= i < j < |p| ==> p[i] < p[j])
      && (forall k :: 0 <= k < |answers| && Allowed(answers[k], upQname) ==> k in p)
  {
    if answers != [] {
      var n := |answers| - 1;
      var front := answers[..n];
      PositionsExact(upQname, front);
      assert answers == front + [answers[n]];
      KeptAppend(upQname, front, answers[n]);
      var p := Positions(upQname, front);
      forall k | 0 <= k < |answers| && Allowed(answers[k], upQname) ensures k in Positions(upQname, answers) {
        if k < n {
          assert front[k] == answers[k];
          assert k in p;
        }
      }
    }
  }

  /**
    Nothing but the first eight PTR records of class IN that the asked-for name owns survives, in
    order; each is owned by the name the client asked for, keeps its target, and has its TTL
    raised to 30 or lowered to 3600 where it lies outside.
   */
  lemma RelayedRecords(qname: Name, upQname: Name, answers: seq<Record>)
    ensures var p, r := Positions(upQname, answers), FilterUpstream(qname, upQname, answers);
      && |r| == (if |p| < 8 then |p| else 8)
      && (forall i, j :: 0 <= i < j < |p| ==> p[i] < p[j])
      && (forall k :: 0 <= k < |answers| ==> (k in p <==>
            answers[k].dnsClass == ClassIN && answers[k].data.PtrData? && SameName(answers[k].owner, upQname)))
      && forall i :: 0 <= i < |r| ==>
           && r[i].owner == qname && r[i].dnsClass == ClassIN
           && r[i].data == answers[p[i]].data && r[i].data.PtrData?
           && r[i].ttl == if answers[p[i]].ttl < 30 then 30 else if answers[p[i]].ttl > 3600 then 3600 else answers[p[i]].ttl
  {
    PositionsExact(upQname, answers);
    var p, kept := Positions(upQname, answers), Kept(upQname, answers);
    forall i | 0 <= i < |FilterUpstream(qname, upQname, answers)|
      ensures FilterUpstream(qname, upQname, answers)[i] == Rebuilt(qname, answers[p[i]]) && Allowed(answers[p[i]], upQname)
    {
      assert kept[i] == answers[p[i]];
    }
  }

  /** What a lookup relays from an answer section: nothing if the longer name does not fit. */
  function Relay(qname: Name, answers: seq<Record>): seq<Record> {
    match UpstreamQname(qname)
    case None => []
    case Some(ask) => FilterUpstream(qname, ask, answers)
  }

  /** A PTR record of class IN owned, in any case, by the name with the label `upstream` behind it. */
  predicate Override(record: Record, qname: Name) {
    record.dnsClass == ClassIN && record.data.PtrData? && SameName(record.owner, qname + ["upstream"])
  }

  /**
    The allowlist, down to what is sent: the positions `p` of all overrides, in order; the first
    eight of them are relayed under the client's own name. A name that `upstream` does not fit
    behind relays nothing.
   */
  lemma RelayExact(qname: Name, answers: seq<Record>) returns (p: seq<nat>)
    ensures forall i, j :: 0 <= i < j < |p| ==> p[i] < p[j]
    ensures forall k :: k in p <==> 0 <= k < |answers| && Override(answers[k], qname)
    ensures !LabelsFit(qname + ["upstream"]) ==> Relay(qname, answers) == []
    ensures LabelsFit(qname + ["upstream"]) ==> |Relay(qname, answers)| == if |p| < 8 then |p| else 8
    ensures forall i :: 0 <= i < |Relay(qname, answers)| ==>
      && i < |p| && p[i] < |answers| && answers[p[i]].data.PtrData?
      && Relay(qname, answers)[i] == Record(qname, ClassIN,
           if answers[p[i]].ttl < 30 then 30 else if answers[p[i]].ttl > 3600 then 3600 else answers[p[i]].ttl,
           PtrData(answers[p[i]].data.target))
  {
    var ask := qname + ["upstream"];
    p := Positions(ask, answers);
    RelayedRecords(qname, ask, answers);
  }

  // ---- the circuit breaker ----

  datatype BreakerState = BreakerState(failures: u32, openUntil: Option<nat>)

  const CLOSED := BreakerState(0, None)

  /** What happens to a breaker: somebody asks, or a lookup ends well or badly. */
  datatype Op = Check(at: nat) | Success(at: nat) | Failure(at: nat)

  /** The answer of `is_open` at time `now`. */
  predicate OpenAt(s: BreakerState, now: nat) {
    s.openUntil.Some? && now < s.openUntil.value
  }

  predicate Trips(s: BreakerState) {
    s.failures + 1 >= BREAKER_THRESHOLD && s.openUntil.None?
  }

  function Apply(s: BreakerState, op: Op): BreakerState {
    match op
    case Check(now) => if s.openUntil.Some? && !OpenAt(s, now) then CLOSED else s
    case Success(_) => CLOSED
    case Failure(now) =>
      BreakerState(
        if s.failures < U32_MAX then s.failures + 1 else U32_MAX,
        if Trips(s) then Some(now + BREAKER_COOLDOWN) else s.openUntil)
  }

  class Breaker {
    var consecutiveFailures: u32
    var openUntil: Option<nat>

    ghost function State(): BreakerState
      reads this
    {
      BreakerState(consecutiveFailures, openUntil)
    }

    constructor ()
      ensures State() == CLOSED
    {
      consecutiveFailures := 0;
      openUntil := None;
    }

    /** `is_open`. */
    method IsOpen(now: nat) returns (open: bool)
      modifies this
      ensures open == OpenAt(old(State()), now)
      ensures State() == Apply(old(State()), Check(now))
    {
      match openUntil {
        case Some(until) =>
          if now < until {
            open := true;
          } else {
            openUntil := None;
            consecutiveFailures := 0;
            open := false;
          }
        case None =>
          open := false;
      }
    }

    /** `record_success`. */
    method RecordSuccess(ghost now: nat)
      modifies this
      ensures State() == Apply(old(State()), Success(now)) == CLOSED
    {
      consecutiveFailures := 0;
      openUntil := None;
    }

    /** `record_failure`; true if this failure tripped the breaker. */
    method RecordFailure(now: nat) returns (tripped: bool)
      modifies this
      ensures State() == Apply(old(State()), Failure(now))
      ensures tripped == Trips(old(State()))
    {
      ghost var before := State();
      if consecutiveFailures < U32_MAX {
        consecutiveFailures := consecutiveFailures + 1;
      }
      if consecutiveFailures >= BREAKER_THRESHOLD && openUntil.None? {
        assert Trips(before);
        openUntil := Some(now + BREAKER_COOLDOWN);
        return true;
      }
      return false;
    }
  }

  // ---- histories of one breaker ----

  function After(ops: seq<Op>): BreakerState {
    if ops == [] then CLOSED else Apply(After(ops[..|ops| - 1]), ops[|ops| - 1])
  }

  predicate Chronological(ops: seq<Op>) {
    forall i, j :: 0 <= i <= j < |ops| ==> ops[i].at <= ops[j].at
  }

  /** Operation `i` is the failure that trips the breaker. */
  predicate TripAt(ops: seq<Op>, i: nat)
    requires i < |ops|
  {
    ops[i].Failure? && Trips(After(ops[..i]))
  }

  /** Operation `i` returns the breaker to its initial state: a success, or a check past the window. */
  predicate ResetAt(ops: seq<Op>, i: nat)
    requires i < |ops|
  {
    ops[i].Success? || (ops[i].Check? && After(ops[..i]).openUntil.Some? && !OpenAt(After(ops[..i]), ops[i].at))
  }

  function CountFailures(ops: seq<Op>): nat {
    if ops == [] then 0
    else CountFailures(ops[..|ops| - 1]) + if ops[|ops| - 1].Failure? then 1 else 0
  }

  /** Where the operations since the last reset begin. */
  function SinceReset(ops: seq<Op>): (k: nat)
    ensures k <= |ops|
  {
    if ops == [] then 0
    else if ResetAt(ops, |ops| - 1) then |ops|
    else SinceReset(ops[..|ops| - 1])
  }

  /** The state, read off the history: how many failures since the last reset, and which tripped. */
  lemma {:induction false} HistoryExact(ops: seq<Op>)
    ensures var n := CountFailures(ops[SinceReset(ops)..]);
      && After(ops).failures == (if n < U32_MAX then n else U32_MAX)
      && (After(ops).openUntil.Some? <==> n >= BREAKER_THRESHOLD)
  {
    if ops != [] {
      var n := |ops| - 1;
      var front, k := ops[..n], SinceReset(ops);
      HistoryExact(front);
      if ResetAt(ops, n) {
        assert ops[k..] == [];
      } else {
        assert ops[k..][..|ops[k..]| - 1] == front[k..];
      }
    }
  }

  /** In every reachable state the window is set exactly when eight failures have accumulated. */
  lemma OpenIffThreshold(ops: seq<Op>)
    ensures After(ops).openUntil.Some? <==> After(ops).failures >= BREAKER_THRESHOLD
  {
    HistoryExact(ops);
  }

  /** A failure trips the breaker exactly when it is the eighth since the last reset. */
  lemma TripIsEighthFailure(ops: seq<Op>, i: nat)
    requires i < |ops| && ops[i].Failure?
    ensures TripAt(ops, i) <==> CountFailures(ops[..i][SinceReset(ops[..i])..]) == BREAKER_THRESHOLD - 1
  {
    HistoryExact(ops[..i]);
  }

  predicate QuietSince(ops: seq<Op>, i: nat, n: nat)
    requires i < n <= |ops|
  {
    forall j :: i < j < n ==> !TripAt(ops, j) && !ResetAt(ops, j)
  }

  lemma PrefixPrefix(ops: seq<Op>, i: nat, n: nat)
    requires i < n <= |ops|
    ensures ops[..n][..i] == ops[..i]
    ensures TripAt(ops[..n], i) <==> TripAt(ops, i)
    ensures ResetAt(ops[..n], i) <==> ResetAt(ops, i)
  {
    assert ops[..n][..i] == ops[..i];
  }

  /** An open window was set by the latest trip, and later failures did not move its end. */
  lemma {:induction false} WindowSource(ops: seq<Op>, n: nat) returns (i: nat)
    requires n <= |ops| && After(ops[..n]).openUntil.Some?
    ensures i < n && TripAt(ops, i) && QuietSince(ops, i, n)
    ensures After(ops[..n]).openUntil == Some(ops[i].at + BREAKER_COOLDOWN)
  {
    var m := n - 1;
    assert ops[..n][..m] == ops[..m];
    if TripAt(ops, m) {
      i := m;
    } else {
      i := WindowSource(ops, m);
    }
  }

  /** Conversely the window of a trip stays as it was set until something resets it. */
  lemma {:induction false} WindowPersists(ops: seq<Op>, i: nat, n: nat)
    requires i < n <= |ops| && TripAt(ops, i)
    requires forall j :: i < j < n ==> !ResetAt(ops, j)
    ensures After(ops[..n]).openUntil == Some(ops[i].at + BREAKER_COOLDOWN)
    ensures QuietSince(ops, i, n)
  {
    var m := n - 1;
    assert ops[..n][..m] == ops[..m];
    assert After(ops[..n]) == Apply(After(ops[..m]), ops[m]);
    if i < m {
      WindowPersists(ops, i, m);
      assert !ResetAt(ops, m);
    } else {
      assert TripAt(ops, m);
    }
  }

  /** The latest trip is fewer than ten seconds old, and no lookup has succeeded since. */
  predicate RecentTrip(ops: seq<Op>, i: nat, now: nat)
    requires i < |ops|
  {
    && TripAt(ops, i)
    && now < ops[i].at + BREAKER_COOLDOWN
    && forall j :: i < j < |ops| ==> !TripAt(ops, j) && !ops[j].Success?
  }

  predicate TrippedRecently(ops: seq<Op>, now: nat) {
    exists i :: 0 <= i < |ops| && RecentTrip(ops, i, now)
  }

  /**
    `is_open` at time `now` answers true if and only if the latest trip is less than ten seconds
    old and no success came after it.
   */
  lemma OpenExact(ops: seq<Op>, now: nat)
    requires Chronological(ops) && forall i :: 0 <= i < |ops| ==> ops[i].at <= now
    ensures OpenAt(After(ops), now) <==> TrippedRecently(ops, now)
  {
    assert ops[..|ops|] == ops;
    if OpenAt(After(ops), now) {
      var i := WindowSource(ops, |ops|);
      forall j | i < j < |ops| ensures !TripAt(ops, j) && !ops[j].Success? {
        assert !ResetAt(ops, j);
      }
      assert RecentTrip(ops, i, now);
    }
    if i :| 0 <= i < |ops| && RecentTrip(ops, i, now) {
      NoExpiryInWindow(ops, i, |ops|, now);
      WindowPersists(ops, i, |ops|);
    }
  }

  lemma {:induction false} NoExpiryInWindow(ops: seq<Op>, i: nat, n: nat, now: nat)
    requires i < n <= |ops| && RecentTrip(ops, i, now)
    requires forall j :: 0 <= j < |ops| ==> ops[j].at <= now
    ensures forall j :: i < j < n ==> !ResetAt(ops, j)
  {
    if i < n - 1 {
      NoExpiryInWindow(ops, i, n - 1, now);
      WindowPersists(ops, i, n - 1);
    }
  }

  /** Between two trips there is a reset, and after it exactly eight failures up to the second. */
  lemma TripsAreSeparated(ops: seq<Op>, i: nat, j: nat)
    requires i < j < |ops| && TripAt(ops, i) && TripAt(ops, j)
    ensures i < SinceReset(ops[..j]) <= j
    ensures ResetAt(ops, SinceReset(ops[..j]) - 1)
    ensures CountFailures(ops[SinceReset(ops[..j])..j + 1]) == BREAKER_THRESHOLD
  {
    var k := SinceReset(ops[..j]);
    if forall m :: i < m < j ==> !ResetAt(ops, m) {
      WindowPersists(ops, i, j);
    }
    var m :| i < m < j && ResetAt(ops, m);
    ResetIsRemembered(ops, m, j);
    TripIsEighthFailure(ops, j);
    var tail := ops[k..j + 1];
    assert tail[..|tail| - 1] == ops[..j][k..];
  }

  lemma {:induction false} ResetIsRemembered(ops: seq<Op>, m: nat, n: nat)
    requires m < n <= |ops| && ResetAt(ops, m)
    ensures m < SinceReset(ops[..n]) && ResetAt(ops, SinceReset(ops[..n]) - 1)
  {
    PrefixPrefix(ops, n - 1, n);
    if !ResetAt(ops, n - 1) {
      ResetIsRemembered(ops, m, n - 1);
    }
  }

  // ---- many lookups at once ----

  datatype Lookup = Answered | Negative | TimedOut

  /** The shared part of an upstream: the breaker, the free permits, the lookups in flight, the clock. */
  datatype Pool = Pool(breaker: BreakerState, permits: nat, inFlight: nat, clock: nat)

  const FRESH := Pool(CLOSED, MAX_INFLIGHT, 0, 0)

  /**
    The steps that may interleave. `Begin` is everything `lookup_ptr` does before it first
    waits: the breaker check, `try_acquire` and building the name, which fails for a name too
    long to extend. `Finish` is everything after the wait; `Abandon` is a lookup whose request
    goes away while waiting, which only returns its permit.
   */
  datatype Step = Begin(nameFits: bool) | Finish(result: Lookup) | Abandon | Tick(elapsed: nat)

  predicate Enabled(p: Pool, step: Step) {
    (step.Finish? || step.Abandon?) ==> p.inFlight > 0
  }

  /** Whether this step sends a query to the upstream. */
  predicate Starts(p: Pool, step: Step) {
    step.Begin? && step.nameFits && !OpenAt(p.breaker, p.clock) && p.permits > 0
  }

  function OpOf(result: Lookup, now: nat): Op {
    if result.TimedOut? then Failure(now) else Success(now)
  }

  function Next(p: Pool, step: Step): Pool
    requires Enabled(p, step)
  {
    match step
    case Tick(d) => p.(clock := p.clock + d)
    case Begin(_) =>
      var q := p.(breaker := Apply(p.breaker, Check(p.clock)));
      if Starts(p, step) then q.(permits := p.permits - 1, inFlight := p.inFlight + 1) else q
    case Finish(result) =>
      p.(breaker := Apply(p.breaker, OpOf(result, p.clock)), permits := p.permits + 1, inFlight := p.inFlight - 1)
    case Abandon =>
      p.(permits := p.permits + 1, inFlight := p.inFlight - 1)
  }

  /** `Upstream::lookup_ptr`, cut at its one wait. */
  class Upstream {
    const breaker: Breaker
    var permits: nat
    ghost var inFlight: nat

    ghost function Shared(now: nat): Pool
      reads this, breaker
    {
      Pool(breaker.State(), permits, inFlight, now)
    }

    constructor ()
      ensures fresh(breaker) && Shared(0) == FRESH
    {
      breaker := new Breaker();
      permits := MAX_INFLIGHT;
      inFlight := 0;
    }

    /** Up to the wait: the name to ask for, or nothing if the lookup is skipped. */
    method BeginLookup(qname: Name, now: nat) returns (ask: Option<Name>)
      modifies this, breaker
      ensures Shared(now) == Next(old(Shared(now)), Begin(UpstreamQname(qname).Some?))
      ensures ask == if Starts(old(Shared(now)), Begin(UpstreamQname(qname).Some?)) then UpstreamQname(qname) else None
    {
      var open := breaker.IsOpen(now);
      if open {
        return None;
      }
      if permits == 0 {
        return None;
      }
      permits := permits - 1;
      ask := UpstreamQname(qname);
      if ask.None? {
        permits := permits + 1;
        return None;
      }
      inFlight := inFlight + 1;
    }

    /** From the wait on: the records to relay. Dropping the permit is the last thing that happens. */
    method EndLookup(qname: Name, ask: Name, result: Lookup, answers: seq<Record>, now: nat) returns (relayed: seq<Record>)
      requires inFlight > 0
      modifies this, breaker
      ensures Shared(now) == Next(old(Shared(now)), Finish(result))
      ensures relayed == if result.Answered? then FilterUpstream(qname, ask, answers) else []
    {
      match result {
        case Answered =>
          breaker.RecordSuccess(now);
          relayed := FilterUpstream(qname, ask, answers);
        case Negative =>
          breaker.RecordSuccess(now);
          relayed := [];
        case TimedOut =>
          var tripped := breaker.RecordFailure(now);
          relayed := [];
      }
      permits := permits + 1;
      inFlight := inFlight - 1;
    }
  }

  /** A run from `p`: every step is possible when it is taken. */
  predicate Runs(p: Pool, steps: seq<Step>)
    decreases |steps|, 0
  {
    steps == [] || (Runs(p, steps[..|steps| - 1]) && Enabled(Last(p, steps[..|steps| - 1]), steps[|steps| - 1]))
  }

  function Last(p: Pool, steps: seq<Step>): Pool
    requires Runs(p, steps)
    decreases |steps|, 1
  {
    if steps == [] then p else Next(Last(p, steps[..|steps| - 1]), steps[|steps| - 1])
  }

  function CountStarts(p: Pool, steps: seq<Step>): nat
    requires Runs(p, steps)
  {
    if steps == [] then 0
    else
      var front := steps[..|steps| - 1];
      CountStarts(p, front) + if Starts(Last(p, front), steps[|steps| - 1]) then 1 else 0
  }

  /** Permits are neither lost nor made up, in any interleaving. */
  lemma {:induction false} PermitsConserved(p: Pool, steps: seq<Step>)
    requires p.permits + p.inFlight == MAX_INFLIGHT && Runs(p, steps)
    ensures Last(p, steps).permits + Last(p, steps).inFlight == MAX_INFLIGHT
  {
    if steps != [] {
      PermitsConserved(p, steps[..|steps| - 1]);
    }
  }

  /** What a step asks of the breaker, if anything. */
  function StepOps(step: Step, now: nat): seq<Op> {
    match step
    case Begin(_) => [Check(now)]
    case Finish(result) => [OpOf(result, now)]
    case Abandon => []
    case Tick(_) => []
  }

  /** The history of the breaker that a run makes: its checks and results, in order, with their times. */
  function OpsOf(p: Pool, steps: seq<Step>): seq<Op>
    requires Runs(p, steps)
  {
    if steps == [] then []
    else
      var front := steps[..|steps| - 1];
      OpsOf(p, front) + StepOps(steps[|steps| - 1], Last(p, front).clock)
  }

  /** The breaker of a run is in the state its own history leads to. */
  lemma {:induction false} PoolHistory(steps: seq<Step>)
    requires Runs(FRESH, steps)
    ensures After(OpsOf(FRESH, steps)) == Last(FRESH, steps).breaker
    ensures Chronological(OpsOf(FRESH, steps))
    ensures forall i :: 0 <= i < |OpsOf(FRESH, steps)| ==> OpsOf(FRESH, steps)[i].at <= Last(FRESH, steps).clock
  {
    if steps != [] {
      var n := |steps| - 1;
      PoolHistory(steps[..n]);
      HistoryStep(OpsOf(FRESH, steps[..n]), Last(FRESH, steps[..n]), steps[n]);
    }
  }

  lemma HistoryStep(ops: seq<Op>, p: Pool, step: Step)
    requires Enabled(p, step) && After(ops) == p.breaker && Chronological(ops)
    requires forall i :: 0 <= i < |ops| ==> ops[i].at <= p.clock
    ensures var more := ops + StepOps(step, p.clock);
      && After(more) == Next(p, step).breaker && Chronological(more)
      && forall i :: 0 <= i < |more| ==> more[i].at <= Next(p, step).clock
  {
    if step.Begin? || step.Finish? {
      assert (ops + StepOps(step, p.clock))[..|ops|] == ops;
    } else {
      assert ops + StepOps(step, p.clock) == ops;
    }
  }

  /** In a run too, a request finds the breaker open exactly within ten seconds of the latest trip in the run's history, no success since. */
  lemma RunHistoryOpen(steps: seq<Step>)
    requires Runs(FRESH, steps)
    ensures OpenAt(Last(FRESH, steps).breaker, Last(FRESH, steps).clock) <==>
      TrippedRecently(OpsOf(FRESH, steps), Last(FRESH, steps).clock)
  {
    PoolHistory(steps);
    OpenExact(OpsOf(FRESH, steps), Last(FRESH, steps).clock);
  }

  /** A lookup that ends in an answer or a negative leaves the breaker as new, whatever came before. */
  lemma GoodEndCloses(p: Pool, steps: seq<Step>)
    requires Runs(p, steps) && steps != []
    requires steps[|steps| - 1] == Finish(Negative) || steps[|steps| - 1] == Finish(Answered)
    ensures Last(p, steps).breaker == BreakerState(0, None)
  {
  }

  /** How many lookups timed out since one last ended otherwise. */
  function TimeoutsInARow(steps: seq<Step>): nat {
    if steps == [] then 0
    else
      var n := |steps| - 1;
      if steps[n] == Finish(TimedOut) then TimeoutsInARow(steps[..n]) + 1
      else if steps[n].Finish? then 0
      else TimeoutsInARow(steps[..n])
  }

  /** Fewer than eight timeouts in a row never open the breaker. */
  lemma {:induction false} FewTimeoutsStayClosed(p: Pool, steps: seq<Step>)
    requires Runs(p, steps) && p.breaker == CLOSED
    ensures Last(p, steps).breaker.failures <= TimeoutsInARow(steps)
    ensures TimeoutsInARow(steps) < 8 ==> Last(p, steps).breaker.openUntil.None?
  {
    if steps != [] {
      FewTimeoutsStayClosed(p, steps[..|steps| - 1]);
    }
  }

  /** Step `i` is the timeout that trips the breaker. */
  predicate TripStep(p: Pool, steps: seq<Step>, i: nat)
    requires i < |steps| && Runs(p, steps[..i])
  {
    steps[i] == Finish(TimedOut) && Trips(Last(p, steps[..i]).breaker)
  }

  /** After step `i` no lookup ended well. */
  predicate NoSuccessSince(steps: seq<Step>, i: nat) {
    forall j :: i < j < |steps| && steps[j].Finish? ==> steps[j].result.TimedOut?
  }

  lemma {:induction false} WindowInRun(p: Pool, steps: seq<Step>, i: nat, at: nat)
    requires Runs(p, steps) && i < |steps| && Runs(p, steps[..i]) && TripStep(p, steps, i) && NoSuccessSince(steps, i)
    requires at == Last(p, steps[..i]).clock && Last(p, steps).clock < at + BREAKER_COOLDOWN
    ensures Last(p, steps).breaker.openUntil == Some(at + BREAKER_COOLDOWN)
    ensures CountStarts(p, steps) == CountStarts(p, steps[..i])
  {
    var n := |steps| - 1;
    var front := steps[..n];
    if i < n {
      assert front[..i] == steps[..i];
      WindowInRun(p, front, i, at);
    }
  }

  /** An open window goes back to a trip of the run, and every lookup that ended since timed out. */
  lemma {:induction false} WindowOrigin(steps: seq<Step>) returns (i: nat)
    requires Runs(FRESH, steps) && Last(FRESH, steps).breaker.openUntil.Some?
    ensures i < |steps| && Runs(FRESH, steps[..i]) && TripStep(FRESH, steps, i) && NoSuccessSince(steps, i)
    ensures Last(FRESH, steps).breaker.openUntil == Some(Last(FRESH, steps[..i]).clock + BREAKER_COOLDOWN)
  {
    var n := |steps| - 1;
    var front := steps[..n];
    if Last(FRESH, front).breaker.openUntil.Some? {
      i := WindowOrigin(front);
      assert front[..i] == steps[..i];
    } else {
      i := n;
    }
  }

  /** Step `i` tripped the breaker less than ten seconds ago, and no lookup ended well since. */
  predicate TrippedAt(steps: seq<Step>, i: nat)
    requires Runs(FRESH, steps)
  {
    && i < |steps| && Runs(FRESH, steps[..i]) && TripStep(FRESH, steps, i)
    && Last(FRESH, steps).clock < Last(FRESH, steps[..i]).clock + 10_000_000_000
    && forall j :: i < j < |steps| ==> steps[j] != Finish(Negative) && steps[j] != Finish(Answered)
  }

  /**
    Over the steps of a run: the breaker is open if and only if some timeout tripped it less than
    ten seconds ago and since then no lookup ended in an answer or a negative.
   */
  lemma RunOpenExact(steps: seq<Step>)
    requires Runs(FRESH, steps)
    ensures OpenAt(Last(FRESH, steps).breaker, Last(FRESH, steps).clock) <==> exists i :: 0 <= i < |steps| && TrippedAt(steps, i)
  {
    if OpenAt(Last(FRESH, steps).breaker, Last(FRESH, steps).clock) {
      var i := WindowOrigin(steps);
      forall j | i < j < |steps| ensures steps[j] != Finish(Negative) && steps[j] != Finish(Answered) {
        assert steps[j].Finish? ==> steps[j].result.TimedOut?;
      }
      assert TrippedAt(steps, i);
    }
    if i :| 0 <= i < |steps| && TrippedAt(steps, i) {
      assert forall j :: i < j < |steps| && steps[j].Finish? ==> steps[j].result.TimedOut?;
      WindowInRun(FRESH, steps, i, Last(FRESH, steps[..i]).clock);
    }
  }

  /**
    From a trip until ten seconds later, and as long as no lookup succeeds, no step of any run
    starts a lookup, however many requests arrive and however many late timeouts come in.
   */
  lemma NoStartWhileOpen(p: Pool, steps: seq<Step>, i: nat)
    requires Runs(p, steps) && i < |steps| && Runs(p, steps[..i]) && TripStep(p, steps, i) && NoSuccessSince(steps, i)
    requires Last(p, steps).clock < Last(p, steps[..i]).clock + BREAKER_COOLDOWN
    ensures CountStarts(p, steps) == CountStarts(p, steps[..i])
    ensures forall nameFits :: !Starts(Last(p, steps), Begin(nameFits))
  {
    WindowInRun(p, steps, i, Last(p, steps[..i]).clock);
  }

  /** Every lookup that ends, ends in a timeout. */
  predicate AllTimeOut(steps: seq<Step>) {
    forall i :: 0 <= i < |steps| ==> !steps[i].Abandon? && (steps[i].Finish? ==> steps[i].result.TimedOut?)
  }

  /**
    Up to the next trip, the starts since a reset are exactly the recorded failures plus the
    growth in lookups still in flight.
   */
  lemma {:induction false} StartsBalance(p: Pool, steps: seq<Step>)
    requires p.breaker == CLOSED && Runs(p, steps) && AllTimeOut(steps)
    requires Last(p, steps).breaker.openUntil.None?
    requires forall k :: 0 <= k <= |steps| ==> Runs(p, steps[..k]) && Last(p, steps[..k]).breaker.openUntil.None?
    ensures CountStarts(p, steps) + p.inFlight == Last(p, steps).breaker.failures + Last(p, steps).inFlight
    ensures Last(p, steps).breaker.failures < BREAKER_THRESHOLD
  {
    if steps != [] {
      var n := |steps| - 1;
      var front := steps[..n];
      assert forall k :: 0 <= k <= n ==> front[..k] == steps[..k];
      assert front[..n] == front;
      StartsBalance(p, front);
      assert !steps[n].Abandon?;
    }
  }

  /**
    Between a reset and the next trip, when every lookup times out, at most 71 lookups are in
    flight at the reset or start after it. The one whose own check expired the window is in
    flight by then.
   */
  lemma AtMost71Starts(p: Pool, steps: seq<Step>)
    requires p.breaker == CLOSED && p.permits + p.inFlight == MAX_INFLIGHT
    requires Runs(p, steps) && AllTimeOut(steps)
    requires forall k :: 0 <= k <= |steps| ==> Runs(p, steps[..k]) && Last(p, steps[..k]).breaker.openUntil.None?
    ensures CountStarts(p, steps) + p.inFlight <= 71
  {
    assert steps[..|steps|] == steps;
    StartsBalance(p, steps);
    PermitsConserved(p, steps);
  }

  // ---- the bound is reached ----

  function Times(pattern: seq<Step>, n: nat): seq<Step> {
    if n == 0 then [] else Times(pattern, n - 1) + pattern
  }

  /** Seven lookups time out one by one, then 64 begin. */
  const WORST: seq<Step> := Times([Begin(true), Finish(TimedOut)], 7) + Times([Begin(true)], MAX_INFLIGHT)

  lemma RunsAppend(p: Pool, steps: seq<Step>, step: Step)
    requires Runs(p, steps) && Enabled(Last(p, steps), step)
    ensures Runs(p, steps + [step])
    ensures Last(p, steps + [step]) == Next(Last(p, steps), step)
    ensures CountStarts(p, steps + [step]) == CountStarts(p, steps) + if Starts(Last(p, steps), step) then 1 else 0
  {
    assert (steps + [step])[..|steps|] == steps;
  }

  lemma OneFailure(steps: seq<Step>, n: nat)
    requires n + 1 < BREAKER_THRESHOLD
    requires Runs(FRESH, steps) && Last(FRESH, steps) == Pool(BreakerState(n, None), MAX_INFLIGHT, 0, 0)
    ensures var more := steps + [Begin(true), Finish(TimedOut)];
      && Runs(FRESH, more)
      && Last(FRESH, more) == Pool(BreakerState(n + 1, None), MAX_INFLIGHT, 0, 0)
      && CountStarts(FRESH, more) == CountStarts(FRESH, steps) + 1
  {
    RunsAppend(FRESH, steps, Begin(true));
    RunsAppend(FRESH, steps + [Begin(true)], Finish(TimedOut));
    assert steps + [Begin(true)] + [Finish(TimedOut)] == steps + [Begin(true), Finish(TimedOut)];
  }

  lemma {:induction false} SevenFailures(n: nat)
    requires n < BREAKER_THRESHOLD
    ensures var steps := Times([Begin(true), Finish(TimedOut)], n);
      Runs(FRESH, steps) && Last(FRESH, steps) == Pool(BreakerState(n, None), MAX_INFLIGHT, 0, 0) && CountStarts(FRESH, steps) == n
  {
    if n > 0 {
      SevenFailures(n - 1);
      OneFailure(Times([Begin(true), Finish(TimedOut)], n - 1), n - 1);
    }
  }

  lemma BeginOne(steps: seq<Step>, k: nat)
    requires k < MAX_INFLIGHT
    requires Runs(FRESH, steps) && Last(FRESH, steps) == Pool(BreakerState(7, None), MAX_INFLIGHT - k, k, 0)
    ensures var more := steps + [Begin(true)];
      && Runs(FRESH, more)
      && Last(FRESH, more) == Pool(BreakerState(7, None), MAX_INFLIGHT - k - 1, k + 1, 0)
      && CountStarts(FRESH, more) == CountStarts(FRESH, steps) + 1
  {
    RunsAppend(FRESH, steps, Begin(true));
  }

  lemma {:induction false} FillPool(front: seq<Step>, k: nat)
    requires Runs(FRESH, front) && Last(FRESH, front) == Pool(BreakerState(7, None), MAX_INFLIGHT, 0, 0)
    requires k <= MAX_INFLIGHT
    ensures var steps := front + Times([Begin(true)], k);
      && Runs(FRESH, steps)
      && Last(FRESH, steps) == Pool(BreakerState(7, None), MAX_INFLIGHT - k, k, 0)
      && CountStarts(FRESH, steps) == CountStarts(FRESH, front) + k
  {
    if k == 0 {
      assert front + [] == front;
    } else {
      FillPool(front, k - 1);
      BeginOne(front + Times([Begin(true)], k - 1), k - 1);
      assert front + Times([Begin(true)], k - 1) + [Begin(true)] == front + Times([Begin(true)], k);
    }
  }

  /** 71 is reached: one such run starts 71 lookups, and the next timeout trips the breaker. */
  lemma SeventyOneIsReached()
    ensures Runs(FRESH, WORST) && CountStarts(FRESH, WORST) == 71
    ensures Trips(Last(FRESH, WORST).breaker)
    ensures Enabled(Last(FRESH, WORST), Finish(TimedOut))
    ensures Next(Last(FRESH, WORST), Finish(TimedOut)).breaker.openUntil == Some(BREAKER_COOLDOWN)
  {
    SevenFailures(7);
    FillPool(Times([Begin(true), Finish(TimedOut)], 7), MAX_INFLIGHT);
  }
}
