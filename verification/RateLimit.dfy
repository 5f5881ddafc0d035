/**
  Response rate limiting (src/rrl.rs): which clients share a bucket, and which suppressed
  responses are sent truncated. The token bucket itself is an arbitrary verdict per client and
  kind of response. The counter is bumped atomically, so every interleaving of requests is one
  sequence of calls.
 */
module RateLimit {
  import opened Bits
  import opened ConfigModel

  const U64_LIMIT: nat := 0x1_0000_0000_0000_0000

  // ---- buckets ----

  datatype ClientKey = KeyV4(bits: nat) | KeyV6(high: nat)

  /** `bits >> shift << shift` in a register of `width` bits. */
  function DropLowBits(bits: nat, shift: nat, width: nat): nat {
    if shift >= width then 0 else LowBits(Doubled(Shr(bits, shift), shift), width)
  }

  /** `ClientKey::new`. */
  function KeyOf(addr: IpAddr, ipv4Prefix: nat, ipv6Prefix: nat): ClientKey {
    match addr
    case V4(v4) => KeyV4(DropLowBits(v4, 32 - Min(ipv4Prefix, 32), 32))
    case V6(v6) => KeyV6(DropLowBits(Shr(v6, 64), 64 - Min(ipv6Prefix, 64), 64))
  }

  lemma {:induction false} ShiftDownUp(x: nat, shift: nat)
    ensures Doubled(Shr(x, shift), shift) == ClearBits(x, shift) <= x
  {
    if shift > 0 {
      ShiftDownUp(x / 2, shift - 1);
    }
  }

  lemma {:induction false} SameTopBits(x: nat, y: nat, shift: nat)
    ensures ClearBits(x, shift) == ClearBits(y, shift) <==> Shr(x, shift) == Shr(y, shift)
  {
    if shift > 0 {
      SameTopBits(x / 2, y / 2, shift - 1);
    }
  }

  lemma {:induction false} ShrAll(x: nat, n: nat)
    requires x < Pow2(n)
    ensures Shr(x, n) == 0
  {
    if n > 0 {
      ShrAll(x / 2, n - 1);
    }
  }

  lemma {:induction false} ShrTwice(x: nat, m: nat, n: nat)
    ensures Shr(Shr(x, m), n) == Shr(x, m + n)
  {
    if m > 0 {
      ShrTwice(x / 2, m - 1, n);
    }
  }

  lemma DropLowBitsExact(x: nat, y: nat, shift: nat, width: nat)
    requires x < Pow2(width) && y < Pow2(width) && shift <= width
    ensures DropLowBits(x, shift, width) == DropLowBits(y, shift, width) <==> Shr(x, shift) == Shr(y, shift)
  {
    ShiftDownUp(x, shift);
    ShiftDownUp(y, shift);
    SameTopBits(x, y, shift);
    if shift == width {
      ShrAll(x, width);
      ShrAll(y, width);
    } else {
      LowBitsAll(ClearBits(x, shift), width);
      LowBitsAll(ClearBits(y, shift), width);
    }
  }

  /**
    Two clients share a bucket exactly when they are of one family and agree on the configured
    number of leading bits; for IPv6 at most 64 count.
   */
  lemma SharedBucket(a: IpAddr, b: IpAddr, ipv4Prefix: nat, ipv6Prefix: nat)
    requires a.V4? ==> a.v4 < Pow2(32)
    requires b.V4? ==> b.v4 < Pow2(32)
    ensures KeyOf(a, ipv4Prefix, ipv6Prefix) == KeyOf(b, ipv4Prefix, ipv6Prefix) <==>
      || (a.V4? && b.V4? && Shr(a.v4, 32 - Min(ipv4Prefix, 32)) == Shr(b.v4, 32 - Min(ipv4Prefix, 32)))
      || (a.V6? && b.V6? && Shr(a.v6, 128 - Min(ipv6Prefix, 64)) == Shr(b.v6, 128 - Min(ipv6Prefix, 64)))
  {
    if a.V4? && b.V4? {
      DropLowBitsExact(a.v4, b.v4, 32 - Min(ipv4Prefix, 32), 32);
    } else if a.V6? && b.V6? {
      var shift := 64 - Min(ipv6Prefix, 64);
      HighHalf(a.v6);
      HighHalf(b.v6);
      DropLowBitsExact(Shr(a.v6, 64), Shr(b.v6, 64), shift, 64);
      ShrTwice(a.v6, 64, shift);
      ShrTwice(b.v6, 64, shift);
    }
  }

  lemma HighHalf(v: u128)
    ensures Shr(v, 64) < Pow2(64)
  {
    NibbleBits(v, 16);
    U128IsPow16();
    UpperBound(v, 16, 32);
  }

  // ---- slip ----

  datatype Kind = KindAnswer | KindNegative

  datatype Decision = Allow | Drop | Truncate

  /** What the limiter does with its `n`th suppressed response. */
  function Suppress(slip: nat, n: nat): Decision {
    if slip == 0 then Drop
    else if n % slip == 0 then Truncate
    else Drop
  }

  class Rrl {
    const enabled: bool
    const slip: nat
    const ipv4Prefix: nat
    const ipv6Prefix: nat
    var suppressed: nat

    constructor (enabled: bool, slip: nat, ipv4Prefix: nat, ipv6Prefix: nat)
      ensures this.enabled == enabled && this.slip == slip && suppressed == 0
      ensures this.ipv4Prefix == ipv4Prefix && this.ipv6Prefix == ipv6Prefix
    {
      this.enabled := enabled;
      this.slip := slip;
      this.ipv4Prefix := ipv4Prefix;
      this.ipv6Prefix := ipv6Prefix;
      suppressed := 0;
    }

    /** `Rrl::decide`; `within` is the token buckets' verdict for a client key and kind. */
    method Decide(addr: IpAddr, kind: Kind, isTcp: bool, within: (ClientKey, Kind) -> bool) returns (d: Decision)
      requires suppressed < U64_LIMIT
      modifies this
      ensures var call := Call(isTcp, within(KeyOf(addr, ipv4Prefix, ipv6Prefix), kind));
        d == Decided(enabled, slip, old(suppressed), call) && suppressed == Counted(enabled, old(suppressed), call)
      ensures suppressed < U64_LIMIT
      // TCP, a disabled limiter and a client within budget are let through, and leave no trace
      ensures isTcp || !enabled || within(KeyOf(addr, ipv4Prefix, ipv6Prefix), kind) ==> d == Allow && suppressed == old(suppressed)
      // everybody else is suppressed, and counted
      ensures !isTcp && enabled && !within(KeyOf(addr, ipv4Prefix, ipv6Prefix), kind) ==>
        d != Allow && suppressed == (old(suppressed) + 1) % U64_LIMIT
    {
      if !enabled || isTcp {
        return Allow;
      }
      var key := KeyOf(addr, ipv4Prefix, ipv6Prefix);
      if within(key, kind) {
        return Allow;
      }
      var n := suppressed;
      suppressed := (suppressed + 1) % U64_LIMIT;
      if slip == 0 {
        return Drop;
      } else if n % slip == 0 {
        return Truncate;
      } else {
        return Drop;
      }
    }
  }

  /** One request: the transport, and the verdict of the bucket it falls into. */
  datatype Call = Call(isTcp: bool, within: bool)

  function Decided(enabled: bool, slip: nat, counter: nat, call: Call): Decision {
    if !enabled || call.isTcp || call.within then Allow else Suppress(slip, counter)
  }

  function Counted(enabled: bool, counter: nat, call: Call): nat {
    if !enabled || call.isTcp || call.within then counter else (counter + 1) % U64_LIMIT
  }

  /** A call over TCP, to a disabled limiter or within budget is let through; every other one is suppressed. */
  lemma SuppressedExactly(enabled: bool, slip: nat, counter: nat, call: Call)
    ensures call.isTcp || !enabled || call.within ==>
      Decided(enabled, slip, counter, call) == Allow && Counted(enabled, counter, call) == counter
    ensures !call.isTcp && enabled && !call.within ==>
      Decided(enabled, slip, counter, call) != Allow && Counted(enabled, counter, call) == (counter + 1) % U64_LIMIT
  {
  }

  function CounterAfter(enabled: bool, calls: seq<Call>): nat {
    if calls == [] then 0 else Counted(enabled, CounterAfter(enabled, calls[..|calls| - 1]), calls[|calls| - 1])
  }

  /** The decisions on the suppressed responses of a run, oldest first. */
  function Suppressed(enabled: bool, slip: nat, calls: seq<Call>): seq<Decision> {
    if calls == [] then []
    else
      var n := |calls| - 1;
      var d := Decided(enabled, slip, CounterAfter(enabled, calls[..n]), calls[n]);
      Suppressed(enabled, slip, calls[..n]) + if d == Allow then [] else [d]
  }

  /** The first of every `slip` is truncated, the others dropped. */
  predicate FollowsSlip(ds: seq<Decision>, slip: nat) {
    forall k :: 0 <= k < |ds| ==> ds[k] == Suppress(slip, k)
  }

  /** How many calls of a run are over budget and not over TCP. */
  function CallsOver(calls: seq<Call>): nat {
    if calls == [] then 0
    else
      var last := calls[|calls| - 1];
      CallsOver(calls[..|calls| - 1]) + if last.isTcp || last.within then 0 else 1
  }

  /**
    Over any run of fewer than 2^64 suppressions, the `k`th suppressed response is decided by
    `k` alone: calls over TCP or within budget, whoever makes them, never move the counter.
   */
  lemma {:induction false} SlipPattern(enabled: bool, slip: nat, calls: seq<Call>)
    requires |Suppressed(enabled, slip, calls)| < U64_LIMIT
    ensures CounterAfter(enabled, calls) == |Suppressed(enabled, slip, calls)|
    ensures FollowsSlip(Suppressed(enabled, slip, calls), slip)
    ensures |Suppressed(enabled, slip, calls)| == if enabled then CallsOver(calls) else 0
  {
    if calls != [] {
      SlipPattern(enabled, slip, calls[..|calls| - 1]);
    }
  }

  function CountTruncated(ds: seq<Decision>): nat {
    if ds == [] then 0 else CountTruncated(ds[..|ds| - 1]) + if ds[|ds| - 1] == Truncate then 1 else 0
  }

  /** `n` divided by `slip`, rounded up; nothing for a slip of zero. */
  function CeilDiv(n: nat, slip: nat): nat {
    if slip == 0 || n == 0 then 0 else 1 + (n - 1) / slip
  }

  lemma {:induction false} PatternCount(ds: seq<Decision>, slip: nat)
    requires FollowsSlip(ds, slip)
    ensures CountTruncated(ds) == CeilDiv(|ds|, slip)
  {
    if ds != [] {
      var n := |ds| - 1;
      PatternCount(ds[..n], slip);
      if slip > 0 && n > 0 {
        DivStep(n, slip);
      }
    }
  }

  lemma DivStep(n: nat, d: nat)
    requires n > 0 && d > 0
    ensures n / d == (n - 1) / d + if n % d == 0 then 1 else 0
  {
    var q, r := (n - 1) / d, (n - 1) % d;
    assert n == d * q + (r + 1);
    if r + 1 == d {
      assert n == d * (q + 1);
      DivUnique(n, d, q + 1, 0);
    } else {
      DivUnique(n, d, q, r + 1);
    }
  }

  lemma DivUnique(n: nat, d: nat, q: nat, r: nat)
    requires 0 < d && r < d && n == d * q + r
    ensures n / d == q && n % d == r
  {
    var p, s := n / d, n % d;
    assert n == d * p + s && 0 <= s < d;
    if p < q {
      NextMultiple(d, p, q);
    } else if q < p {
      NextMultiple(d, q, p);
    }
  }

  lemma {:induction false} NextMultiple(d: nat, p: nat, q: nat)
    requires p < q
    ensures d * p + d <= d * q
  {
    if p + 1 < q {
      NextMultiple(d, p, q - 1);
      assert d * q == d * (q - 1) + d;
    } else {
      assert d * q == d * p + d;
    }
  }

  lemma CeilDivWindow(n: nat, d: nat)
    requires d > 0
    ensures CeilDiv(n + d, d) == CeilDiv(n, d) + 1
  {
    if n > 0 {
      var q, r := (n - 1) / d, (n - 1) % d;
      assert n - 1 == d * q + r;
      assert n - 1 + d == d * (q + 1) + r;
      DivUnique(n - 1 + d, d, q + 1, r);
    } else {
      DivUnique(d - 1, d, 0, d - 1);
    }
  }

  /** After `n` suppressions exactly `n / slip`, rounded up, were sent truncated. */
  lemma SlipCount(enabled: bool, slip: nat, calls: seq<Call>)
    requires |Suppressed(enabled, slip, calls)| < U64_LIMIT
    ensures CountTruncated(Suppressed(enabled, slip, calls)) == CeilDiv(|Suppressed(enabled, slip, calls)|, slip)
  {
    SlipPattern(enabled, slip, calls);
    PatternCount(Suppressed(enabled, slip, calls), slip);
  }

  lemma {:induction false} CountTruncatedConcat(a: seq<Decision>, b: seq<Decision>)
    ensures CountTruncated(a + b) == CountTruncated(a) + CountTruncated(b)
  {
    if b == [] {
      assert a + b == a;
    } else {
      assert (a + b)[..|a + b| - 1] == a + b[..|b| - 1];
      CountTruncatedConcat(a, b[..|b| - 1]);
    }
  }

  /** Every `slip` consecutive suppressions hold exactly one truncated response. */
  lemma SlipWindow(enabled: bool, slip: nat, calls: seq<Call>, from: nat)
    requires slip > 0 && |Suppressed(enabled, slip, calls)| < U64_LIMIT
    requires from + slip <= |Suppressed(enabled, slip, calls)|
    ensures CountTruncated(Suppressed(enabled, slip, calls)[from..from + slip]) == 1
  {
    SlipPattern(enabled, slip, calls);
    WindowCount(Suppressed(enabled, slip, calls), slip, from);
  }

  lemma WindowCount(ds: seq<Decision>, slip: nat, from: nat)
    requires slip > 0 && FollowsSlip(ds, slip) && from + slip <= |ds|
    ensures CountTruncated(ds[from..from + slip]) == 1
  {
    PrefixCount(ds, slip, from);
    PrefixCount(ds, slip, from + slip);
    assert ds[..from + slip] == ds[..from] + ds[from..from + slip];
    CountTruncatedConcat(ds[..from], ds[from..from + slip]);
    CeilDivWindow(from, slip);
  }

  lemma PrefixCount(ds: seq<Decision>, slip: nat, n: nat)
    requires FollowsSlip(ds, slip) && n <= |ds|
    ensures CountTruncated(ds[..n]) == CeilDiv(n, slip)
  {
    PatternCount(ds[..n], slip);
  }
}
