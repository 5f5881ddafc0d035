/** Searching, splitting and joining text the way the standard libraries do. */
module Text {
  import opened Wrappers
  import opened Ascii

  // ---- searching ----

  predicate OccursAt(s: string, p: string, i: nat) {
    i + |p| <= |s| && s[i..i + |p|] == p
  }

  /** `str::find`: where the pattern first occurs. */
  function Find(s: string, p: string): (r: Option<nat>)
    ensures r.Some? ==> OccursAt(s, p, r.value)
  {
    if |s| < |p| then None
    else if s[..|p|] == p then Some(0)
    else if s == "" then None
    else
      match Find(s[1..], p)
      case None => None
      case Some(i) =>
        assert s[1..][i..i + |p|] == s[i + 1..i + 1 + |p|];
        Some(i + 1)
  }

  /** `match_indices(..).count()`: occurrences that do not overlap, counted from the left. */
  function Hits(s: string, p: string): nat
    requires p != ""
  {
    match Find(s, p)
    case None => 0
    case Some(i) => 1 + Hits(s[i + |p|..], p)
  }

  lemma SliceOfSlice(s: string, a: nat, b: nat, i: nat, j: nat)
    requires a <= b <= |s| && i <= j <= b - a
    ensures s[a..b][i..j] == s[a + i..a + j]
  {
    forall k | 0 <= k < j - i ensures s[a..b][i..j][k] == s[a + i..a + j][k] {
      assert s[a..b][i + k] == s[a + i + k];
    }
  }

  /** An occurrence in a part is one in the whole. */
  lemma OccursInWhole(s: string, a: nat, b: nat, p: string, y: nat)
    requires a <= b <= |s| && OccursAt(s[a..b], p, y)
    ensures OccursAt(s, p, a + y)
  {
    SliceOfSlice(s, a, b, y, y + |p|);
  }

  /** An occurrence in the whole that lies in a part is one in the part. */
  lemma OccursInPart(s: string, a: nat, b: nat, p: string, x: nat)
    requires a <= b <= |s| && OccursAt(s, p, x) && a <= x && x + |p| <= b
    ensures OccursAt(s[a..b], p, x - a)
  {
    SliceOfSlice(s, a, b, x - a, x - a + |p|);
  }

  lemma OccursInTail(s: string, a: nat, p: string, x: nat)
    requires a <= x && OccursAt(s, p, x)
    ensures OccursAt(s[a..], p, x - a)
  {
    assert s[a..] == s[a..|s|];
    OccursInPart(s, a, |s|, p, x);
  }

  lemma {:induction false} FindIsFirst(s: string, p: string, x: nat)
    requires p != "" && OccursAt(s, p, x)
    ensures Find(s, p).Some? && Find(s, p).value <= x
  {
    if s[..|p|] != p {
      assert x > 0;
      OccursInTail(s, 1, p, x);
      FindIsFirst(s[1..], p, x - 1);
    }
  }

  lemma OneHit(s: string, p: string, x: nat)
    requires p != "" && OccursAt(s, p, x)
    ensures Hits(s, p) >= 1
  {
    FindIsFirst(s, p, x);
  }

  lemma HitsUnfold(s: string, p: string, all: nat, later: nat)
    requires p != "" && Find(s, p).Some?
    requires all == Hits(s, p) && later == Hits(s[Find(s, p).value + |p|..], p)
    ensures all == 1 + later
  {
  }

  lemma TwoHits(s: string, p: string, x: nat, y: nat)
    requires p != "" && OccursAt(s, p, x) && OccursAt(s, p, y) && x + |p| <= y
    ensures Hits(s, p) >= 2
  {
    FindIsFirst(s, p, x);
    var i := Find(s, p).value + |p|;
    var rest := s[i..];
    OccursInTail(s, i, p, y);
    OneHit(rest, p, y - i);
    HitsUnfold(s, p, Hits(s, p), Hits(rest, p));
  }

  /** The pattern occurs nowhere. */
  predicate Never(s: string, p: string) {
    forall x: nat :: x + |p| <= |s| ==> !OccursAt(s, p, x)
  }

  /** The pattern occurs, and nowhere behind its first occurrence but overlapping it. */
  predicate Once(s: string, p: string) {
    exists x: nat :: x + |p| <= |s| && FirstAndOnly(s, p, x)
  }

  predicate FirstAndOnly(s: string, p: string, x: nat) {
    OccursAt(s, p, x) && forall y: nat :: y + |p| <= |s| && OccursAt(s, p, y) ==> x <= y < x + |p|
  }

  lemma NeverExact(s: string, p: string)
    requires p != ""
    ensures Hits(s, p) == 0 <==> Never(s, p)
    ensures Find(s, p).None? <==> Never(s, p)
  {
    if x: nat :| x + |p| <= |s| && OccursAt(s, p, x) {
      FindIsFirst(s, p, x);
    }
    if Find(s, p).Some? {
      assert OccursAt(s, p, Find(s, p).value);
    }
  }

  /** One hit is counted exactly when all occurrences overlap the first. */
  lemma OnceExact(s: string, p: string)
    requires p != ""
    ensures Hits(s, p) == 1 <==> Once(s, p)
  {
    if Find(s, p).Some? {
      OneCounted(s, p, Find(s, p).value);
      FirstAlone(s, p, Find(s, p).value);
    } else {
      NeverExact(s, p);
      NeverIsNotOnce(s, p);
    }
  }

  lemma NeverIsNotOnce(s: string, p: string)
    requires Never(s, p)
    ensures !Once(s, p)
  {
  }

  lemma OneCounted(s: string, p: string, x: nat)
    requires p != "" && Find(s, p) == Some(x)
    ensures Hits(s, p) == 1 <==> Never(s[x + |p|..], p)
  {
    var later := Hits(s[x + |p|..], p);
    HitsUnfold(s, p, Hits(s, p), later);
    NeverExact(s[x + |p|..], p);
  }

  /** Behind the first occurrence there is none exactly when there is none but what overlaps it. */
  lemma FirstAlone(s: string, p: string, x: nat)
    requires p != "" && Find(s, p) == Some(x)
    ensures Never(s[x + |p|..], p) <==> Once(s, p)
  {
    NeverBehind(s, p, x + |p|);
    if Never(s[x + |p|..], p) {
      forall y: nat | y + |p| <= |s| && OccursAt(s, p, y) ensures x <= y < x + |p| {
        FindIsFirst(s, p, y);
      }
      assert FirstAndOnly(s, p, x);
    }
    if x': nat :| x' + |p| <= |s| && FirstAndOnly(s, p, x') {
      FindIsFirst(s, p, x');
    }
  }

  lemma NeverBehind(s: string, p: string, i: nat)
    requires p != "" && i <= |s|
    ensures Never(s[i..], p) <==> forall y: nat :: i <= y && y + |p| <= |s| ==> !OccursAt(s, p, y)
  {
    assert s[i..] == s[i..|s|];
    if y: nat :| i <= y && y + |p| <= |s| && OccursAt(s, p, y) {
      OccursInTail(s, i, p, y);
    }
    if x: nat :| x + |p| <= |s| - i && OccursAt(s[i..], p, x) {
      OccursInWhole(s, i, |s|, p, x);
    }
  }

  // ---- splitting at a character ----

  /** Where the separator first stands, or the end. */
  function SepAt(s: string, c: char): (n: nat)
    ensures n <= |s| && (n < |s| ==> s[n] == c) && forall i :: 0 <= i < n ==> s[i] != c
  {
    if s == "" || s[0] == c then 0 else 1 + SepAt(s[1..], c)
  }

  /** `split(c)`. */
  function Split(s: string, c: char): (r: seq<string>)
    ensures |r| >= 1
  {
    var n := SepAt(s, c);
    if n == |s| then [s] else [s[..n]] + Split(s[n + 1..], c)
  }

  function Join(parts: seq<string>, c: char): string {
    if parts == [] then "" else if |parts| == 1 then parts[0] else parts[0] + [c] + Join(parts[1..], c)
  }

  predicate Without(s: string, c: char) {
    forall i :: 0 <= i < |s| ==> s[i] != c
  }

  lemma JoinCons(head: string, parts: seq<string>, c: char)
    requires parts != []
    ensures Join([head] + parts, c) == head + [c] + Join(parts, c)
  {
    assert ([head] + parts)[1..] == parts;
  }

  lemma {:induction false} JoinSplit(s: string, c: char)
    ensures Join(Split(s, c), c) == s
  {
    var n := SepAt(s, c);
    if n < |s| {
      JoinSplit(s[n + 1..], c);
      JoinCons(s[..n], Split(s[n + 1..], c), c);
      assert s == s[..n] + [c] + s[n + 1..];
    }
  }

  lemma SepAtConcat(a: string, c: char, b: string)
    requires Without(a, c)
    ensures SepAt(a + [c] + b, c) == |a| && SepAt(a, c) == |a|
  {
    var s := a + [c] + b;
    assert s[|a|] == c;
    assert forall i :: 0 <= i < |a| ==> s[i] == a[i];
  }

  /** Splitting undoes joining when no part contains the separator. */
  lemma {:induction false} SplitJoin(parts: seq<string>, c: char)
    requires parts != [] && forall i :: 0 <= i < |parts| ==> Without(parts[i], c)
    ensures Split(Join(parts, c), c) == parts
  {
    if |parts| > 1 {
      var rest := Join(parts[1..], c);
      SplitJoin(parts[1..], c);
      SepAtConcat(parts[0], c, rest);
      var s := Join(parts, c);
      assert s == parts[0] + [c] + rest;
      assert s[..|parts[0]|] == parts[0] && s[|parts[0]| + 1..] == rest;
      assert parts == [parts[0]] + parts[1..];
    } else {
      SepAtConcat(parts[0], c, "");
      assert parts == [parts[0]];
    }
  }

  /** Parts with the separator behind each. */
  function Before(parts: seq<string>, c: char): string {
    if parts == [] then "" else parts[0] + [c] + Before(parts[1..], c)
  }

  /** Parts with the separator in front of each. */
  function Behind(parts: seq<string>, c: char): string {
    if parts == [] then "" else [c] + Join(parts, c)
  }

  /** One part of a joined text stands between what is before it and what is behind it. */
  lemma {:induction false} JoinAround(a: seq<string>, x: string, b: seq<string>, c: char)
    ensures Join(a + [x] + b, c) == Before(a, c) + x + Behind(b, c)
  {
    var parts := a + [x] + b;
    if a == [] {
      assert parts == [x] + b;
      assert parts[1..] == b;
    } else {
      assert parts[1..] == a[1..] + [x] + b;
      JoinAround(a[1..], x, b, c);
      var tail := Before(a[1..], c);
      assert a[0] + [c] + (tail + x + Behind(b, c)) == a[0] + [c] + tail + x + Behind(b, c);
    }
  }

  lemma {:induction false} BeforeLength(a: seq<string>, b: seq<string>, c: char)
    ensures |Before(a + b, c)| == |Before(a, c)| + |Before(b, c)|
  {
    if a == [] {
      assert a + b == b;
    } else {
      assert (a + b)[1..] == a[1..] + b;
      BeforeLength(a[1..], b, c);
    }
  }

  /** Where part `k` begins in the joined text. */
  function Offset(parts: seq<string>, c: char, k: nat): nat
    requires k < |parts|
  {
    |Before(parts[..k], c)|
  }

  lemma SegmentAt(s: string, c: char, k: nat)
    requires k < |Split(s, c)|
    ensures OccursAt(s, Split(s, c)[k], Offset(Split(s, c), c, k))
  {
    JoinSplit(s, c);
    PartAt(Split(s, c), c, k);
  }

  lemma PartAt(parts: seq<string>, c: char, k: nat)
    requires k < |parts|
    ensures OccursAt(Join(parts, c), parts[k], Offset(parts, c, k))
  {
    assert parts == parts[..k] + [parts[k]] + parts[k + 1..];
    JoinAround(parts[..k], parts[k], parts[k + 1..], c);
  }

  lemma PartsDisjoint(parts: seq<string>, c: char, i: nat, j: nat)
    requires i < j < |parts|
    ensures Offset(parts, c, i) + |parts[i]| < Offset(parts, c, j)
  {
    assert parts[..j] == parts[..i] + parts[i..j];
    BeforeLength(parts[..i], parts[i..j], c);
  }

  /** Replacing one part replaces its stretch of the joined text. */
  lemma JoinReplaced(parts: seq<string>, c: char, k: nat, t: string)
    requires k < |parts|
    ensures Join(parts[k := t], c) == Before(parts[..k], c) + t + Behind(parts[k + 1..], c)
  {
    assert parts[k := t] == parts[..k] + [t] + parts[k + 1..];
    JoinAround(parts[..k], t, parts[k + 1..], c);
  }

  lemma SepNotInside(s: string, p: string, x: nat, c: char)
    requires OccursAt(s, p, x) && Without(p, c)
    ensures forall i :: x <= i < x + |p| ==> s[i] != c
  {
    assert forall i :: x <= i < x + |p| ==> s[i] == s[x..x + |p|][i - x];
  }

  /** A pattern without the separator that occurs in the text occurs within one segment. */
  lemma {:induction false} OccurrenceInSegment(s: string, c: char, p: string, x: nat) returns (k: nat, y: nat)
    requires OccursAt(s, p, x) && p != "" && Without(p, c)
    ensures k < |Split(s, c)| && OccursAt(Split(s, c)[k], p, y) && x == Offset(Split(s, c), c, k) + y
  {
    var n := SepAt(s, c);
    if n == |s| {
      k, y := 0, x;
    } else if x + |p| <= n {
      k, y := 0, x;
      OccursInPart(s, 0, n, p, x);
    } else {
      SepNotInside(s, p, x, c);
      OccursInTail(s, n + 1, p, x);
      k, y := OccurrenceInSegment(s[n + 1..], c, p, x - n - 1);
      LaterOffset(s[..n], Split(s[n + 1..], c), c, k);
      k := k + 1;
    }
  }

  lemma LaterOffset(first: string, parts: seq<string>, c: char, k: nat)
    requires k < |parts|
    ensures Offset([first] + parts, c, k + 1) == |first| + 1 + Offset(parts, c, k)
  {
    assert ([first] + parts)[..k + 1] == [first] + parts[..k];
    BeforeLength([first], parts[..k], c);
  }

  // ---- case ----

  lemma {:induction false} SepAtLower(s: string, c: char)
    requires IsCaseless(c)
    ensures SepAt(Lower(s), c) == SepAt(s, c)
  {
    if s != "" && s[0] != c {
      assert Lower(s)[1..] == Lower(s[1..]);
      SepAtLower(s[1..], c);
    }
  }

  /** No other character folds to this one, and it folds to itself. */
  predicate IsCaseless(c: char) {
    !('A' <= c <= 'Z') && !('a' <= c <= 'z')
  }

  lemma {:induction false} SplitLower(s: string, c: char)
    requires IsCaseless(c)
    ensures Split(Lower(s), c) == LowerAll(Split(s, c))
  {
    SepAtLower(s, c);
    var n := SepAt(s, c);
    if n < |s| {
      var rest := s[n + 1..];
      SplitLower(rest, c);
      LowerSlice(s, n + 1, |s|);
      LowerSlice(s, 0, n);
      LowerAllCons(s[..n], Split(rest, c));
      assert Lower(rest) == Lower(s)[n + 1..] by {
        assert rest == s[n + 1..|s|];
      }
      assert Split(Lower(s), c) == [Lower(s)[..n]] + Split(Lower(s)[n + 1..], c);
    } else {
      LowerAllCons(s, []);
    }
  }

  lemma LowerAllCons(head: string, tail: seq<string>)
    ensures LowerAll([head] + tail) == [Lower(head)] + LowerAll(tail)
    ensures LowerAll([]) == []
  {
  }
}
