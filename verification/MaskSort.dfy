/** The stable sort that turns a linear scan into longest-prefix match (src/config/compile.rs). */
module MaskSort {
  import opened ConfigModel

  /** Insertion behind everything at least as specific: the step of a stable sort. */
  function InsertByMask(zones: seq<Zone>, z: Zone): seq<Zone> {
    if zones == [] || zones[|zones| - 1].mask >= z.mask then zones + [z]
    else InsertByMask(zones[..|zones| - 1], z) + [zones[|zones| - 1]]
  }

  /** `sort_by_key(Reverse(mask))`. */
  function StableSort(zones: seq<Zone>): seq<Zone> {
    if zones == [] then []
    else InsertByMask(StableSort(zones[..|zones| - 1]), zones[|zones| - 1])
  }

  /** The zones of one prefix length, in their order. */
  function OfMask(zones: seq<Zone>, m: nat): seq<Zone> {
    if zones == [] then []
    else OfMask(zones[..|zones| - 1], m) + if zones[|zones| - 1].mask == m then [zones[|zones| - 1]] else []
  }

  lemma {:induction false} OfMaskConcat(a: seq<Zone>, b: seq<Zone>, m: nat)
    ensures OfMask(a + b, m) == OfMask(a, m) + OfMask(b, m)
  {
    if b == [] {
      assert a + b == a;
    } else {
      var n := |b| - 1;
      assert (a + b)[..|a + b| - 1] == a + b[..n];
      OfMaskConcat(a, b[..n], m);
    }
  }

  lemma {:induction false} OfMaskNone(zones: seq<Zone>, m: nat)
    requires forall i :: 0 <= i < |zones| ==> zones[i].mask != m
    ensures OfMask(zones, m) == []
  {
    if zones != [] {
      OfMaskNone(zones[..|zones| - 1], m);
    }
  }

  /** Where the zone goes: behind everything at least as specific, before everything less so. */
  lemma {:induction false} InsertPlace(zones: seq<Zone>, z: Zone) returns (k: nat)
    requires SortedByMask(zones)
    ensures k <= |zones| && InsertByMask(zones, z) == zones[..k] + [z] + zones[k..]
    ensures forall i :: 0 <= i < k ==> zones[i].mask >= z.mask
    ensures forall i :: k <= i < |zones| ==> zones[i].mask < z.mask
  {
    if zones == [] || zones[|zones| - 1].mask >= z.mask {
      k := |zones|;
      assert zones[..k] == zones && zones[k..] == [];
    } else {
      var n := |zones| - 1;
      k := InsertPlace(zones[..n], z);
      assert zones[..n][..k] == zones[..k];
      assert zones[..n][k..] + [zones[n]] == zones[k..];
    }
  }

  lemma InsertSorted(zones: seq<Zone>, z: Zone)
    requires SortedByMask(zones)
    ensures SortedByMask(InsertByMask(zones, z))
  {
    var k := InsertPlace(zones, z);
    var r := InsertByMask(zones, z);
    assert forall i :: 0 <= i < k ==> r[i] == zones[i];
    assert forall i :: k < i < |r| ==> r[i] == zones[i - 1];
    assert r[k] == z;
  }

  lemma InsertOfMask(zones: seq<Zone>, z: Zone, m: nat)
    requires SortedByMask(zones)
    ensures OfMask(InsertByMask(zones, z), m) == OfMask(zones + [z], m)
  {
    var k := InsertPlace(zones, z);
    assert zones == zones[..k] + zones[k..];
    OfMaskExchange(zones[..k], zones[k..], z, m);
  }

  /** Moving a zone past zones of other lengths changes no group. */
  lemma OfMaskExchange(a: seq<Zone>, b: seq<Zone>, z: Zone, m: nat)
    requires forall i :: 0 <= i < |b| ==> b[i].mask != z.mask
    ensures OfMask(a + [z] + b, m) == OfMask(a + b + [z], m)
  {
    OfMaskConcat(a + [z], b, m);
    OfMaskConcat(a, [z], m);
    OfMaskConcat(a + b, [z], m);
    OfMaskConcat(a, b, m);
    if z.mask == m {
      OfMaskNone(b, m);
    } else {
      OfMaskNone([z], m);
    }
  }

  lemma {:induction false} StableSortSorted(zones: seq<Zone>)
    ensures SortedByMask(StableSort(zones))
  {
    if zones != [] {
      StableSortSorted(zones[..|zones| - 1]);
      InsertSorted(StableSort(zones[..|zones| - 1]), zones[|zones| - 1]);
    }
  }

  /**
    A stable sort by descending mask: sorted, and for every prefix length the zones of that
    length are the same ones in the same order.
   */
  lemma {:induction false} StableSortExact(zones: seq<Zone>, m: nat)
    ensures SortedByMask(StableSort(zones))
    ensures OfMask(StableSort(zones), m) == OfMask(zones, m)
  {
    StableSortSorted(zones);
    if zones != [] {
      var front, z := zones[..|zones| - 1], zones[|zones| - 1];
      var sorted := StableSort(front);
      StableSortExact(front, m);
      InsertOfMask(sorted, z, m);
      OfMaskConcat(sorted, [z], m);
    }
  }

  /** Sorting permutes. */
  lemma {:induction false} StableSortPermutes(zones: seq<Zone>)
    ensures multiset(StableSort(zones)) == multiset(zones)
    ensures |StableSort(zones)| == |zones|
  {
    if zones != [] {
      var n := |zones| - 1;
      StableSortPermutes(zones[..n]);
      StableSortSorted(zones[..n]);
      InsertPermutes(StableSort(zones[..n]), zones[n]);
      assert zones == zones[..n] + [zones[n]];
    }
  }

  lemma InsertPermutes(zones: seq<Zone>, z: Zone)
    requires SortedByMask(zones)
    ensures multiset(InsertByMask(zones, z)) == multiset(zones) + multiset{z}
    ensures |InsertByMask(zones, z)| == |zones| + 1
  {
    var k := InsertPlace(zones, z);
    var a, b := zones[..k], zones[k..];
    assert zones == a + b;
    assert multiset(a + [z] + b) == multiset(a) + multiset{z} + multiset(b);
  }

  /** Sorting keeps the members, and nothing else matters for membership. */
  lemma StableSortMembers(zones: seq<Zone>, w: Zone)
    ensures w in StableSort(zones) <==> w in zones
  {
    StableSortPermutes(zones);
    assert w in StableSort(zones) <==> w in multiset(StableSort(zones));
    assert w in zones <==> w in multiset(zones);
  }

  lemma {:induction false} StableSortDistinct(zones: seq<Zone>)
    requires DistinctNetworks(zones)
    ensures DistinctNetworks(StableSort(zones))
  {
    if zones != [] {
      var n := |zones| - 1;
      var sorted := StableSort(zones[..n]);
      StableSortDistinct(zones[..n]);
      StableSortSorted(zones[..n]);
      forall i | 0 <= i < |sorted| ensures (sorted[i].prefix, sorted[i].mask) != (zones[n].prefix, zones[n].mask) {
        StableSortMembers(zones[..n], sorted[i]);
        var j :| 0 <= j < n && zones[..n][j] == sorted[i];
        assert zones[j] == sorted[i];
      }
      InsertDistinct(sorted, zones[n]);
    }
  }

  lemma InsertDistinct(zones: seq<Zone>, z: Zone)
    requires SortedByMask(zones) && DistinctNetworks(zones)
    requires forall i :: 0 <= i < |zones| ==> (zones[i].prefix, zones[i].mask) != (z.prefix, z.mask)
    ensures DistinctNetworks(InsertByMask(zones, z))
  {
    var k := InsertPlace(zones, z);
    var r := InsertByMask(zones, z);
    assert forall i :: 0 <= i < k ==> r[i] == zones[i];
    assert forall i :: k < i < |r| ==> r[i] == zones[i - 1];
    assert r[k] == z;
  }
}
