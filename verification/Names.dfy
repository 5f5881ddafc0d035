/**
  Domain names, as the program sees them through its DNS library.

  A name is the list of its labels, leftmost first. Every name the program builds or receives
  is absolute, so the library's "fully qualified" flag is not represented.
 */
module Names {
  import opened Wrappers
  import opened Ascii

  type Label = string
  type Name = seq<Label>

  const MAX_LABEL: nat := 63
  const MAX_NAME: nat := 255

  /** Bytes of the uncompressed wire form: a length byte per label and the root's zero byte. */
  function WireLength(labels: seq<string>): (n: nat)
    ensures n >= 1
  {
    if labels == [] then 1 else |labels[0]| + 1 + WireLength(labels[1..])
  }

  predicate LabelsFit(labels: seq<string>) {
    && (forall i :: 0 <= i < |labels| ==> 1 <= |labels[i]| <= MAX_LABEL)
    && WireLength(labels) <= MAX_NAME
  }

  /** `Name::from_labels`: section 2.3.4 of RFC 1035. */
  function FromLabels(labels: seq<string>): Option<Name> {
    if LabelsFit(labels) then Some(labels) else None
  }

  /** `Name::num_labels`, which does not count a leading `*`. */
  function NumLabels(name: Name): nat {
    if |name| > 0 && name[0] == "*" then |name| - 1 else |name|
  }

  /** `==` on names: equal labels up to ASCII case. */
  predicate SameName(a: Name, b: Name) {
    LowerAll(a) == LowerAll(b)
  }

  /** `apex.zone_of(name)`: the apex's labels are a suffix of the name's, up to ASCII case. */
  predicate ZoneOf(apex: Name, name: Name) {
    |apex| <= |name| && SameName(apex, name[|name| - |apex|..])
  }

  // ---- what fits depends on label lengths only ----

  predicate SameLengths(a: seq<string>, b: seq<string>) {
    |a| == |b| && forall i :: 0 <= i < |a| ==> |a[i]| == |b[i]|
  }

  lemma {:induction false} FitDependsOnLengths(a: seq<string>, b: seq<string>)
    requires SameLengths(a, b)
    ensures WireLength(a) == WireLength(b)
    ensures LabelsFit(a) <==> LabelsFit(b)
  {
    if a != [] {
      FitDependsOnLengths(a[1..], b[1..]);
    }
  }

  lemma {:induction false} SuffixFits(labels: seq<string>, k: nat)
    requires k <= |labels|
    ensures WireLength(labels[k..]) <= WireLength(labels)
    ensures LabelsFit(labels) ==> LabelsFit(labels[k..])
  {
    if k > 0 {
      SuffixFits(labels[1..], k - 1);
      assert labels[k..] == labels[1..][k - 1..];
    }
  }

  lemma {:induction false} WireLengthConcat(a: seq<string>, b: seq<string>)
    ensures WireLength(a + b) == WireLength(a) + WireLength(b) - 1
  {
    if a == [] {
      assert a + b == b;
    } else {
      assert (a + b)[1..] == a[1..] + b;
      WireLengthConcat(a[1..], b);
    }
  }

  // ---- names that differ in case only ----

  lemma SameNameLabels(a: Name, b: Name)
    ensures SameName(a, b) <==> |a| == |b| && forall i :: 0 <= i < |a| ==> Lower(a[i]) == Lower(b[i])
  {
    if SameName(a, b) {
      assert |a| == |LowerAll(a)| == |LowerAll(b)| == |b|;
      forall i | 0 <= i < |a| ensures Lower(a[i]) == Lower(b[i]) {
        assert LowerAll(a)[i] == LowerAll(b)[i];
      }
    }
  }

  /** Equal names have equal label lists, except where they differ in case. */
  lemma SameNameStar(a: Name, b: Name)
    requires SameName(a, b)
    ensures |a| == |b| && NumLabels(a) == NumLabels(b)
  {
    SameNameLabels(a, b);
    if |a| > 0 {
      StarCase(a[0]);
      StarCase(b[0]);
    }
  }

  /** `*` has no other case. */
  lemma StarCase(text: string)
    ensures Lower(text) == "*" <==> text == "*"
  {
    if |text| == 1 {
      assert Lower(text)[0] == LowerChar(text[0]);
    }
  }

  lemma ZoneOfSameName(apex: Name, a: Name, b: Name)
    requires SameName(a, b)
    ensures ZoneOf(apex, a) <==> ZoneOf(apex, b)
  {
    SameNameLabels(a, b);
    if |apex| <= |a| {
      var k := |a| - |apex|;
      SameNameLabels(a[k..], b[k..]);
    }
  }
}
