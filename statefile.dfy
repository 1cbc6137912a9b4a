/** The persisted snapshot of a watched service and the rule that decides
    whether two snapshots differ (pkg/statefile/statefile.go). */
module StateFile {

  /** One name/address pair. `target` is "external" or "internal" in every
      state the service conversion builds; the type itself is a plain string. */
  datatype HostInfo = HostInfo(name: string, ipv4Address: string, target: string)

  /** The overall state of the watched addresses: a reference to the source
      object and an ordered list of records. */
  datatype HostState = HostState(reference: string, items: seq<HostInfo>)

  /** The zero value of a HostState: empty reference, no records. */
  function ZeroState(): HostState
  {
    HostState("", [])
  }

  /** Positional scan of two equally long record lists from index i,
      stopping at the first index whose records differ in any field. */
  function ItemsDifferFrom(a: seq<HostInfo>, b: seq<HostInfo>, i: nat): bool
    requires |a| == |b| && i <= |a|
    decreases |a| - i
  {
    if i == |a| then false
    else if a[i] != b[i] then true
    else ItemsDifferFrom(a, b, i + 1)
  }

  /** True when `other` is not equivalent to `hs`: a different reference,
      a different number of records, or some record that differs at the
      same position. */
  function Differs(hs: HostState, other: HostState): bool
  {
    if hs.reference != other.reference then true
    else if |hs.items| != |other.items| then true
    else ItemsDifferFrom(hs.items, other.items, 0)
  }

  /** The scan from i finds a mismatch exactly when some position at or
      after i holds two different records. */
  lemma {:induction false} ItemsDifferFromIff(a: seq<HostInfo>, b: seq<HostInfo>, i: nat)
    requires |a| == |b| && i <= |a|
    ensures ItemsDifferFrom(a, b, i) <==> exists k :: i <= k < |a| && a[k] != b[k]
    decreases |a| - i
  {
    if i < |a| && a[i] == b[i] {
      ItemsDifferFromIff(a, b, i + 1);
    }
  }

  /** Differs is true exactly when the references differ, the lengths
      differ, or the records differ at some common position. */
  lemma DiffersIff(a: HostState, b: HostState)
    ensures Differs(a, b) <==>
      (a.reference != b.reference
       || |a.items| != |b.items|
       || exists i :: 0 <= i < |a.items| && i < |b.items| && a.items[i] != b.items[i])
  {
    if a.reference == b.reference && |a.items| == |b.items| {
      ItemsDifferFromIff(a.items, b.items, 0);
    }
  }

  /** Differs is exactly structural inequality of the two states. */
  lemma DiffersIsInequality(a: HostState, b: HostState)
    ensures Differs(a, b) <==> a != b
  {
    DiffersIff(a, b);
    if !Differs(a, b) {
      assert a.items == b.items;
    }
  }

  /** No state differs from itself. */
  lemma DiffersIrreflexive(s: HostState)
    ensures !Differs(s, s)
  {
    ItemsDifferFromIff(s.items, s.items, 0);
  }

  /** The comparison does not depend on which side is the receiver. */
  lemma DiffersSymmetric(a: HostState, b: HostState)
    ensures Differs(a, b) == Differs(b, a)
  {
    DiffersIsInequality(a, b);
    DiffersIsInequality(b, a);
  }

  /** The state with the records at positions i and j exchanged. */
  function SwapItems(s: HostState, i: nat, j: nat): (t: HostState)
    requires i < |s.items| && j < |s.items|
    ensures t.reference == s.reference && |t.items| == |s.items|
    ensures t.items[i] == s.items[j] && t.items[j] == s.items[i]
    ensures forall k :: 0 <= k < |s.items| && k != i && k != j ==> t.items[k] == s.items[k]
  {
    HostState(s.reference, s.items[i := s.items[j]][j := s.items[i]])
  }

  /** The comparison is positional, not set-like: exchanging two different
      records yields a state that differs from the original. */
  lemma SwapDiffers(s: HostState, i: nat, j: nat)
    requires i < |s.items| && j < |s.items|
    requires s.items[i] != s.items[j]
    ensures Differs(s, SwapItems(s, i, j))
  {
    var t := SwapItems(s, i, j);
    ItemsDifferFromIff(s.items, t.items, 0);
    assert s.items[i] != t.items[i];
  }
}
