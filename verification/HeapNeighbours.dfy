/** `neighbourhood_at`: finding the chunk an address is in, and the chunks beside it. */
module HeapNeighbours {
  import opened Machine
  import opened Sorting
  import opened HeapSnapshots

  datatype HeapNeighbourhood = HeapNeighbourhood(allocation: HeapAllocation, offset: int,
                                                 previous: Option<HeapAllocation>, next: Option<HeapAllocation>)

  /** `partition_point`: how many leading allocations start at or below the address. */
  function SplitAt(allocations: seq<HeapAllocation>, address: u64): (r: nat)
    ensures r <= |allocations|
  {
    if allocations == [] || allocations[0].userAddress > address then 0 else 1 + SplitAt(allocations[1..], address)
  }

  function PositionOf(allocations: seq<HeapAllocation>, address: u64): (r: Option<nat>)
    ensures r.Some? ==> r.value < |allocations| && allocations[r.value].Contains(address)
  {
    var split := SplitAt(allocations, address);
    if split > 0 && allocations[split - 1].Contains(address) then Some(split - 1)
    else if split < |allocations| && allocations[split].Contains(address) then Some(split)
    else None
  }

  /** A chunk of the same heap, backend and subsegment. */
  predicate SameHeap(candidate: HeapAllocation, allocation: HeapAllocation) {
    && candidate.heap == allocation.heap && candidate.backend == allocation.backend
    && candidate.subsegment == allocation.subsegment && candidate.state.IsChunk()
  }

  predicate FitsI64(x: int) { -0x8000_0000_0000_0000 <= x <= 0x7fff_ffff_ffff_ffff }

  /** A displacement, kept within a signed 64-bit value. */
  function ClampI64(x: int): int {
    if x < -0x8000_0000_0000_0000 then -0x8000_0000_0000_0000
    else if x > 0x7fff_ffff_ffff_ffff then 0x7fff_ffff_ffff_ffff
    else x
  }

  function NeighbourhoodAt(allocations: seq<HeapAllocation>, address: u64): Option<HeapNeighbourhood> {
    match PositionOf(allocations, address)
    case None => None
    case Some(k) =>
      var a := allocations[k];
      var previous :=
        if k > 0 && SameHeap(allocations[k - 1], a) && allocations[k - 1].End() == a.headerAddress
        then Some(allocations[k - 1]) else None;
      var next :=
        if k + 1 < |allocations| && SameHeap(allocations[k + 1], a) && a.End() == allocations[k + 1].headerAddress
        then Some(allocations[k + 1]) else None;
      Some(HeapNeighbourhood(a, ClampI64(address - a.userAddress), previous, next))
  }

  // ----- What the lookup is for

  /** Nonempty spans that share no byte. */
  ghost predicate Disjoint(allocations: seq<HeapAllocation>) {
    && (forall i :: 0 <= i < |allocations| ==> allocations[i].headerAddress < allocations[i].End())
    && (forall i, j :: 0 <= i < j < |allocations| ==> Apart(allocations[i], allocations[j]))
  }

  predicate Apart(a: HeapAllocation, b: HeapAllocation) {
    a.End() <= b.headerAddress || b.End() <= a.headerAddress
  }

  /** The same, in the order a snapshot sorts them. */
  ghost predicate Laid(allocations: seq<HeapAllocation>) {
    Disjoint(allocations) && forall i, j :: 0 <= i < j < |allocations| ==> allocations[i].userAddress <= allocations[j].userAddress
  }

  /** Any disjoint spans are laid out, once a snapshot has sorted them. */
  lemma SnapshotIsLaid(spans: seq<HeapAllocation>)
    requires Disjoint(spans)
    ensures Laid(Sort(spans, AllocationLe))
  {
    hide Sort, Apart;
    var sorted := Sort(spans, AllocationLe);
    SnapshotIsSorted(spans);
    forall i, j | 0 <= i < j < |spans| ensures spans[i] != spans[j] {
      NotApartFromItself(spans[i]);
    }
    ReorderedHasNoDuplicates(spans, sorted);
    forall i | 0 <= i < |sorted| ensures sorted[i] in spans && sorted[i].headerAddress < sorted[i].End() {
      assert sorted[i] in multiset(spans);
    }
    forall i, j | 0 <= i < j < |sorted| ensures Apart(sorted[i], sorted[j]) {
      ApartWherever(spans, sorted[i], sorted[j]);
    }
    assert forall i, j :: 0 <= i < j < |sorted| ==> AllocationLe(sorted[i], sorted[j]);
  }

  lemma NotApartFromItself(a: HeapAllocation)
    requires a.headerAddress < a.End()
    ensures !Apart(a, a)
  {
  }

  lemma ApartWherever(spans: seq<HeapAllocation>, a: HeapAllocation, b: HeapAllocation)
    requires Disjoint(spans) && a in spans && b in spans && a != b
    ensures Apart(a, b)
  {
    var i :| 0 <= i < |spans| && spans[i] == a;
    var j :| 0 <= j < |spans| && spans[j] == b;
    assert i < j ==> Apart(spans[i], spans[j]);
    assert j < i ==> Apart(spans[j], spans[i]);
  }

  /** Each chunk ends at or before the user address of every later one. */
  ghost predicate Separated(allocations: seq<HeapAllocation>) {
    forall i, j :: 0 <= i < j < |allocations| ==> allocations[i].End() <= allocations[j].userAddress
  }

  /** Every header is at or before the memory handed out. */
  ghost predicate HeadersComeFirst(allocations: seq<HeapAllocation>) {
    forall i :: 0 <= i < |allocations| ==> allocations[i].headerAddress <= allocations[i].userAddress
  }

  /** No allocation with no usable byte is filed after one that starts at the same address. */
  ghost predicate TiesInOrder(allocations: seq<HeapAllocation>) {
    forall i, j :: 0 <= i < j < |allocations| && allocations[i].userAddress == allocations[j].userAddress ==>
      allocations[j].End() != allocations[j].userAddress
  }

  /** Where headers come first, the only way two chunks fail to be separated is a tie out of order. */
  lemma OnlyTiesMatter(allocations: seq<HeapAllocation>)
    requires Laid(allocations) && HeadersComeFirst(allocations)
    ensures Separated(allocations) <==> TiesInOrder(allocations)
  {
    if TiesInOrder(allocations) {
      forall i, j | 0 <= i < j < |allocations| ensures allocations[i].End() <= allocations[j].userAddress {
        assert Apart(allocations[i], allocations[j]);
      }
    } else {
      var i, j :| 0 <= i < j < |allocations| && allocations[i].userAddress == allocations[j].userAddress == allocations[j].End();
      assert Apart(allocations[i], allocations[j]);
    }
  }

  /** The lookup agrees with a linear search, header bytes included. */
  ghost predicate FindsEvery(allocations: seq<HeapAllocation>) {
    forall k: nat, address: u64 :: k < |allocations| && allocations[k].Contains(address) ==> PositionOf(allocations, address) == Some(k)
  }

  lemma {:induction false} SplitDivides(allocations: seq<HeapAllocation>, address: u64, i: nat)
    requires forall i, j :: 0 <= i < j < |allocations| ==> allocations[i].userAddress <= allocations[j].userAddress
    requires i < |allocations|
    ensures i < SplitAt(allocations, address) <==> allocations[i].userAddress <= address
  {
    if i > 0 {
      SplitDivides(allocations[1..], address, i - 1);
    }
  }

  /** Separated spans follow one another: each ends before the next one's header. */
  lemma InOrder(allocations: seq<HeapAllocation>, i: nat, j: nat)
    requires Laid(allocations) && Separated(allocations) && i < j < |allocations|
    ensures allocations[i].End() <= allocations[j].headerAddress
  {
    assert Apart(allocations[i], allocations[j]);
  }

  lemma SeparatedIsFound(allocations: seq<HeapAllocation>, k: nat, address: u64)
    requires Laid(allocations) && Separated(allocations) && k < |allocations| && allocations[k].Contains(address)
    ensures PositionOf(allocations, address) == Some(k)
  {
    hide SplitAt, Apart;
    SplitDivides(allocations, address, k);
    if k > 0 {
      InOrder(allocations, k - 1, k);
      SplitDivides(allocations, address, k - 1);
    }
    if k + 1 < |allocations| {
      InOrder(allocations, k, k + 1);
      SplitDivides(allocations, address, k + 1);
    }
  }

  /** Of two chunks that are not separated, the earlier has a byte the lookup does not find it by. */
  lemma UnseparatedIsMissed(allocations: seq<HeapAllocation>, i: nat, j: nat)
    requires Laid(allocations) && i < j < |allocations| && allocations[i].End() > allocations[j].userAddress
    ensures exists address: u64 :: allocations[i].Contains(address) && PositionOf(allocations, address) != Some(i)
  {
    hide SplitAt;
    var address: u64 := if allocations[i].headerAddress < allocations[j].userAddress then allocations[j].userAddress else allocations[i].headerAddress;
    SplitDivides(allocations, address, i);
    SplitDivides(allocations, address, j);
    assert allocations[i].Contains(address) && PositionOf(allocations, address) != Some(i);
  }

  /** The lookup is a linear search exactly when chunks are separated: the condition is not avoidable. */
  lemma LookupIsExact(allocations: seq<HeapAllocation>)
    requires Laid(allocations)
    ensures FindsEvery(allocations) <==> Separated(allocations)
  {
    hide PositionOf;
    if Separated(allocations) {
      forall k: nat, address: u64 | k < |allocations| && allocations[k].Contains(address)
        ensures PositionOf(allocations, address) == Some(k)
      {
        SeparatedIsFound(allocations, k, address);
      }
    } else {
      var i: nat, j: nat :| i < j < |allocations| && allocations[i].End() > allocations[j].userAddress;
      UnseparatedIsMissed(allocations, i, j);
    }
  }

  /** A whole snapshot of disjoint chunks, headers first: the lookup is exact just when its ties are in order. */
  lemma SnapshotLookupIsExact(spans: seq<HeapAllocation>)
    requires Disjoint(spans) && HeadersComeFirst(spans)
    ensures FindsEvery(Sort(spans, AllocationLe)) <==> TiesInOrder(Sort(spans, AllocationLe))
  {
    hide Sort;
    var sorted := Sort(spans, AllocationLe);
    SnapshotIsLaid(spans);
    SnapshotIsSorted(spans);
    forall i | 0 <= i < |sorted| ensures sorted[i].headerAddress <= sorted[i].userAddress {
      assert sorted[i] in multiset(spans);
    }
    LookupIsExact(sorted);
    OnlyTiesMatter(sorted);
  }

  /** An address in a chunk, filed before another heap's zero-length chunk at the same address, is not found. */
  lemma ATieThatIsMissed()
    ensures
      var chunk := HeapAllocation(1, Segment, Allocated, 0x1000, 0x1000, 0x20, None, 0);
      var header := HeapAllocation(2, Segment, Allocated, 0xff0, 0x1000, 0, None, 0);
      && Laid([chunk, header]) && SortedBy([chunk, header], AllocationLe) && HeadersComeFirst([chunk, header])
      && chunk.Contains(0x1008) && NeighbourhoodAt([chunk, header], 0x1008).None?
  {
    var chunk := HeapAllocation(1, Segment, Allocated, 0x1000, 0x1000, 0x20, None, 0);
    var header := HeapAllocation(2, Segment, Allocated, 0xff0, 0x1000, 0, None, 0);
    var all := [chunk, header];
    assert all[1..] == [header] && all[1..][1..] == [];
    assert SplitAt(all, 0x1008) == 2;
  }

  /** A chunk of the same heap that ends exactly where this one's header begins. */
  ghost predicate EndsAt(allocations: seq<HeapAllocation>, i: int, k: int)
    requires 0 <= i < |allocations| && 0 <= k < |allocations|
  {
    allocations[i].End() == allocations[k].headerAddress
  }

  /** The address is in the chunk: from its header, which may come first, to its last usable byte, short of the last address there is. */
  ghost predicate Spans(a: HeapAllocation, address: u64) {
    a.headerAddress <= address && address < a.userAddress + a.capacity && address < MAX_U64
  }

  /** A chunk, in use or free, of this one's heap, backend and subsegment. */
  ghost predicate Beside(candidate: HeapAllocation, allocation: HeapAllocation) {
    && (candidate.heap, candidate.backend, candidate.subsegment) == (allocation.heap, allocation.backend, allocation.subsegment)
    && candidate.state in {Allocated, ReusableFree, CachedFree}
  }

  /**
   * The neighbours are those a search of the whole snapshot would find: the one chunk of the same
   * heap, backend and subsegment that ends where the header begins, and the one that begins where
   * the chunk ends.
   */
  lemma NeighboursAreExact(allocations: seq<HeapAllocation>, k: nat, address: u64)
    requires Laid(allocations) && Separated(allocations) && k < |allocations| && Spans(allocations[k], address)
    ensures NeighbourhoodAt(allocations, address).Some?
    ensures
      var n := NeighbourhoodAt(allocations, address).value;
      && n.allocation == allocations[k]
      && (FitsI64(address - allocations[k].userAddress) ==> allocations[k].userAddress + n.offset == address)
      && (address - allocations[k].userAddress > 0x7fff_ffff_ffff_ffff ==> n.offset == 0x7fff_ffff_ffff_ffff)
      && (address - allocations[k].userAddress < -0x8000_0000_0000_0000 ==> n.offset == -0x8000_0000_0000_0000)
      && (n.previous.Some? <==> exists i :: 0 <= i < |allocations| && EndsAt(allocations, i, k) && Beside(allocations[i], allocations[k]))
      && (forall i :: 0 <= i < |allocations| && EndsAt(allocations, i, k) && Beside(allocations[i], allocations[k])
            ==> n.previous == Some(allocations[i]))
      && (n.next.Some? <==> exists i :: 0 <= i < |allocations| && EndsAt(allocations, k, i) && Beside(allocations[i], allocations[k]))
      && (forall i :: 0 <= i < |allocations| && EndsAt(allocations, k, i) && Beside(allocations[i], allocations[k])
            ==> n.next == Some(allocations[i]))
  {
    hide PositionOf, Laid, Separated, SameHeap, Beside, Spans, HeapAllocation.Contains, HeapAllocation.End;
    SpansIsContains(allocations[k], address);
    SeparatedIsFound(allocations, k, address);
    forall i: nat, j: nat | i < |allocations| && j < |allocations| && EndsAt(allocations, i, j) ensures j == i + 1 {
      OnlyTheNextTouches(allocations, i, j);
    }
    if k > 0 {
      BesideIsSameHeap(allocations[k - 1], allocations[k]);
    }
    if k + 1 < |allocations| {
      BesideIsSameHeap(allocations[k + 1], allocations[k]);
    }
  }

  lemma SpansIsContains(a: HeapAllocation, address: u64)
    ensures Spans(a, address) <==> a.Contains(address)
  {
  }

  lemma BesideIsSameHeap(candidate: HeapAllocation, allocation: HeapAllocation)
    ensures Beside(candidate, allocation) <==> SameHeap(candidate, allocation)
  {
  }

  lemma OnlyTheNextTouches(allocations: seq<HeapAllocation>, i: nat, j: nat)
    requires Laid(allocations) && Separated(allocations) && i < |allocations| && j < |allocations|
    requires EndsAt(allocations, i, j)
    ensures j == i + 1
  {
    if j < i {
      InOrder(allocations, j, i);
    } else if i + 1 < j {
      RoomBetween(allocations, i, j);
    }
  }

  lemma RoomBetween(allocations: seq<HeapAllocation>, i: nat, j: nat)
    requires Laid(allocations) && Separated(allocations) && i + 1 < j < |allocations|
    ensures allocations[i].End() < allocations[j].headerAddress
  {
    InOrder(allocations, i, i + 1);
    InOrder(allocations, i + 1, j);
  }
}
