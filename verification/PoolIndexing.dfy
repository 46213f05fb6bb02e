/**
 * The pool index: postings by tag and by row over a snapshot's spans, and the walks between
 * neighbours. Every answer is what a linear scan of the spans would give.
 */
module PoolIndexing {
  import opened Machine
  import opened Sorting

  datatype PoolBackend = Lfh | Vs | Segment | Large

  datatype PoolState = Allocated | ReusableFree | CachedFree | Unreadable | Uncommitted {
    predicate IsChunk() { Allocated? || ReusableFree? || CachedFree? }
  }

  datatype HeapIdentity = HeapIdentity(poolState: u64, heap: u64, special: bool)

  datatype PoolSpan = PoolSpan(usableAddress: u64, size: u64, rawTag: u32, poolKind: u32, numaNode: u16, heap: HeapIdentity,
                               subsegment: Option<u64>, backend: PoolBackend, state: PoolState, sizeClass: u32)
  {
    function End(): u64 { SaturatingAdd(usableAddress, size) }
  }

  /** The spans of a walk, and how it ended. */
  datatype PoolSnapshot = PoolSnapshot(spans: seq<PoolSpan>, complete: bool, budgetExpired: bool, stoppedAfterMatches: Option<nat>) {
    /** The walk stopped where the pool did not. */
    predicate CutShort() { budgetExpired || stoppedAfterMatches.Some? }
  }

  datatype RowIdentity = RowIdentity(poolKind: u32, numaNode: u16, heap: HeapIdentity, backend: PoolBackend,
                                     subsegment: Option<u64>, sizeClass: u32)

  datatype PoolIndex = PoolIndex(spans: seq<PoolSpan>, postings: map<u32, seq<nat>>, rowPostings: map<RowIdentity, seq<nat>>,
                                 spanRows: seq<RowIdentity>, complete: bool, budgetExpired: bool, stoppedAfterMatches: Option<nat>)

  function RowOf(span: PoolSpan): RowIdentity {
    RowIdentity(span.poolKind, span.numaNode, span.heap, span.backend, span.subsegment, span.sizeClass)
  }

  function SpanOrder(span: PoolSpan): (r: seq<int>)
    ensures |r| == 4
  {
    [span.heap.poolState, span.heap.heap, if span.heap.special then 1 else 0, span.usableAddress]
  }

  predicate SpanLe(a: PoolSpan, b: PoolSpan) { LexLe(SpanOrder(a), SpanOrder(b)) }

  lemma SpanLeIsTotal()
    ensures TotalPreorder(SpanLe)
  {
    forall a, b ensures SpanLe(a, b) || SpanLe(b, a) {
      LexIsTotal(SpanOrder(a), SpanOrder(b));
    }
    forall a, b, c | SpanLe(a, b) && SpanLe(b, c) ensures SpanLe(a, c) {
      LexIsTransitive(SpanOrder(a), SpanOrder(b), SpanOrder(c));
    }
  }

  /** Spans are in the order of their heaps, field by field, and within one heap of their addresses. */
  lemma SpansAreInOrder(a: PoolSpan, b: PoolSpan)
    requires SpanLe(a, b)
    ensures a.heap.poolState <= b.heap.poolState
    ensures a.heap.poolState == b.heap.poolState ==> a.heap.heap <= b.heap.heap
    ensures a.heap.poolState == b.heap.poolState && a.heap.heap == b.heap.heap ==> (a.heap.special ==> b.heap.special)
    ensures a.heap == b.heap ==> a.usableAddress <= b.usableAddress
  {
    var x, y := SpanOrder(a), SpanOrder(b);
    var k := Decided(x, y);
    assert x[1] == a.heap.heap && y[1] == b.heap.heap && x[3] == a.usableAddress && y[3] == b.usableAddress;
    assert x[2] == (if a.heap.special then 1 else 0) && y[2] == if b.heap.special then 1 else 0;
  }

  /** Within one heap the order is address order. */
  lemma AddressOrder(a: PoolSpan, b: PoolSpan)
    requires SpanLe(a, b) && a.heap == b.heap
    ensures a.usableAddress <= b.usableAddress
  {
    SpansAreInOrder(a, b);
  }

  // ----- Postings

  ghost predicate Ascending(list: seq<nat>) {
    forall i, j :: 0 <= i < j < |list| ==> list[i] < list[j]
  }

  predicate Carries(span: PoolSpan, tag: u32) { span.state.Allocated? && span.rawTag == tag }

  /** The positions of the allocated spans with a tag, in order. */
  ghost predicate TagPostings(spans: seq<PoolSpan>, tag: u32, list: seq<nat>) {
    Ascending(list) && forall i: nat :: i in list <==> i < |spans| && Carries(spans[i], tag)
  }

  ghost predicate RowPostings(spans: seq<PoolSpan>, row: RowIdentity, list: seq<nat>) {
    Ascending(list) && forall i: nat :: i in list <==> i < |spans| && RowOf(spans[i]) == row
  }

  function ListAt<K>(postings: map<K, seq<nat>>, key: K): seq<nat> {
    if key in postings then postings[key] else []
  }

  ghost predicate Posted(spans: seq<PoolSpan>, postings: map<u32, seq<nat>>, rowPostings: map<RowIdentity, seq<nat>>, rows: seq<RowIdentity>) {
    && (forall tag: u32 :: TagPostings(spans, tag, ListAt(postings, tag)))
    && (forall row :: RowPostings(spans, row, ListAt(rowPostings, row)))
    && |rows| == |spans| && forall i :: 0 <= i < |spans| ==> rows[i] == RowOf(spans[i])
  }

  /** The index says of the spans what a scan of them would, and keeps how the walk ended. */
  ghost predicate Indexes(snapshot: PoolSnapshot, index: PoolIndex) {
    && index.spans == Sort(snapshot.spans, SpanLe)
    && Posted(index.spans, index.postings, index.rowPostings, index.spanRows)
    && index.complete == snapshot.complete && index.budgetExpired == snapshot.budgetExpired
    && index.stoppedAfterMatches == snapshot.stoppedAfterMatches
  }

  function Push<K>(postings: map<K, seq<nat>>, key: K, i: nat): map<K, seq<nat>> {
    postings[key := ListAt(postings, key) + [i]]
  }

  lemma TagGrows(spans: seq<PoolSpan>, n: nat, tag: u32, list: seq<nat>)
    requires n < |spans| && TagPostings(spans[..n], tag, list)
    ensures TagPostings(spans[..n + 1], tag, if Carries(spans[n], tag) then list + [n] else list)
  {
    assert forall i :: 0 <= i < n ==> spans[..n][i] == spans[..n + 1][i];
    forall i | 0 <= i < |list| ensures list[i] < n {
      assert list[i] in list;
    }
  }

  lemma RowGrows(spans: seq<PoolSpan>, n: nat, row: RowIdentity, list: seq<nat>)
    requires n < |spans| && RowPostings(spans[..n], row, list)
    ensures RowPostings(spans[..n + 1], row, if RowOf(spans[n]) == row then list + [n] else list)
  {
    assert forall i :: 0 <= i < n ==> spans[..n][i] == spans[..n + 1][i];
    forall i | 0 <= i < |list| ensures list[i] < n {
      assert list[i] in list;
    }
  }

  /** `PoolIndex::build`. */
  method Build(snapshot: PoolSnapshot) returns (index: PoolIndex)
    ensures Indexes(snapshot, index)
    ensures SortedBy(index.spans, SpanLe) && multiset(index.spans) == multiset(snapshot.spans)
  {
    hide TagPostings, RowPostings, Sort, SpanLe, SortedBy;
    var spans := Sort(snapshot.spans, SpanLe);
    SpanLeIsTotal();
    SortSorts(snapshot.spans, SpanLe);
    SortKeeps(snapshot.spans, SpanLe);
    var postings: map<u32, seq<nat>>, rowPostings: map<RowIdentity, seq<nat>>, rows := map[], map[], [];
    NothingPosted(spans);
    for n := 0 to |spans|
      invariant Posted(spans[..n], postings, rowPostings, rows)
    {
      var tagged, row := spans[n].state.Allocated?, RowOf(spans[n]);
      var tags := if tagged then Push(postings, spans[n].rawTag, n) else postings;
      forall tag: u32 ensures TagPostings(spans[..n + 1], tag, ListAt(tags, tag)) {
        TagGrows(spans, n, tag, ListAt(postings, tag));
      }
      forall r ensures RowPostings(spans[..n + 1], r, ListAt(Push(rowPostings, row, n), r)) {
        RowGrows(spans, n, r, ListAt(rowPostings, r));
      }
      postings := tags;
      rowPostings := Push(rowPostings, row, n);
      rows := rows + [row];
    }
    assert spans[..|spans|] == spans;
    index := PoolIndex(spans, postings, rowPostings, rows, snapshot.complete, snapshot.budgetExpired, snapshot.stoppedAfterMatches);
  }

  lemma NothingPosted(spans: seq<PoolSpan>)
    ensures Posted(spans[..0], map[], map[], [])
  {
  }

  // ----- The context of a tag

  ghost predicate RowHasTag(spans: seq<PoolSpan>, tag: u32, row: RowIdentity) {
    exists j: nat :: j < |spans| && Carries(spans[j], tag) && RowOf(spans[j]) == row
  }

  /** The span shares a row with some allocation of the tag. */
  ghost predicate InContext(spans: seq<PoolSpan>, tag: u32, i: nat) {
    i < |spans| && RowHasTag(spans, tag, RowOf(spans[i]))
  }

  predicate NatLe(a: nat, b: nat) { a <= b }

  /** Sorting distinct positions puts them in strictly ascending order, losing none. */
  lemma SortedPositions(list: seq<nat>)
    requires NoDuplicates(list)
    ensures Ascending(Sort(list, NatLe)) && forall i :: i in Sort(list, NatLe) <==> i in list
  {
    SortSorts(list, NatLe);
    SortKeeps(list, NatLe);
    ReorderedHasNoDuplicates(list, Sort(list, NatLe));
    forall i ensures i in Sort(list, NatLe) <==> i in list {
      assert i in multiset(list) <==> i in multiset(Sort(list, NatLe));
    }
  }

  /** The positions gathered so far are those of the rows drawn so far. */
  ghost predicate Gathered(spans: seq<PoolSpan>, drawn: set<RowIdentity>, list: seq<nat>) {
    NoDuplicates(list) && forall i: nat :: i in list <==> i < |spans| && RowOf(spans[i]) in drawn
  }

  lemma GatherRow(spans: seq<PoolSpan>, drawn: set<RowIdentity>, list: seq<nat>, row: RowIdentity, more: seq<nat>)
    requires Gathered(spans, drawn, list) && row !in drawn && RowPostings(spans, row, more)
    ensures Gathered(spans, drawn + {row}, list + more)
  {
    forall i, j | 0 <= i < |list| && 0 <= j < |more| ensures list[i] != more[j] {
      assert list[i] in list && more[j] in more;
    }
  }

  lemma PostingsAreInRange(spans: seq<PoolSpan>, tag: u32, list: seq<nat>)
    requires TagPostings(spans, tag, list)
    ensures forall i :: 0 <= i < |list| ==> list[i] < |spans|
  {
    forall i | 0 <= i < |list| ensures list[i] < |spans| {
      assert list[i] in list;
    }
  }

  /** The rows that hold some allocation of the tag. */
  method SelectRows(index: PoolIndex, tag: u32) returns (selected: set<RowIdentity>)
    requires Posted(index.spans, index.postings, index.rowPostings, index.spanRows)
    ensures forall row :: row in selected <==> RowHasTag(index.spans, tag, row)
  {
    hide RowPostings, TagPostings;
    var matching := ListAt(index.postings, tag);
    assert TagPostings(index.spans, tag, matching);
    PostingsAreInRange(index.spans, tag, matching);
    selected := {};
    for n := 0 to |matching|
      invariant selected == set i | 0 <= i < n :: RowOf(index.spans[matching[i]])
    {
      selected := selected + {index.spanRows[matching[n]]};
    }
    RowsOfTag(index.spans, tag, matching, selected);
  }

  /** `context_for_tag`. The rows come out of their set in no particular order. */
  method ContextForTag(index: PoolIndex, tag: u32, ghost snapshot: PoolSnapshot) returns (result: seq<nat>)
    requires Indexes(snapshot, index)
    ensures Ascending(result) && forall i: nat :: i in result <==> InContext(index.spans, tag, i)
  {
    hide Sort, RowPostings, TagPostings, NoDuplicates, Ascending;
    var selected := SelectRows(index, tag);
    ghost var rows := selected;
    result := [];
    NoneGathered(index.spans);
    while selected != {}
      invariant selected <= rows && Gathered(index.spans, rows - selected, result)
      decreases selected
    {
      var row :| row in selected;
      assert RowPostings(index.spans, row, ListAt(index.rowPostings, row));
      GatherRow(index.spans, rows - selected, result, row, ListAt(index.rowPostings, row));
      result := result + ListAt(index.rowPostings, row);
      selected := selected - {row};
      assert rows - selected == (rows - (selected + {row})) + {row};
    }
    assert rows - selected == rows;
    SortedPositions(result);
    result := Sort(result, NatLe);
  }

  lemma NoneGathered(spans: seq<PoolSpan>)
    ensures Gathered(spans, {}, [])
  {
  }

  lemma RowsOfTag(spans: seq<PoolSpan>, tag: u32, matching: seq<nat>, rows: set<RowIdentity>)
    requires TagPostings(spans, tag, matching)
    requires forall i :: 0 <= i < |matching| ==> matching[i] < |spans|
    requires rows == set i | 0 <= i < |matching| :: RowOf(spans[matching[i]])
    ensures forall row :: row in rows <==> RowHasTag(spans, tag, row)
  {
    forall row | row in rows ensures RowHasTag(spans, tag, row) {
      var i :| 0 <= i < |matching| && RowOf(spans[matching[i]]) == row;
      assert matching[i] in matching;
    }
    forall j: nat | j < |spans| && Carries(spans[j], tag) ensures RowOf(spans[j]) in rows {
      assert j in matching;
      var i :| 0 <= i < |matching| && matching[i] == j;
    }
  }

  /** Spans of one row: pool kind, node, heap, backend, subsegment and size class. */
  ghost predicate SameRow(a: PoolSpan, b: PoolSpan) {
    && (a.poolKind, a.numaNode, a.heap) == (b.poolKind, b.numaNode, b.heap)
    && (a.backend, a.subsegment, a.sizeClass) == (b.backend, b.subsegment, b.sizeClass)
  }

  ghost predicate CarriesInRow(spans: seq<PoolSpan>, tag: u32, i: nat, j: nat) {
    i < |spans| && j < |spans| && SameRow(spans[i], spans[j]) && spans[j].state == Allocated && spans[j].rawTag == tag
  }

  /** A tag's context is every span of a row in which something in use carries the tag. */
  lemma ContextIsByRow(spans: seq<PoolSpan>, tag: u32, i: nat)
    ensures InContext(spans, tag, i) <==> exists j: nat :: CarriesInRow(spans, tag, i, j)
  {
    if InContext(spans, tag, i) {
      var j: nat :| j < |spans| && Carries(spans[j], tag) && RowOf(spans[j]) == RowOf(spans[i]);
      assert CarriesInRow(spans, tag, i, j);
    }
    if j: nat :| CarriesInRow(spans, tag, i, j) {
      assert Carries(spans[j], tag) && RowOf(spans[j]) == RowOf(spans[i]);
    }
  }

  // ----- Neighbours and holes

  /** Both are chunks of one heap, backend and subsegment. */
  predicate SameBoundary(left: PoolSpan, right: PoolSpan) {
    && left.poolKind == right.poolKind && left.numaNode == right.numaNode && left.heap == right.heap
    && left.backend == right.backend && left.subsegment == right.subsegment
    && left.state.IsChunk() && right.state.IsChunk()
  }

  function Predecessor(spans: seq<PoolSpan>, i: nat): Option<nat> {
    if 0 < i < |spans| && SameBoundary(spans[i - 1], spans[i]) then Some(i - 1) else None
  }

  function Successor(spans: seq<PoolSpan>, i: nat): Option<nat> {
    if i + 1 < |spans| && SameBoundary(spans[i], spans[i + 1]) then Some(i + 1) else None
  }

  lemma NeighboursAreInverse(spans: seq<PoolSpan>, i: nat, j: nat)
    ensures Successor(spans, i) == Some(j) <==> Predecessor(spans, j) == Some(i)
  {
  }

  datatype Direction = Underflow | Overflow

  datatype Hole = Hole(spanIndex: nat, address: u64, size: u64, state: PoolState, distance: u64, immediate: bool)

  function SaturatingSub(a: u64, b: u64): u64 { if a < b then 0 else a - b }

  function Distance(origin: PoolSpan, span: PoolSpan, direction: Direction): u64 {
    match direction
    case Underflow => SaturatingSub(origin.usableAddress, span.End())
    case Overflow => SaturatingSub(span.usableAddress, origin.End())
  }

  /** The position `k` steps from the origin. */
  function StepFrom(origin: nat, direction: Direction, k: nat): int {
    match direction case Underflow => origin - k case Overflow => origin + k
  }

  /** A free chunk of the origin's boundary, with nothing but others of the kind between. */
  ghost predicate IsHole(spans: seq<PoolSpan>, origin: nat, direction: Direction, k: nat)
    requires origin < |spans|
  {
    k > 0 && forall j :: 1 <= j <= k ==> FreeAt(spans, origin, StepFrom(origin, direction, j))
  }

  predicate FreeAt(spans: seq<PoolSpan>, origin: nat, at: int)
    requires origin < |spans|
  {
    0 <= at < |spans| && SameBoundary(spans[origin], spans[at]) && !spans[at].state.Allocated?
  }

  /** The holes reported are exactly the maximal run of free chunks from the origin, nearest first. */
  ghost predicate AreHoles(spans: seq<PoolSpan>, origin: nat, direction: Direction, holes: seq<Hole>)
    requires origin < |spans|
  {
    && (forall k: nat :: IsHole(spans, origin, direction, k) <==> 0 < k <= |holes|)
    && forall k :: 0 <= k < |holes| ==> DescribesHole(spans, origin, direction, k + 1, holes[k])
  }

  ghost predicate DescribesHole(spans: seq<PoolSpan>, origin: nat, direction: Direction, k: nat, hole: Hole)
    requires origin < |spans|
  {
    var at := StepFrom(origin, direction, k);
    && 0 <= at < |spans|
    && var span := spans[at];
       var distance := Distance(spans[origin], span, direction);
       hole == Hole(at, span.usableAddress, span.size, span.state, distance, k == 1 && distance == 0)
  }

  /** `holes`, for an origin in range; out of range there are none. */
  method Holes(spans: seq<PoolSpan>, allocation: nat, direction: Direction) returns (holes: seq<Hole>)
    ensures allocation >= |spans| ==> holes == []
    ensures allocation < |spans| ==> AreHoles(spans, allocation, direction, holes)
  {
    holes := [];
    if allocation >= |spans| {
      return;
    }
    var cursor := allocation;
    while true
      invariant cursor == StepFrom(allocation, direction, |holes|) && cursor < |spans|
      invariant forall j :: 1 <= j <= |holes| ==> FreeAt(spans, allocation, StepFrom(allocation, direction, j))
      invariant forall k :: 0 <= k < |holes| ==> DescribesHole(spans, allocation, direction, k + 1, holes[k])
      decreases match direction case Underflow => cursor case Overflow => |spans| - cursor
    {
      var next := match direction case Underflow => Predecessor(spans, cursor) case Overflow => Successor(spans, cursor);
      if next.None? || spans[next.value].state.Allocated? {
        assert !FreeAt(spans, allocation, StepFrom(allocation, direction, |holes| + 1)) by {
          assert |holes| > 0 ==> FreeAt(spans, allocation, StepFrom(allocation, direction, |holes|));
        }
        break;
      }
      assert |holes| > 0 ==> FreeAt(spans, allocation, StepFrom(allocation, direction, |holes|));
      var span := spans[next.value];
      var distance := Distance(spans[allocation], span, direction);
      holes := holes + [Hole(next.value, span.usableAddress, span.size, span.state, distance, holes == [] && distance == 0)];
      cursor := next.value;
    }
    forall k: nat ensures IsHole(spans, allocation, direction, k) <==> 0 < k <= |holes| {
      if k > |holes| {
        assert !FreeAt(spans, allocation, StepFrom(allocation, direction, |holes| + 1));
      }
    }
  }

  lemma NothingAllocatedOnTheWay(spans: seq<PoolSpan>, origin: nat, k: nat, at: nat)
    requires origin < |spans| && IsHole(spans, origin, Overflow, k) && origin < at <= origin + k
    ensures at < |spans| && !spans[at].state.Allocated?
  {
    assert FreeAt(spans, origin, StepFrom(origin, Overflow, at - origin));
  }

  /** A hole's distance is the gap between it and the allocation, and it is at hand when it is next to it with none. */
  lemma HolesAreAtTheirDistance(spans: seq<PoolSpan>, origin: nat, direction: Direction, holes: seq<Hole>, k: nat)
    requires origin < |spans| && AreHoles(spans, origin, direction, holes) && k < |holes|
    ensures holes[k].spanIndex < |spans|
    ensures var here, there := spans[origin], spans[holes[k].spanIndex];
      && holes[k].address == there.usableAddress && holes[k].size == there.size && holes[k].state == there.state
      && (direction.Overflow? ==> holes[k].spanIndex == origin + k + 1)
      && (direction.Underflow? ==> holes[k].spanIndex == origin - k - 1)
      && (direction.Overflow? && here.usableAddress + here.size <= there.usableAddress ==>
            holes[k].distance == there.usableAddress - (here.usableAddress + here.size))
      && (direction.Underflow? && there.usableAddress + there.size <= here.usableAddress ==>
            holes[k].distance == here.usableAddress - (there.usableAddress + there.size))
      && (holes[k].immediate <==> k == 0 && holes[k].distance == 0)
  {
    hide SameBoundary;
    assert DescribesHole(spans, origin, direction, k + 1, holes[k]);
  }

  /** A chunk that is not in use, in the same pool, node, heap, backend and subsegment as another chunk. */
  ghost predicate FreeBeside(origin: PoolSpan, span: PoolSpan) {
    && (origin.poolKind, origin.numaNode, origin.heap) == (span.poolKind, span.numaNode, span.heap)
    && (origin.backend, origin.subsegment) == (span.backend, span.subsegment)
    && origin.state in {Allocated, ReusableFree, CachedFree} && span.state in {ReusableFree, CachedFree}
  }

  /** Every hole is a free chunk beside the origin, and the span after the last is not one, if there is a span there. */
  lemma HolesAreFree(spans: seq<PoolSpan>, origin: nat, direction: Direction, holes: seq<Hole>)
    requires origin < |spans| && AreHoles(spans, origin, direction, holes)
    ensures forall k :: 0 <= k < |holes| ==> holes[k].spanIndex < |spans| && FreeBeside(spans[origin], spans[holes[k].spanIndex])
    ensures direction.Overflow? && origin + |holes| + 1 < |spans| ==> !FreeBeside(spans[origin], spans[origin + |holes| + 1])
    ensures direction.Underflow? && origin - |holes| - 1 >= 0 ==> !FreeBeside(spans[origin], spans[origin - |holes| - 1])
  {
    forall k | 0 <= k < |holes| ensures holes[k].spanIndex < |spans| && FreeBeside(spans[origin], spans[holes[k].spanIndex]) {
      assert DescribesHole(spans, origin, direction, k + 1, holes[k]) && IsHole(spans, origin, direction, k + 1);
      assert FreeAt(spans, origin, StepFrom(origin, direction, k + 1));
    }
    var n := |holes|;
    assert !IsHole(spans, origin, direction, n + 1);
    assert n > 0 ==> IsHole(spans, origin, direction, n);
    assert !FreeAt(spans, origin, StepFrom(origin, direction, n + 1));
  }

  /** No free chunk is an overflow hole of two allocations. */
  lemma OverflowHoleHasOneOwner(spans: seq<PoolSpan>, one: nat, other: nat, k: nat, m: nat)
    requires one < |spans| && other < |spans| && spans[one].state.Allocated? && spans[other].state.Allocated?
    requires IsHole(spans, one, Overflow, k) && IsHole(spans, other, Overflow, m) && one + k == other + m
    ensures one == other
  {
    if one < other {
      NothingAllocatedOnTheWay(spans, one, k, other);
    } else if other < one {
      NothingAllocatedOnTheWay(spans, other, m, one);
    }
  }

  /** Over an index's spans, holes further along an overflow are no nearer. */
  lemma OverflowDistancesGrow(spans: seq<PoolSpan>, origin: nat, holes: seq<Hole>, i: nat, j: nat)
    requires origin < |spans| && SortedBy(spans, SpanLe) && AreHoles(spans, origin, Overflow, holes) && i < j < |holes|
    ensures holes[i].distance <= holes[j].distance
  {
    hide SpanLe;
    assert IsHole(spans, origin, Overflow, j + 1);
    assert FreeAt(spans, origin, StepFrom(origin, Overflow, i + 1)) && FreeAt(spans, origin, StepFrom(origin, Overflow, j + 1));
    AddressOrder(spans[origin + i + 1], spans[origin + j + 1]);
    assert DescribesHole(spans, origin, Overflow, i + 1, holes[i]) && DescribesHole(spans, origin, Overflow, j + 1, holes[j]);
  }

  // ----- Ranking

  function Rank(spans: seq<PoolSpan>, origin: PoolSpan, hole: Hole): (r: seq<int>)
    ensures |r| == 6
  {
    var mismatch := hole.spanIndex >= |spans|
      || spans[hole.spanIndex].backend != origin.backend || spans[hole.spanIndex].sizeClass != origin.sizeClass;
    [if hole.immediate then 0 else 1, if hole.state.ReusableFree? then 0 else 1, if mismatch then 1 else 0,
     hole.distance, MAX_U64 - hole.size, hole.address]
  }

  function RankLe(spans: seq<PoolSpan>, origin: PoolSpan): (Hole, Hole) -> bool {
    (a: Hole, b: Hole) => LexLe(Rank(spans, origin, a), Rank(spans, origin, b))
  }

  /** Of the hole's backend and size class the origin has both. */
  predicate Alike(spans: seq<PoolSpan>, origin: PoolSpan, hole: Hole) {
    hole.spanIndex < |spans| && spans[hole.spanIndex].backend == origin.backend && spans[hole.spanIndex].sizeClass == origin.sizeClass
  }

  /**
   * Which of two holes is no worse: one at hand, then one free for reuse, then one of the origin's own
   * backend and size class, then the nearer, then the larger, then the lower.
   */
  predicate NoWorse(spans: seq<PoolSpan>, origin: PoolSpan, a: Hole, b: Hole) {
    if a.immediate != b.immediate then a.immediate
    else if (a.state == ReusableFree) != (b.state == ReusableFree) then a.state == ReusableFree
    else if Alike(spans, origin, a) != Alike(spans, origin, b) then Alike(spans, origin, a)
    else if a.distance != b.distance then a.distance < b.distance
    else if a.size != b.size then a.size > b.size
    else a.address <= b.address
  }

  lemma RankedIsNoWorse(spans: seq<PoolSpan>, origin: PoolSpan, a: Hole, b: Hole)
    requires RankLe(spans, origin)(a, b)
    ensures NoWorse(spans, origin, a, b)
  {
    var x, y := Rank(spans, origin, a), Rank(spans, origin, b);
    var k := Decided(x, y);
    assert forall i :: 0 <= i < 6 && i < k ==> x[i] == y[i];
    assert x[1] == (if a.state == ReusableFree then 0 else 1) && y[1] == if b.state == ReusableFree then 0 else 1;
    assert x[2] == (if Alike(spans, origin, a) then 0 else 1) && y[2] == if Alike(spans, origin, b) then 0 else 1;
    assert x[3] == a.distance && y[3] == b.distance && x[4] == MAX_U64 - a.size && y[4] == MAX_U64 - b.size;
    assert x[5] == a.address && y[5] == b.address;
  }

  lemma RankIsTotal(spans: seq<PoolSpan>, origin: PoolSpan)
    ensures TotalPreorder(RankLe(spans, origin))
  {
    var le := RankLe(spans, origin);
    forall a, b ensures le(a, b) || le(b, a) {
      LexIsTotal(Rank(spans, origin, a), Rank(spans, origin, b));
    }
    forall a, b, c | le(a, b) && le(b, c) ensures le(a, c) {
      LexIsTransitive(Rank(spans, origin, a), Rank(spans, origin, b), Rank(spans, origin, c));
    }
  }

  /** `ranked_holes`: the same holes, the best first. An immediate one is first of all. */
  method RankedHoles(spans: seq<PoolSpan>, allocation: nat, direction: Direction) returns (ranked: seq<Hole>, ghost holes: seq<Hole>)
    ensures allocation >= |spans| ==> ranked == []
    ensures allocation < |spans| ==> AreHoles(spans, allocation, direction, holes) && multiset(ranked) == multiset(holes)
    ensures allocation < |spans| ==> SortedBy(ranked, RankLe(spans, spans[allocation]))
    ensures allocation < |spans| ==> forall i, j :: 0 <= i < j < |ranked| ==> NoWorse(spans, spans[allocation], ranked[i], ranked[j])
    ensures forall k :: 0 < k < |ranked| && ranked[k].immediate ==> ranked[0].immediate
  {
    hide AreHoles, Sort;
    var found := Holes(spans, allocation, direction);
    holes := found;
    if allocation >= |spans| {
      return [], holes;
    }
    var le := RankLe(spans, spans[allocation]);
    RankIsTotal(spans, spans[allocation]);
    SortSorts(found, le);
    SortKeeps(found, le);
    ranked := Sort(found, le);
    forall i, j | 0 <= i < j < |ranked| ensures NoWorse(spans, spans[allocation], ranked[i], ranked[j]) {
      RankedIsNoWorse(spans, spans[allocation], ranked[i], ranked[j]);
    }
    forall k | 0 < k < |ranked| && ranked[k].immediate ensures ranked[0].immediate {
      assert le(ranked[0], ranked[k]);
      assert Rank(spans, spans[allocation], ranked[k])[0] == 0;
    }
  }
}
