/**
 * Heap answers and what they cover: scoping a walk to its roots, composing the coverage verdict,
 * and the cache that keeps complete snapshots.
 */
module HeapSnapshots {
  import opened Machine
  import opened Sorting
  import opened HeapRoots

  datatype HeapBackend = Lfh | Vs | Segment | Large

  datatype HeapState = Allocated | ReusableFree | CachedFree | Unreadable | Uncommitted {
    /** A chunk the allocator laid out, rather than a gap. */
    predicate IsChunk() { Allocated? || ReusableFree? || CachedFree? }
  }

  datatype HeapAllocation = HeapAllocation(heap: u64, backend: HeapBackend, state: HeapState, headerAddress: u64,
                                           userAddress: u64, capacity: u64, subsegment: Option<u64>, sizeClass: u32)
  {
    function End(): u64 { SaturatingAdd(userAddress, capacity) }
    predicate Contains(address: int) { headerAddress <= address < End() }
  }

  predicate AllocationLe(a: HeapAllocation, b: HeapAllocation) {
    a.userAddress < b.userAddress || (a.userAddress == b.userAddress && a.heap <= b.heap)
  }

  /** What the shared walker produced: spans, and whether it covered all it was asked to. */
  datatype PoolSnapshot = PoolSnapshot(spans: seq<HeapAllocation>, complete: bool, budgetExpired: bool)

  datatype WalkCoverage = Complete | BudgetExpired | Partial

  datatype HeapScope = HeapScope(walked: seq<u64>, ntSkipped: seq<u64>, unknownSkipped: seq<u64>, unreadableSkipped: seq<u64>)

  datatype HeapSnapshot = HeapSnapshot(roots: seq<HeapRoot>, allocations: seq<HeapAllocation>, scope: HeapScope, coverage: WalkCoverage)

  datatype SnapshotKey = SnapshotKey(target: u64, processId: u32, peb: u64, image: u64, generation: u64, heap: Option<u64>)

  type Walker = seq<u64> -> Result<PoolSnapshot, HeapError>

  /** A snapshot's allocations are the walker's spans, in address order. */
  lemma SnapshotIsSorted(spans: seq<HeapAllocation>)
    ensures multiset(Sort(spans, AllocationLe)) == multiset(spans)
    ensures SortedBy(Sort(spans, AllocationLe), AllocationLe)
  {
    SortKeeps(spans, AllocationLe);
    SortSorts(spans, AllocationLe);
  }

  // ----- Scope

  function OfKind(roots: seq<HeapRoot>, kind: HeapKind): seq<u64> {
    if roots == [] then []
    else (if roots[0].kind == kind then [roots[0].address] else []) + OfKind(roots[1..], kind)
  }

  function ScopeOf(roots: seq<HeapRoot>): HeapScope {
    HeapScope(OfKind(roots, SegmentHeap), OfKind(roots, NtHeap), OfKind(roots, UnknownHeap), OfKind(roots, UnreadableHeap))
  }

  function FirstAt(roots: seq<HeapRoot>, heap: u64): (r: Option<HeapRoot>)
    ensures r.Some? ==> exists i :: 0 <= i < |roots| && IsFirstAt(roots, heap, i) && roots[i] == r.value
    ensures r.Some? ==> r.value in roots && r.value.address == heap
    ensures r.None? ==> forall root :: root in roots ==> root.address != heap
  {
    if roots == [] then None
    else if roots[0].address == heap then assert IsFirstAt(roots, heap, 0); Some(roots[0])
    else
      var r := FirstAt(roots[1..], heap);
      assert forall i :: 0 <= i < |roots| - 1 && IsFirstAt(roots[1..], heap, i) ==> IsFirstAt(roots, heap, i + 1);
      r
  }

  ghost predicate IsFirstAt(roots: seq<HeapRoot>, heap: u64, i: int)
    requires 0 <= i < |roots|
  {
    roots[i].address == heap && forall j :: 0 <= j < i ==> roots[j].address != heap
  }

  function Only(heaps: seq<u64>, heap: u64): seq<u64> {
    if heaps == [] then [] else (if heaps[0] == heap then [heap] else []) + Only(heaps[1..], heap)
  }

  /** `scope_for`: an absent selector is refused only when its absence is known. */
  function ScopeFor(roots: seq<HeapRoot>, heap: Option<u64>, enumerationComplete: bool): Result<HeapScope, HeapError> {
    var scope := ScopeOf(roots);
    if heap.None? then Ok(scope)
    else
      var selected := FirstAt(roots, heap.value);
      if (selected.Some? && !selected.value.kind.SegmentHeap?) || (selected.None? && enumerationComplete) then
        Err(UnsupportedHeap(heap.value))
      else Ok(scope.(walked := Only(scope.walked, heap.value)))
  }

  /** A selector is refused for a heap of another kind, and for one that is absent only when its absence is known. */
  lemma SelectorIsRefused(roots: seq<HeapRoot>, heap: u64, complete: bool)
    ensures (forall root :: root in roots ==> root.address != heap) ==>
      (ScopeFor(roots, Some(heap), complete) == Err(UnsupportedHeap(heap)) <==> complete)
    ensures forall i :: 0 <= i < |roots| && IsFirstAt(roots, heap, i) ==>
      (ScopeFor(roots, Some(heap), complete) == Err(UnsupportedHeap(heap)) <==> roots[i].kind != SegmentHeap)
    ensures ScopeFor(roots, Some(heap), complete).Err? ==> ScopeFor(roots, Some(heap), complete).error == UnsupportedHeap(heap)
    ensures ScopeFor(roots, None, complete).Ok?
  {
    forall i, j | 0 <= i < |roots| && 0 <= j < |roots| && IsFirstAt(roots, heap, i) && IsFirstAt(roots, heap, j) ensures i == j {
    }
  }

  /** The roots partition into the four lists of a scope: each address is filed under its kind. */
  lemma {:induction false} KindIsFiled(roots: seq<HeapRoot>, kind: HeapKind, address: u64)
    ensures address in OfKind(roots, kind) <==> exists root :: root in roots && root.kind == kind && root.address == address
  {
    if roots != [] {
      KindIsFiled(roots[1..], kind, address);
      assert roots == [roots[0]] + roots[1..];
      if root :| root in roots[1..] && root.kind == kind && root.address == address {
        assert root in roots;
      }
    }
  }

  /** and in the order the roots came in. */
  lemma {:induction false} KindsInOrder(roots: seq<HeapRoot>, kind: HeapKind)
    ensures OfKind(roots, kind) == RootAddresses(Filter(roots, (root: HeapRoot) => root.kind == kind))
  {
    if roots != [] {
      KindsInOrder(roots[1..], kind);
      var p := (root: HeapRoot) => root.kind == kind;
      assert p(roots[0]) ==> RootAddresses([roots[0]] + Filter(roots[1..], p)) == [roots[0].address] + RootAddresses(Filter(roots[1..], p));
      assert [] + Filter(roots[1..], p) == Filter(roots[1..], p);
    }
  }

  /** Each root's address is under its own kind of a scope, and under no other, whichever heap is selected for walking. */
  lemma ScopeFilesEach(roots: seq<HeapRoot>, heap: Option<u64>, complete: bool, address: u64)
    requires ScopeFor(roots, heap, complete).Ok?
    ensures var scope := ScopeFor(roots, heap, complete).value;
      && (address in scope.ntSkipped <==> exists root :: root in roots && root.kind == NtHeap && root.address == address)
      && (address in scope.unknownSkipped <==> exists root :: root in roots && root.kind == UnknownHeap && root.address == address)
      && (address in scope.unreadableSkipped <==> exists root :: root in roots && root.kind == UnreadableHeap && root.address == address)
      && (address in scope.walked <==> heap in {None, Some(address)} && exists root :: root in roots && root.kind == SegmentHeap && root.address == address)
  {
    KindIsFiled(roots, SegmentHeap, address);
    KindIsFiled(roots, NtHeap, address);
    KindIsFiled(roots, UnknownHeap, address);
    KindIsFiled(roots, UnreadableHeap, address);
    if heap.Some? {
      OnlyKeeps(OfKind(roots, SegmentHeap), heap.value);
      var only := Only(OfKind(roots, SegmentHeap), heap.value);
      if only != [] {
        assert only[0] in only;
      }
    }
  }

  lemma {:induction false} OnlyKeeps(heaps: seq<u64>, heap: u64)
    ensures forall h :: h in Only(heaps, heap) ==> h == heap
    ensures Only(heaps, heap) != [] <==> heap in heaps
  {
    if heaps != [] {
      OnlyKeeps(heaps[1..], heap);
    }
  }

  // ----- Coverage

  /** Whether a scope selects exactly what was asked for: every Segment heap, or the one named. */
  ghost predicate Selects(roots: seq<HeapRoot>, heap: Option<u64>, walked: seq<u64>) {
    match heap
    case None => walked == OfKind(roots, SegmentHeap)
    case Some(h) =>
      && walked != [] && (forall w :: w in walked ==> w == h)
      && exists root :: root in roots && root.address == h && root.kind.SegmentHeap?
  }

  /** A scope made when every root was seen selects exactly what was asked for. */
  lemma CompleteScopeSelects(roots: seq<HeapRoot>, heap: Option<u64>)
    requires ScopeFor(roots, heap, true).Ok?
    ensures Selects(roots, heap, ScopeFor(roots, heap, true).value.walked)
  {
    if heap.Some? {
      var root := FirstAt(roots, heap.value).value;
      assert root in roots && root.kind.SegmentHeap?;
      KindIsFiled(roots, SegmentHeap, heap.value);
      OnlyKeeps(OfKind(roots, SegmentHeap), heap.value);
    }
  }

  /** `with_unseen_roots`. */
  function WithUnseen(pool: PoolSnapshot, unseen: Option<Unseen>): PoolSnapshot {
    if unseen.Some? then pool.(complete := false) else pool
  }

  function CoverageOf(pool: PoolSnapshot): WalkCoverage {
    if pool.complete then Complete else if pool.budgetExpired then BudgetExpired else Partial
  }

  /** What a walk found out: the enumeration, the memory it describes and how far into it, and what the walker returned. */
  datatype Evidence = Evidence(process: Process, peb: u64, named: seq<u64>, path: seq<u64>, done: nat, polls: nat,
                               enumeration: RootEnumeration, walker: Walker, pool: PoolSnapshot)

  /**
   * A complete answer really is one: the enumeration saw every root the memory holds, the walker
   * covered everything it was handed, and what it was handed is exactly what was asked for.
   */
  ghost predicate Justified(e: Evidence, key: SnapshotKey, snapshot: HeapSnapshot) {
    && e.peb == key.peb && e.enumeration.SawEveryRoot() && PebHeaps(e.process, e.peb) == Ok(e.named)
    && AllRoots(e.process, e.named, e.path, e.enumeration.roots)
    && snapshot.roots == e.enumeration.roots
    && Selects(snapshot.roots, key.heap, snapshot.scope.walked)
    && e.walker(snapshot.scope.walked) == Ok(e.pool) && e.pool.complete
    && snapshot.allocations == Sort(e.pool.spans, AllocationLe)
  }

  /** The roots are those of memory, as far as the enumeration got. */
  ghost predicate Enumerated(e: Evidence) {
    && e.done <= |e.named| && e.enumeration.roots == WithNamed(e.process, RootsOn(e.process, e.path), e.named[..e.done])
    && GotAsFar(e.process, e.named, e.path, e.done, e.enumeration, e.polls)
    && (!e.enumeration.budgetExpired ==> PebHeaps(e.process, e.peb) == Ok(e.named))
  }

  /** Why a walk failed: the clock or the PEB ended the enumeration, or the selector was refused, or the walker failed. */
  ghost predicate FailedBy(process: Process, clock: nat -> Tick, key: SnapshotKey, walker: Walker, why: Option<Evidence>, error: HeapError) {
    match why
    case None => PebHeaps(process, key.peb) == Err(error) || exists polls :: StoppedBy(clock, polls, error)
    case Some(e) =>
      var asked := ScopeFor(e.enumeration.roots, key.heap, e.enumeration.SawEveryRoot());
      && e.process == process && e.peb == key.peb && Enumerated(e)
      && if asked.Err? then asked == Err(error) else !e.enumeration.budgetExpired && walker(asked.value.walked) == Err(error)
  }

  /** What was walked: the scope asked for, unless there was no time left to walk any of it. */
  ghost predicate Walks(e: Evidence, key: SnapshotKey, scope: HeapScope) {
    var asked := ScopeFor(e.enumeration.roots, key.heap, e.enumeration.SawEveryRoot());
    && asked.Ok?
    && if e.enumeration.budgetExpired then scope == asked.value.(walked := []) && e.pool == PoolSnapshot([], false, true)
       else scope == asked.value && e.walker(scope.walked) == Ok(e.pool)
  }

  class SnapshotCache {
    var entry: Option<(SnapshotKey, HeapSnapshot)>
    /** Why the cached snapshot is complete. */
    ghost var evidence: Option<Evidence>

    /** Only complete snapshots are ever kept, and each is kept under the process environment and scope it was walked for. */
    ghost predicate Valid()
      reads this
    {
      entry.Some? ==>
        && entry.value.1.coverage.Complete?
        && evidence.Some? && Justified(evidence.value, entry.value.0, entry.value.1)
    }

    constructor ()
      ensures Valid() && entry == None
    {
      entry, evidence := None, None;
    }

    method Invalidate()
      modifies this
      ensures Valid() && entry == None
    {
      entry := None;
    }

    /** The tail of `walk_snapshot`, from the cache lookup to the cache store. */
    method WalkSnapshot(process: Process, clock: nat -> Tick, refresh: bool, key: SnapshotKey, walker: Walker)
      returns (r: Result<HeapSnapshot, HeapError>, hit: bool, ghost why: Option<Evidence>)
      requires Valid()
      modifies this
      ensures Valid()
      ensures hit <==> !refresh && old(entry).Some? && old(entry).value.0 == key
      ensures hit ==> r == Ok(old(entry).value.1) && entry == old(entry)
      ensures r.Ok? && r.value.coverage.Complete? ==> why.Some? && Justified(why.value, key, r.value)
      ensures !hit ==> entry == if r.Ok? && r.value.coverage.Complete? then Some((key, r.value)) else if refresh then None else old(entry)
      ensures r.Ok? && !hit ==> why.Some? && why.value.process == process && why.value.peb == key.peb && r.value.roots == why.value.enumeration.roots
      ensures r.Ok? && !hit ==> (r.value.coverage.Complete? <==> why.value.enumeration.SawEveryRoot() && why.value.pool.complete)
      ensures r.Ok? && !hit && !r.value.coverage.Complete? ==> (r.value.coverage.BudgetExpired? <==> why.value.pool.budgetExpired)
      ensures r.Ok? && !hit ==> r.value.allocations == Sort(why.value.pool.spans, AllocationLe)
      ensures r.Ok? && !hit ==> r.value.coverage == CoverageOf(WithUnseen(why.value.pool, why.value.enumeration.unseen))
      ensures r.Ok? && !hit ==> Walks(why.value, key, r.value.scope) && Enumerated(why.value)
      ensures r.Err? ==> FailedBy(process, clock, key, walker, why, r.error)
      ensures r.Ok? && !hit && why.value.enumeration.budgetExpired ==> r.value.coverage.BudgetExpired?
    {
      hide AllRoots, Sort, ScopeFor, PebHeaps, Selects, GotAsFar, StartEnds, ListIsWhole, Ticked, WithNamed, RootsOn, StoppedBy;
      hit, why := false, None;
      if refresh {
        Invalidate();
      } else if entry.Some? && entry.value.0 == key {
        return Ok(entry.value.1), true, evidence;
      }
      ghost var named, path, done;
      var found, polls;
      found, polls, named, path, done := EnumerateRoots(process, key.peb, clock);
      if found.Err? {
        return Err(found.error), false, None;
      }
      var enumeration := found.value;
      var scoped := ScopeFor(enumeration.roots, key.heap, enumeration.SawEveryRoot());
      why := Some(Evidence(process, key.peb, named, path, done, polls, enumeration, walker, PoolSnapshot([], false, true)));
      if scoped.Err? {
        return Err(scoped.error), false, why;
      }
      var scope, pool := scoped.value, PoolSnapshot([], false, true);
      ghost var walked := pool;
      if enumeration.budgetExpired {
        scope := scope.(walked := []);
      } else {
        var answer := walker(scope.walked);
        if answer.Err? {
          return Err(answer.error), false, why;
        }
        walked := answer.value;
        pool := WithUnseen(answer.value, enumeration.unseen);
      }
      var snapshot := HeapSnapshot(enumeration.roots, Sort(pool.spans, AllocationLe), scope, CoverageOf(pool));
      why := Some(why.value.(pool := walked));
      if enumeration.SawEveryRoot() {
        CompleteScopeSelects(enumeration.roots, key.heap);
      }
      if snapshot.coverage.Complete? {
        entry, evidence := Some((key, snapshot)), why;
      }
      r := Ok(snapshot);
    }
  }
}
