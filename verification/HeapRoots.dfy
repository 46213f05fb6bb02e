/**
 * Process-heap root discovery: following `ntdll`'s heap list through memory that may be corrupt.
 *
 * The list is a ring of entries, one of which (the head) lies inside `ntdll`. Every other entry
 * stands for a heap that names the entry back. `ClosedRing` is that structure. `FollowHeapList` is
 * the walk, which either answers with the whole ring or says what it could not see.
 */
module HeapRoots {
  import opened Machine

  const MAX_PROCESS_HEAPS: nat := 4096
  const SEGMENT_HEAP_SIGNATURE: u32 := 0xddee_ddee
  const NT_HEAP_SIGNATURE: u32 := 0xeeff_eeff

  /** `read_memory`: exactly the bytes asked for, or nothing. An answer of another length counts as nothing. */
  type Reads = (int, nat) -> Option<seq<byte>>

  datatype HeapKind = SegmentHeap | NtHeap | UnknownHeap | UnreadableHeap

  datatype HeapRoot = HeapRoot(index: nat, address: u64, kind: HeapKind)

  datatype RootLayout = RootLayout(numberOfHeaps: u32, processHeaps: u32, segmentSignature: u32, ntSignature: u32,
                                   segmentEntry: Option<u32>, ntEntry: Option<u32>)

  /** The process being read: its memory, its heap layout, and where `ntdll` is. */
  datatype Process = Process(read: Reads, layout: RootLayout, ntdllStart: u64, ntdllEnd: u64) {
    predicate InNtdll(address: int) { ntdllStart <= address < ntdllEnd }
  }

  /** Why roots may exist that an enumeration did not see. */
  datatype Unseen =
    | ProcessHeapCannotSay
    | ComesBackTo(entry: u64)
    | CannotRead(entry: u64)
    | LinksBackWrongly(entry: u64)
    | HeapDoesNotNameBack(entry: u64)
    | FirstLinksBackWrongly
    | NotOneHead(heads: nat)

  datatype RootEnumeration = RootEnumeration(roots: seq<HeapRoot>, total: Option<nat>, budgetExpired: bool, unseen: Option<Unseen>) {
    predicate SawEveryRoot() { !budgetExpired && unseen.None? }
  }

  datatype HeapError = Interrupted | EngineFailed | InvalidPeb | UnsupportedHeap(heap: u64) | WalkFailed

  /** What one look at the clock and the interrupt flag says. */
  datatype Tick = Go | Expired | InterruptRaised | PollFailed

  // ----- What the memory says of one heap and one entry

  function ReadU32(read: Reads, at: int): Option<u32> {
    var bytes := read(at, 4);
    if bytes.Some? && |bytes.value| == 4 then Some(U32(bytes.value)) else None
  }

  function ReadU64(read: Reads, at: int): Option<u64> {
    var bytes := read(at, 8);
    if bytes.Some? && |bytes.value| == 8 then Some(U64(bytes.value)) else None
  }

  predicate UserPointer(address: int) { 0x1_0000 <= address < 0x8000_0000_0000 }

  function ReadSignatures(p: Process, heap: u64): (Option<u32>, Option<u32>) {
    var low := if p.layout.segmentSignature < p.layout.ntSignature then p.layout.segmentSignature else p.layout.ntSignature;
    var high := if p.layout.segmentSignature < p.layout.ntSignature then p.layout.ntSignature else p.layout.segmentSignature;
    if heap + low > MAX_U64 then (None, None)
    else
      var bytes := p.read(heap + low, high + 4 - low);
      if bytes.Some? && |bytes.value| == high + 4 - low then
        (Some(U32(bytes.value[p.layout.segmentSignature - low..])), Some(U32(bytes.value[p.layout.ntSignature - low..])))
      else (None, None)
  }

  function ClassifySignatures(segment: Option<u32>, nt: Option<u32>): HeapKind {
    if segment == Some(SEGMENT_HEAP_SIGNATURE) then
      if nt == Some(NT_HEAP_SIGNATURE) then UnknownHeap else SegmentHeap
    else if nt == Some(NT_HEAP_SIGNATURE) then NtHeap
    else if segment.None? && nt.None? then UnreadableHeap
    else UnknownHeap
  }

  function ClassifyAt(p: Process, heap: u64): HeapKind {
    if heap == 0 || !UserPointer(heap) then UnknownHeap
    else
      var (segment, nt) := ReadSignatures(p, heap);
      ClassifySignatures(segment, nt)
  }

  datatype Naming = NamesEntry(entry: u64) | NamesNone | CannotSay

  /** Where a heap names its entry on the list. */
  function ListEntryOf(p: Process, heap: u64, kind: HeapKind): Naming {
    if kind.UnknownHeap? || kind.UnreadableHeap? then CannotSay
    else
      var offset := if kind.SegmentHeap? then p.layout.segmentEntry else p.layout.ntEntry;
      if offset.None? then NamesNone
      else
        match ReadU64(p.read, SaturatingAdd(heap, offset.value))
        case None => CannotSay
        case Some(entry) => if entry == 0 then NamesNone else NamesEntry(entry)
  }

  datatype Links = Links(flink: u64, blink: u64, heap: u64)

  function LinksAt(p: Process, entry: u64): Option<Links> {
    var bytes := p.read(entry, 0x18);
    if bytes.Some? && |bytes.value| == 0x18 then
      Some(Links(U64(bytes.value[0..8]), U64(bytes.value[8..16]), U64(bytes.value[16..24])))
    else None
  }

  // ----- The list as a structure

  /** The entry reads, and is the head or stands for a heap that names it back. */
  ghost predicate Stands(p: Process, entry: u64) {
    LinksAt(p, entry).Some? && (p.InNtdll(entry) || NamedBack(p, entry, LinksAt(p, entry).value.heap))
  }

  predicate NamedBack(p: Process, entry: u64, heap: u64) {
    ListEntryOf(p, heap, ClassifyAt(p, heap)) == NamesEntry(entry)
  }

  /** Entries linked forwards and backwards from `start`. */
  ghost predicate Linked(p: Process, start: u64, path: seq<u64>) {
    && (path != [] ==> path[0] == start)
    && (forall i :: 0 <= i < |path| ==> Stands(p, path[i]))
    && (forall i {:trigger path[i]} :: 0 < i < |path| ==> Follows(p, path[i - 1], path[i]))
  }

  /** Such entries with none met twice. */
  ghost predicate IsPath(p: Process, start: u64, path: seq<u64>) {
    Linked(p, start, path) && NoDuplicates(path)
  }

  ghost predicate Follows(p: Process, entry: u64, next: u64)
    requires Stands(p, entry) && Stands(p, next)
  {
    LinksAt(p, entry).value.flink == next && LinksAt(p, next).value.blink == entry
  }

  /** The whole list: one closed ring from `start`, with exactly one head. */
  ghost predicate ClosedRing(p: Process, start: u64, ring: seq<u64>) {
    && ring != [] && IsPath(p, start, ring) && Follows(p, ring[|ring| - 1], start)
    && exists head :: 0 <= head < |ring| && OnlyHead(p, ring, head)
  }

  ghost predicate OnlyHead(p: Process, ring: seq<u64>, head: int) {
    forall i :: 0 <= i < |ring| ==> (p.InNtdll(ring[i]) <==> i == head)
  }

  /** The roots the entries of a path stand for, in its order. */
  function RootsOn(p: Process, path: seq<u64>): seq<HeapRoot> {
    if path == [] then []
    else
      var roots, entry := RootsOn(p, path[..|path| - 1]), path[|path| - 1];
      if p.InNtdll(entry) || LinksAt(p, entry).None? then roots
      else
        var heap := LinksAt(p, entry).value.heap;
        roots + [HeapRoot(|roots|, heap, ClassifyAt(p, heap))]
  }

  function HeadsOn(p: Process, path: seq<u64>): seq<u64> {
    if path == [] then []
    else HeadsOn(p, path[..|path| - 1]) + (if p.InNtdll(path[|path| - 1]) then [path[|path| - 1]] else [])
  }

  // ----- Facts about the structure

  lemma {:induction false} RingIsUniqueUpTo(p: Process, start: u64, path: seq<u64>, ring: seq<u64>, i: nat)
    requires Linked(p, start, path) && Linked(p, start, ring) && i < |path| && i < |ring|
    ensures path[i] == ring[i]
  {
    hide LinksAt, Stands;
    if i > 0 {
      RingIsUniqueUpTo(p, start, path, ring, i - 1);
    }
  }

  /** One step past the ring's last entry is its start. */
  lemma PastTheRing(p: Process, start: u64, path: seq<u64>, ring: seq<u64>)
    requires Linked(p, start, path) && ClosedRing(p, start, ring) && |ring| < |path|
    ensures path[|ring|] == path[0]
  {
    hide LinksAt, Stands, OnlyHead, NoDuplicates;
    assert Follows(p, path[|ring| - 1], path[|ring|]);
    RingIsUniqueUpTo(p, start, path, ring, |ring| - 1);
  }

  /** A path from the ring's start is a prefix of the ring. */
  lemma PathIsInTheRing(p: Process, start: u64, path: seq<u64>, ring: seq<u64>)
    requires IsPath(p, start, path) && ClosedRing(p, start, ring)
    ensures path <= ring
  {
    hide LinksAt, Stands, OnlyHead;
    forall i: nat | i < |path| && i < |ring| ensures path[i] == ring[i] {
      RingIsUniqueUpTo(p, start, path, ring, i);
    }
    if |path| > |ring| {
      PastTheRing(p, start, path, ring);
    }
  }

  lemma RingIsUnique(p: Process, start: u64, one: seq<u64>, other: seq<u64>)
    requires ClosedRing(p, start, one) && ClosedRing(p, start, other)
    ensures one == other
  {
    PathIsInTheRing(p, start, one, other);
    PathIsInTheRing(p, start, other, one);
  }

  /** Each root on a path is the heap of an entry of it that is not a head. */
  lemma {:induction false} RootHasEntry(p: Process, start: u64, path: seq<u64>, k: nat) returns (i: nat)
    requires IsPath(p, start, path) && k < |RootsOn(p, path)|
    ensures i < |path| && !p.InNtdll(path[i]) && LinksAt(p, path[i]).value.heap == RootsOn(p, path)[k].address
    ensures RootsOn(p, path)[k].index == k && RootsOn(p, path)[k].kind == ClassifyAt(p, RootsOn(p, path)[k].address)
    ensures |RootsOn(p, path[..i])| == k
  {
    hide LinksAt, ClassifyAt, NamedBack, Follows;
    var n := |path| - 1;
    if k < |RootsOn(p, path[..n])| {
      i := RootHasEntry(p, start, path[..n], k);
      assert path[..n][..i] == path[..i];
    } else {
      i := n;
    }
  }

  /** Every entry of a path that is not the head has its heap among the roots. */
  lemma {:induction false} EntryHasRoot(p: Process, start: u64, path: seq<u64>, i: nat)
    requires IsPath(p, start, path) && i < |path| && !p.InNtdll(path[i])
    ensures exists root :: root in RootsOn(p, path) && root.address == LinksAt(p, path[i]).value.heap
  {
    hide LinksAt, ClassifyAt, NamedBack, Follows;
    var n := |path| - 1;
    if i < n {
      EntryHasRoot(p, start, path[..n], i);
    } else {
      assert RootsOn(p, path)[|RootsOn(p, path)| - 1].address == LinksAt(p, path[i]).value.heap;
    }
  }

  /**
   * No heap is listed twice. Two entries can claim one heap in corrupt memory, and nothing but the
   * heap naming its entry back tells them apart.
   */
  lemma RootsAreDistinct(p: Process, start: u64, path: seq<u64>)
    requires IsPath(p, start, path)
    ensures forall j, k :: 0 <= j < k < |RootsOn(p, path)| ==> RootsOn(p, path)[j].address != RootsOn(p, path)[k].address
  {
    forall j, k | 0 <= j < k < |RootsOn(p, path)|
      ensures RootsOn(p, path)[j].address != RootsOn(p, path)[k].address
    {
      var a := RootHasEntry(p, start, path, j);
      var b := RootHasEntry(p, start, path, k);
      assert Stands(p, path[a]) && Stands(p, path[b]) && a != b;
    }
  }

  lemma {:induction false} HeadsAreNtdllEntries(p: Process, path: seq<u64>)
    ensures |HeadsOn(p, path)| == 0 <==> forall i :: 0 <= i < |path| ==> !p.InNtdll(path[i])
    ensures |HeadsOn(p, path)| == 1 <==> exists head :: 0 <= head < |path| && OnlyHead(p, path, head)
  {
    if path != [] {
      var n := |path| - 1;
      var init := path[..n];
      HeadsAreNtdllEntries(p, init);
      if p.InNtdll(path[n]) {
        if |HeadsOn(p, init)| == 0 {
          assert OnlyHead(p, path, n);
        } else {
          var i :| 0 <= i < n && p.InNtdll(path[i]);
        }
      } else {
        if head :| 0 <= head < n && OnlyHead(p, init, head) {
          assert OnlyHead(p, path, head);
        }
        if head :| 0 <= head <= n && OnlyHead(p, path, head) {
          assert OnlyHead(p, init, head);
        }
      }
    }
  }

  // ----- The walk

  /** Where the walk of the list starts, as the process heap says. */
  function ListStart(p: Process, processHeap: u64): Naming {
    if p.layout.segmentEntry.None? && p.layout.ntEntry.None? then NamesNone
    else ListEntryOf(p, processHeap, ClassifyAt(p, processHeap))
  }

  /** The walk stopped asking at a tick that said so, and only there. */
  ghost predicate Ticked(clock: nat -> Tick, from: nat, to: nat, failed: bool, expired: bool) {
    && from <= to && (failed || expired ==> from < to)
    && (forall k :: from <= k < to - 1 ==> clock(k).Go?)
    && (from < to ==> (failed <==> clock(to - 1).InterruptRaised? || clock(to - 1).PollFailed?))
    && (from < to ==> (expired <==> clock(to - 1).Expired?))
  }

  /** The clock's own reason for ending a walk. */
  ghost predicate StoppedBy(clock: nat -> Tick, polls: nat, e: HeapError) {
    polls > 0 && if e.Interrupted? then clock(polls - 1).InterruptRaised? else e.EngineFailed? && clock(polls - 1).PollFailed?
  }

  ghost predicate IsAddress(a: int) { 0 <= a <= MAX_U64 }

  ghost function AllAddresses(): set<int> {
    set a: int | 0 <= a <= MAX_U64 && IsAddress(a)
  }

  lemma EmptyPath(p: Process, start: u64)
    ensures IsPath(p, start, []) && RootsOn(p, []) == [] && HeadsOn(p, []) == []
  {
  }

  lemma PathGrows(p: Process, start: u64, path: seq<u64>, entry: u64)
    requires IsPath(p, start, path) && entry !in path && Stands(p, entry)
    requires if path == [] then entry == start else Follows(p, path[|path| - 1], entry)
    ensures IsPath(p, start, path + [entry])
    ensures RootsOn(p, path + [entry]) == RootsOn(p, path) + (if p.InNtdll(entry) then []
      else [HeapRoot(|RootsOn(p, path)|, LinksAt(p, entry).value.heap, ClassifyAt(p, LinksAt(p, entry).value.heap))])
    ensures HeadsOn(p, path + [entry]) == HeadsOn(p, path) + (if p.InNtdll(entry) then [entry] else [])
  {
    hide LinksAt, ClassifyAt, NamedBack, Linked, NoDuplicates, Follows;
    assert (path + [entry])[..|path|] == path;
    LinkedGrows(p, start, path, entry);
    NoneTwice(path, entry);
  }

  lemma LinkedGrows(p: Process, start: u64, path: seq<u64>, entry: u64)
    requires Linked(p, start, path) && Stands(p, entry)
    requires if path == [] then entry == start else Follows(p, path[|path| - 1], entry)
    ensures Linked(p, start, path + [entry])
  {
    hide Stands, Follows;
    var longer := path + [entry];
    forall i {:trigger longer[i]} | 0 < i < |longer| ensures Follows(p, longer[i - 1], longer[i]) {
      if i < |path| {
        assert longer[i] == path[i];
      }
    }
  }

  lemma NoneTwice(path: seq<u64>, entry: u64)
    requires NoDuplicates(path) && entry !in path
    ensures NoDuplicates(path + [entry])
  {
  }

  /** Back at the start: the two last checks say whether the path is the whole ring. */
  lemma BackAtTheStart(p: Process, start: u64, path: seq<u64>)
    requires IsPath(p, start, path) && path != [] && LinksAt(p, path[|path| - 1]).value.flink == start
    ensures LinksAt(p, start).Some?
    ensures LinksAt(p, start).value.blink == path[|path| - 1] && |HeadsOn(p, path)| == 1 <==> ClosedRing(p, start, path)
    ensures forall ring :: ClosedRing(p, start, ring) ==> path == ring
  {
    hide LinksAt, NamedBack, OnlyHead, HeadsOn;
    HeadsAreNtdllEntries(p, path);
    assert Stands(p, path[0]);
    forall ring | ClosedRing(p, start, ring) ensures path == ring {
      PathIsInTheRing(p, start, path, ring);
      assert path == ring[..|path|];
      if |path| < |ring| {
        RingStepsOn(p, start, path, ring);
      }
    }
  }

  lemma RingStepsOn(p: Process, start: u64, path: seq<u64>, ring: seq<u64>)
    requires Linked(p, start, ring) && 0 < |path| < |ring| && path == ring[..|path|]
    ensures LinksAt(p, path[|path| - 1]).value.flink == ring[|path|]
  {
    hide LinksAt, NamedBack;
    assert Follows(p, ring[|path| - 1], ring[|path|]);
  }

  // ----- How a walk of the list ends

  /** The entry after a path: where it starts, or what its last entry links to. */
  ghost function NextEntry(p: Process, start: u64, path: seq<u64>): u64
    requires path != [] ==> LinksAt(p, path[|path| - 1]).Some?
  {
    if path == [] then start else LinksAt(p, path[|path| - 1]).value.flink
  }

  /** The walk goes on from the path to this entry, and has not met it before. */
  ghost predicate Meets(p: Process, start: u64, path: seq<u64>, entry: u64) {
    && (path != [] ==> LinksAt(p, path[|path| - 1]).Some? && entry != start)
    && entry == NextEntry(p, start, path) && entry !in path
  }

  ghost predicate BackLinked(p: Process, path: seq<u64>, entry: u64) {
    LinksAt(p, entry).Some? && (path != [] ==> LinksAt(p, entry).value.blink == path[|path| - 1])
  }

  /** The path comes back to where it started. */
  ghost predicate Returns(p: Process, start: u64, path: seq<u64>) {
    path != [] && LinksAt(p, path[|path| - 1]).Some? && LinksAt(p, path[|path| - 1]).value.flink == start
  }

  /** What memory holds after the path, for the walk to end there: the whole ring, or the reason given for it not being one. */
  ghost predicate Ends(p: Process, start: u64, path: seq<u64>, unseen: Option<Unseen>) {
    IsPath(p, start, path) &&
    match unseen
    case None => ClosedRing(p, start, path)
    case Some(ProcessHeapCannotSay) => false
    case Some(ComesBackTo(entry)) =>
      path != [] && LinksAt(p, path[|path| - 1]).Some? && entry == NextEntry(p, start, path) && entry != start && entry in path
    case Some(CannotRead(entry)) => Meets(p, start, path, entry) && LinksAt(p, entry).None?
    case Some(LinksBackWrongly(entry)) => Meets(p, start, path, entry) && LinksAt(p, entry).Some? && !BackLinked(p, path, entry)
    case Some(HeapDoesNotNameBack(entry)) => Meets(p, start, path, entry) && BackLinked(p, path, entry) && !Stands(p, entry)
    case Some(FirstLinksBackWrongly) => Returns(p, start, path) && LinksAt(p, start).Some? && LinksAt(p, start).value.blink != path[|path| - 1]
    case Some(NotOneHead(heads)) =>
      && Returns(p, start, path) && LinksAt(p, start).Some? && LinksAt(p, start).value.blink == path[|path| - 1]
      && |HeadsOn(p, path)| == heads != 1
  }

  /** What a longer path says of the entry after a shorter one. */
  lemma PathGoesOn(p: Process, start: u64, path: seq<u64>, longer: seq<u64>)
    requires IsPath(p, start, path) && IsPath(p, start, longer) && |path| < |longer|
    ensures Meets(p, start, path, longer[|path|]) && Stands(p, longer[|path|]) && BackLinked(p, path, longer[|path|])
  {
    hide LinksAt, NamedBack;
    var n := |path|;
    forall i: nat | i < n ensures path[i] == longer[i] {
      RingIsUniqueUpTo(p, start, path, longer, i);
    }
    assert Stands(p, longer[n]);
    if n > 0 {
      assert longer[n - 1] == path[n - 1] && Follows(p, longer[n - 1], longer[n]);
    }
  }

  /** A path that goes on does not end. */
  lemma NoEndYet(p: Process, start: u64, path: seq<u64>, unseen: Option<Unseen>, longer: seq<u64>)
    requires Ends(p, start, path, unseen) && IsPath(p, start, longer)
    ensures |longer| <= |path|
  {
    hide LinksAt, NamedBack, OnlyHead, HeadsOn, NoDuplicates;
    assert longer != [] ==> longer[0] == start;
    if |path| < |longer| {
      PathGoesOn(p, start, path, longer);
    }
  }

  /** Memory determines where the walk ends, and why. */
  lemma EndIsUnique(p: Process, start: u64, one: seq<u64>, why: Option<Unseen>, other: seq<u64>, also: Option<Unseen>)
    requires Ends(p, start, one, why) && Ends(p, start, other, also)
    ensures one == other && why == also
  {
    hide LinksAt, NamedBack, NoDuplicates, Ends;
    EndsAlongAPath(p, start, one, why);
    EndsAlongAPath(p, start, other, also);
    NoEndYet(p, start, one, why, other);
    NoEndYet(p, start, other, also, one);
    forall i: nat | i < |one| ensures one[i] == other[i] {
      RingIsUniqueUpTo(p, start, one, other, i);
    }
    assert one == other;
    OneReason(p, start, one, why, also);
  }

  lemma EndsAlongAPath(p: Process, start: u64, path: seq<u64>, unseen: Option<Unseen>)
    requires Ends(p, start, path, unseen)
    ensures IsPath(p, start, path)
  {
  }

  lemma OneReason(p: Process, start: u64, path: seq<u64>, why: Option<Unseen>, also: Option<Unseen>)
    requires Ends(p, start, path, why) && Ends(p, start, path, also)
    ensures why == also
  {
    hide LinksAt, NamedBack, HeadsOn, OnlyHead, NoDuplicates;
    if why.None? || also.None? {
      RingReturns(p, start, path);
    }
    if path != [] {
      assert path[0] == start;
    }
  }

  lemma RingReturns(p: Process, start: u64, path: seq<u64>)
    requires ClosedRing(p, start, path)
    ensures path != [] && Returns(p, start, path) && LinksAt(p, start).Some? && LinksAt(p, start).value.blink == path[|path| - 1]
    ensures |HeadsOn(p, path)| == 1
  {
    hide LinksAt, NamedBack, HeadsOn, NoDuplicates;
    assert Stands(p, path[0]) && Stands(p, path[|path| - 1]);
    HeadsAreNtdllEntries(p, path);
  }

  /** How often the clock is looked at along a path: once for each entry, and once more for an entry that ends the walk. */
  ghost function LooksAlong(path: seq<u64>, unseen: Option<Unseen>): nat {
    |path| + if unseen.None? || unseen.value.FirstLinksBackWrongly? || unseen.value.NotOneHead? then 0 else 1
  }

  /**
   * `follow_heap_list`. `path` is the entries it met, and `found.roots` the heaps they stand for.
   * With time to finish, where it stopped and the reason it gives are what memory holds; without it,
   * the path is as far as the clock let it go.
   */
  method FollowHeapList(p: Process, processHeap: u64, clock: nat -> Tick, pollsBefore: nat)
    returns (r: Result<bool, HeapError>, found: RootEnumeration, polls: nat, ghost path: seq<u64>)
    ensures Ticked(clock, pollsBefore, polls, r.Err?, found.budgetExpired)
    ensures r.Err? ==> StoppedBy(clock, polls, r.error)
    ensures found.total.None? && found.roots == RootsOn(p, path)
    ensures r == Ok(false) <==> ListStart(p, processHeap).NamesNone? && r.Ok? && !found.budgetExpired
    ensures r.Ok? && !found.budgetExpired ==> StartEnds(p, ListStart(p, processHeap), path, found.unseen)
    ensures r.Ok? && !found.budgetExpired ==> polls - pollsBefore == StartLooks(p, ListStart(p, processHeap), path, found.unseen)
    ensures r.Err? || found.budgetExpired ==> CutShort(p, ListStart(p, processHeap), path, polls - pollsBefore) && found.unseen.None?
    ensures ListStart(p, processHeap).NamesEntry? ==>
      forall ring :: ClosedRing(p, ListStart(p, processHeap).entry, ring) ==> found.unseen.None? && path <= ring
  {
    hide LinksAt, ListEntryOf, ClassifyAt, RootsOn, IsPath, ClosedRing, Ends;
    EmptyPath(p, 0);
    found, polls, path := RootEnumeration([], None, false, None), pollsBefore, [];
    if ListStart(p, processHeap).NamesEntry? {
      EmptyPath(p, ListStart(p, processHeap).entry);
    }
    if p.layout.segmentEntry.None? && p.layout.ntEntry.None? {
      return Ok(false), found, polls, path;
    }
    polls := polls + 1;
    match clock(polls - 1)
    case InterruptRaised => return Err(Interrupted), found, polls, path;
    case PollFailed => return Err(EngineFailed), found, polls, path;
    case Expired => return Ok(true), found.(budgetExpired := true), polls, path;
    case Go =>
    match ListEntryOf(p, processHeap, ClassifyAt(p, processHeap))
    case NamesNone => return Ok(false), found, polls, path;
    case CannotSay => return Ok(true), found.(unseen := Some(ProcessHeapCannotSay)), polls, path;
    case NamesEntry(start) =>
    r, found, polls, path := FollowRing(p, start, clock, polls);
    forall ring | ClosedRing(p, start, ring) ensures path <= ring && found.unseen.None? {
      PathIsInTheRing(p, start, path, ring);
      if r.Ok? && !found.budgetExpired {
        RingIsAnEnd(p, start, ring);
        EndIsUnique(p, start, path, found.unseen, ring, None);
      }
    }
  }

  lemma RingIsAnEnd(p: Process, start: u64, ring: seq<u64>)
    requires ClosedRing(p, start, ring)
    ensures Ends(p, start, ring, None)
  {
  }

  /** The end of the list a process heap starts, or of there being none to follow. */
  ghost predicate StartEnds(p: Process, start: Naming, path: seq<u64>, unseen: Option<Unseen>) {
    match start
    case NamesNone => path == [] && unseen == None
    case CannotSay => path == [] && unseen == Some(ProcessHeapCannotSay)
    case NamesEntry(entry) => Ends(p, entry, path, unseen)
  }

  ghost function StartLooks(p: Process, start: Naming, path: seq<u64>, unseen: Option<Unseen>): nat {
    if p.layout.segmentEntry.None? && p.layout.ntEntry.None? then 0
    else if start.NamesEntry? then 1 + LooksAlong(path, unseen)
    else 1
  }

  /** The clock ended the walk: at its own first look, or at the entry after the path. */
  ghost predicate CutShort(p: Process, start: Naming, path: seq<u64>, looks: int) {
    || (looks == 1 && path == [])
    || (start.NamesEntry? && IsPath(p, start.entry, path) && looks == |path| + 2)
  }

  /** Where the loop stands: at the start, or one link past the last entry of the path. */
  ghost predicate AtEntry(p: Process, start: u64, path: seq<u64>, entry: u64, previous: Option<u64>, firstBlink: u64) {
    if path == [] then entry == start && previous == None
    else (
      && previous == Some(path[|path| - 1]) && entry != start
      && LinksAt(p, start).Some? && firstBlink == LinksAt(p, start).value.blink
      && LinksAt(p, path[|path| - 1]).Some? && entry == LinksAt(p, path[|path| - 1]).value.flink
    )
  }

  lemma BeforeTheStart(p: Process, start: u64)
    ensures AtEntry(p, start, [], start, None, 0)
  {
  }

  /** What is wrong with the entry the loop is at, if anything, is how the walk ends. */
  lemma EntryEnds(p: Process, start: u64, path: seq<u64>, entry: u64, previous: Option<u64>, firstBlink: u64)
    requires IsPath(p, start, path) && AtEntry(p, start, path, entry, previous, firstBlink)
    ensures previous.None? <==> path == []
    ensures entry in path ==> Ends(p, start, path, Some(ComesBackTo(entry)))
    ensures entry !in path && LinksAt(p, entry).None? ==> Ends(p, start, path, Some(CannotRead(entry)))
    ensures entry !in path && LinksAt(p, entry).Some? ==>
      var links := LinksAt(p, entry).value;
      && (previous.Some? && links.blink != previous.value ==> Ends(p, start, path, Some(LinksBackWrongly(entry))))
      && ((previous.Some? ==> links.blink == previous.value) && !p.InNtdll(entry) && !NamedBack(p, entry, links.heap) ==>
            Ends(p, start, path, Some(HeapDoesNotNameBack(entry))))
  {
    hide LinksAt, NamedBack, IsPath;
  }

  /** A sound entry takes the loop one further. */
  lemma EntryAdded(p: Process, start: u64, path: seq<u64>, entry: u64, previous: Option<u64>, blinkBefore: u64, firstBlink: u64)
    requires IsPath(p, start, path) && entry !in path && Stands(p, entry) && AtEntry(p, start, path, entry, previous, blinkBefore)
    requires if previous.None? then firstBlink == LinksAt(p, entry).value.blink
             else LinksAt(p, entry).value.blink == previous.value && firstBlink == blinkBefore
    ensures var longer, links := path + [entry], LinksAt(p, entry).value;
      && IsPath(p, start, longer) && HeadsOn(p, longer) == HeadsOn(p, path) + (if p.InNtdll(entry) then [entry] else [])
      && RootsOn(p, longer) == RootsOn(p, path) + (if p.InNtdll(entry) then [] else [HeapRoot(|RootsOn(p, path)|, links.heap, ClassifyAt(p, links.heap))])
      && (links.flink != start ==> AtEntry(p, start, longer, links.flink, Some(entry), firstBlink))
      && (links.flink == start ==> Returns(p, start, longer) && LinksAt(p, start).Some? && LinksAt(p, start).value.blink == firstBlink)
  {
    hide LinksAt, NamedBack, RootsOn, HeadsOn, NoDuplicates;
    if path != [] {
      assert Stands(p, path[|path| - 1]) && path[0] == start;
    }
    PathGrows(p, start, path, entry);
  }

  /** Back at the start, the two closing checks decide how the walk ends. */
  lemma ReturnEnds(p: Process, start: u64, path: seq<u64>)
    requires IsPath(p, start, path) && Returns(p, start, path)
    ensures LinksAt(p, start).Some?
    ensures LinksAt(p, start).value.blink != path[|path| - 1] ==> Ends(p, start, path, Some(FirstLinksBackWrongly))
    ensures LinksAt(p, start).value.blink == path[|path| - 1] ==>
      Ends(p, start, path, if |HeadsOn(p, path)| == 1 then None else Some(NotOneHead(|HeadsOn(p, path)|)))
  {
    hide LinksAt, HeadsOn, IsPath, ClosedRing;
    BackAtTheStart(p, start, path);
  }

  /** The loop of `follow_heap_list`. */
  method FollowRing(p: Process, start: u64, clock: nat -> Tick, pollsBefore: nat)
    returns (r: Result<bool, HeapError>, found: RootEnumeration, polls: nat, ghost path: seq<u64>)
    ensures Ticked(clock, pollsBefore, polls, r.Err?, found.budgetExpired)
    ensures r.Err? ==> StoppedBy(clock, polls, r.error)
    ensures found.total.None? && found.roots == RootsOn(p, path) && IsPath(p, start, path)
    ensures r.Ok? ==> r.value
    ensures r.Ok? && !found.budgetExpired ==> Ends(p, start, path, found.unseen) && polls - pollsBefore == LooksAlong(path, found.unseen)
    ensures r.Err? || found.budgetExpired ==> found.unseen.None? && polls - pollsBefore == |path| + 1
  {
    hide LinksAt, ListEntryOf, ClassifyAt, RootsOn, HeadsOn, IsPath, Ends, AtEntry;
    EmptyPath(p, start);
    BeforeTheStart(p, start);
    found, polls, path := RootEnumeration([], None, false, None), pollsBefore, [];
    var visited: set<u64>, heads: seq<u64> := {}, [];
    var entry, previous, firstBlink: u64 := start, None, 0;
    while true
      invariant Ticked(clock, pollsBefore, polls, false, false) && polls - pollsBefore == |path|
      invariant previous.None? <==> path == []
      invariant found == RootEnumeration(RootsOn(p, path), None, false, None)
      invariant IsPath(p, start, path) && heads == HeadsOn(p, path)
      invariant visited == set e | e in path
      invariant AtEntry(p, start, path, entry, previous, firstBlink)
      decreases AllAddresses() - visited
    {
      polls := polls + 1;
      match clock(polls - 1)
      case InterruptRaised => return Err(Interrupted), found, polls, path;
      case PollFailed => return Err(EngineFailed), found, polls, path;
      case Expired => return Ok(true), found.(budgetExpired := true), polls, path;
      case Go =>
      ghost var blinkBefore := firstBlink;
      EntryEnds(p, start, path, entry, previous, firstBlink);
      if entry in visited {
        return Ok(true), found.(unseen := Some(ComesBackTo(entry))), polls, path;
      }
      assert IsAddress(entry) && entry !in path;
      visited := visited + {entry};
      var links := LinksAt(p, entry);
      if links.None? {
        return Ok(true), found.(unseen := Some(CannotRead(entry))), polls, path;
      }
      if previous.None? {
        firstBlink := links.value.blink;
      } else if links.value.blink != previous.value {
        return Ok(true), found.(unseen := Some(LinksBackWrongly(entry))), polls, path;
      }
      if p.InNtdll(entry) {
        heads := heads + [entry];
      } else {
        var heap := links.value.heap;
        var kind := ClassifyAt(p, heap);
        if ListEntryOf(p, heap, kind) != NamesEntry(entry) {
          return Ok(true), found.(unseen := Some(HeapDoesNotNameBack(entry))), polls, path;
        }
        found := found.(roots := found.roots + [HeapRoot(|found.roots|, heap, kind)]);
      }
      EntryAdded(p, start, path, entry, previous, blinkBefore, firstBlink);
      path := path + [entry];
      previous := Some(entry);
      entry := links.value.flink;
      if entry == start {
        break;
      }
    }
    ReturnEnds(p, start, path);
    if previous != Some(firstBlink) {
      found := found.(unseen := Some(FirstLinksBackWrongly));
    } else if |heads| != 1 {
      found := found.(unseen := Some(NotOneHead(|heads|)));
    }
    r := Ok(true);
  }

  // ----- Every root of the process

  /** The PEB's `ProcessHeaps`. */
  function PebHeaps(p: Process, peb: u64): Result<seq<u64>, HeapError> {
    match ReadU32(p.read, Wrap(peb + p.layout.numberOfHeaps))
    case None => Err(EngineFailed)
    case Some(count) =>
      if count > MAX_PROCESS_HEAPS then Err(InvalidPeb)
      else
        match ReadU64(p.read, Wrap(peb + p.layout.processHeaps))
        case None => Err(EngineFailed)
        case Some(heaps) =>
          if count == 0 then Ok([])
          else if heaps == 0 || !UserPointer(heaps) then Err(InvalidPeb)
          else
            var bytes := p.read(heaps, 8 * count);
            if bytes.None? || |bytes.value| != 8 * count then Err(EngineFailed)
            else Ok(seq(count, i requires 0 <= i < count => U64(bytes.value[8 * i..8 * i + 8])))
  }

  function Addresses(roots: seq<HeapRoot>): set<u64> {
    set i | 0 <= i < |roots| :: roots[i].address
  }

  /** The list's roots, then those the PEB names that the list does not hold. */
  function WithNamed(p: Process, listed: seq<HeapRoot>, named: seq<u64>): seq<HeapRoot> {
    if named == [] then listed
    else
      var roots, heap := WithNamed(p, listed, named[..|named| - 1]), named[|named| - 1];
      if heap in Addresses(listed) then roots else roots + [HeapRoot(|roots|, heap, ClassifyAt(p, heap))]
  }

  /** Where the list starts, for the first heap the PEB names. */
  function ProcessListStart(p: Process, named: seq<u64>): Naming {
    if named == [] then NamesNone else ListStart(p, named[0])
  }

  /** Every root there is: the whole of the list where one is kept, and the whole of the PEB. */
  ghost predicate AllRoots(p: Process, named: seq<u64>, path: seq<u64>, roots: seq<HeapRoot>) {
    && roots == WithNamed(p, RootsOn(p, path), named)
    && match ProcessListStart(p, named)
       case NamesNone => path == []
       case CannotSay => false
       case NamesEntry(start) => ClosedRing(p, start, path)
  }

  lemma {:induction false} WithNamedExtends(p: Process, listed: seq<HeapRoot>, named: seq<u64>, n: nat)
    requires n <= |named|
    ensures WithNamed(p, listed, named[..n]) <= WithNamed(p, listed, named)
    decreases |named| - n
  {
    if n == |named| {
      assert named[..n] == named;
    } else {
      WithNamedExtends(p, listed, named, n + 1);
      assert named[..n + 1][..n] == named[..n];
    }
  }

  function RootAddresses(roots: seq<HeapRoot>): seq<u64> {
    seq(|roots|, i requires 0 <= i < |roots| => roots[i].address)
  }

  /** The heaps the PEB names that the list does not hold, once for each time they are named. */
  function Unlisted(listed: seq<HeapRoot>, named: seq<u64>): seq<u64> {
    if named == [] then []
    else Unlisted(listed, named[..|named| - 1]) + if named[|named| - 1] in Addresses(listed) then [] else [named[|named| - 1]]
  }

  /** Each heap the PEB names is among the roots, and the list's own roots come first. */
  lemma {:induction false} NamedAreRoots(p: Process, listed: seq<HeapRoot>, named: seq<u64>)
    ensures listed <= WithNamed(p, listed, named)
    ensures forall heap :: heap in named ==> exists root :: root in WithNamed(p, listed, named) && root.address == heap
    ensures forall k :: |listed| <= k < |WithNamed(p, listed, named)| ==>
      var root := WithNamed(p, listed, named)[k];
      root.index == k && root.kind == ClassifyAt(p, root.address) && root.address in named && root.address !in Addresses(listed)
    ensures RootAddresses(WithNamed(p, listed, named)) == RootAddresses(listed) + Unlisted(listed, named)
  {
    hide ClassifyAt;
    if named != [] {
      var n := |named| - 1;
      var less, heap := WithNamed(p, listed, named[..n]), named[n];
      NamedAreRoots(p, listed, named[..n]);
      assert heap !in Addresses(listed) ==> RootAddresses(WithNamed(p, listed, named)) == RootAddresses(less) + [heap];
      forall h | h in named ensures exists root :: root in WithNamed(p, listed, named) && root.address == h {
        if h in named[..n] {
          var root :| root in less && root.address == h;
          assert root in WithNamed(p, listed, named);
        } else if h in Addresses(listed) {
          var i :| 0 <= i < |listed| && listed[i].address == h;
          assert less[i] in WithNamed(p, listed, named);
        } else {
          assert WithNamed(p, listed, named)[|less|].address == h;
        }
      }
    }
  }

  /** What an enumeration that saw every root is worth: no heap of the list or the PEB is missing. */
  lemma NothingIsMissing(p: Process, named: seq<u64>, path: seq<u64>, roots: seq<HeapRoot>)
    requires AllRoots(p, named, path, roots)
    ensures forall heap :: heap in named ==> exists root :: root in roots && root.address == heap
    ensures forall i :: 0 <= i < |path| && !p.InNtdll(path[i]) && LinksAt(p, path[i]).Some? ==>
      exists root :: root in roots && root.address == LinksAt(p, path[i]).value.heap
    ensures forall k :: 0 <= k < |roots| ==> roots[k].index == k && roots[k].kind == ClassifyAt(p, roots[k].address)
  {
    hide LinksAt, ClassifyAt, ListEntryOf, NamedBack, OnlyHead;
    var listed := RootsOn(p, path);
    NamedAreRoots(p, listed, named);
    assert roots[..|listed|] == listed;
    if path != [] {
      var start := ProcessListStart(p, named).entry;
      forall i: nat | i < |path| && !p.InNtdll(path[i])
        ensures exists root :: root in roots && root.address == LinksAt(p, path[i]).value.heap
      {
        EntryHasRoot(p, start, path, i);
        var root :| root in listed && root.address == LinksAt(p, path[i]).value.heap;
        assert root in roots;
      }
      forall k: nat | k < |listed| ensures roots[k].index == k && roots[k].kind == ClassifyAt(p, roots[k].address) {
        var i := RootHasEntry(p, start, path, k);
      }
    }
  }

  /** How far an enumeration got, by how often the clock was looked at. */
  ghost predicate GotAsFar(p: Process, named: seq<u64>, path: seq<u64>, done: nat, found: RootEnumeration, polls: nat) {
    var start := ProcessListStart(p, named);
    || (found.budgetExpired && polls == 1 && path == [] && done == 0)
    || (found.budgetExpired && done == 0 && found.unseen.None? && CutShort(p, start, path, polls - 1))
    || (
      && done <= |named| && StartEnds(p, start, path, found.unseen)
      && polls == 1 + ListLooks(p, named, path, found.unseen) + |Unlisted(RootsOn(p, path), named[..done])|
                  + if found.budgetExpired then 1 else 0
    )
  }

  ghost function ListLooks(p: Process, named: seq<u64>, path: seq<u64>, unseen: Option<Unseen>): nat {
    if named == [] then 0 else StartLooks(p, ProcessListStart(p, named), path, unseen)
  }

  /**
   * `enumerate_roots`. Saying it saw every root is a claim about the memory, and it is never wrong.
   * `path` is what it met of the list and `done` how much of the PEB's own array it had added.
   */
  method EnumerateRoots(p: Process, peb: u64, clock: nat -> Tick)
    returns (r: Result<RootEnumeration, HeapError>, polls: nat, ghost named: seq<u64>, ghost path: seq<u64>, ghost done: nat)
    ensures r.Ok? ==> Ticked(clock, 0, polls, false, r.value.budgetExpired)
    ensures r.Err? ==> StoppedBy(clock, polls, r.error) || PebHeaps(p, peb) == Err(r.error)
    ensures r.Ok? && polls > 1 ==> PebHeaps(p, peb) == Ok(named)
    ensures r.Ok? && !r.value.budgetExpired ==> PebHeaps(p, peb) == Ok(named)
    ensures r.Ok? && r.value.SawEveryRoot() ==> AllRoots(p, named, path, r.value.roots)
    ensures r.Ok? ==> done <= |named| && r.value.roots == WithNamed(p, RootsOn(p, path), named[..done])
    ensures r.Ok? ==> GotAsFar(p, named, path, done, r.value, polls)
    ensures r.Ok? && !r.value.budgetExpired ==>
      done == |named| && (r.value.unseen.None? <==> ListIsWhole(p, named)) && StartEnds(p, ProcessListStart(p, named), path, r.value.unseen)
    ensures r.Ok? && r.value.total.Some? ==> r.value.total.value == |named| && path == []
    ensures r.Ok? && !r.value.budgetExpired ==> (r.value.total.Some? <==> ProcessListStart(p, named).NamesNone?)
  {
    hide ReadU32, ReadU64, ListStart, ClassifyAt, ClosedRing, IsPath, RootsOn, WithNamed, PebHeaps, StartEnds, StartLooks, CutShort, Unlisted,
      ListIsWhole, AllRoots;
    polls, named, path, done := 1, [], [], 0;
    StartOfRoots(p, []);
    match clock(0)
    case InterruptRaised => return Err(Interrupted), polls, named, path, done;
    case PollFailed => return Err(EngineFailed), polls, named, path, done;
    case Expired => return Ok(RootEnumeration([], None, true, None)), polls, named, path, done;
    case Go =>
    var heaps := PebHeaps(p, peb);
    if heaps.Err? {
      return Err(heaps.error), polls, named, path, done;
    }
    named := heaps.value;
    var found, listed := RootEnumeration([], None, false, None), false;
    NoListEnds(p);
    if heaps.value != [] {
      var answer;
      answer, found, polls, path := FollowHeapList(p, heaps.value[0], clock, polls);
      if answer.Err? {
        return Err(answer.error), polls, named, path, done;
      }
      listed := answer.value;
    }
    StartOfRoots(p, RootsOn(p, path));
    assert named[..0] == [];
    if found.budgetExpired {
      return Ok(found), polls, named, path, done;
    }
    WholeOrNot(p, named, path, found.unseen);
    if !listed {
      found := found.(total := Some(|heaps.value|));
    }
    var onList := Addresses(found.roots);
    ghost var before, listLooks := found, polls;
    var i := 0;
    while i < |heaps.value|
      invariant 0 <= i <= |heaps.value| && done == i
      invariant found == before.(roots := WithNamed(p, RootsOn(p, path), named[..i]))
      invariant Ticked(clock, 0, polls, false, false) && polls == listLooks + |Unlisted(RootsOn(p, path), named[..i])|
    {
      var address := heaps.value[i];
      NextNamed(p, RootsOn(p, path), named, i);
      i := i + 1;
      if address in onList {
        done := i;
        continue;
      }
      polls := polls + 1;
      match clock(polls - 1)
      case InterruptRaised => return Err(Interrupted), polls, named, path, done;
      case PollFailed => return Err(EngineFailed), polls, named, path, done;
      case Expired => return Ok(found.(budgetExpired := true)), polls, named, path, done;
      case Go =>
      done := i;
      found := found.(roots := found.roots + [HeapRoot(|found.roots|, address, ClassifyAt(p, address))]);
    }
    assert named[..i] == named;
    r := Ok(found);
  }

  lemma NoListEnds(p: Process)
    ensures StartEnds(p, NamesNone, [], None)
    ensures forall path, unseen :: StartEnds(p, NamesNone, path, unseen) ==> path == []
  {
  }

  /** No reason for doubt is left exactly when the list is whole. */
  lemma WholeOrNot(p: Process, named: seq<u64>, path: seq<u64>, unseen: Option<Unseen>)
    requires StartEnds(p, ProcessListStart(p, named), path, unseen)
    ensures unseen.None? <==> ListIsWhole(p, named)
    ensures unseen.None? ==> AllRoots(p, named, path, WithNamed(p, RootsOn(p, path), named))
  {
    hide ClosedRing, IsPath, ListStart, RootsOn, WithNamed;
    if ProcessListStart(p, named).NamesEntry? {
      var start := ProcessListStart(p, named).entry;
      if ring :| ClosedRing(p, start, ring) {
        RingIsPath(p, start, ring);
        EndIsUnique(p, start, path, unseen, ring, None);
      }
    }
  }

  lemma RingIsPath(p: Process, start: u64, ring: seq<u64>)
    requires ClosedRing(p, start, ring)
    ensures IsPath(p, start, ring)
  {
  }

  lemma StartOfRoots(p: Process, listed: seq<HeapRoot>)
    ensures WithNamed(p, listed, []) == listed && RootsOn(p, []) == [] && Unlisted(listed, []) == []
  {
  }

  lemma NextNamed(p: Process, listed: seq<HeapRoot>, named: seq<u64>, i: nat)
    requires i < |named|
    ensures WithNamed(p, listed, named[..i + 1]) ==
      var roots := WithNamed(p, listed, named[..i]);
      if named[i] in Addresses(listed) then roots else roots + [HeapRoot(|roots|, named[i], ClassifyAt(p, named[i]))]
    ensures |Unlisted(listed, named[..i + 1])| == |Unlisted(listed, named[..i])| + if named[i] in Addresses(listed) then 0 else 1
  {
    assert named[..i + 1][..i] == named[..i];
  }

  /** The list the process heap starts is one closed ring, or the process keeps none. */
  ghost predicate ListIsWhole(p: Process, named: seq<u64>) {
    match ProcessListStart(p, named)
    case NamesNone => true
    case CannotSay => false
    case NamesEntry(start) => exists ring :: ClosedRing(p, start, ring)
  }
}
