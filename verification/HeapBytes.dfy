/**
 * A process's heaps as they are written: the ring of list entries, each heap's signature, the entry
 * each heap names, and the PEB's array. Enumerating the roots of a process so written finds every
 * heap and says so.
 *
 * The bytes are laid down here by plain arithmetic on offsets, and share nothing with the walk that
 * takes them apart.
 */
module HeapBytes {
  import opened Machine
  import opened ByteMemory
  import opened HeapRoots

  /** An entry of the ring: the head, which lies in `ntdll`, or one that stands for a heap. */
  datatype Node = Head(at: u64, heap: u64) | Listed(at: u64, heap: u64, kind: HeapKind)

  /** Which of the two signatures a heap carries where its kind keeps it. */
  ghost predicate SegmentSigned(p: Process, mem: Memory, heap: int) {
    Holds(mem, heap + p.layout.segmentSignature, LE32(0xddee_ddee))
  }

  ghost predicate NtSigned(p: Process, mem: Memory, heap: int) {
    Holds(mem, heap + p.layout.ntSignature, LE32(0xeeff_eeff))
  }

  /** The address is in one of two 32-bit fields, or between them. */
  predicate Between(a: int, one: int, other: int) {
    (one <= a < other + 4) || (other <= a < one + 4)
  }

  /** Both signature fields, and all that lies between them, are there. */
  ghost predicate SignaturesThere(p: Process, mem: Memory, heap: int) {
    forall a :: Between(a, heap + p.layout.segmentSignature, heap + p.layout.ntSignature) ==> mem(a).Some?
  }

  /** A heap is what its signatures say, when one of them says it and the other does not. */
  ghost predicate HeapAt(p: Process, mem: Memory, heap: int, kind: HeapKind) {
    && 0x1_0000 <= heap < 0x8000_0000_0000 && SignaturesThere(p, mem, heap)
    && match kind
       case SegmentHeap => SegmentSigned(p, mem, heap) && !NtSigned(p, mem, heap)
       case NtHeap => NtSigned(p, mem, heap) && !SegmentSigned(p, mem, heap)
       case UnknownHeap => SegmentSigned(p, mem, heap) == NtSigned(p, mem, heap)
       case UnreadableHeap => false
  }

  /** The heap holds its entry's address, at the place its own kind keeps it. */
  ghost predicate NamesAt(p: Process, mem: Memory, heap: int, kind: HeapKind, at: u64) {
    match kind
    case SegmentHeap => p.layout.segmentEntry.Some? && Holds(mem, heap + p.layout.segmentEntry.value, LE64(at))
    case NtHeap => p.layout.ntEntry.Some? && Holds(mem, heap + p.layout.ntEntry.value, LE64(at))
    case _ => false
  }

  function Next(nodes: seq<Node>, i: nat): u64
    requires i < |nodes|
  {
    if i == |nodes| - 1 then nodes[0].at else nodes[i + 1].at
  }

  function Previous(nodes: seq<Node>, i: nat): u64
    requires i < |nodes|
  {
    if i == 0 then nodes[|nodes| - 1].at else nodes[i - 1].at
  }

  ghost predicate NodeAt(p: Process, mem: Memory, nodes: seq<Node>, i: nat)
    requires i < |nodes|
  {
    var node := nodes[i];
    && Holds(mem, node.at, LE64(Next(nodes, i)) + LE64(Previous(nodes, i)) + LE64(node.heap))
    && (node.Head? <==> p.ntdllStart <= node.at < p.ntdllEnd)
    && (node.Listed? ==> node.at != 0 && HeapAt(p, mem, node.heap, node.kind) && NamesAt(p, mem, node.heap, node.kind, node.at))
  }

  /** The list, from whichever entry of it comes first: no entry twice, and one head. */
  ghost predicate RingAt(p: Process, mem: Memory, nodes: seq<Node>, head: nat) {
    && head < |nodes| && (forall i :: 0 <= i < |nodes| ==> (nodes[i].Head? <==> i == head))
    && (forall i, j :: 0 <= i < j < |nodes| ==> nodes[i].at != nodes[j].at)
    && forall i :: 0 <= i < |nodes| ==> NodeAt(p, mem, nodes, i)
  }

  /** The heaps of a list, in its order. */
  function HeapsOn(nodes: seq<Node>): seq<HeapRoot> {
    if nodes == [] then []
    else
      var roots, node := HeapsOn(nodes[..|nodes| - 1]), nodes[|nodes| - 1];
      if node.Head? then roots else roots + [HeapRoot(|roots|, node.heap, node.kind)]
  }

  function EntriesOf(nodes: seq<Node>): (path: seq<u64>)
    ensures |path| == |nodes|
  {
    seq(|nodes|, i requires 0 <= i < |nodes| => nodes[i].at)
  }

  // ----- One heap

  lemma Signed(mem: Memory, at: int, signature: u32)
    requires Readable(mem, at, 4)
    ensures U32(Window(mem, at, 4)) == signature <==> Holds(mem, at, LE32(signature))
  {
    hide U32, LE32;
    var bytes := Window(mem, at, 4);
    Encoded32(bytes);
    Decoded32(signature);
    if Holds(mem, at, LE32(signature)) {
      HeldWindow(mem, at, LE32(signature), 0, 4);
      assert LE32(signature)[0..4] == LE32(signature) && at + 0 == at;
    }
  }

  lemma FieldInSpan(mem: Memory, at: int, len: nat, from: nat)
    requires Readable(mem, at, len) && from + 4 <= len
    ensures Readable(mem, at + from, 4) && U32(Window(mem, at, len)[from..]) == U32(Window(mem, at + from, 4))
  {
  }

  /** The two signature fields, as one read of the span that holds both gives them. */
  lemma SignaturesAreRead(p: Process, mem: Memory, heap: u64)
    requires Reading(p.read, mem) && heap < 0x8000_0000_0000
    ensures SignaturesThere(p, mem, heap) ==>
      && Readable(mem, heap + p.layout.segmentSignature, 4) && Readable(mem, heap + p.layout.ntSignature, 4)
      && ReadSignatures(p, heap) == (Some(U32(Window(mem, heap + p.layout.segmentSignature, 4))),
                                     Some(U32(Window(mem, heap + p.layout.ntSignature, 4))))
    ensures !SignaturesThere(p, mem, heap) ==> ReadSignatures(p, heap) == (None, None)
  {
    hide U32, Readable, Window, Reading;
    var s: int, n: int := p.layout.segmentSignature, p.layout.ntSignature;
    var low: int, high: int := if s < n then s else n, if s < n then n else s;
    SpanIsThere(mem, heap, s, n, low, high);
    ThereIsRead(p.read, mem, heap + low, high + 4 - low);
    if SignaturesThere(p, mem, heap) {
      FieldInSpan(mem, heap + low, high + 4 - low, s - low);
      FieldInSpan(mem, heap + low, high + 4 - low, n - low);
      assert heap + low + (s - low) == heap + s && heap + low + (n - low) == heap + n;
    }
  }

  lemma SpanIsThere(mem: Memory, heap: int, s: nat, n: nat, low: nat, high: nat)
    requires if s < n then low == s && high == n else low == n && high == s
    ensures (forall a :: Between(a, heap + s, heap + n) ==> mem(a).Some?) <==> Readable(mem, heap + low, high + 4 - low)
  {
    if Readable(mem, heap + low, high + 4 - low) {
      forall a | Between(a, heap + s, heap + n) ensures mem(a).Some? {
      }
    } else {
      var a :| heap + low <= a < heap + low + (high + 4 - low) && mem(a).None?;
      assert Between(a, heap + s, heap + n);
    }
  }

  /** What a heap is, from the bytes at its two signatures. */
  lemma HeapIsClassified(p: Process, mem: Memory, heap: u64, kind: HeapKind)
    requires Reading(p.read, mem) && HeapAt(p, mem, heap, kind)
    ensures ClassifyAt(p, heap) == kind
  {
    hide U32, LE32, ReadSignatures, Reading, SignaturesThere, Holds, Readable;
    SignaturesAreRead(p, mem, heap);
    Signed(mem, heap + p.layout.segmentSignature, 0xddee_ddee);
    Signed(mem, heap + p.layout.ntSignature, 0xeeff_eeff);
  }

  /** An address no user heap has is no heap, and one whose signatures cannot be read is one that cannot be. */
  lemma NoHeapThere(p: Process, mem: Memory, heap: u64)
    requires Reading(p.read, mem)
    ensures heap < 0x1_0000 || heap >= 0x8000_0000_0000 ==> ClassifyAt(p, heap) == UnknownHeap
    ensures 0x1_0000 <= heap < 0x8000_0000_0000 && !SignaturesThere(p, mem, heap) ==> ClassifyAt(p, heap) == UnreadableHeap
  {
    hide ReadSignatures, Reading, SignaturesThere;
    if heap < 0x8000_0000_0000 {
      SignaturesAreRead(p, mem, heap);
    }
  }

  lemma EntryIsNamed(p: Process, mem: Memory, heap: u64, kind: HeapKind, at: u64)
    requires Reading(p.read, mem) && heap < 0x8000_0000_0000 && NamesAt(p, mem, heap, kind, at)
    ensures ListEntryOf(p, heap, kind) == if at == 0 then NamesNone else NamesEntry(at)
  {
    hide U64, LE64;
    var offset := if kind.SegmentHeap? then p.layout.segmentEntry.value else p.layout.ntEntry.value;
    HeldIsRead(p.read, mem, heap + offset, LE64(at));
    Decoded64(at);
  }

  lemma LinksAreRead(p: Process, mem: Memory, at: u64, flink: u64, blink: u64, heap: u64)
    requires Reading(p.read, mem) && Holds(mem, at, LE64(flink) + LE64(blink) + LE64(heap))
    ensures LinksAt(p, at) == Some(Links(flink, blink, heap))
  {
    hide U64, LE64;
    var bytes := LE64(flink) + LE64(blink) + LE64(heap);
    HeldIsRead(p.read, mem, at, bytes);
    assert bytes[0..8] == LE64(flink) && bytes[8..16] == LE64(blink) && bytes[16..24] == LE64(heap);
    Decoded64(flink);
    Decoded64(blink);
    Decoded64(heap);
  }

  // ----- The list

  lemma NodeStands(p: Process, mem: Memory, nodes: seq<Node>, i: nat)
    requires Reading(p.read, mem) && i < |nodes| && NodeAt(p, mem, nodes, i)
    ensures Stands(p, nodes[i].at) && LinksAt(p, nodes[i].at) == Some(Links(Next(nodes, i), Previous(nodes, i), nodes[i].heap))
    ensures p.InNtdll(nodes[i].at) <==> nodes[i].Head?
    ensures nodes[i].Listed? ==> ClassifyAt(p, nodes[i].heap) == nodes[i].kind
  {
    hide LinksAt, ListEntryOf, ClassifyAt, Next, Previous, Reading;
    LinksAreRead(p, mem, nodes[i].at, Next(nodes, i), Previous(nodes, i), nodes[i].heap);
    if nodes[i].Listed? {
      HeapIsClassified(p, mem, nodes[i].heap, nodes[i].kind);
      EntryIsNamed(p, mem, nodes[i].heap, nodes[i].kind, nodes[i].at);
    }
  }

  lemma NodeFollows(p: Process, mem: Memory, nodes: seq<Node>, i: nat, j: nat)
    requires i < |nodes| && j == if i == |nodes| - 1 then 0 else i + 1
    requires Reading(p.read, mem) && NodeAt(p, mem, nodes, i) && NodeAt(p, mem, nodes, j)
    ensures Stands(p, nodes[i].at) && Stands(p, nodes[j].at) && Follows(p, nodes[i].at, nodes[j].at)
  {
    hide LinksAt, Stands, NodeAt, Reading;
    NodeStands(p, mem, nodes, i);
    NodeStands(p, mem, nodes, j);
  }

  lemma NodesAreLinked(p: Process, mem: Memory, nodes: seq<Node>)
    requires Reading(p.read, mem) && nodes != [] && forall i :: 0 <= i < |nodes| ==> NodeAt(p, mem, nodes, i)
    ensures Linked(p, nodes[0].at, EntriesOf(nodes))
  {
    hide LinksAt, Stands, NodeAt, Reading, Follows;
    var path := EntriesOf(nodes);
    forall i: nat | i < |nodes| ensures Stands(p, path[i]) {
      NodeStands(p, mem, nodes, i);
    }
    forall i: nat {:trigger path[i]} | 0 < i < |nodes| ensures Follows(p, path[i - 1], path[i]) {
      NodeFollows(p, mem, nodes, i - 1, i);
    }
  }

  lemma HeadIsTheOnlyOne(p: Process, mem: Memory, nodes: seq<Node>, head: nat)
    requires Reading(p.read, mem) && RingAt(p, mem, nodes, head)
    ensures OnlyHead(p, EntriesOf(nodes), head) && NoDuplicates(EntriesOf(nodes))
  {
    hide LinksAt, Stands, NodeAt, Reading, Follows;
    forall i: nat | i < |nodes| ensures p.InNtdll(EntriesOf(nodes)[i]) <==> i == head {
      NodeStands(p, mem, nodes, i);
    }
  }

  /** The entries of a list so written are one closed ring, from any of them on. */
  lemma RingIsClosed(p: Process, mem: Memory, nodes: seq<Node>, head: nat)
    requires Reading(p.read, mem) && RingAt(p, mem, nodes, head)
    ensures nodes != [] && ClosedRing(p, nodes[0].at, EntriesOf(nodes))
  {
    hide Linked, NoDuplicates, OnlyHead, Stands, NodeAt, Reading, Follows;
    NodesAreLinked(p, mem, nodes);
    HeadIsTheOnlyOne(p, mem, nodes, head);
    NodeFollows(p, mem, nodes, |nodes| - 1, 0);
  }

  lemma {:induction false} HeapsAreRoots(p: Process, mem: Memory, nodes: seq<Node>, n: nat)
    requires Reading(p.read, mem) && n <= |nodes| && forall i :: 0 <= i < |nodes| ==> NodeAt(p, mem, nodes, i)
    ensures RootsOn(p, EntriesOf(nodes)[..n]) == HeapsOn(nodes[..n])
  {
    hide LinksAt, ClassifyAt, NodeAt, Reading;
    if n > 0 {
      HeapsAreRoots(p, mem, nodes, n - 1);
      NodeStands(p, mem, nodes, n - 1);
      assert EntriesOf(nodes)[..n][..n - 1] == EntriesOf(nodes)[..n - 1] && nodes[..n][..n - 1] == nodes[..n - 1];
    }
  }

  // ----- The PEB

  ghost predicate PebAt(p: Process, mem: Memory, peb: u64, list: u64, named: seq<u64>) {
    && |named| <= 4096 && 0x1_0000 <= list < 0x8000_0000_0000
    && Holds(mem, (peb + p.layout.numberOfHeaps) % 0x1_0000_0000_0000_0000, LE32(|named|))
    && Holds(mem, (peb + p.layout.processHeaps) % 0x1_0000_0000_0000_0000, LE64(list))
    && forall i :: 0 <= i < |named| ==> HeapNamed(mem, list, i, named[i])
  }

  ghost predicate HeapNamed(mem: Memory, list: u64, i: nat, heap: u64) { Holds(mem, list + 8 * i, LE64(heap)) }

  lemma NamedAreThere(mem: Memory, list: u64, named: seq<u64>)
    requires forall i :: 0 <= i < |named| ==> HeapNamed(mem, list, i, named[i])
    ensures Readable(mem, list, 8 * |named|)
    ensures forall i :: 0 <= i < |named| ==> Window(mem, list, 8 * |named|)[8 * i..8 * i + 8] == LE64(named[i])
  {
    hide LE64;
    forall a | list <= a < list + 8 * |named| ensures mem(a).Some? {
      var i, k := (a - list) / 8, (a - list) % 8;
      assert HeapNamed(mem, list, i, named[i]);
      assert mem(list + 8 * i + k) == Some(LE64(named[i])[k]);
    }
    forall i | 0 <= i < |named| ensures Window(mem, list, 8 * |named|)[8 * i..8 * i + 8] == LE64(named[i]) {
      assert HeapNamed(mem, list, i, named[i]);
      HeldWindow(mem, list + 8 * i, LE64(named[i]), 0, 8);
    }
  }

  /** The PEB's array comes back as it was written. */
  lemma PebIsRead(p: Process, mem: Memory, peb: u64, list: u64, named: seq<u64>)
    requires Reading(p.read, mem) && PebAt(p, mem, peb, list, named)
    ensures PebHeaps(p, peb) == Ok(named)
  {
    hide U32, U64, LE32, LE64, HeapNamed;
    HeldIsRead(p.read, mem, Wrap(peb + p.layout.numberOfHeaps), LE32(|named|));
    HeldIsRead(p.read, mem, Wrap(peb + p.layout.processHeaps), LE64(list));
    Decoded32(|named|);
    Decoded64(list);
    NamedAreThere(mem, list, named);
    forall i | 0 <= i < |named| ensures U64(Window(mem, list, 8 * |named|)[8 * i..8 * i + 8]) == named[i] {
      Decoded64(named[i]);
    }
    if named != [] {
      assert PebHeaps(p, peb).Ok? && PebHeaps(p, peb).value == named;
    }
  }

  /** A count past the bound, or heaps kept where no user memory is, is no PEB. */
  lemma PebIsRefused(p: Process, mem: Memory, peb: u64, count: u32, list: u64)
    requires Reading(p.read, mem)
    requires Holds(mem, (peb + p.layout.numberOfHeaps) % 0x1_0000_0000_0000_0000, LE32(count))
    requires Holds(mem, (peb + p.layout.processHeaps) % 0x1_0000_0000_0000_0000, LE64(list))
    ensures count > 4096 ==> PebHeaps(p, peb) == Err(InvalidPeb)
    ensures 0 < count && (list < 0x1_0000 || list >= 0x8000_0000_0000) ==> PebHeaps(p, peb) == Err(InvalidPeb)
    ensures count == 0 ==> PebHeaps(p, peb) == Ok([])
  {
    hide U32, U64, LE32, LE64;
    HeldIsRead(p.read, mem, Wrap(peb + p.layout.numberOfHeaps), LE32(count));
    HeldIsRead(p.read, mem, Wrap(peb + p.layout.processHeaps), LE64(list));
    Decoded32(count);
    Decoded64(list);
  }

  /** A process heap with no place for an entry, or with zero there, keeps no list; one that is no heap cannot say. */
  lemma NoListIsEntered(p: Process, mem: Memory, heap: u64, kind: HeapKind)
    requires Reading(p.read, mem) && HeapAt(p, mem, heap, kind)
    ensures kind.SegmentHeap? && p.layout.segmentEntry.None? ==> ListStart(p, heap) == NamesNone
    ensures kind.NtHeap? && p.layout.ntEntry.None? ==> ListStart(p, heap) == NamesNone
    ensures NamesAt(p, mem, heap, kind, 0) ==> ListStart(p, heap) == NamesNone
    ensures kind.UnknownHeap? && p.layout.segmentEntry.Some? ==> ListStart(p, heap) == CannotSay
  {
    hide ClassifyAt, ReadU64, Reading, Holds;
    HeapIsClassified(p, mem, heap, kind);
    if NamesAt(p, mem, heap, kind, 0) {
      EntryIsNamed(p, mem, heap, kind, 0);
    }
  }

  // ----- The whole enumeration

  /** The process heap is the first the PEB names, and its entry is where the list is entered. */
  ghost predicate ProcessAt(p: Process, mem: Memory, peb: u64, list: u64, named: seq<u64>, nodes: seq<Node>, head: nat) {
    && PebAt(p, mem, peb, list, named) && RingAt(p, mem, nodes, head)
    && named != [] && nodes[0].Listed? && nodes[0].heap == named[0]
  }

  lemma ListIsEntered(p: Process, mem: Memory, nodes: seq<Node>, head: nat)
    requires Reading(p.read, mem) && RingAt(p, mem, nodes, head) && nodes[0].Listed?
    ensures ListStart(p, nodes[0].heap) == NamesEntry(nodes[0].at)
  {
    hide ClassifyAt, ListEntryOf, Reading;
    assert NodeAt(p, mem, nodes, 0);
    HeapIsClassified(p, mem, nodes[0].heap, nodes[0].kind);
    EntryIsNamed(p, mem, nodes[0].heap, nodes[0].kind, nodes[0].at);
  }

  /** With time to finish, every heap of the list is found in order, then those only the PEB names, and that is said to be all. */
  method EnumerateWritten(p: Process, peb: u64, clock: nat -> Tick, ghost mem: Memory, ghost list: u64, ghost named: seq<u64>,
                          ghost nodes: seq<Node>, ghost head: nat)
    returns (r: Result<RootEnumeration, HeapError>)
    requires Reading(p.read, mem) && ProcessAt(p, mem, peb, list, named, nodes, head) && forall k :: clock(k).Go?
    ensures r.Ok? && r.value.SawEveryRoot() && HeapsOn(nodes) <= r.value.roots
    ensures RootAddresses(r.value.roots) == RootAddresses(HeapsOn(nodes)) + Unlisted(HeapsOn(nodes), named)
  {
    hide Reading, PebAt, RingAt, ClosedRing, PebHeaps, ListStart, WithNamed, RootsOn, StartEnds, GotAsFar, HeapsOn, EntriesOf, Unlisted;
    PebIsRead(p, mem, peb, list, named);
    ListIsEntered(p, mem, nodes, head);
    RingIsClosed(p, mem, nodes, head);
    RootsOfTheRing(p, mem, nodes, head);
    ghost var found, path, done;
    var polls;
    r, polls, found, path, done := EnumerateRoots(p, peb, clock);
    if r.Ok? {
      RingIsUnique(p, nodes[0].at, path, EntriesOf(nodes));
      NamedAreRoots(p, HeapsOn(nodes), named);
    }
  }

  lemma RootsOfTheRing(p: Process, mem: Memory, nodes: seq<Node>, head: nat)
    requires Reading(p.read, mem) && RingAt(p, mem, nodes, head)
    ensures RootsOn(p, EntriesOf(nodes)) == HeapsOn(nodes)
  {
    HeapsAreRoots(p, mem, nodes, |nodes|);
    assert EntriesOf(nodes)[..|nodes|] == EntriesOf(nodes) && nodes[..|nodes|] == nodes;
  }
}
