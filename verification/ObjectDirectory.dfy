/**
 * One object directory: an array of buckets, each a chain of entries, in memory that may be corrupt.
 *
 * `IsDirectory` is the structure: every bucket's chain ends, and all of them together stay within
 * the bound. `EntriesOf` walks it, and answers in full, with a prefix it says is one, or not at all.
 */
module ObjectDirectory {
  import opened Machine
  import opened Session
  import opened ObjectNames

  const MAX_ENTRIES: nat := 65536

  function BucketAddress(layout: Layout, directory: u64, bucket: nat): u64 {
    Wrap(Wrap(directory + layout.hashBuckets) + bucket * layout.pointer)
  }

  function ObjectAddress(layout: Layout, entry: u64): u64 { Wrap(entry + layout.entryObject) }

  function LinkAddress(layout: Layout, entry: u64): u64 { Wrap(entry + layout.entryChain) }

  /** The entry reads whole: its object, and its link to the next. */
  ghost predicate Reads(mem: Memory, layout: Layout, entry: u64) {
    PointerAt(mem, layout, ObjectAddress(layout, entry)).Ok? && PointerAt(mem, layout, LinkAddress(layout, entry)).Ok?
  }

  ghost function ObjectOf(mem: Memory, layout: Layout, entry: u64): u64
    requires Reads(mem, layout, entry)
  {
    PointerAt(mem, layout, ObjectAddress(layout, entry)).value
  }

  ghost function LinkOf(mem: Memory, layout: Layout, entry: u64): u64
    requires Reads(mem, layout, entry)
  {
    PointerAt(mem, layout, LinkAddress(layout, entry)).value
  }

  /** Entries linked from `head`, and the entry the last of them links to. */
  ghost predicate Leads(mem: Memory, layout: Layout, head: u64, chain: seq<u64>, next: u64) {
    if chain == [] then head == next
    else (
      && chain[0] == head
      && (forall i :: 0 <= i < |chain| ==> chain[i] != 0 && Reads(mem, layout, chain[i]))
      && (forall i {:trigger chain[i]} :: 0 < i < |chain| ==> LinkOf(mem, layout, chain[i - 1]) == chain[i])
      && LinkOf(mem, layout, chain[|chain| - 1]) == next
    )
  }

  /** A chain that ends. */
  ghost predicate IsChain(mem: Memory, layout: Layout, head: u64, chain: seq<u64>) {
    Leads(mem, layout, head, chain, 0)
  }

  /** The non-null objects of a chain, in its order. */
  ghost function ObjectsOn(mem: Memory, layout: Layout, chain: seq<u64>): seq<u64> {
    if chain == [] then []
    else
      var entry := chain[|chain| - 1];
      ObjectsOn(mem, layout, chain[..|chain| - 1])
        + (if Reads(mem, layout, entry) && ObjectOf(mem, layout, entry) != 0 then [ObjectOf(mem, layout, entry)] else [])
  }

  ghost function ObjectsIn(mem: Memory, layout: Layout, chains: seq<seq<u64>>): seq<u64> {
    if chains == [] then []
    else ObjectsIn(mem, layout, chains[..|chains| - 1]) + ObjectsOn(mem, layout, chains[|chains| - 1])
  }

  ghost function Links(chains: seq<seq<u64>>): nat {
    if chains == [] then 0 else Links(chains[..|chains| - 1]) + |chains[|chains| - 1]|
  }

  /** The chains of the first buckets of a directory. */
  ghost predicate AreChains(mem: Memory, layout: Layout, directory: u64, chains: seq<seq<u64>>) {
    forall b :: 0 <= b < |chains| ==> IsBucket(mem, layout, directory, b, chains[b])
  }

  ghost predicate IsBucket(mem: Memory, layout: Layout, directory: u64, bucket: nat, chain: seq<u64>) {
    var head := PointerAt(mem, layout, BucketAddress(layout, directory, bucket));
    head.Ok? && IsChain(mem, layout, head.value, chain)
  }

  /** Every bucket's chain, all of them ending and none beyond the bound. */
  ghost predicate IsDirectory(mem: Memory, layout: Layout, directory: u64, chains: seq<seq<u64>>) {
    |chains| == layout.buckets && AreChains(mem, layout, directory, chains) && Links(chains) <= MAX_ENTRIES
  }

  // ----- Chains are determined by their head, and a chain that ends does not loop

  lemma {:induction false} ChainsAgree(mem: Memory, layout: Layout, head: u64, one: seq<u64>, n: u64, other: seq<u64>, i: nat)
    requires Leads(mem, layout, head, one, n) && IsChain(mem, layout, head, other) && i < |one|
    ensures i < |other| && one[i] == other[i]
  {
    hide Reads, LinkOf;
    if i > 0 {
      ChainsAgree(mem, layout, head, one, n, other, i - 1);
      assert LinkOf(mem, layout, one[i - 1]) == one[i];
    }
  }

  /** A walk from the head is a prefix of the chain, and goes on as the chain does. */
  lemma WalkIsPrefix(mem: Memory, layout: Layout, head: u64, walk: seq<u64>, next: u64, chain: seq<u64>)
    requires Leads(mem, layout, head, walk, next) && IsChain(mem, layout, head, chain)
    ensures walk <= chain
    ensures if |walk| < |chain| then next == chain[|walk|] else next == 0
    ensures |walk| < |chain| ==> next != 0 && Reads(mem, layout, next)
  {
    hide PointerAt;
    forall i: nat | i < |walk| ensures i < |chain| && walk[i] == chain[i] {
      ChainsAgree(mem, layout, head, walk, next, chain, i);
    }
    if 0 < |walk| < |chain| {
      assert LinkOf(mem, layout, chain[|walk| - 1]) == chain[|walk|];
    }
  }

  lemma ChainIsUnique(mem: Memory, layout: Layout, head: u64, one: seq<u64>, other: seq<u64>)
    requires IsChain(mem, layout, head, one) && IsChain(mem, layout, head, other)
    ensures one == other
  {
    hide PointerAt;
    WalkIsPrefix(mem, layout, head, one, 0, other);
    WalkIsPrefix(mem, layout, head, other, 0, one);
  }

  lemma DirectoryIsUnique(mem: Memory, layout: Layout, directory: u64, one: seq<seq<u64>>, other: seq<seq<u64>>)
    requires AreChains(mem, layout, directory, one) && AreChains(mem, layout, directory, other) && |one| <= |other|
    ensures one == other[..|one|]
  {
    hide PointerAt, IsChain;
    forall b: nat | b < |one| ensures one[b] == other[b] {
      assert IsBucket(mem, layout, directory, b, one[b]) && IsBucket(mem, layout, directory, b, other[b]);
      ChainIsUnique(mem, layout, PointerAt(mem, layout, BucketAddress(layout, directory, b)).value, one[b], other[b]);
    }
  }

  /** A walk from `head` that comes back to an entry it has already met. */
  ghost predicate Loops(mem: Memory, layout: Layout, head: u64, walk: seq<u64>) {
    exists i :: 0 <= i < |walk| && Leads(mem, layout, head, walk, walk[i])
  }

  /** The tails of a chain from two equal entries are equal, so a chain that ends meets none twice. */
  lemma {:induction false} NoEntryTwice(mem: Memory, layout: Layout, head: u64, chain: seq<u64>, i: nat, j: nat)
    requires IsChain(mem, layout, head, chain) && i < j < |chain|
    ensures chain[i] != chain[j]
    decreases |chain| - j
  {
    hide Reads, LinkOf;
    if j + 1 < |chain| {
      NoEntryTwice(mem, layout, head, chain, i + 1, j + 1);
      assert LinkOf(mem, layout, chain[i]) == chain[i + 1] && LinkOf(mem, layout, chain[j]) == chain[j + 1];
    } else {
      assert LinkOf(mem, layout, chain[i]) == chain[i + 1];
    }
  }

  /** A directory with a looping chain has no complete answer, even where the loop's objects are null. */
  lemma LoopIsNoDirectory(mem: Memory, layout: Layout, directory: u64, bucket: nat, walk: seq<u64>, chains: seq<seq<u64>>)
    requires bucket < layout.buckets
    requires var head := PointerAt(mem, layout, BucketAddress(layout, directory, bucket));
      head.Ok? && Loops(mem, layout, head.value, walk)
    ensures !IsDirectory(mem, layout, directory, chains)
  {
    hide PointerAt, Leads;
    if IsDirectory(mem, layout, directory, chains) {
      assert IsBucket(mem, layout, directory, bucket, chains[bucket]);
      var head, chain := PointerAt(mem, layout, BucketAddress(layout, directory, bucket)).value, chains[bucket];
      var i :| 0 <= i < |walk| && Leads(mem, layout, head, walk, walk[i]);
      LoopNeverEnds(mem, layout, head, walk, i, chain);
    }
  }

  lemma LoopNeverEnds(mem: Memory, layout: Layout, head: u64, walk: seq<u64>, i: nat, chain: seq<u64>)
    requires i < |walk| && Leads(mem, layout, head, walk, walk[i])
    ensures !IsChain(mem, layout, head, chain)
  {
    hide PointerAt;
    if IsChain(mem, layout, head, chain) {
      WalkIsPrefix(mem, layout, head, walk, walk[i], chain);
      if |walk| < |chain| {
        assert walk[i] == chain[i];
        NoEntryTwice(mem, layout, head, chain, i, |walk|);
      }
    }
  }

  // ----- The walk

  method ReadPointer(target: Target, layout: Layout, at: u64, ghost mem: Memory) returns (r: Result<u64, ObjectError>)
    modifies target
    ensures target.ticks == old(target.ticks) + 1 && target.polls == old(target.polls)
    ensures Obeys(old(target.trace), target.trace, false) && Looks(target.trace) == old(Looks(target.trace))
    ensures Steady(target.answers, mem) ==> r == PointerAt(mem, layout, at)
    ensures r.Err? ==> IsReadError(r.error)
  {
    hide U32, U64;
    var bytes := target.ReadAt(at, layout.pointer);
    r := PointerIn(layout, at, bytes);
  }

  lemma ObjectsGrow(mem: Memory, layout: Layout, walk: seq<u64>, entry: u64)
    requires Reads(mem, layout, entry)
    ensures ObjectsOn(mem, layout, walk + [entry]) ==
      ObjectsOn(mem, layout, walk) + (if ObjectOf(mem, layout, entry) != 0 then [ObjectOf(mem, layout, entry)] else [])
  {
    hide Reads, ObjectOf;
    assert (walk + [entry])[..|walk|] == walk;
  }

  lemma ChainGrows(mem: Memory, layout: Layout, head: u64, walk: seq<u64>, entry: u64)
    requires Leads(mem, layout, head, walk, entry) && entry != 0 && Reads(mem, layout, entry)
    ensures Leads(mem, layout, head, walk + [entry], LinkOf(mem, layout, entry))
    ensures ObjectsOn(mem, layout, walk + [entry]) ==
      ObjectsOn(mem, layout, walk) + (if ObjectOf(mem, layout, entry) != 0 then [ObjectOf(mem, layout, entry)] else [])
  {
    hide Reads, LinkOf, ObjectsOn, ObjectOf;
    ObjectsGrow(mem, layout, walk, entry);
    var longer := walk + [entry];
    forall i {:trigger longer[i]} | 0 < i < |longer| ensures LinkOf(mem, layout, longer[i - 1]) == longer[i] {
      if i < |walk| {
        assert longer[i] == walk[i];
      }
    }
  }

  /** The chain is there to be walked: it ends, and within what is left of the bound. */
  ghost predicate ChainAwaits(target: Target, mem: Memory, layout: Layout, head: u64, followed: nat, chain: seq<u64>) {
    Steady(target.answers, mem) && IsChain(mem, layout, head, chain) && followed + |chain| <= MAX_ENTRIES
  }

  lemma AwaitedLink(target: Target, mem: Memory, layout: Layout, head: u64, followed: nat, walk: seq<u64>, entry: u64, chain: seq<u64>)
    requires ChainAwaits(target, mem, layout, head, followed, chain) && Leads(mem, layout, head, walk, entry)
    ensures Steady(target.answers, mem) && walk <= chain
    ensures entry != 0 ==> Reads(mem, layout, entry) && followed + |walk| < MAX_ENTRIES
  {
    hide PointerAt, Leads;
    assert IsChain(mem, layout, head, chain);
    WalkIsPrefix(mem, layout, head, walk, entry, chain);
  }

  /**
   * One bucket's chain, appended to what is already gathered. `walk` is the entries met, two reads
   * for each, and `next` the entry they lead to.
   */
  method WalkChain(target: Target, layout: Layout, head: u64, before: seq<u64>, followedBefore: nat,
                   ghost mem: Memory, ghost hope: Option<seq<u64>>)
    returns (r: Result<bool, ObjectError>, out: seq<u64>, followed: nat, ghost walk: seq<u64>, ghost next: u64)
    requires followedBefore <= MAX_ENTRIES && 0 !in before
    requires hope.Some? ==> ChainAwaits(target, mem, layout, head, followedBefore, hope.value)
    modifies target
    ensures Obeys(old(target.trace), target.trace, r == Ok(true)) && Looks(target.trace) == old(Looks(target.trace))
    ensures followedBefore <= followed <= MAX_ENTRIES && target.ticks - old(target.ticks) <= 2 * (followed - followedBefore)
    ensures target.NeverHalts() ==> r != Ok(true)
    ensures r.Err? ==> IsReadError(r.error)
    ensures 0 !in out
    ensures r.Ok? ==> followed == followedBefore + |walk| && target.ticks - old(target.ticks) == 2 * |walk|
    ensures r.Ok? && Steady(target.answers, mem) ==> Leads(mem, layout, head, walk, next) && out == before + ObjectsOn(mem, layout, walk)
    ensures r == Ok(false) ==> next == 0
    ensures hope.Some? ==> r.Ok? && walk <= hope.value
  {
    hide Steady, PointerAt, Leads, ObjectsOn, ChainAwaits, Reads, ObjectOf, LinkOf, Looks;
    out, followed, walk := before, followedBefore, [];
    var entry := head;
    next := entry;
    ChainStarts(mem, layout, head);
    if hope.Some? {
      AwaitedLink(target, mem, layout, head, followedBefore, walk, entry, hope.value);
    }
    while entry != 0
      invariant Obeys(old(target.trace), target.trace, false) && Looks(target.trace) == old(Looks(target.trace))
      invariant followed == followedBefore + |walk| && followed <= MAX_ENTRIES && next == entry && 0 !in out
      invariant target.ticks - old(target.ticks) == 2 * |walk|
      invariant Steady(target.answers, mem) ==> Leads(mem, layout, head, walk, entry) && out == before + ObjectsOn(mem, layout, walk)
      invariant hope.Some? ==> Steady(target.answers, mem) && walk <= hope.value
      decreases MAX_ENTRIES - followed
    {
      if hope.Some? {
        AwaitedLink(target, mem, layout, head, followedBefore, walk, entry, hope.value);
      }
      label polling:
      var stop := target.Stopped();
      ObeysThen(old(target.trace), old@polling(target.trace), target.trace, stop);
      if stop {
        return Ok(true), out, followed, walk, next;
      }
      if followed + 1 > MAX_ENTRIES {
        return Err(TooMany), out, followed, walk, next;
      }
      followed := followed + 1;
      label reading:
      var body := ReadPointer(target, layout, ObjectAddress(layout, entry), mem);
      ObeysThen(old(target.trace), old@reading(target.trace), target.trace, false);
      ReadsAre(mem, layout, entry);
      if body.Err? {
        return Err(body.error), out, followed, walk, next;
      }
      if body.value != 0 {
        out := out + [body.value];
      }
      label linking:
      var link := ReadPointer(target, layout, LinkAddress(layout, entry), mem);
      ObeysThen(old(target.trace), old@linking(target.trace), target.trace, false);
      if link.Err? {
        return Err(link.error), out, followed, walk, next;
      }
      if Steady(target.answers, mem) {
        ChainGrows(mem, layout, head, walk, entry);
      }
      walk := walk + [entry];
      entry := link.value;
      next := entry;
      if hope.Some? {
        AwaitedLink(target, mem, layout, head, followedBefore, walk, entry, hope.value);
      }
    }
    r := Ok(false);
  }

  lemma ChainStarts(mem: Memory, layout: Layout, head: u64)
    ensures Leads(mem, layout, head, [], head) && ObjectsOn(mem, layout, []) == []
  {
  }

  lemma ReadsAre(mem: Memory, layout: Layout, entry: u64)
    ensures Reads(mem, layout, entry) <==>
      PointerAt(mem, layout, ObjectAddress(layout, entry)).Ok? && PointerAt(mem, layout, LinkAddress(layout, entry)).Ok?
    ensures Reads(mem, layout, entry) ==> ObjectOf(mem, layout, entry) == PointerAt(mem, layout, ObjectAddress(layout, entry)).value
    ensures Reads(mem, layout, entry) ==> LinkOf(mem, layout, entry) == PointerAt(mem, layout, LinkAddress(layout, entry)).value
  {
    hide PointerAt;
  }

  lemma {:induction false} ObjectsOnPrefix(mem: Memory, layout: Layout, chain: seq<u64>, n: nat)
    requires n <= |chain|
    ensures ObjectsOn(mem, layout, chain[..n]) <= ObjectsOn(mem, layout, chain)
    decreases |chain| - n
  {
    hide Reads, ObjectOf;
    if n == |chain| {
      assert chain[..n] == chain;
    } else {
      ObjectsOnPrefix(mem, layout, chain, n + 1);
      assert chain[..n + 1][..n] == chain[..n];
    }
  }

  lemma {:induction false} ObjectsInPrefix(mem: Memory, layout: Layout, chains: seq<seq<u64>>, n: nat)
    requires n <= |chains|
    ensures ObjectsIn(mem, layout, chains[..n]) <= ObjectsIn(mem, layout, chains)
    ensures Links(chains[..n]) <= Links(chains)
    decreases |chains| - n
  {
    hide ObjectsOn;
    if n == |chains| {
      assert chains[..n] == chains;
    } else {
      ObjectsInPrefix(mem, layout, chains, n + 1);
      assert chains[..n + 1][..n] == chains[..n];
    }
  }

  /** What a directory that is there says of the bucket after those already walked. */
  lemma AwaitedBucket(target: Target, mem: Memory, layout: Layout, directory: u64, chains: seq<seq<u64>>, hope: seq<seq<u64>>)
    requires Steady(target.answers, mem) && IsDirectory(mem, layout, directory, hope)
    requires |chains| < layout.buckets && chains == hope[..|chains|]
    ensures
      var head := PointerAt(mem, layout, BucketAddress(layout, directory, |chains|));
      head.Ok? && ChainAwaits(target, mem, layout, head.value, Links(chains), hope[|chains|])
  {
    hide PointerAt, Leads, Steady;
    assert IsBucket(mem, layout, directory, |chains|, hope[|chains|]);
    var next := hope[..|chains| + 1];
    assert next[..|chains|] == chains;
    ObjectsInPrefix(mem, layout, hope, |chains| + 1);
  }

  /** Part of a bucket's chain, after the buckets before it, is part of the whole listing. */
  lemma PartIsPrefix(mem: Memory, layout: Layout, chains: seq<seq<u64>>, walk: seq<u64>, hope: seq<seq<u64>>)
    requires |chains| < |hope| && chains == hope[..|chains|] && walk <= hope[|chains|]
    ensures ObjectsIn(mem, layout, chains) + ObjectsOn(mem, layout, walk) <= ObjectsIn(mem, layout, hope)
  {
    hide ObjectsOn;
    var next := hope[..|chains| + 1];
    assert next[..|chains|] == chains && next[|chains|] == hope[|chains|];
    assert walk == hope[|chains|][..|walk|];
    ObjectsOnPrefix(mem, layout, hope[|chains|], |walk|);
    ObjectsInPrefix(mem, layout, hope, |chains| + 1);
  }

  lemma BucketAdded(mem: Memory, layout: Layout, directory: u64, chains: seq<seq<u64>>, chain: seq<u64>)
    requires AreChains(mem, layout, directory, chains) && IsBucket(mem, layout, directory, |chains|, chain)
    ensures AreChains(mem, layout, directory, chains + [chain])
    ensures ObjectsIn(mem, layout, chains + [chain]) == ObjectsIn(mem, layout, chains) + ObjectsOn(mem, layout, chain)
    ensures Links(chains + [chain]) == Links(chains) + |chain|
  {
    hide IsBucket, ObjectsOn;
    var longer := chains + [chain];
    assert longer[..|chains|] == chains;
    forall b: nat | b < |longer| ensures IsBucket(mem, layout, directory, b, longer[b]) {
      if b < |chains| {
        assert longer[b] == chains[b];
      }
    }
  }

  /**
   * How far an enumeration got: the chains of the buckets behind it, and, when it stopped inside a
   * bucket, the entries of that bucket's chain it had met.
   */
  datatype Progress = Progress(chains: seq<seq<u64>>, inside: bool, part: seq<u64>)

  /** The reads it took: a pointer for each bucket, and two for each entry. */
  ghost function Cost(got: Progress): nat {
    |got.chains| + (if got.inside then 1 else 0) + 2 * (Links(got.chains) + |got.part|)
  }

  /** What an enumeration that got this far has found, whatever is beyond it. */
  ghost predicate GotTo(mem: Memory, layout: Layout, directory: u64, got: Progress, out: seq<u64>) {
    && |got.chains| <= layout.buckets && AreChains(mem, layout, directory, got.chains)
    && out == ObjectsIn(mem, layout, got.chains) + ObjectsOn(mem, layout, got.part)
    && if got.inside then |got.chains| < layout.buckets && IsPart(mem, layout, directory, |got.chains|, got.part) else got.part == []
  }

  /** The first entries of a bucket's chain, whether or not it ends. */
  ghost predicate IsPart(mem: Memory, layout: Layout, directory: u64, bucket: nat, part: seq<u64>) {
    var head := PointerAt(mem, layout, BucketAddress(layout, directory, bucket));
    head.Ok? && exists next :: Leads(mem, layout, head.value, part, next)
  }

  /**
   * `entries_of`. On any memory, changing or not, it reads one pointer for each bucket and two for
   * each link, within the bound, finds no null object, and does nothing after the poll that stops
   * it. Over memory that holds still, a finished answer is every object of every chain, a stopped
   * one is exactly what those reads found, and a directory that is there is never refused.
   */
  method EntriesOf(target: Target, layout: Layout, directory: u64, ghost mem: Memory)
    returns (r: Result<(seq<u64>, bool), ObjectError>, ghost got: Progress)
    requires layout.Checked()
    modifies target
    ensures Obeys(old(target.trace), target.trace, r.Ok? && r.value.1) && Looks(target.trace) == old(Looks(target.trace))
    ensures target.ticks - old(target.ticks) <= layout.buckets + 2 * MAX_ENTRIES
    ensures target.NeverHalts() && r.Ok? ==> !r.value.1
    ensures r.Err? ==> IsReadError(r.error)
    ensures r.Ok? ==> 0 !in r.value.0 && target.ticks - old(target.ticks) == Cost(got)
    ensures Steady(target.answers, mem) && r.Ok? ==> GotTo(mem, layout, directory, got, r.value.0)
    ensures Steady(target.answers, mem) && r.Ok? && !r.value.1 ==>
      !got.inside && IsDirectory(mem, layout, directory, got.chains) && r.value.0 == ObjectsIn(mem, layout, got.chains)
    ensures forall there :: Steady(target.answers, mem) && IsDirectory(mem, layout, directory, there) ==>
      r.Ok? && r.value.0 <= ObjectsIn(mem, layout, there) && (!r.value.1 ==> got.chains == there)
  {
    hide Steady, PointerAt, IsDirectory, ObjectsIn, ObjectsOn, IsChain, GotTo, Cost, Looks;
    ghost var hope: Option<seq<seq<u64>>> := None;
    if there :| Steady(target.answers, mem) && IsDirectory(mem, layout, directory, there) {
      hope := Some(there);
      DirectoryIs(mem, layout, directory, there, there);
      forall other | IsDirectory(mem, layout, directory, other) ensures other == there {
        DirectoryIs(mem, layout, directory, other, there);
      }
    }
    r, got := WalkBuckets(target, layout, directory, mem, hope);
  }

  lemma DirectoryIs(mem: Memory, layout: Layout, directory: u64, one: seq<seq<u64>>, other: seq<seq<u64>>)
    requires IsDirectory(mem, layout, directory, one) && IsDirectory(mem, layout, directory, other)
    ensures one == other && |one| == layout.buckets
  {
    hide IsBucket;
    DirectoryIsUnique(mem, layout, directory, one, other);
    assert other[..|one|] == other;
  }

  /** The outer loop of `entries_of`. `hope` is the directory, where the memory holds one. */
  method WalkBuckets(target: Target, layout: Layout, directory: u64, ghost mem: Memory, ghost hope: Option<seq<seq<u64>>>)
    returns (r: Result<(seq<u64>, bool), ObjectError>, ghost got: Progress)
    requires layout.Checked()
    requires hope.Some? ==> Steady(target.answers, mem) && IsDirectory(mem, layout, directory, hope.value)
    requires hope.Some? ==> |hope.value| == layout.buckets
    modifies target
    ensures Obeys(old(target.trace), target.trace, r.Ok? && r.value.1) && Looks(target.trace) == old(Looks(target.trace))
    ensures target.ticks - old(target.ticks) <= layout.buckets + 2 * MAX_ENTRIES
    ensures target.NeverHalts() && r.Ok? ==> !r.value.1
    ensures r.Err? ==> IsReadError(r.error)
    ensures r.Ok? ==> 0 !in r.value.0 && target.ticks - old(target.ticks) == Cost(got)
    ensures Steady(target.answers, mem) && r.Ok? ==> GotTo(mem, layout, directory, got, r.value.0)
    ensures Steady(target.answers, mem) && r.Ok? && !r.value.1 ==>
      !got.inside && IsDirectory(mem, layout, directory, got.chains) && r.value.0 == ObjectsIn(mem, layout, got.chains)
    ensures hope.Some? ==> r.Ok? && r.value.0 <= ObjectsIn(mem, layout, hope.value) && (!r.value.1 ==> got.chains == hope.value)
  {
    hide Steady, PointerAt, ObjectsIn, ObjectsOn, IsChain, AreChains, ChainAwaits, Links, IsDirectory, Leads, Looks, GotTo;
    var out, followed: nat := [], 0;
    ghost var chains: seq<seq<u64>> := [];
    got := Progress([], false, []);
    BucketsStart(mem, layout, directory);
    for bucket := 0 to layout.buckets
      invariant Obeys(old(target.trace), target.trace, false) && Looks(target.trace) == old(Looks(target.trace))
      invariant followed <= MAX_ENTRIES && target.ticks - old(target.ticks) == bucket + 2 * followed && 0 !in out
      invariant |chains| == bucket && followed == Links(chains)
      invariant Steady(target.answers, mem) ==> AreChains(mem, layout, directory, chains) && out == ObjectsIn(mem, layout, chains)
      invariant hope.Some? ==> chains == hope.value[..bucket]
    {
      if hope.Some? {
        AwaitedBucket(target, mem, layout, directory, chains, hope.value);
        ObjectsInPrefix(mem, layout, hope.value, bucket);
      }
      label polling:
      var stop := target.Stopped();
      ObeysThen(old(target.trace), old@polling(target.trace), target.trace, stop);
      if stop {
        GotToBucket(mem, layout, directory, chains);
        return Ok((out, true)), Progress(chains, false, []);
      }
      label reading:
      var head := ReadPointer(target, layout, BucketAddress(layout, directory, bucket), mem);
      ObeysThen(old(target.trace), old@reading(target.trace), target.trace, false);
      if head.Err? {
        return Err(head.error), got;
      }
      label walking:
      ghost var walk, next;
      var halted;
      halted, out, followed, walk, next := WalkChain(target, layout, head.value, out, followed, mem,
                                                     if hope.Some? then Some(hope.value[bucket]) else None);
      ObeysThen(old(target.trace), old@walking(target.trace), target.trace, halted == Ok(true));
      if halted.Err? {
        return Err(halted.error), got;
      }
      if halted.value {
        if hope.Some? {
          PartIsPrefix(mem, layout, chains, walk, hope.value);
        }
        if Steady(target.answers, mem) {
          GotInside(mem, layout, directory, chains, walk, next);
        }
        return Ok((out, true)), Progress(chains, true, walk);
      }
      LinksAdded(chains, walk);
      if Steady(target.answers, mem) {
        ChainEnds(mem, layout, head.value, walk);
        BucketIs(mem, layout, directory, bucket, walk);
        BucketAdded(mem, layout, directory, chains, walk);
        if hope.Some? {
          ChainIs(target, mem, layout, head.value, Links(chains), walk, hope.value[bucket]);
        }
      }
      chains := chains + [walk];
    }
    DirectoryDone(mem, layout, directory, chains);
    GotToBucket(mem, layout, directory, chains);
    if hope.Some? {
      assert hope.value[..layout.buckets] == hope.value;
    }
    r, got := Ok((out, false)), Progress(chains, false, []);
  }

  lemma GotToBucket(mem: Memory, layout: Layout, directory: u64, chains: seq<seq<u64>>)
    ensures |chains| <= layout.buckets && AreChains(mem, layout, directory, chains) ==>
      GotTo(mem, layout, directory, Progress(chains, false, []), ObjectsIn(mem, layout, chains))
  {
    hide AreChains, ObjectsIn;
    assert ObjectsIn(mem, layout, chains) + ObjectsOn(mem, layout, []) == ObjectsIn(mem, layout, chains);
  }

  lemma GotInside(mem: Memory, layout: Layout, directory: u64, chains: seq<seq<u64>>, part: seq<u64>, next: u64)
    requires |chains| < layout.buckets && AreChains(mem, layout, directory, chains)
    requires var head := PointerAt(mem, layout, BucketAddress(layout, directory, |chains|));
      head.Ok? && Leads(mem, layout, head.value, part, next)
    ensures GotTo(mem, layout, directory, Progress(chains, true, part), ObjectsIn(mem, layout, chains) + ObjectsOn(mem, layout, part))
  {
    hide AreChains, ObjectsIn, ObjectsOn, PointerAt, Leads;
  }

  lemma ChainEnds(mem: Memory, layout: Layout, head: u64, walk: seq<u64>)
    requires Leads(mem, layout, head, walk, 0)
    ensures IsChain(mem, layout, head, walk)
  {
  }

  lemma BucketsStart(mem: Memory, layout: Layout, directory: u64)
    ensures AreChains(mem, layout, directory, []) && ObjectsIn(mem, layout, []) == [] && Links([]) == 0
  {
  }

  lemma LinksAdded(chains: seq<seq<u64>>, chain: seq<u64>)
    ensures Links(chains + [chain]) == Links(chains) + |chain|
  {
    assert (chains + [chain])[..|chains|] == chains;
  }

  lemma BucketIs(mem: Memory, layout: Layout, directory: u64, bucket: nat, chain: seq<u64>)
    requires PointerAt(mem, layout, BucketAddress(layout, directory, bucket)).Ok?
    requires IsChain(mem, layout, PointerAt(mem, layout, BucketAddress(layout, directory, bucket)).value, chain)
    ensures IsBucket(mem, layout, directory, bucket, chain)
  {
  }

  lemma ChainIs(target: Target, mem: Memory, layout: Layout, head: u64, followed: nat, walk: seq<u64>, chain: seq<u64>)
    requires IsChain(mem, layout, head, walk) && ChainAwaits(target, mem, layout, head, followed, chain)
    ensures walk == chain
  {
    hide Leads, Steady;
    ChainIsUnique(mem, layout, head, walk, chain);
  }

  lemma DirectoryDone(mem: Memory, layout: Layout, directory: u64, chains: seq<seq<u64>>)
    ensures |chains| == layout.buckets && AreChains(mem, layout, directory, chains) && Links(chains) <= MAX_ENTRIES ==>
      IsDirectory(mem, layout, directory, chains)
  {
  }
}
