/**
 * The walk that recovers an import table without reading an address-table slot. A table that is
 * there is answered in full and one that is not is refused; no bound and no hole shortens an answer.
 */
module PeImports {
  import opened Machine
  import opened ByteMemory
  import opened PeImage
  import opened PeTables
  import opened PeRuns

  // ----- The walk

  ghost predicate Quiet(halt: nat -> bool, from: nat, to: nat) {
    forall k :: from <= k < to ==> !halt(k)
  }

  /** How a walk that began polling at `from` and stopped at `to` was or was not told to stop. */
  ghost predicate Polled(halt: nat -> bool, from: nat, to: nat, interrupted: bool) {
    if interrupted then from < to && Quiet(halt, from, to - 1) && halt(to - 1)
    else from <= to && Quiet(halt, from, to)
  }

  /** The two refusals that narrow a table entry's offset to 32 bits. */
  predicate TooFar(e: PeError) {
    e == Malformed(AddressEntryTooFar) || e == Malformed(LookupEntryTooFar)
  }

  /** An unreadable answer names a read that was made and failed. */
  ghost predicate Explained(read: Reader, asked: set<Ask>, e: PeError) {
    e.Unreadable? ==> Failed(read, asked, Span(e.at, e.len))
  }

  lemma StillExplained(read: Reader, some: set<Ask>, all: set<Ask>, e: PeError)
    requires Explained(read, some, e) && some <= all
    ensures Explained(read, all, e)
  {
  }

  /** What a nonzero lookup entry names. */
  method ThunkName(image: Image, read: Reader, before: nat, value: u64, ghost mem: Memory)
    returns (r: Result<ImportName, PeError>, tick: nat, ghost asked: set<Ask>)
    requires value != 0
    ensures Ran(r, tick, asked) == ThunkRun(image, read, before, value)
    ensures r.Err? ==> Explained(read, asked, r.error) && !TooFar(r.error) && !r.error.Interrupted?
    ensures r.Ok? && Honest(read, mem) ==> IsThunk(image, mem, value, r.value)
    ensures Honest(read, mem) && Prompt(read, mem) ==> forall w :: ThunkIsThere(image, mem, value, w) ==> r == Ok(w)
  {
    hide NameRun, Honest, Prompt, NameCovered, IsName;
    var flag := OrdinalFlag(image.bitness);
    if value >= flag {
      if value - flag > 0xffff {
        return Err(Malformed(OrdinalBits)), before, {};
      }
      return Ok(Ordinal(value - flag)), before, {};
    }
    if value > MAX_U32 {
      return Err(Malformed(ThunkNotAnOffset)), before, {};
    }
    if value + 2 > MAX_U32 {
      return Err(Malformed(HintOverflow)), before, {};
    }
    var text;
    text, tick, asked := ReadCString(image, read, before, value + 2, mem);
    r := if text.Ok? then Ok(Named(text.value)) else Err(text.error);
  }

  lemma ThunkRead(image: Image, mem: Memory, lookup: int, j: nat, bytes: seq<byte>)
    requires |bytes| == image.bitness.Pointer() && Holds(mem, image.base + EntryRva(image, lookup, j), bytes)
    ensures HasThunk(image, mem, lookup, j) && ThunkIn(image.bitness, bytes) == Thunk(image, mem, lookup, j)
  {
    hide ThunkIn;
    HeldWindow(mem, image.base + EntryRva(image, lookup, j), bytes, 0, |bytes|);
    assert bytes[0..|bytes|] == bytes;
  }

  /** The entries before the `j`th are in the image, so far as the last of them shows it. */
  ghost predicate Reached(image: Image, lookup: int, iat: int, j: nat) {
    j > 0 ==>
      Fits(image, EntryRva(image, iat, j - 1), image.bitness.Pointer()) && Fits(image, EntryRva(image, lookup, j - 1), image.bitness.Pointer())
  }

  /** Entry `j` of a library's two parallel arrays: where its slot is, and its lookup value. */
  method ReadEntry(image: Image, read: Reader, before: nat, lookup: u32, iat: u32, j: nat, ghost mem: Memory)
    returns (r: Result<(int, u64), PeError>, tick: nat, ghost asked: set<Ask>)
    ensures Ran(r, tick, asked) == EntryRun(image, read, before, lookup, iat, j)
    ensures r.Err? ==> Explained(read, asked, r.error) && !r.error.Interrupted?
    ensures r == Err(Malformed(AddressEntryTooFar)) ==> EntryRva(image, iat, j) > MAX_U32
    ensures r == Err(Malformed(LookupEntryTooFar)) ==> EntryRva(image, lookup, j) > MAX_U32
    ensures r.Ok? ==> r.value.0 == image.base + EntryRva(image, iat, j) && SlotFits(image, r.value.0)
    ensures r.Ok? && Bounded(read) ==> Reached(image, lookup, iat, j + 1)
    ensures r.Ok? && Honest(read, mem) ==> HasEntry(image, mem, lookup, iat, j) && r.value.1 == Thunk(image, mem, lookup, j)
    ensures Honest(read, mem) && Prompt(read, mem) && HasEntry(image, mem, lookup, iat, j) ==> r.Ok?
  {
    hide At, ThunkIn, Honest, Prompt;
    tick, asked := before, {};
    var pointer := image.bitness.Pointer();
    var slotRva, entryRva := EntryRva(image, iat, j), EntryRva(image, lookup, j);
    if slotRva > MAX_U32 {
      return Err(Malformed(AddressEntryTooFar)), tick, asked;
    }
    var slot := CheckedVa(image, slotRva, pointer);
    if slot.Err? {
      return Err(slot.error), tick, asked;
    }
    if entryRva > MAX_U32 {
      return Err(Malformed(LookupEntryTooFar)), tick, asked;
    }
    var entry := At(image, read, before, LookupEntry(lookup, j), entryRva, pointer);
    AtReads(image, read, before, LookupEntry(lookup, j), entryRva, pointer, mem);
    tick, asked := entry.tick, entry.asked;
    if entry.r.Err? {
      return Err(entry.r.error), tick, asked;
    }
    if |entry.r.value| < pointer {
      return Err(Malformed(ShortField)), tick, asked;
    }
    if Honest(read, mem) {
      ThunkRead(image, mem, lookup, j, entry.r.value);
    }
    r := Ok((slot.value, ThunkIn(image.bitness, entry.r.value)));
  }

  ghost function Slots(imports: seq<Import>): set<int> {
    set i | 0 <= i < |imports| :: imports[i].slot
  }

  lemma SlotsGrow(imports: seq<Import>, more: Import)
    ensures Slots(imports + [more]) == Slots(imports) + {more.slot}
    ensures DistinctSlots(imports) && more.slot !in Slots(imports) ==> DistinctSlots(imports + [more])
  {
    var longer := imports + [more];
    forall i | 0 <= i < |imports| ensures longer[i] == imports[i] {}
    assert longer[|imports|].slot in Slots(longer);
    forall s | s in Slots(imports) ensures s in Slots(longer) {
      var i :| 0 <= i < |imports| && imports[i].slot == s;
      assert longer[i].slot == s;
    }
  }

  /** A library's run is there, and a reader that answers for it. */
  ghost predicate RunIsThere(image: Image, read: Reader, mem: Memory, lookup: int, iat: int, names: seq<ImportName>)
    ensures RunIsThere(image, read, mem, lookup, iat, names) ==> |names| < MAX_IMPORTS_PER_LIBRARY
  {
    && Honest(read, mem) && Prompt(read, mem)
    && IsRun(image, mem, lookup, iat, names) && RunCovered(image, mem, lookup, iat, names)
  }

  /** Everything that has to hold for a library's run to be read to its end. */
  ghost predicate RunAwaits(image: Image, read: Reader, halt: nat -> bool, polls: nat, lookup: int, iat: int,
                            imports: seq<Import>, library: seq<byte>, mem: Memory, names: seq<ImportName>)
  {
    && RunIsThere(image, read, mem, lookup, iat, names)
    && (forall k :: polls <= k ==> !halt(k))
    && DistinctSlots(imports + RunImports(image, library, iat, names))
    && |imports| + |names| <= MAX_IMPORTS_TOTAL
  }

  /** The next entry of a run that is there: it reads, and it ends the run or is the run's next import. */
  lemma AwaitedEntry(image: Image, read: Reader, mem: Memory, lookup: int, iat: int, names: seq<ImportName>, hope: seq<ImportName>)
    requires RunIsThere(image, read, mem, lookup, iat, hope) && |names| <= |hope|
    ensures Honest(read, mem) && Prompt(read, mem)
    ensures HasEntry(image, mem, lookup, iat, |names|)
    ensures Thunk(image, mem, lookup, |names|) == 0 <==> |names| == |hope|
    ensures |names| < |hope| ==> ThunkIsThere(image, mem, Thunk(image, mem, lookup, |names|), hope[|names|])
  {
  }

  ghost predicate ThunkIsThere(image: Image, mem: Memory, value: u64, name: ImportName) {
    IsThunk(image, mem, value, name) && (name.Named? ==> NameCovered(image, mem, value + 2, name.text))
  }

  /** After an entry that is in the image, the next one's offsets still fit 32 bits. */
  lemma NextEntryIsNear(image: Image, lookup: u32, iat: u32, j: nat)
    requires Reached(image, lookup, iat, j)
    ensures EntryRva(image, iat, j) <= MAX_U32 && EntryRva(image, lookup, j) <= MAX_U32
  {
  }

  /** The imports of a table so far, and the slots they claim. */
  ghost predicate Gathered(image: Image, imports: seq<Import>, claimed: set<int>) {
    claimed == Slots(imports) && DistinctSlots(imports) && SlotsFit(image, imports) && |imports| <= MAX_IMPORTS_TOTAL
  }

  /** Every slot is an address of the image, with room for the pointer it holds. */
  ghost predicate SlotsFit(image: Image, imports: seq<Import>) {
    forall i :: 0 <= i < |imports| ==> SlotFits(image, imports[i].slot)
  }

  predicate SlotFits(image: Image, slot: int) {
    image.base <= slot && slot + image.bitness.Pointer() <= image.base + image.sizeOfImage
  }

  /** Those before one library's, then the first of its own. */
  ghost predicate Tallied(image: Image, library: seq<byte>, iat: int, before: seq<Import>, names: seq<ImportName>,
                          imports: seq<Import>, claimed: set<int>)
    ensures Tallied(image, library, iat, before, names, imports, claimed) ==> |imports| == |before| + |names|
  {
    imports == before + RunImports(image, library, iat, names) && Gathered(image, imports, claimed)
  }

  lemma RunStarts(image: Image, mem: Memory, library: seq<byte>, lookup: int, iat: int, before: seq<Import>, claimed: set<int>)
    requires Gathered(image, before, claimed)
    ensures Tallied(image, library, iat, before, [], before, claimed) && IsRunPrefix(image, mem, lookup, iat, [])
    ensures Reached(image, lookup, iat, 0)
  {
  }

  lemma TallyGrows(image: Image, library: seq<byte>, iat: int, before: seq<Import>, names: seq<ImportName>,
                   imports: seq<Import>, claimed: set<int>, name: ImportName, slot: int)
    requires Tallied(image, library, iat, before, names, imports, claimed)
    requires slot == image.base + EntryRva(image, iat, |names|) && SlotFits(image, slot) && slot !in claimed && |imports| < MAX_IMPORTS_TOTAL
    ensures Tallied(image, library, iat, before, names + [name], imports + [Import(library, name, slot)], claimed + {slot})
  {
    var more := Import(library, name, slot);
    assert RunImports(image, library, iat, names + [name]) == RunImports(image, library, iat, names) + [more];
    SlotsGrow(imports, more);
  }

  lemma RunPrefixGrows(image: Image, mem: Memory, lookup: int, iat: int, names: seq<ImportName>, name: ImportName)
    requires IsRunPrefix(image, mem, lookup, iat, names)
    requires HasEntry(image, mem, lookup, iat, |names|) && IsThunk(image, mem, Thunk(image, mem, lookup, |names|), name)
    ensures IsRunPrefix(image, mem, lookup, iat, names + [name])
  {
    var longer := names + [name];
    forall j | 0 <= j < |longer|
      ensures HasEntry(image, mem, lookup, iat, j) && IsThunk(image, mem, Thunk(image, mem, lookup, j), longer[j])
    {
      if j < |names| {
        assert longer[j] == names[j];
      }
    }
  }

  /** No import yet claims the slot of a run's next entry, when the whole run's slots are distinct. */
  lemma AwaitedSlotIsFree(image: Image, library: seq<byte>, iat: int, before: seq<Import>, names: seq<ImportName>,
                          imports: seq<Import>, claimed: set<int>, hope: seq<ImportName>)
    requires Tallied(image, library, iat, before, names, imports, claimed)
    requires DistinctSlots(before + RunImports(image, library, iat, hope))
    requires |names| < |hope| && names == hope[..|names|]
    ensures image.base + EntryRva(image, iat, |names|) !in claimed
  {
    var all := before + RunImports(image, library, iat, hope);
    assert all[|imports|].slot == image.base + EntryRva(image, iat, |names|);
    forall i | 0 <= i < |imports| ensures imports[i].slot == all[i].slot {}
  }

  /** The next entry of a library's run: its import, or nothing at the run's zero. */
  method NextImport(image: Image, read: Reader, before: nat, lookup: u32, iat: u32, j: nat,
                    ghost mem: Memory, ghost names: seq<ImportName>, ghost hope: Option<seq<ImportName>>)
    returns (r: Result<Option<(int, ImportName)>, PeError>, tick: nat, ghost asked: set<Ask>)
    requires j == |names| && (Honest(read, mem) ==> IsRunPrefix(image, mem, lookup, iat, names))
    requires Bounded(read) ==> Reached(image, lookup, iat, j)
    requires hope.Some? ==> RunIsThere(image, read, mem, lookup, iat, hope.value) && j <= |hope.value|
    ensures Ran(r, tick, asked) == NextRun(image, read, before, lookup, iat, j)
    ensures r.Err? ==> Explained(read, asked, r.error) && !r.error.Interrupted?
    ensures r.Err? && Bounded(read) ==> !TooFar(r.error)
    ensures r.Ok? && Bounded(read) ==> Reached(image, lookup, iat, j + 1)
    ensures r.Ok? && r.value.Some? ==> r.value.value.0 == image.base + EntryRva(image, iat, j) && SlotFits(image, r.value.value.0)
    ensures r == Ok(None) && Honest(read, mem) ==>
      HasEntry(image, mem, lookup, iat, j) && Thunk(image, mem, lookup, j) == 0
    ensures r.Ok? && r.value.Some? && Honest(read, mem) ==>
      IsRunPrefix(image, mem, lookup, iat, names + [r.value.value.1])
    ensures hope.Some? ==> r.Ok? && (r.value.None? <==> j == |hope.value|)
    ensures hope.Some? && r.value.Some? ==> r.value.value.1 == hope.value[j]
  {
    hide Honest, Prompt, Bounded, Reached, RunIsThere, IsRunPrefix, HasEntry, Thunk, EntryRva, ThunkIsThere, IsThunk, EntryRun, ThunkRun, Explained;
    if hope.Some? {
      AwaitedEntry(image, read, mem, lookup, iat, names, hope.value);
    }
    if Bounded(read) {
      NextEntryIsNear(image, lookup, iat, j);
    }
    var entry;
    entry, tick, asked := ReadEntry(image, read, before, lookup, iat, j, mem);
    if entry.Err? {
      return Err(entry.error), tick, asked;
    }
    var (slot, value) := entry.value;
    if value == 0 {
      return Ok(None), tick, asked;
    }
    var name;
    ghost var more;
    name, tick, more := ThunkName(image, read, tick, value, mem);
    asked := asked + more;
    if name.Err? {
      StillExplained(read, more, asked, name.error);
      return Err(name.error), tick, asked;
    }
    if Honest(read, mem) {
      RunPrefixGrows(image, mem, lookup, iat, names, name.value);
    }
    r := Ok(Some((slot, name.value)));
  }

  /** The next import, once its slot is known to be no one else's and the table still has room. */
  method ClaimImport(image: Image, read: Reader, tickBefore: nat, library: seq<byte>, lookup: u32, iat: u32,
                     ghost before: seq<Import>, imports: seq<Import>, claimed: set<int>, j: nat,
                     ghost mem: Memory, ghost names: seq<ImportName>, ghost hope: Option<seq<ImportName>>)
    returns (r: Result<Option<Import>, PeError>, tick: nat, ghost asked: set<Ask>)
    requires j == |names| && (Honest(read, mem) ==> IsRunPrefix(image, mem, lookup, iat, names))
    requires Bounded(read) ==> Reached(image, lookup, iat, j)
    requires Tallied(image, library, iat, before, names, imports, claimed)
    requires hope.Some? ==> RunIsThere(image, read, mem, lookup, iat, hope.value)
    requires hope.Some? ==> DistinctSlots(before + RunImports(image, library, iat, hope.value))
    requires hope.Some? ==> |before| + |hope.value| <= MAX_IMPORTS_TOTAL
    requires hope.Some? ==> j <= |hope.value| && names == hope.value[..j]
    ensures Ran(r, tick, asked) == ClaimRun(image, read, tickBefore, library, lookup, iat, imports, claimed, j)
    ensures r.Err? ==> Explained(read, asked, r.error) && !r.error.Interrupted?
    ensures r.Err? && Bounded(read) ==> !TooFar(r.error)
    ensures r.Ok? && Bounded(read) ==> Reached(image, lookup, iat, j + 1)
    ensures r == Ok(None) && Honest(read, mem) && j < MAX_IMPORTS_PER_LIBRARY ==> IsRun(image, mem, lookup, iat, names)
    ensures r.Ok? && r.value.Some? && Honest(read, mem) ==>
      IsRunPrefix(image, mem, lookup, iat, names + [r.value.value.name])
    ensures r.Ok? && r.value.Some? ==>
      var more := r.value.value;
      Tallied(image, library, iat, before, names + [more.name], imports + [more], claimed + {more.slot})
    ensures hope.Some? ==> r.Ok? && (r.value.None? <==> j == |hope.value|)
    ensures hope.Some? && r.value.Some? ==> r.value.value.name == hope.value[j]
  {
    hide Honest, Bounded, Reached, Failed, NextRun, RunIsThere, IsRunPrefix, HasEntry, Thunk, Slots, DistinctSlots, RunImports, EntryRva, Tallied;
    var next;
    next, tick, asked := NextImport(image, read, tickBefore, lookup, iat, j, mem, names, hope);
    if next.Err? {
      return Err(next.error), tick, asked;
    }
    if next.value.None? {
      return Ok(None), tick, asked;
    }
    var (slot, name) := next.value.value;
    if hope.Some? {
      AwaitedSlotIsFree(image, library, iat, before, names, imports, claimed, hope.value);
    }
    if slot in claimed {
      return Err(Malformed(SlotClaimedTwice)), tick, asked;
    }
    if |imports| >= MAX_IMPORTS_TOTAL {
      return Err(Malformed(TooManyImports)), tick, asked;
    }
    TallyGrows(image, library, iat, before, names, imports, claimed, name, slot);
    r := Ok(Some(Import(library, name, slot)));
  }

  /**
   * The inner loop of `read_imports`: one library's imports, appended to those already found.
   * `hope` is the library's run, where it is there to be read.
   */
  method ReadThunks(image: Image, read: Reader, halt: nat -> bool, library: seq<byte>, lookup: u32, iat: u32,
                    before: seq<Import>, claimedBefore: set<int>, tickBefore: nat, pollsBefore: nat,
                    ghost mem: Memory, ghost hope: Option<seq<ImportName>>)
    returns (r: Result<(seq<Import>, set<int>), PeError>, tick: nat, polls: nat,
             ghost names: seq<ImportName>, ghost asked: set<Ask>)
    requires Gathered(image, before, claimedBefore)
    requires hope.Some? ==> RunAwaits(image, read, halt, pollsBefore, lookup, iat, before, library, mem, hope.value)
    ensures Walked(r, tick, polls, asked) ==
      ThunksFrom(image, read, halt, library, lookup, iat, before, claimedBefore, 0, tickBefore, pollsBefore)
    ensures AllForTable(image, read, asked, lookup)
    ensures Polled(halt, pollsBefore, polls, r == Err(Interrupted))
    ensures r.Err? ==> Explained(read, asked, r.error)
    ensures r.Err? && Bounded(read) ==> !TooFar(r.error)
    ensures r.Ok? ==> Tallied(image, library, iat, before, names, r.value.0, r.value.1)
    ensures r.Ok? && Honest(read, mem) ==> IsRun(image, mem, lookup, iat, names)
    ensures hope.Some? ==> r.Ok? && names == hope.value
  {
    hide Honest, Bounded, Reached, RunIsThere, IsRun, IsRunPrefix, Gathered, DistinctSlots, RunImports, Tallied, ClaimRun, AllForTable, Failed, ThunksFrom, Before;
    var imports, claimed := before, claimedBefore;
    tick, polls, names, asked := tickBefore, pollsBefore, [], {};
    ghost var whole := ThunksFrom(image, read, halt, library, lookup, iat, before, claimedBefore, 0, tickBefore, pollsBefore);
    ThunksAreConfined(image, read, halt, library, lookup, iat, before, claimedBefore, 0, tickBefore, pollsBefore);
    RunStarts(image, mem, library, lookup, iat, before, claimed);
    NothingBefore(whole);
    while |imports| - |before| < MAX_IMPORTS_PER_LIBRARY
      invariant Polled(halt, pollsBefore, polls, false)
      invariant Tallied(image, library, iat, before, names, imports, claimed)
      invariant whole == Before(asked, ThunksFrom(image, read, halt, library, lookup, iat, imports, claimed, |names|, tick, polls))
      invariant Bounded(read) ==> Reached(image, lookup, iat, |names|)
      invariant Honest(read, mem) ==> IsRunPrefix(image, mem, lookup, iat, names)
      invariant hope.Some? ==> |names| <= |hope.value| && names == hope.value[..|names|]
      decreases MAX_IMPORTS_PER_LIBRARY - (|imports| - |before|)
    {
      ThunksStep(image, read, halt, library, lookup, iat, imports, claimed, |names|, tick, polls, asked);
      polls := polls + 1;
      if halt(polls - 1) {
        return Err(Interrupted), tick, polls, names, asked;
      }
      ghost var more;
      var next;
      next, tick, more := ClaimImport(image, read, tick, library, lookup, iat, before, imports, claimed, |imports| - |before|, mem, names, hope);
      asked := asked + more;
      if next.Err? {
        StillExplained(read, more, asked, next.error);
        return Err(next.error), tick, polls, names, asked;
      }
      if next.value.None? {
        return Ok((imports, claimed)), tick, polls, names, asked;
      }
      claimed := claimed + {next.value.value.slot};
      imports := imports + [next.value.value];
      names := names + [next.value.value.name];
    }
    ThunksStep(image, read, halt, library, lookup, iat, imports, claimed, |names|, tick, polls, asked);
    r := Err(Malformed(LibraryTooLong));
  }

  /** Everything that has to hold for one descriptor's library to be read. */
  ghost predicate LibraryAwaits(image: Image, read: Reader, halt: nat -> bool, polls: nat, d: Descriptor,
                                imports: seq<Import>, mem: Memory, lib: Library)
  {
    && Honest(read, mem) && Prompt(read, mem) && (forall k :: polls <= k ==> !halt(k))
    && IsLibrary(image, mem, d, lib) && LibraryCovered(image, mem, d, lib)
    && DistinctSlots(imports + LibraryImports(image, lib))
    && |imports| + |LibraryImports(image, lib)| <= MAX_IMPORTS_TOTAL
  }

  /** What `read_imports` does with one descriptor that is not the terminator. */
  method ReadLibrary(image: Image, read: Reader, halt: nat -> bool, d: Descriptor,
                     before: seq<Import>, claimedBefore: set<int>, tickBefore: nat, pollsBefore: nat,
                     ghost mem: Memory, ghost hope: Option<Library>)
    returns (r: Result<(seq<Import>, seq<seq<byte>>, set<int>), PeError>, tick: nat, polls: nat,
             ghost lib: Library, ghost asked: set<Ask>)
    requires Gathered(image, before, claimedBefore)
    requires hope.Some? ==> LibraryAwaits(image, read, halt, pollsBefore, d, before, mem, hope.value)
    ensures Walked(r, tick, polls, asked) == LibraryRun(image, read, halt, d, before, claimedBefore, tickBefore, pollsBefore)
    ensures AllFor(image, read, asked, d)
    ensures Polled(halt, pollsBefore, polls, r == Err(Interrupted))
    ensures r.Err? ==> Explained(read, asked, r.error)
    ensures r.Err? && Bounded(read) ==> !TooFar(r.error)
    ensures r.Ok? ==> Gathered(image, r.value.0, r.value.2)
    ensures r.Ok? ==> r.value.0 == before + LibraryImports(image, lib) && r.value.1 == if lib.Bound? then [lib.name] else []
    ensures r.Ok? && Honest(read, mem) ==> IsLibrary(image, mem, d, lib)
    ensures hope.Some? ==> r.Ok?
  {
    hide Bounded, NameRun, ThunksFrom, AllFor, AllForTable, Only;
    tick, polls, lib, asked := tickBefore, pollsBefore, Bound([]), {};
    LibraryIsConfined(image, read, halt, d, before, claimedBefore, tickBefore, pollsBefore);
    if d.name == 0 {
      return Err(Malformed(NoLibraryName)), tick, polls, lib, asked;
    }
    if d.iat == 0 {
      return Err(Malformed(NoAddressTable)), tick, polls, lib, asked;
    }
    var library;
    library, tick, asked := ReadCString(image, read, tick, d.name, mem);
    if library.Err? {
      return Err(library.error), tick, polls, lib, asked;
    }
    if d.lookup == 0 {
      lib := Bound(library.value);
      var slot := CheckedVa(image, d.iat, image.bitness.Pointer());
      if slot.Err? {
        return Err(slot.error), tick, polls, lib, asked;
      }
      assert before + LibraryImports(image, lib) == before;
      return Ok((before, [library.value], claimedBefore)), tick, polls, lib, asked;
    }
    ghost var names;
    ghost var more;
    var imports;
    imports, tick, polls, names, more :=
      ReadThunks(image, read, halt, library.value, d.lookup, d.iat, before, claimedBefore, tick, pollsBefore, mem,
                 if hope.Some? then Some(hope.value.names) else None);
    asked := asked + more;
    lib := Listed(library.value, d.iat, names);
    r := if imports.Ok? then Ok((imports.value.0, [], imports.value.1)) else Err(imports.error);
  }

  lemma DescriptorRead(image: Image, mem: Memory, bytes: seq<byte>, i: nat)
    requires Holds(mem, image.base + image.importRva, bytes) && 20 * i + 20 <= |bytes|
    ensures Readable(mem, DescriptorAddress(image, i), 20)
    ensures DescriptorIn(bytes[20 * i..20 * i + 20]) == DescriptorAt(image, mem, i)
  {
    hide DescriptorIn;
    HeldWindow(mem, image.base + image.importRva, bytes, 20 * i, 20 * i + 20);
  }

  lemma {:induction false} ImportsOfPrefix(image: Image, libs: seq<Library>, n: nat)
    requires n <= |libs|
    ensures ImportsOf(image, libs[..n]) <= ImportsOf(image, libs)
    decreases |libs| - n
  {
    if n == |libs| {
      assert libs[..n] == libs;
    } else {
      ImportsOfPrefix(image, libs, n + 1);
      assert libs[..n + 1][..n] == libs[..n];
    }
  }

  /** The next library of a table that is there awaits the walk, once those before it are gathered. */
  lemma AwaitedLibrary(image: Image, read: Reader, halt: nat -> bool, polls: nat, mem: Memory,
                       libs: seq<Library>, hope: seq<Library>)
    requires Honest(read, mem) && Prompt(read, mem) && (forall k :: !halt(k))
    requires IsTable(image, mem, hope) && Covered(image, mem, hope) && image.importSize != 0
    requires |libs| < |hope| && libs == hope[..|libs|]
    ensures Readable(mem, DescriptorAddress(image, |libs|), 20)
    ensures LibraryAwaits(image, read, halt, polls, DescriptorAt(image, mem, |libs|), ImportsOf(image, libs), mem, hope[|libs|])
  {
    hide IsLibrary, LibraryCovered, Honest, Prompt, DescriptorIn, LibraryImports;
    var next := hope[..|libs| + 1];
    assert next[..|libs|] == libs && next[|libs|] == hope[|libs|];
    ImportsOfPrefix(image, hope, |libs| + 1);
    var all, some := ImportsOf(image, hope), ImportsOf(image, next);
    forall i | 0 <= i < |some| ensures some[i] == all[i] {}
    assert DistinctSlots(some);
  }

  /** `libs` and what is gathered of them, part-way through the descriptors. */
  ghost predicate TableSoFar(image: Image, libs: seq<Library>, table: ImportTable, claimed: set<int>) {
    table == TableOf(image, libs) && Gathered(image, table.imports, claimed)
  }

  lemma TableStarts(image: Image, mem: Memory)
    ensures TableSoFar(image, [], ImportTable([], []), {}) && IsTablePrefix(image, mem, [])
  {
  }

  lemma TableGrows(image: Image, libs: seq<Library>, table: ImportTable, claimed: set<int>,
                   lib: Library, imports: seq<Import>, unnamed: seq<seq<byte>>, claimedMore: set<int>)
    requires TableSoFar(image, libs, table, claimed) && Gathered(image, imports, claimedMore)
    requires (imports, unnamed) == (table.imports + LibraryImports(image, lib), if lib.Bound? then [lib.name] else [])
    ensures TableSoFar(image, libs + [lib], ImportTable(imports, table.unnamedLibraries + unnamed), claimedMore)
  {
    assert (libs + [lib])[..|libs|] == libs;
  }

  /** A table that is there, and a reader and a caller that let it be read. */
  ghost predicate TableAwaits(image: Image, read: Reader, halt: nat -> bool, mem: Memory, libs: seq<Library>) {
    && Honest(read, mem) && Prompt(read, mem) && (forall k :: !halt(k))
    && IsTable(image, mem, libs) && Covered(image, mem, libs)
  }

  /** Where the walk of a table that is there has got to: the next library, or the terminator. */
  lemma AwaitedDescriptor(image: Image, read: Reader, halt: nat -> bool, polls: nat, mem: Memory,
                          libs: seq<Library>, imports: seq<Import>, hope: seq<Library>)
    requires TableAwaits(image, read, halt, mem, hope) && image.importSize != 0
    requires |libs| <= |hope| && libs == hope[..|libs|] && imports == ImportsOf(image, libs)
    ensures Readable(mem, DescriptorAddress(image, |libs|), 20)
    ensures DescriptorAt(image, mem, |libs|).IsNull() <==> |libs| == |hope|
    ensures |libs| < |hope| ==>
      LibraryAwaits(image, read, halt, polls, DescriptorAt(image, mem, |libs|), imports, mem, hope[|libs|])
  {
    if |libs| < |hope| {
      AwaitedLibrary(image, read, halt, polls, mem, libs, hope);
    }
  }

  lemma TablePrefixGrows(image: Image, mem: Memory, libs: seq<Library>, lib: Library)
    requires IsTablePrefix(image, mem, libs) && Readable(mem, DescriptorAddress(image, |libs|), 20)
    requires IsLibrary(image, mem, DescriptorAt(image, mem, |libs|), lib)
    ensures IsTablePrefix(image, mem, libs + [lib])
  {
    hide IsLibrary, DescriptorIn, Readable;
    var longer := libs + [lib];
    forall i: nat | i < |longer|
      ensures Readable(mem, DescriptorAddress(image, i), 20) && IsLibrary(image, mem, DescriptorAt(image, mem, i), longer[i])
    {
      if i < |libs| {
        assert longer[i] == libs[i];
      }
    }
  }

  /**
   * `read_imports`. Whatever the reader, the reads are the directory, lookup entries and names, all
   * inside the image, an answer's slots are distinct and inside it too, and a halt is obeyed at the
   * poll that asks for it. A reader that never returns
   * too much is never refused for an entry's distance. An honest reader's answer is the whole table
   * memory holds. A table that memory holds, with the granules its names touch, is never refused.
   */
  method ReadImports(image: Image, read: Reader, halt: nat -> bool, ghost mem: Memory)
    returns (r: Result<ImportTable, PeError>, tick: nat, polls: nat, ghost libs: seq<Library>, ghost asked: set<Ask>)
    ensures Walked(r, tick, polls, asked) == ImportsRun(image, read, halt)
    ensures AllAccounted(image, read, asked)
    ensures Polled(halt, 0, polls, r == Err(Interrupted))
    ensures r.Err? ==> Explained(read, asked, r.error)
    ensures r.Err? && Bounded(read) ==> !TooFar(r.error)
    ensures r.Ok? ==> DistinctSlots(r.value.imports) && SlotsFit(image, r.value.imports) && |r.value.imports| <= MAX_IMPORTS_TOTAL
    ensures r.Ok? && Honest(read, mem) ==> IsTable(image, mem, libs) && r.value == TableOf(image, libs)
    ensures (exists w :: TableAwaits(image, read, halt, mem, w)) ==> r.Ok?
  {
    hide Bounded, Honest, Prompt, DescriptorsFrom, AllAccounted, AllForSome, Failed, IsTable, IsTablePrefix, TableAwaits, TableSoFar, DescriptorAt, TableOf, At, Holds, Readable;
    tick, polls, libs, asked := 0, 0, [], {};
    ImportsAreConfined(image, read, halt);
    EmptyTable(image, read, halt, mem);
    if image.importRva == 0 && image.importSize == 0 {
      return Ok(ImportTable([], [])), tick, polls, libs, asked;
    }
    if image.importRva == 0 || image.importSize == 0 {
      return Err(Malformed(DirectoryHalfDeclared)), tick, polls, libs, asked;
    }
    if image.importSize / 20 > MAX_LIBRARIES + 1 {
      return Err(Malformed(TooManyLibraries)), tick, polls, libs, asked;
    }
    if image.importRva + image.importSize > image.sizeOfImage {
      return Err(Malformed(DirectoryPastEnd)), tick, polls, libs, asked;
    }
    ghost var hope: Option<seq<Library>> := None;
    if w :| TableAwaits(image, read, halt, mem, w) {
      hope := Some(w);
      DirectoryAwaits(image, read, halt, mem, w);
    }
    var directory := At(image, read, 0, Directory, image.importRva, image.importSize);
    AtReads(image, read, 0, Directory, image.importRva, image.importSize, mem);
    tick, asked := directory.tick, directory.asked;
    if directory.r.Err? {
      return Err(directory.r.error), tick, polls, libs, asked;
    }
    ghost var more;
    r, tick, polls, libs, more := ReadDescriptors(image, read, halt, directory.r.value, tick, mem, hope);
    asked := asked + more;
    if r.Err? {
      StillExplained(read, more, asked, r.error);
    } else {
      TableIsGathered(image, libs, r.value);
      if Honest(read, mem) {
        TableIsRead(image, mem, libs, r.value, |directory.r.value|);
      }
    }
  }

  lemma TableIsGathered(image: Image, libs: seq<Library>, table: ImportTable)
    requires exists claimed :: TableSoFar(image, libs, table, claimed)
    ensures DistinctSlots(table.imports) && SlotsFit(image, table.imports) && |table.imports| <= MAX_IMPORTS_TOTAL
  {
    hide DistinctSlots, SlotsFit;
  }

  lemma EmptyTable(image: Image, read: Reader, halt: nat -> bool, mem: Memory)
    ensures image.importRva == 0 && image.importSize == 0 ==> IsTable(image, mem, []) && TableOf(image, []) == ImportTable([], [])
    ensures forall w :: TableAwaits(image, read, halt, mem, w) && image.importRva != 0 ==>
      image.importSize != 0 && image.importSize / 20 <= MAX_LIBRARIES + 1 && image.importRva + image.importSize <= image.sizeOfImage
    ensures forall w :: TableAwaits(image, read, halt, mem, w) && image.importRva == 0 ==> image.importSize == 0
  {
  }

  lemma DirectoryAwaits(image: Image, read: Reader, halt: nat -> bool, mem: Memory, libs: seq<Library>)
    requires TableAwaits(image, read, halt, mem, libs) && image.importSize != 0
    ensures Honest(read, mem) && Prompt(read, mem) && (forall k :: !halt(k)) && 20 * (|libs| + 1) <= image.importSize
    ensures IsThere(image, mem, image.importRva, image.importSize)
  {
  }

  /** Libraries up to a null descriptor, within the directory and the table's bounds, are the table. */
  lemma TableIsRead(image: Image, mem: Memory, libs: seq<Library>, table: ImportTable, size: nat)
    requires image.importRva != 0 && image.importSize != 0 && image.importSize / 20 <= MAX_LIBRARIES + 1
    requires Fits(image, image.importRva, image.importSize) && size <= image.importSize
    requires IsTablePrefix(image, mem, libs) && 20 * (|libs| + 1) <= size
    requires Readable(mem, DescriptorAddress(image, |libs|), 20) && DescriptorAt(image, mem, |libs|).IsNull()
    requires exists claimed :: TableSoFar(image, libs, table, claimed)
    ensures IsTable(image, mem, libs) && table == TableOf(image, libs)
  {
    hide IsTablePrefix, DescriptorAt, ImportsOf, UnnamedOf;
  }

  /** One descriptor's library, added to the table. */
  method AddLibrary(image: Image, read: Reader, halt: nat -> bool, d: Descriptor,
                    before: ImportTable, claimedBefore: set<int>, tickBefore: nat, pollsBefore: nat,
                    ghost mem: Memory, ghost libsBefore: seq<Library>, ghost hope: Option<seq<Library>>)
    returns (r: Result<(ImportTable, set<int>), PeError>, tick: nat, polls: nat,
             ghost libs: seq<Library>, ghost asked: set<Ask>)
    requires TableSoFar(image, libsBefore, before, claimedBefore)
    requires Honest(read, mem) ==> IsTablePrefix(image, mem, libsBefore)
    requires Honest(read, mem) ==> Readable(mem, DescriptorAddress(image, |libsBefore|), 20)
    requires Honest(read, mem) ==> d == DescriptorAt(image, mem, |libsBefore|)
    requires hope.Some? ==> TableAwaits(image, read, halt, mem, hope.value) && image.importSize != 0 && Honest(read, mem)
    requires hope.Some? ==> |libsBefore| < |hope.value| && libsBefore == hope.value[..|libsBefore|]
    ensures Added(LibraryRun(image, read, halt, d, before.imports, claimedBefore, tickBefore, pollsBefore), before, r, tick, polls, asked)
    ensures Polled(halt, pollsBefore, polls, r == Err(Interrupted))
    ensures r.Err? ==> Explained(read, asked, r.error)
    ensures r.Err? && Bounded(read) ==> !TooFar(r.error)
    ensures r.Ok? ==> |libs| == |libsBefore| + 1 && TableSoFar(image, libs, r.value.0, r.value.1)
    ensures r.Ok? && Honest(read, mem) ==> IsTablePrefix(image, mem, libs)
    ensures hope.Some? ==> r.Ok? && libs == hope.value[..|libs|]
  {
    hide Honest, Bounded, IsTablePrefix, LibraryAwaits, TableAwaits, IsLibrary, Gathered, DescriptorAt, Readable, ImportsOf, UnnamedOf, LibraryImports,
      LibraryRun, AllFor, Failed;
    ghost var library := None;
    if hope.Some? {
      AwaitedDescriptor(image, read, halt, pollsBefore, mem, libsBefore, before.imports, hope.value);
      library := Some(hope.value[|libsBefore|]);
    }
    var found;
    ghost var lib;
    found, tick, polls, lib, asked :=
      ReadLibrary(image, read, halt, d, before.imports, claimedBefore, tickBefore, pollsBefore, mem, library);
    if found.Err? {
      return Err(found.error), tick, polls, libsBefore, asked;
    }
    TableGrows(image, libsBefore, before, claimedBefore, lib, found.value.0, found.value.1, found.value.2);
    libs := libsBefore + [lib];
    if Honest(read, mem) {
      TablePrefixGrows(image, mem, libsBefore, lib);
    }
    if hope.Some? {
      AwaitedLibraryIs(image, read, halt, pollsBefore, d, before.imports, mem, lib, library.value);
    }
    r := Ok((Extended(before, found.value), found.value.2));
  }

  /** The library's own walk, with what it found added to the table. */
  ghost predicate Added(run: Walked<(seq<Import>, seq<seq<byte>>, set<int>)>, before: ImportTable,
                        r: Result<(ImportTable, set<int>), PeError>, tick: nat, polls: nat, asked: set<Ask>)
  {
    && run.tick == tick && run.polls == polls && run.asked == asked
    && r == if run.r.Ok? then Ok((Extended(before, run.r.value), run.r.value.2)) else Err(run.r.error)
  }

  lemma AwaitedLibraryIs(image: Image, read: Reader, halt: nat -> bool, polls: nat, d: Descriptor,
                         imports: seq<Import>, mem: Memory, lib: Library, hope: Library)
    requires IsLibrary(image, mem, d, lib) && LibraryAwaits(image, read, halt, polls, d, imports, mem, hope)
    ensures lib == hope
  {
    LibraryIsUnique(image, mem, d, lib, hope);
  }

  lemma NothingBefore<T>(walk: Walked<T>)
    ensures Before({}, walk) == walk
  {
    assert {} + walk.asked == walk.asked;
  }

  /** The outer loop of `read_imports`, over the bytes of the directory. */
  method ReadDescriptors(image: Image, read: Reader, halt: nat -> bool, descriptors: seq<byte>, tickBefore: nat,
                         ghost mem: Memory, ghost hope: Option<seq<Library>>)
    returns (r: Result<ImportTable, PeError>, tick: nat, polls: nat, ghost libs: seq<Library>, ghost asked: set<Ask>)
    requires Honest(read, mem) ==> Holds(mem, image.base + image.importRva, descriptors)
    requires hope.Some? ==> TableAwaits(image, read, halt, mem, hope.value) && image.importSize != 0
    requires hope.Some? ==> Honest(read, mem) && (forall k :: !halt(k)) && 20 * (|hope.value| + 1) <= |descriptors|
    ensures Walked(r, tick, polls, asked) == DescriptorsFrom(image, read, halt, descriptors, 0, ImportTable([], []), {}, tickBefore, 0)
    ensures AllForSome(image, read, asked, descriptors)
    ensures Polled(halt, 0, polls, r == Err(Interrupted))
    ensures r.Err? ==> Explained(read, asked, r.error)
    ensures r.Err? && Bounded(read) ==> !TooFar(r.error)
    ensures r.Ok? ==> exists claimed :: TableSoFar(image, libs, r.value, claimed)
    ensures r.Ok? && Honest(read, mem) ==>
      && IsTablePrefix(image, mem, libs) && 20 * (|libs| + 1) <= |descriptors|
      && Readable(mem, DescriptorAddress(image, |libs|), 20) && DescriptorAt(image, mem, |libs|).IsNull()
    ensures hope.Some? ==> r.Ok?
  {
    hide Honest, Bounded, TableSoFar, TableAwaits, LibraryAwaits, IsTablePrefix, DescriptorIn, DescriptorAt, Holds, Readable,
      LibraryRun, AllForSome, Failed, DescriptorsFrom, Before, ImportsOf, IsTable, Covered;
    var table, claimed := ImportTable([], []), {};
    tick, polls, libs, asked := tickBefore, 0, [], {};
    ghost var whole := DescriptorsFrom(image, read, halt, descriptors, 0, table, claimed, tickBefore, 0);
    DescriptorsAreConfined(image, read, halt, descriptors, 0, table, claimed, tickBefore, 0);
    TableStarts(image, mem);
    NothingBefore(whole);
    var index := 0;
    while index < |descriptors| / 20
      invariant index == |libs| <= |descriptors| / 20
      invariant Polled(halt, 0, polls, false)
      invariant TableSoFar(image, libs, table, claimed)
      invariant whole == Before(asked, DescriptorsFrom(image, read, halt, descriptors, index, table, claimed, tick, polls))
      invariant Honest(read, mem) ==> IsTablePrefix(image, mem, libs)
      invariant hope.Some? ==> |libs| <= |hope.value| && libs == hope.value[..|libs|]
    {
      DescriptorsStep(image, read, halt, descriptors, index, table, claimed, tick, polls, asked);
      polls := polls + 1;
      if halt(polls - 1) {
        return Err(Interrupted), tick, polls, libs, asked;
      }
      var d := DescriptorIn(descriptors[20 * index..20 * index + 20]);
      if Honest(read, mem) {
        DescriptorRead(image, mem, descriptors, |libs|);
      }
      if hope.Some? {
        AwaitedDescriptor(image, read, halt, polls, mem, libs, ImportsOf(image, libs), hope.value);
      }
      if d.IsNull() {
        return Ok(table), tick, polls, libs, asked;
      }
      ghost var more;
      var found;
      found, tick, polls, libs, more := AddLibrary(image, read, halt, d, table, claimed, tick, polls, mem, libs, hope);
      asked := asked + more;
      if found.Err? {
        StillExplained(read, more, asked, found.error);
        return Err(found.error), tick, polls, libs, asked;
      }
      table, claimed := found.value.0, found.value.1;
      index := index + 1;
    }
    DescriptorsEnd(image, read, halt, descriptors, index, table, claimed, tick, polls, asked);
    r := Err(Malformed(NotTerminated));
  }
}
