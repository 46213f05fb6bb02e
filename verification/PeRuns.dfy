/**
 * The import walk as a function of the reader: what it answers, how often it polls, and every read it
 * makes and why. Two theorems come out of that form. Each read is the directory, an entry of a lookup
 * table whose descriptor was read, or a bounded chunk of a name one of those gave. And readers that
 * answer those reads alike are answered alike, refusals and interruptions included.
 */
module PeRuns {
  import opened Machine
  import opened ByteMemory
  import opened PeImage
  import opened PeTables

  /** What a walk that polls answered: `Ran`, and how many times a stop had been asked for by then. */
  datatype Walked<T> = Walked(r: Result<T, PeError>, tick: nat, polls: nat, asked: set<Ask>)

  // ----- One import

  /** What a nonzero lookup entry names. */
  function ThunkRun(image: Image, read: Reader, tick: nat, value: u64): Ran<ImportName> {
    var flag := OrdinalFlag(image.bitness);
    if value >= flag then
      Ran(if value - flag > 0xffff then Err(Malformed(OrdinalBits)) else Ok(Ordinal(value - flag)), tick, {})
    else if value > MAX_U32 then Ran(Err(Malformed(ThunkNotAnOffset)), tick, {})
    else if value + 2 > MAX_U32 then Ran(Err(Malformed(HintOverflow)), tick, {})
    else
      var text := NameRun(image, read, tick, value + 2);
      Ran(if text.r.Ok? then Ok(Named(text.r.value)) else Err(text.r.error), text.tick, text.asked)
  }

  /** Entry `j` of a library's two parallel arrays: where its slot is, and its lookup value. */
  function EntryRun(image: Image, read: Reader, tick: nat, lookup: u32, iat: u32, j: nat): Ran<(int, u64)> {
    var pointer := image.bitness.Pointer();
    var slotRva, entryRva := EntryRva(image, iat, j), EntryRva(image, lookup, j);
    if slotRva > MAX_U32 then Ran(Err(Malformed(AddressEntryTooFar)), tick, {})
    else
      var slot := CheckedVa(image, slotRva, pointer);
      if slot.Err? then Ran(Err(slot.error), tick, {})
      else if entryRva > MAX_U32 then Ran(Err(Malformed(LookupEntryTooFar)), tick, {})
      else
        var entry := At(image, read, tick, LookupEntry(lookup, j), entryRva, pointer);
        if entry.r.Err? then Ran(Err(entry.r.error), entry.tick, entry.asked)
        else if |entry.r.value| < pointer then Ran(Err(Malformed(ShortField)), entry.tick, entry.asked)
        else Ran(Ok((slot.value, ThunkIn(image.bitness, entry.r.value))), entry.tick, entry.asked)
  }

  /** The next entry of a library's run: its import, or nothing at the run's zero. */
  function NextRun(image: Image, read: Reader, tick: nat, lookup: u32, iat: u32, j: nat): Ran<Option<(int, ImportName)>> {
    var entry := EntryRun(image, read, tick, lookup, iat, j);
    if entry.r.Err? then Ran(Err(entry.r.error), entry.tick, entry.asked)
    else if entry.r.value.1 == 0 then Ran(Ok(None), entry.tick, entry.asked)
    else
      var name := ThunkRun(image, read, entry.tick, entry.r.value.1);
      Ran(if name.r.Ok? then Ok(Some((entry.r.value.0, name.r.value))) else Err(name.r.error), name.tick, entry.asked + name.asked)
  }

  /** The next import, once its slot is known to be no one else's and the table still has room. */
  function ClaimRun(image: Image, read: Reader, tick: nat, library: seq<byte>, lookup: u32, iat: u32,
                    imports: seq<Import>, claimed: set<int>, j: nat): Ran<Option<Import>>
  {
    var next := NextRun(image, read, tick, lookup, iat, j);
    Ran(if next.r.Err? then Err(next.r.error)
        else if next.r.value.None? then Ok(None)
        else if next.r.value.value.0 in claimed then Err(Malformed(SlotClaimedTwice))
        else if |imports| >= MAX_IMPORTS_TOTAL then Err(Malformed(TooManyImports))
        else Ok(Some(Import(library, next.r.value.value.1, next.r.value.value.0))), next.tick, next.asked)
  }

  // ----- The two loops, from wherever they have got to

  function ThunksFrom(image: Image, read: Reader, halt: nat -> bool, library: seq<byte>, lookup: u32, iat: u32,
                      imports: seq<Import>, claimed: set<int>, j: nat, tick: nat, polls: nat): Walked<(seq<Import>, set<int>)>
    decreases MAX_IMPORTS_PER_LIBRARY - j
  {
    if j >= MAX_IMPORTS_PER_LIBRARY then Walked(Err(Malformed(LibraryTooLong)), tick, polls, {})
    else if halt(polls) then Walked(Err(Interrupted), tick, polls + 1, {})
    else
      var next := ClaimRun(image, read, tick, library, lookup, iat, imports, claimed, j);
      if next.r.Err? then Walked(Err(next.r.error), next.tick, polls + 1, next.asked)
      else if next.r.value.None? then Walked(Ok((imports, claimed)), next.tick, polls + 1, next.asked)
      else
        var more := next.r.value.value;
        Before(next.asked, ThunksFrom(image, read, halt, library, lookup, iat, imports + [more], claimed + {more.slot}, j + 1, next.tick, polls + 1))
  }

  /** A walk with reads before it. */
  function Before<T>(asked: set<Ask>, rest: Walked<T>): Walked<T> {
    rest.(asked := asked + rest.asked)
  }

  lemma BeforeJoins<T>(some: set<Ask>, more: set<Ask>, rest: Walked<T>)
    ensures Before(some, Before(more, rest)) == Before(some + more, rest)
  {
    assert some + (more + rest.asked) == some + more + rest.asked;
  }

  /** One turn of the loop. */
  lemma ThunksStep(image: Image, read: Reader, halt: nat -> bool, library: seq<byte>, lookup: u32, iat: u32,
                   imports: seq<Import>, claimed: set<int>, j: nat, tick: nat, polls: nat, asked: set<Ask>)
    ensures var next := ClaimRun(image, read, tick, library, lookup, iat, imports, claimed, j);
      Before(asked, ThunksFrom(image, read, halt, library, lookup, iat, imports, claimed, j, tick, polls)) ==
        if j >= MAX_IMPORTS_PER_LIBRARY then Walked(Err(Malformed(LibraryTooLong)), tick, polls, asked)
        else if halt(polls) then Walked(Err(Interrupted), tick, polls + 1, asked)
        else if next.r.Err? then Walked(Err(next.r.error), next.tick, polls + 1, asked + next.asked)
        else if next.r.value.None? then Walked(Ok((imports, claimed)), next.tick, polls + 1, asked + next.asked)
        else
          var more := next.r.value.value;
          Before(asked + next.asked,
            ThunksFrom(image, read, halt, library, lookup, iat, imports + [more], claimed + {more.slot}, j + 1, next.tick, polls + 1))
  {
    hide ClaimRun;
    var next := ClaimRun(image, read, tick, library, lookup, iat, imports, claimed, j);
    if j < MAX_IMPORTS_PER_LIBRARY && !halt(polls) && next.r.Ok? && next.r.value.Some? {
      var more := next.r.value.value;
      BeforeJoins(asked, next.asked,
        ThunksFrom(image, read, halt, library, lookup, iat, imports + [more], claimed + {more.slot}, j + 1, next.tick, polls + 1));
    }
  }

  /** What one descriptor that is not the terminator gives: the imports so far, its unnamed library, and the slots claimed. */
  function LibraryRun(image: Image, read: Reader, halt: nat -> bool, d: Descriptor, imports: seq<Import>, claimed: set<int>,
                      tick: nat, polls: nat): Walked<(seq<Import>, seq<seq<byte>>, set<int>)>
  {
    if d.name == 0 then Walked(Err(Malformed(NoLibraryName)), tick, polls, {})
    else if d.iat == 0 then Walked(Err(Malformed(NoAddressTable)), tick, polls, {})
    else
      var library := NameRun(image, read, tick, d.name);
      if library.r.Err? then Walked(Err(library.r.error), library.tick, polls, library.asked)
      else if d.lookup == 0 then
        var slot := CheckedVa(image, d.iat, image.bitness.Pointer());
        Walked(if slot.Err? then Err(slot.error) else Ok((imports, [library.r.value], claimed)), library.tick, polls, library.asked)
      else
        var run := ThunksFrom(image, read, halt, library.r.value, d.lookup, d.iat, imports, claimed, 0, library.tick, polls);
        Walked(if run.r.Err? then Err(run.r.error) else Ok((run.r.value.0, [], run.r.value.1)), run.tick, run.polls, library.asked + run.asked)
  }

  function DescriptorsFrom(image: Image, read: Reader, halt: nat -> bool, bytes: seq<byte>, index: nat,
                           table: ImportTable, claimed: set<int>, tick: nat, polls: nat): Walked<ImportTable>
    decreases |bytes| / 20 - index
  {
    if index >= |bytes| / 20 then Walked(Err(Malformed(NotTerminated)), tick, polls, {})
    else if halt(polls) then Walked(Err(Interrupted), tick, polls + 1, {})
    else
      var d := DescriptorIn(bytes[20 * index..20 * index + 20]);
      if d.IsNull() then Walked(Ok(table), tick, polls + 1, {})
      else
        var found := LibraryRun(image, read, halt, d, table.imports, claimed, tick, polls + 1);
        if found.r.Err? then Walked(Err(found.r.error), found.tick, found.polls, found.asked)
        else
          Before(found.asked, DescriptorsFrom(image, read, halt, bytes, index + 1, Extended(table, found.r.value), found.r.value.2, found.tick, found.polls))
  }

  lemma DescriptorsStep(image: Image, read: Reader, halt: nat -> bool, bytes: seq<byte>, index: nat,
                        table: ImportTable, claimed: set<int>, tick: nat, polls: nat, asked: set<Ask>)
    requires index < |bytes| / 20
    ensures var d := DescriptorIn(bytes[20 * index..20 * index + 20]);
      var found := LibraryRun(image, read, halt, d, table.imports, claimed, tick, polls + 1);
      Before(asked, DescriptorsFrom(image, read, halt, bytes, index, table, claimed, tick, polls)) ==
        if halt(polls) then Walked(Err(Interrupted), tick, polls + 1, asked)
        else if d.IsNull() then Walked(Ok(table), tick, polls + 1, asked)
        else if found.r.Err? then Walked(Err(found.r.error), found.tick, found.polls, asked + found.asked)
        else
          Before(asked + found.asked,
            DescriptorsFrom(image, read, halt, bytes, index + 1, Extended(table, found.r.value), found.r.value.2, found.tick, found.polls))
  {
    hide LibraryRun, DescriptorIn;
    var d := DescriptorIn(bytes[20 * index..20 * index + 20]);
    var found := LibraryRun(image, read, halt, d, table.imports, claimed, tick, polls + 1);
    if !halt(polls) && !d.IsNull() && found.r.Ok? {
      BeforeJoins(asked, found.asked,
        DescriptorsFrom(image, read, halt, bytes, index + 1, Extended(table, found.r.value), found.r.value.2, found.tick, found.polls));
    }
  }

  lemma DescriptorsEnd(image: Image, read: Reader, halt: nat -> bool, bytes: seq<byte>, index: nat,
                       table: ImportTable, claimed: set<int>, tick: nat, polls: nat, asked: set<Ask>)
    requires index >= |bytes| / 20
    ensures Before(asked, DescriptorsFrom(image, read, halt, bytes, index, table, claimed, tick, polls)) ==
      Walked(Err(Malformed(NotTerminated)), tick, polls, asked)
  {
  }

  function Extended(table: ImportTable, found: (seq<Import>, seq<seq<byte>>, set<int>)): ImportTable {
    ImportTable(found.0, table.unnamedLibraries + found.1)
  }

  /** The whole of `read_imports`. */
  function ImportsRun(image: Image, read: Reader, halt: nat -> bool): Walked<ImportTable> {
    if image.importRva == 0 && image.importSize == 0 then Walked(Ok(ImportTable([], [])), 0, 0, {})
    else if image.importRva == 0 || image.importSize == 0 then Walked(Err(Malformed(DirectoryHalfDeclared)), 0, 0, {})
    else if image.importSize / 20 > MAX_LIBRARIES + 1 then Walked(Err(Malformed(TooManyLibraries)), 0, 0, {})
    else if image.importRva + image.importSize > image.sizeOfImage then Walked(Err(Malformed(DirectoryPastEnd)), 0, 0, {})
    else
      var bytes := At(image, read, 0, Directory, image.importRva, image.importSize);
      if bytes.r.Err? then Walked(Err(bytes.r.error), bytes.tick, 0, bytes.asked)
      else Before(bytes.asked, DescriptorsFrom(image, read, halt, bytes.r.value, 0, ImportTable([], []), {}, bytes.tick, 0))
  }

  // ----- The answer rests on the reads

  lemma ThunkAgrees(image: Image, read: Reader, other: Reader, tick: nat, value: u64)
    requires Agree(read, other, ThunkRun(image, read, tick, value).asked)
    ensures ThunkRun(image, other, tick, value) == ThunkRun(image, read, tick, value)
  {
    hide NameRun;
    if value < OrdinalFlag(image.bitness) && value + 2 <= MAX_U32 {
      NameAgrees(image, read, other, tick, value + 2);
    }
  }

  lemma NextAgrees(image: Image, read: Reader, other: Reader, tick: nat, lookup: u32, iat: u32, j: nat)
    requires Agree(read, other, NextRun(image, read, tick, lookup, iat, j).asked)
    ensures NextRun(image, other, tick, lookup, iat, j) == NextRun(image, read, tick, lookup, iat, j)
  {
    hide ThunkRun, EntryRun;
    var entry := EntryRun(image, read, tick, lookup, iat, j);
    assert entry.asked <= NextRun(image, read, tick, lookup, iat, j).asked;
    EntryAgrees(image, read, other, tick, lookup, iat, j);
    if entry.r.Ok? && entry.r.value.1 != 0 {
      ThunkAgrees(image, read, other, entry.tick, entry.r.value.1);
    }
  }

  lemma EntryAgrees(image: Image, read: Reader, other: Reader, tick: nat, lookup: u32, iat: u32, j: nat)
    requires Agree(read, other, EntryRun(image, read, tick, lookup, iat, j).asked)
    ensures EntryRun(image, other, tick, lookup, iat, j) == EntryRun(image, read, tick, lookup, iat, j)
  {
    hide At, ThunkIn;
    var slotRva, entryRva := EntryRva(image, iat, j), EntryRva(image, lookup, j);
    if slotRva <= MAX_U32 && entryRva <= MAX_U32 && CheckedVa(image, slotRva, image.bitness.Pointer()).Ok? {
      AtAgrees(image, read, other, tick, LookupEntry(lookup, j), entryRva, image.bitness.Pointer());
    }
  }

  lemma {:induction false} ThunksAgree(image: Image, read: Reader, other: Reader, halt: nat -> bool, library: seq<byte>, lookup: u32, iat: u32,
                    imports: seq<Import>, claimed: set<int>, j: nat, tick: nat, polls: nat)
    requires Agree(read, other, ThunksFrom(image, read, halt, library, lookup, iat, imports, claimed, j, tick, polls).asked)
    ensures ThunksFrom(image, other, halt, library, lookup, iat, imports, claimed, j, tick, polls)
         == ThunksFrom(image, read, halt, library, lookup, iat, imports, claimed, j, tick, polls)
    decreases MAX_IMPORTS_PER_LIBRARY - j
  {
    hide NextRun;
    if j < MAX_IMPORTS_PER_LIBRARY && !halt(polls) {
      var next := ClaimRun(image, read, tick, library, lookup, iat, imports, claimed, j);
      assert next.asked <= ThunksFrom(image, read, halt, library, lookup, iat, imports, claimed, j, tick, polls).asked;
      NextAgrees(image, read, other, tick, lookup, iat, j);
      if next.r.Ok? && next.r.value.Some? {
        var more := next.r.value.value;
        ThunksAgree(image, read, other, halt, library, lookup, iat, imports + [more], claimed + {more.slot}, j + 1, next.tick, polls + 1);
      }
    }
  }

  lemma LibraryAgrees(image: Image, read: Reader, other: Reader, halt: nat -> bool, d: Descriptor, imports: seq<Import>, claimed: set<int>,
                      tick: nat, polls: nat)
    requires Agree(read, other, LibraryRun(image, read, halt, d, imports, claimed, tick, polls).asked)
    ensures LibraryRun(image, other, halt, d, imports, claimed, tick, polls) == LibraryRun(image, read, halt, d, imports, claimed, tick, polls)
  {
    hide NameRun, ThunksFrom;
    if d.name != 0 && d.iat != 0 {
      var library := NameRun(image, read, tick, d.name);
      assert library.asked <= LibraryRun(image, read, halt, d, imports, claimed, tick, polls).asked;
      NameAgrees(image, read, other, tick, d.name);
      if library.r.Ok? && d.lookup != 0 {
        ThunksAgree(image, read, other, halt, library.r.value, d.lookup, d.iat, imports, claimed, 0, library.tick, polls);
      }
    }
  }

  lemma {:induction false} DescriptorsAgree(image: Image, read: Reader, other: Reader, halt: nat -> bool, bytes: seq<byte>, index: nat,
                         table: ImportTable, claimed: set<int>, tick: nat, polls: nat)
    requires Agree(read, other, DescriptorsFrom(image, read, halt, bytes, index, table, claimed, tick, polls).asked)
    ensures DescriptorsFrom(image, other, halt, bytes, index, table, claimed, tick, polls)
         == DescriptorsFrom(image, read, halt, bytes, index, table, claimed, tick, polls)
    decreases |bytes| / 20 - index
  {
    hide LibraryRun, DescriptorIn;
    if index < |bytes| / 20 && !halt(polls) {
      var d := DescriptorIn(bytes[20 * index..20 * index + 20]);
      if !d.IsNull() {
        var found := LibraryRun(image, read, halt, d, table.imports, claimed, tick, polls + 1);
        assert found.asked <= DescriptorsFrom(image, read, halt, bytes, index, table, claimed, tick, polls).asked;
        LibraryAgrees(image, read, other, halt, d, table.imports, claimed, tick, polls + 1);
        if found.r.Ok? {
          DescriptorsAgree(image, read, other, halt, bytes, index + 1, Extended(table, found.r.value), found.r.value.2, found.tick, found.polls);
        }
      }
    }
  }

  /** The answer rests on the reads made and on nothing else: refused, halted or whole, it is the same. */
  lemma ImportsRestOnTheirReads(image: Image, read: Reader, other: Reader, halt: nat -> bool)
    requires Agree(read, other, ImportsRun(image, read, halt).asked)
    ensures ImportsRun(image, other, halt) == ImportsRun(image, read, halt)
  {
    hide At, DescriptorsFrom;
    if image.importRva != 0 && image.importSize != 0 && image.importSize / 20 <= MAX_LIBRARIES + 1
      && image.importRva + image.importSize <= image.sizeOfImage
    {
      var bytes := At(image, read, 0, Directory, image.importRva, image.importSize);
      assert bytes.asked <= ImportsRun(image, read, halt).asked;
      AtAgrees(image, read, other, 0, Directory, image.importRva, image.importSize);
      if bytes.r.Ok? {
        DescriptorsAgree(image, read, other, halt, bytes.r.value, 0, ImportTable([], []), {}, bytes.tick, 0);
      }
    }
  }

  // ----- What the reads are

  /** A lookup entry that was read gives this name. */
  ghost predicate NamedBy(image: Image, read: Reader, asked: set<Ask>, lookup: u32, rva: u32) {
    exists entry :: entry in asked && entry.purpose.LookupEntry? && entry.purpose.table == lookup && GivesName(image, read, entry, rva)
  }

  ghost predicate GivesName(image: Image, read: Reader, entry: Ask, rva: u32) {
    var bytes := Answer(read, entry);
    bytes.Some? && |bytes.value| >= image.bitness.Pointer() && ThunkIn(image.bitness, bytes.value) + 2 == rva
  }

  /** A read for one descriptor: its library's name, its own lookup table, or a name that table gave. */
  ghost predicate IsFor(image: Image, read: Reader, asked: set<Ask>, d: Descriptor, ask: Ask) {
    || ask.purpose == NameChunk(d.name)
    || (d.lookup != 0 && IsForTable(image, read, asked, d.lookup, ask))
  }

  ghost predicate IsForTable(image: Image, read: Reader, asked: set<Ask>, lookup: u32, ask: Ask) {
    match ask.purpose
    case Directory => false
    case LookupEntry(table, index) => table == lookup && index < MAX_IMPORTS_PER_LIBRARY
    case NameChunk(rva) => NamedBy(image, read, asked, lookup, rva)
  }

  ghost predicate AllForTable(image: Image, read: Reader, asked: set<Ask>, lookup: u32) {
    Confined(image, asked) && forall ask :: ask in asked ==> IsForTable(image, read, asked, lookup, ask)
  }

  ghost predicate AllFor(image: Image, read: Reader, asked: set<Ask>, d: Descriptor) {
    Confined(image, asked) && forall ask :: ask in asked ==> IsFor(image, read, asked, d, ask)
  }

  /** Each read is for one of the descriptors these bytes hold. */
  ghost predicate AllForSome(image: Image, read: Reader, asked: set<Ask>, bytes: seq<byte>) {
    Confined(image, asked) && forall ask :: ask in asked ==> IsForSome(image, read, asked, bytes, ask)
  }

  ghost predicate IsForSome(image: Image, read: Reader, asked: set<Ask>, bytes: seq<byte>, ask: Ask) {
    exists i: nat :: IsForOne(image, read, asked, bytes, i, ask)
  }

  ghost predicate IsForOne(image: Image, read: Reader, asked: set<Ask>, bytes: seq<byte>, i: nat, ask: Ask) {
    20 * i + 20 <= |bytes| && IsFor(image, read, asked, DescriptorIn(bytes[20 * i..20 * i + 20]), ask)
  }

  /** The directory first, and then only what the descriptors in its answer lead to. */
  ghost predicate AllAccounted(image: Image, read: Reader, asked: set<Ask>) {
    Confined(image, asked) && forall ask :: ask in asked ==> ask == DirectoryAsk(image) || IsForDirectory(image, read, asked, ask)
  }

  function DirectoryAsk(image: Image): Ask {
    Ask(0, Span(image.base + image.importRva, image.importSize), Directory)
  }

  ghost predicate IsForDirectory(image: Image, read: Reader, asked: set<Ask>, ask: Ask) {
    Answer(read, DirectoryAsk(image)).Some? && IsForSome(image, read, asked, Answer(read, DirectoryAsk(image)).value, ask)
  }

  lemma StillForTable(image: Image, read: Reader, some: set<Ask>, all: set<Ask>, lookup: u32, ask: Ask)
    requires IsForTable(image, read, some, lookup, ask) && some <= all
    ensures IsForTable(image, read, all, lookup, ask)
  {
    hide GivesName;
  }

  lemma StillFor(image: Image, read: Reader, some: set<Ask>, all: set<Ask>, d: Descriptor, ask: Ask)
    requires IsFor(image, read, some, d, ask) && some <= all
    ensures IsFor(image, read, all, d, ask)
  {
    hide IsForTable;
    if ask.purpose != NameChunk(d.name) {
      StillForTable(image, read, some, all, d.lookup, ask);
    }
  }

  lemma TablesJoin(image: Image, read: Reader, some: set<Ask>, more: set<Ask>, lookup: u32)
    requires AllForTable(image, read, some, lookup) && AllForTable(image, read, more, lookup)
    ensures AllForTable(image, read, some + more, lookup)
  {
    hide IsForTable;
    forall ask | ask in some + more ensures IsForTable(image, read, some + more, lookup, ask) {
      StillForTable(image, read, if ask in some then some else more, some + more, lookup, ask);
    }
  }

  lemma SomesJoin(image: Image, read: Reader, some: set<Ask>, more: set<Ask>, bytes: seq<byte>)
    requires AllForSome(image, read, some, bytes) && AllForSome(image, read, more, bytes)
    ensures AllForSome(image, read, some + more, bytes)
  {
    hide IsFor, DescriptorIn;
    forall ask | ask in some + more ensures IsForSome(image, read, some + more, bytes, ask) {
      var part := if ask in some then some else more;
      var i: nat :| IsForOne(image, read, part, bytes, i, ask);
      StillFor(image, read, part, some + more, DescriptorIn(bytes[20 * i..20 * i + 20]), ask);
      assert IsForOne(image, read, some + more, bytes, i, ask);
    }
  }

  lemma EntryIsConfined(image: Image, read: Reader, tick: nat, lookup: u32, iat: u32, j: nat)
    ensures var ran := EntryRun(image, read, tick, lookup, iat, j);
      && Only(image, ran.asked, LookupEntry(lookup, j))
      && (ran.r.Ok? ==> exists entry :: entry in ran.asked && Reads(image, read, entry, ran.r.value.1))
  {
    hide ThunkIn;
    var entryRva := EntryRva(image, lookup, j);
    var ran := EntryRun(image, read, tick, lookup, iat, j);
    if ran.r.Ok? {
      var entry := At(image, read, tick, LookupEntry(lookup, j), entryRva, image.bitness.Pointer());
      var ask := Ask(tick, Span(image.base + entryRva, Clip(image, entryRva, image.bitness.Pointer())), LookupEntry(lookup, j));
      assert ask in ran.asked && Reads(image, read, ask, ran.r.value.1);
    }
  }

  /** A read whose answer is this lookup value. */
  ghost predicate Reads(image: Image, read: Reader, entry: Ask, value: u64) {
    var bytes := Answer(read, entry);
    bytes.Some? && |bytes.value| >= image.bitness.Pointer() && ThunkIn(image.bitness, bytes.value) == value
  }

  lemma NameIsConfined(image: Image, read: Reader, tick: nat, rva: u32)
    ensures Only(image, NameRun(image, read, tick, rva).asked, NameChunk(rva))
  {
    hide ScanFrom;
    ScanIsConfined(image, read, tick, rva, []);
  }

  lemma NextIsConfined(image: Image, read: Reader, tick: nat, lookup: u32, iat: u32, j: nat)
    requires j < MAX_IMPORTS_PER_LIBRARY
    ensures AllForTable(image, read, NextRun(image, read, tick, lookup, iat, j).asked, lookup)
  {
    hide EntryRun, NameRun, ThunkIn, Serves, InsideImage;
    EntryIsConfined(image, read, tick, lookup, iat, j);
    var entry := EntryRun(image, read, tick, lookup, iat, j);
    if entry.r.Ok? && entry.r.value.1 != 0 {
      var value := entry.r.value.1;
      var all := NextRun(image, read, tick, lookup, iat, j).asked;
      var made :| made in entry.asked && Reads(image, read, made, value);
      assert made in all;
      if value < OrdinalFlag(image.bitness) && value + 2 <= MAX_U32 {
        NameIsConfined(image, read, entry.tick, value + 2);
        assert GivesName(image, read, made, value + 2);
        assert NamedBy(image, read, all, lookup, value + 2);
      }
    }
  }

  lemma {:induction false} ThunksAreConfined(image: Image, read: Reader, halt: nat -> bool, library: seq<byte>, lookup: u32, iat: u32,
                          imports: seq<Import>, claimed: set<int>, j: nat, tick: nat, polls: nat)
    ensures AllForTable(image, read, ThunksFrom(image, read, halt, library, lookup, iat, imports, claimed, j, tick, polls).asked, lookup)
    decreases MAX_IMPORTS_PER_LIBRARY - j
  {
    hide NextRun, IsForTable, Serves, InsideImage;
    if j < MAX_IMPORTS_PER_LIBRARY && !halt(polls) {
      var next := ClaimRun(image, read, tick, library, lookup, iat, imports, claimed, j);
      NextIsConfined(image, read, tick, lookup, iat, j);
      if next.r.Ok? && next.r.value.Some? {
        var more := next.r.value.value;
        ThunksAreConfined(image, read, halt, library, lookup, iat, imports + [more], claimed + {more.slot}, j + 1, next.tick, polls + 1);
        TablesJoin(image, read, next.asked,
          ThunksFrom(image, read, halt, library, lookup, iat, imports + [more], claimed + {more.slot}, j + 1, next.tick, polls + 1).asked, lookup);
      }
    }
  }

  lemma LibraryIsConfined(image: Image, read: Reader, halt: nat -> bool, d: Descriptor, imports: seq<Import>, claimed: set<int>, tick: nat, polls: nat)
    ensures AllFor(image, read, LibraryRun(image, read, halt, d, imports, claimed, tick, polls).asked, d)
  {
    hide NameRun, ThunksFrom, IsForTable, Serves, InsideImage;
    var all := LibraryRun(image, read, halt, d, imports, claimed, tick, polls).asked;
    var library := NameRun(image, read, tick, d.name);
    NameIsConfined(image, read, tick, d.name);
    if d.name != 0 && d.iat != 0 && library.r.Ok? && d.lookup != 0 {
      ThunksAreConfined(image, read, halt, library.r.value, d.lookup, d.iat, imports, claimed, 0, library.tick, polls);
      var run := ThunksFrom(image, read, halt, library.r.value, d.lookup, d.iat, imports, claimed, 0, library.tick, polls);
      forall ask | ask in run.asked ensures IsForTable(image, read, all, d.lookup, ask) {
        StillForTable(image, read, run.asked, all, d.lookup, ask);
      }
    }
  }

  lemma {:induction false} DescriptorsAreConfined(image: Image, read: Reader, halt: nat -> bool, bytes: seq<byte>, index: nat,
                               table: ImportTable, claimed: set<int>, tick: nat, polls: nat)
    ensures AllForSome(image, read, DescriptorsFrom(image, read, halt, bytes, index, table, claimed, tick, polls).asked, bytes)
    decreases |bytes| / 20 - index
  {
    hide LibraryRun, DescriptorIn, IsFor, Serves, InsideImage;
    if index < |bytes| / 20 && !halt(polls) {
      var d := DescriptorIn(bytes[20 * index..20 * index + 20]);
      if !d.IsNull() {
        var found := LibraryRun(image, read, halt, d, table.imports, claimed, tick, polls + 1);
        LibraryIsConfined(image, read, halt, d, table.imports, claimed, tick, polls + 1);
        forall ask | ask in found.asked ensures IsForSome(image, read, found.asked, bytes, ask) {
          assert IsForOne(image, read, found.asked, bytes, index, ask);
        }
        if found.r.Ok? {
          DescriptorsAreConfined(image, read, halt, bytes, index + 1, Extended(table, found.r.value), found.r.value.2, found.tick, found.polls);
          SomesJoin(image, read, found.asked,
            DescriptorsFrom(image, read, halt, bytes, index + 1, Extended(table, found.r.value), found.r.value.2, found.tick, found.polls).asked, bytes);
        }
      }
    }
  }

  /**
   * Whatever the reader answers and however the walk ends, it reads the directory once, then entries
   * of the lookup tables of descriptors in that answer, and granule-bounded chunks of the names those
   * descriptors and entries give. No slot of an address table is among them.
   */
  lemma ImportsAreConfined(image: Image, read: Reader, halt: nat -> bool)
    ensures AllAccounted(image, read, ImportsRun(image, read, halt).asked)
  {
    hide DescriptorsFrom, IsFor, DescriptorIn;
    if image.importRva != 0 && image.importSize != 0 && image.importSize / 20 <= MAX_LIBRARIES + 1
      && image.importRva + image.importSize <= image.sizeOfImage
    {
      var bytes := At(image, read, 0, Directory, image.importRva, image.importSize);
      if bytes.r.Ok? {
        DescriptorsAreConfined(image, read, halt, bytes.r.value, 0, ImportTable([], []), {}, bytes.tick, 0);
        var run := DescriptorsFrom(image, read, halt, bytes.r.value, 0, ImportTable([], []), {}, bytes.tick, 0);
        var all := ImportsRun(image, read, halt).asked;
        forall ask | ask in run.asked ensures IsForDirectory(image, read, all, ask) {
          var i: nat :| IsForOne(image, read, run.asked, bytes.r.value, i, ask);
          StillFor(image, read, run.asked, all, DescriptorIn(bytes.r.value[20 * i..20 * i + 20]), ask);
          assert IsForOne(image, read, all, bytes.r.value, i, ask);
        }
      }
    }
  }
}
