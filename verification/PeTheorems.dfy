/** What follows from the import table being exactly what memory holds. */
module PeTheorems {
  import opened Machine
  import opened ByteMemory
  import opened PeImage
  import opened PeTables
  import opened PeRuns
  import opened PeImports

  // ----- Naming a call site by its slot

  /** `imports_by_slot`: a later import with the same slot replaces an earlier one. */
  function BySlot(imports: seq<Import>): map<int, Import> {
    if imports == [] then map[]
    else
      var last := imports[|imports| - 1];
      BySlot(imports[..|imports| - 1])[last.slot := last]
  }

  lemma {:induction false} BySlotKeys(imports: seq<Import>)
    ensures BySlot(imports).Keys == Slots(imports)
  {
    if imports != [] {
      var n := |imports| - 1;
      BySlotKeys(imports[..n]);
      SlotsGrow(imports[..n], imports[n]);
      assert imports[..n] + [imports[n]] == imports;
    }
  }

  lemma {:induction false} BySlotFinds(imports: seq<Import>, i: nat)
    requires DistinctSlots(imports) && i < |imports|
    ensures imports[i].slot in BySlot(imports) && BySlot(imports)[imports[i].slot] == imports[i]
  {
    var n := |imports| - 1;
    if i < n {
      assert imports[..n][i] == imports[i];
      BySlotFinds(imports[..n], i);
    }
  }

  /** No import is lost from the index exactly when no two share a slot. */
  lemma {:induction false} BySlotLosesNone(imports: seq<Import>)
    ensures |BySlot(imports)| <= |imports|
    ensures |BySlot(imports)| == |imports| <==> DistinctSlots(imports)
  {
    if imports != [] {
      var n := |imports| - 1;
      var some, last := imports[..n], imports[n];
      assert imports == some + [last];
      BySlotLosesNone(some);
      BySlotKeys(some);
      BySlotKeys(imports);
      SlotsGrow(some, last);
      if last.slot in Slots(some) {
        assert Slots(imports) == Slots(some);
        var i :| 0 <= i < n && some[i].slot == last.slot;
        assert imports[i].slot == imports[n].slot;
      } else {
        assert |Slots(imports)| == |Slots(some)| + 1;
        assert DistinctSlots(imports) ==> DistinctSlots(some);
      }
    }
  }

  /** The slots of the table memory holds are addresses of the image, with room for the pointers they hold. */
  lemma {:induction false} SlotsAreInTheImage(image: Image, mem: Memory, libs: seq<Library>)
    requires IsTablePrefix(image, mem, libs)
    ensures SlotsFit(image, ImportsOf(image, libs))
  {
    if libs != [] {
      var n := |libs| - 1;
      SlotsAreInTheImage(image, mem, libs[..n]);
      var d, own := DescriptorAt(image, mem, n), LibraryImports(image, libs[n]);
      assert IsLibrary(image, mem, d, libs[n]);
      forall j | 0 <= j < |own| ensures SlotFits(image, own[j].slot) {
        assert HasEntry(image, mem, d.lookup, d.iat, j);
      }
    }
  }

  /** Imports with distinct slots inside the image: the index by slot names every one, and nothing else. */
  lemma IndexIsWhole(image: Image, imports: seq<Import>)
    requires DistinctSlots(imports) && SlotsFit(image, imports)
    ensures |BySlot(imports)| == |imports|
    ensures forall m :: m in imports ==> m.slot in BySlot(imports) && BySlot(imports)[m.slot] == m
    ensures forall s :: s in BySlot(imports) ==> SlotFits(image, s) && BySlot(imports)[s] in imports && BySlot(imports)[s].slot == s
  {
    hide BySlot, SlotFits;
    BySlotLosesNone(imports);
    BySlotKeys(imports);
    forall m | m in imports ensures m.slot in BySlot(imports) && BySlot(imports)[m.slot] == m {
      var i :| 0 <= i < |imports| && imports[i] == m;
      BySlotFinds(imports, i);
    }
    forall s | s in BySlot(imports) ensures SlotFits(image, s) && BySlot(imports)[s] in imports && BySlot(imports)[s].slot == s {
      assert s in BySlot(imports).Keys;
      var i :| 0 <= i < |imports| && imports[i].slot == s;
      assert imports[i] in imports;
    }
  }

  /** So the index of the table memory holds names all of it, */
  lemma TableIndexIsWhole(image: Image, mem: Memory, libs: seq<Library>)
    requires IsTable(image, mem, libs)
    ensures |BySlot(ImportsOf(image, libs))| == |ImportsOf(image, libs)|
    ensures forall m :: m in ImportsOf(image, libs) ==> m.slot in BySlot(ImportsOf(image, libs)) && BySlot(ImportsOf(image, libs))[m.slot] == m
    ensures forall s :: s in BySlot(ImportsOf(image, libs)) ==> SlotFits(image, s)
  {
    hide BySlot;
    SlotsAreInTheImage(image, mem, libs);
    IndexIsWhole(image, ImportsOf(image, libs));
  }

  /** and so does the index of any answer at all, whatever the reader made of memory. */
  method ReadBySlot(image: Image, read: Reader, halt: nat -> bool) returns (r: Result<ImportTable, PeError>, index: map<int, Import>)
    ensures r == ImportsRun(image, read, halt).r
    ensures r.Ok? ==> |index| == |r.value.imports| && forall m :: m in r.value.imports ==> m.slot in index && index[m.slot] == m
    ensures r.Ok? ==> forall s :: s in index ==> SlotFits(image, s) && index[s] in r.value.imports && index[s].slot == s
  {
    hide ImportsRun, AllAccounted, BySlot, DistinctSlots, SlotsFit, SlotFits;
    ghost var libs, asked;
    var tick, polls;
    r, tick, polls, libs, asked := ReadImports(image, read, halt, _ => None);
    index := map[];
    if r.Ok? {
      index := BySlot(r.value.imports);
      IndexIsWhole(image, r.value.imports);
    }
  }

  // ----- The answer does not depend on the import address table

  predicate Within(a: int, start: int, len: nat) {
    start <= a < start + len
  }

  ghost predicate NameConsults(image: Image, rva: int, length: nat, a: int)
    requires Fits(image, rva, length + 1) && length < MAX_NAME
  {
    Within(a, image.base + rva, NameReach(image, rva, length))
  }

  ghost predicate ThunkConsults(image: Image, mem: Memory, value: u64, name: ImportName, a: int)
    requires IsThunk(image, mem, value, name)
  {
    name.Named? && NameConsults(image, value + 2, |name.text|, a)
  }

  ghost predicate RunConsults(image: Image, mem: Memory, lookup: int, iat: int, names: seq<ImportName>, a: int)
    requires IsRun(image, mem, lookup, iat, names)
  {
    || (exists j: nat :: j <= |names| && EntryConsults(image, lookup, j, a))
    || (exists j: nat ::
          j < |names| && HasEntry(image, mem, lookup, iat, j) && ThunkConsults(image, mem, Thunk(image, mem, lookup, j), names[j], a))
  }

  /** The addresses whose contents a library's naming rests on. */
  ghost predicate LibraryConsults(image: Image, mem: Memory, d: Descriptor, lib: Library, a: int)
    requires IsLibrary(image, mem, d, lib)
  {
    || NameConsults(image, d.name, |lib.name|, a)
    || (lib.Listed? && RunConsults(image, mem, d.lookup, lib.iat, lib.names, a))
  }

  ghost predicate EntryConsults(image: Image, lookup: int, j: nat, a: int) {
    Within(a, image.base + EntryRva(image, lookup, j), image.bitness.Pointer())
  }

  /** The directory, the lookup tables, and the granules of every name: what the table rests on. */
  ghost predicate Consults(image: Image, mem: Memory, libs: seq<Library>, a: int)
    requires IsTable(image, mem, libs)
  {
    || Within(a, image.base + image.importRva, image.importSize)
    || exists i: nat :: i < |libs| && LibraryConsults(image, mem, DescriptorAt(image, mem, i), libs[i], a)
  }

  ghost predicate Same(mem: Memory, other: Memory, at: int, len: nat) {
    forall a :: Within(a, at, len) ==> mem(a) == other(a)
  }

  lemma SameWindow(mem: Memory, other: Memory, at: int, len: nat)
    requires Same(mem, other, at, len) && Readable(mem, at, len)
    ensures Readable(other, at, len) && Window(other, at, len) == Window(mem, at, len)
  {
    forall a | at <= a < at + len ensures other(a).Some? {
      assert Within(a, at, len);
    }
    forall i | 0 <= i < len ensures Window(other, at, len)[i] == Window(mem, at, len)[i] {
      assert Within(at + i, at, len);
    }
  }

  lemma SameName(image: Image, mem: Memory, other: Memory, rva: int, name: seq<byte>)
    requires IsName(image, mem, rva, name) && NameCovered(image, mem, rva, name)
    requires forall a :: NameConsults(image, rva, |name|, a) ==> mem(a) == other(a)
    ensures IsName(image, other, rva, name) && NameCovered(image, other, rva, name)
  {
    forall a | Within(a, image.base + rva, NameReach(image, rva, |name|)) ensures mem(a) == other(a) {
      assert NameConsults(image, rva, |name|, a);
    }
    SameWindow(mem, other, image.base + rva, NameReach(image, rva, |name|));
    forall i | 0 <= i < |name + [0]| ensures other(image.base + rva + i) == Some((name + [0])[i]) {
      assert NameConsults(image, rva, |name|, image.base + rva + i);
    }
  }

  lemma SameThunk(image: Image, mem: Memory, other: Memory, value: u64, name: ImportName)
    requires ThunkIsThere(image, mem, value, name)
    requires forall a :: ThunkConsults(image, mem, value, name, a) ==> mem(a) == other(a)
    ensures ThunkIsThere(image, other, value, name)
  {
    if name.Named? {
      forall a | NameConsults(image, value + 2, |name.text|, a) ensures mem(a) == other(a) {
        assert ThunkConsults(image, mem, value, name, a);
      }
      SameName(image, mem, other, value + 2, name.text);
    }
  }

  lemma SameEntry(image: Image, mem: Memory, other: Memory, lookup: int, iat: int, j: nat)
    requires HasEntry(image, mem, lookup, iat, j)
    requires forall a :: EntryConsults(image, lookup, j, a) ==> mem(a) == other(a)
    ensures HasEntry(image, other, lookup, iat, j) && Thunk(image, other, lookup, j) == Thunk(image, mem, lookup, j)
  {
    hide ThunkIn;
    var at := image.base + EntryRva(image, lookup, j);
    forall a | Within(a, at, image.bitness.Pointer()) ensures mem(a) == other(a) {
      assert EntryConsults(image, lookup, j, a);
    }
    SameWindow(mem, other, at, image.bitness.Pointer());
  }

  lemma SameRun(image: Image, mem: Memory, other: Memory, lookup: int, iat: int, names: seq<ImportName>)
    requires IsRun(image, mem, lookup, iat, names) && RunCovered(image, mem, lookup, iat, names)
    requires forall a :: RunConsults(image, mem, lookup, iat, names, a) ==> mem(a) == other(a)
    ensures IsRun(image, other, lookup, iat, names) && RunCovered(image, other, lookup, iat, names)
  {
    hide IsThunk, NameCovered, Thunk, EntryConsults, ThunkConsults;
    assert forall j: nat | j <= |names| :: HasEntry(image, mem, lookup, iat, j);
    forall j: nat | j <= |names| && HasEntry(image, mem, lookup, iat, j)
      ensures HasEntry(image, other, lookup, iat, j) && Thunk(image, other, lookup, j) == Thunk(image, mem, lookup, j)
    {
      forall a | EntryConsults(image, lookup, j, a) ensures mem(a) == other(a) {
        assert RunConsults(image, mem, lookup, iat, names, a);
      }
      SameEntry(image, mem, other, lookup, iat, j);
    }
    forall j: nat | j < |names| && HasEntry(image, mem, lookup, iat, j)
      ensures ThunkIsThere(image, other, Thunk(image, mem, lookup, j), names[j])
    {
      var value := Thunk(image, mem, lookup, j);
      forall a | ThunkConsults(image, mem, value, names[j], a) ensures mem(a) == other(a) {
        assert RunConsults(image, mem, lookup, iat, names, a);
      }
      assert ThunkIsThere(image, mem, value, names[j]);
      SameThunk(image, mem, other, value, names[j]);
    }
  }

  lemma SameLibrary(image: Image, mem: Memory, other: Memory, d: Descriptor, lib: Library)
    requires IsLibrary(image, mem, d, lib) && LibraryCovered(image, mem, d, lib)
    requires forall a :: LibraryConsults(image, mem, d, lib, a) ==> mem(a) == other(a)
    ensures IsLibrary(image, other, d, lib) && LibraryCovered(image, other, d, lib)
  {
    hide NameCovered, IsRun, RunCovered, RunConsults, NameConsults;
    forall a | NameConsults(image, d.name, |lib.name|, a) ensures mem(a) == other(a) {
      assert LibraryConsults(image, mem, d, lib, a);
    }
    SameName(image, mem, other, d.name, lib.name);
    if lib.Listed? {
      forall a | RunConsults(image, mem, d.lookup, lib.iat, lib.names, a) ensures mem(a) == other(a) {
        assert LibraryConsults(image, mem, d, lib, a);
      }
      SameRun(image, mem, other, d.lookup, lib.iat, lib.names);
    }
  }

  lemma SameDescriptor(image: Image, mem: Memory, other: Memory, i: nat)
    requires Readable(mem, DescriptorAddress(image, i), 20) && 20 * (i + 1) <= image.importSize
    requires Same(mem, other, image.base + image.importRva, image.importSize)
    ensures Readable(other, DescriptorAddress(image, i), 20) && DescriptorAt(image, other, i) == DescriptorAt(image, mem, i)
  {
    hide DescriptorIn;
    forall a | Within(a, DescriptorAddress(image, i), 20) ensures mem(a) == other(a) {
      assert Within(a, image.base + image.importRva, image.importSize);
    }
    SameWindow(mem, other, DescriptorAddress(image, i), 20);
  }

  /** Memory that differs only where the table does not look holds the same table. */
  lemma TableRestsOnWhatItConsults(image: Image, mem: Memory, other: Memory, libs: seq<Library>)
    requires IsTable(image, mem, libs) && Covered(image, mem, libs)
    requires forall a :: Consults(image, mem, libs, a) ==> mem(a) == other(a)
    ensures IsTable(image, other, libs) && Covered(image, other, libs)
  {
    hide IsLibrary, LibraryCovered, LibraryConsults, DescriptorAt;
    forall a | Within(a, image.base + image.importRva, image.importSize) ensures mem(a) == other(a) {
      assert Consults(image, mem, libs, a);
    }
    SameWindow(mem, other, image.base + image.importRva, image.importSize);
    if image.importSize != 0 {
      forall i: nat | i <= |libs|
        ensures Readable(other, DescriptorAddress(image, i), 20) && DescriptorAt(image, other, i) == DescriptorAt(image, mem, i)
      {
        SameDescriptor(image, mem, other, i);
      }
      forall i: nat | i < |libs|
        ensures IsLibrary(image, other, DescriptorAt(image, other, i), libs[i])
        ensures LibraryCovered(image, other, DescriptorAt(image, other, i), libs[i])
      {
        forall a | LibraryConsults(image, mem, DescriptorAt(image, mem, i), libs[i], a) ensures mem(a) == other(a) {
          assert Consults(image, mem, libs, a);
        }
        SameLibrary(image, mem, other, DescriptorAt(image, mem, i), libs[i]);
      }
    }
  }

  /** The bytes of the import address table: every slot of a listed library, its terminator included. */
  ghost predicate InAddressTable(image: Image, libs: seq<Library>, a: int) {
    exists i: nat, j: nat :: i < |libs| && libs[i].Listed? && j <= |libs[i].names|
      && Within(a, image.base + EntryRva(image, libs[i].iat, j), image.bitness.Pointer())
  }

  /**
   * Naming never depends on the address table. Where it shares no byte with the directory or a
   * lookup table and no granule with a name, its contents may change, or stop being readable, and
   * the table memory holds is still this one.
   */
  lemma ImportsIgnoreTheAddressTable(image: Image, mem: Memory, other: Memory, libs: seq<Library>)
    requires IsTable(image, mem, libs) && Covered(image, mem, libs)
    requires forall a :: InAddressTable(image, libs, a) ==> !Consults(image, mem, libs, a)
    requires forall a :: !InAddressTable(image, libs, a) ==> mem(a) == other(a)
    ensures IsTable(image, other, libs) && Covered(image, other, libs)
    ensures forall w :: IsTable(image, other, w) ==> w == libs
  {
    TableRestsOnWhatItConsults(image, mem, other, libs);
    forall w | IsTable(image, other, w) ensures w == libs {
      TableIsUnique(image, other, w, libs);
    }
  }

  // ----- And neither does the walk, whatever it answers

  /** What a read's purpose covers: the directory, one lookup entry, or the granule a name's chunk is in. */
  ghost predicate Covers(image: Image, ask: Ask, a: int) {
    match ask.purpose
    case Directory => Within(a, image.base + image.importRva, image.importSize)
    case LookupEntry(table, index) => Within(a, image.base + EntryRva(image, table, index), image.bitness.Pointer())
    case NameChunk(_) =>
      var rva := ask.span.start - image.base;
      image.base + GranuleEnd(rva) - NAME_READ_GRANULE <= a < image.base + GranuleEnd(rva)
  }

  /** No address of a region is in the directory, a lookup entry the walk reads, or a granule of a name it reads. */
  ghost predicate KeepsClear(image: Image, asked: set<Ask>, region: int -> bool) {
    forall ask, a :: ask in asked && Covers(image, ask, a) ==> !region(a)
  }

  ghost predicate Misses(region: int -> bool, span: Span) {
    forall a :: Within(a, span.start, span.len) ==> !region(a)
  }

  /** The readers differ, if at all, only on spans that reach into the region. */
  ghost predicate AlikeOutside(one: Reader, other: Reader, region: int -> bool) {
    forall t: nat, at: int, n: nat :: Misses(region, Span(at, n)) ==> one(t, at, n) == other(t, at, n)
  }

  lemma ReadIsCovered(image: Image, ask: Ask, a: int)
    requires Serves(image, ask) && Within(a, ask.span.start, ask.span.len)
    ensures Covers(image, ask, a)
  {
  }

  /**
   * A region that keeps clear of the directory, the lookup entries and the names is never read, and
   * nothing that happens to it changes the answer: not its contents, not whether it can be read, and
   * whether the walk succeeds, is refused, meets a hole or is stopped.
   */
  lemma RegionIsIgnored(image: Image, before: Reader, after: Reader, halt: nat -> bool, region: int -> bool)
    requires KeepsClear(image, ImportsRun(image, before, halt).asked, region)
    requires AlikeOutside(before, after, region)
    ensures forall ask :: ask in ImportsRun(image, before, halt).asked ==> Misses(region, ask.span)
    ensures ImportsRun(image, after, halt) == ImportsRun(image, before, halt)
  {
    hide ImportsRun, Serves, Covers, Within;
    var asked := ImportsRun(image, before, halt).asked;
    ImportsAreConfined(image, before, halt);
    forall ask | ask in asked ensures Misses(region, ask.span) && Answer(before, ask) == Answer(after, ask) {
      forall a | Within(a, ask.span.start, ask.span.len) ensures !region(a) {
        ReadIsCovered(image, ask, a);
      }
      assert Misses(region, Span(ask.span.start, ask.span.len));
    }
    ImportsRestOnTheirReads(image, before, after, halt);
  }

  /** A slot of a descriptor in the directory as read: one that a lookup entry the walk reads stands for, or a bound library's first. */
  ghost predicate IsSlot(image: Image, read: Reader, asked: set<Ask>, a: int) {
    Answer(read, DirectoryAsk(image)).Some? &&
    exists i: nat, j: nat :: IsSlotOf(image, asked, Answer(read, DirectoryAsk(image)).value, i, j, a)
  }

  ghost predicate IsSlotOf(image: Image, asked: set<Ask>, directory: seq<byte>, i: nat, j: nat, a: int) {
    20 * i + 20 <= |directory| &&
    var d := DescriptorIn(directory[20 * i..20 * i + 20]);
    && (if d.lookup == 0 then j == 0 else exists ask :: ask in asked && ask.purpose == LookupEntry(d.lookup, j))
    && Within(a, image.base + EntryRva(image, d.iat, j), image.bitness.Pointer())
  }

  /**
   * `read_imports`, before and after the import address table changes or is lost: one answer. The
   * readers may return what they like, whenever they like; they differ only on the slots.
   */
  method ReadAroundTheAddressTable(image: Image, before: Reader, after: Reader, halt: nat -> bool)
    returns (one: Result<ImportTable, PeError>, two: Result<ImportTable, PeError>)
    requires KeepsClear(image, ImportsRun(image, before, halt).asked, a => IsSlot(image, before, ImportsRun(image, before, halt).asked, a))
    requires AlikeOutside(before, after, a => IsSlot(image, before, ImportsRun(image, before, halt).asked, a))
    ensures one == two == ImportsRun(image, before, halt).r
    ensures forall ask, a :: ask in ImportsRun(image, before, halt).asked && Within(a, ask.span.start, ask.span.len) ==>
      !IsSlot(image, before, ImportsRun(image, before, halt).asked, a)
  {
    hide ImportsRun, KeepsClear, AlikeOutside, IsSlot, AllAccounted;
    ghost var made := ImportsRun(image, before, halt).asked;
    ghost var slots := a => IsSlot(image, before, made, a);
    RegionIsIgnored(image, before, after, halt, slots);
    forall ask, a | ask in made && Within(a, ask.span.start, ask.span.len) ensures !slots(a) {
      assert Misses(slots, ask.span);
    }
    ghost var found, asked;
    var tick, polls;
    one, tick, polls, found, asked := ReadImports(image, before, halt, _ => None);
    two, tick, polls, found, asked := ReadImports(image, after, halt, _ => None);
  }
}
