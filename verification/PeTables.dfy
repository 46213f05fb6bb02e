/**
 * The import table of a loaded image, in terms of the bytes memory holds: descriptors up to the
 * first all-zero one, and each library's thunks up to its zero. Memory holds at most one.
 */
module PeTables {
  import opened Machine
  import opened ByteMemory
  import opened PeImage

  const MAX_LIBRARIES: nat := 64
  const MAX_IMPORTS_PER_LIBRARY: nat := 8192
  const MAX_IMPORTS_TOTAL: nat := 16384

  datatype ImportName = Named(text: seq<byte>) | Ordinal(ordinal: u16)

  datatype Import = Import(library: seq<byte>, name: ImportName, slot: int)

  datatype ImportTable = ImportTable(imports: seq<Import>, unnamedLibraries: seq<seq<byte>>)

  datatype Descriptor = Descriptor(lookup: u32, stamp: u32, forwarder: u32, name: u32, iat: u32) {
    predicate IsNull() {
      lookup == 0 && stamp == 0 && forwarder == 0 && name == 0 && iat == 0
    }
  }

  /** `IMAGE_IMPORT_DESCRIPTOR`: five 32-bit fields. */
  function DescriptorIn(bytes: seq<byte>): Descriptor
    requires |bytes| == 20
  {
    Descriptor(U32(bytes[0..4]), U32(bytes[4..8]), U32(bytes[8..12]), U32(bytes[12..16]), U32(bytes[16..20]))
  }

  /** One lookup-table entry, at the image's pointer width. */
  function ThunkIn(bitness: Bitness, bytes: seq<byte>): u64
    requires |bytes| >= bitness.Pointer()
  {
    if bitness.Bits32? then U32(bytes) else U64(bytes)
  }

  function OrdinalFlag(bitness: Bitness): (r: u64)
    ensures r > MAX_U32 / 2
  {
    if bitness.Bits32? then 0x8000_0000 else 0x8000_0000_0000_0000
  }

  // ----- The declarative table

  /** A library of the table: what it is called, and its imports in lookup order unless it is bound. */
  datatype Library = Bound(name: seq<byte>) | Listed(name: seq<byte>, iat: u32, names: seq<ImportName>)

  ghost predicate IsThunk(image: Image, mem: Memory, value: u64, name: ImportName) {
    value != 0 &&
    match name
    case Ordinal(n) => value == OrdinalFlag(image.bitness) + n
    case Named(text) => value < OrdinalFlag(image.bitness) && value + 2 <= MAX_U32 && IsName(image, mem, value + 2, text)
  }

  /** Both parallel arrays hold entry `j`: the slot is in the image, and the lookup entry is there. */
  ghost predicate HasEntry(image: Image, mem: Memory, lookup: int, iat: int, j: nat) {
    var p := image.bitness.Pointer();
    Fits(image, EntryRva(image, iat, j), p) && Fits(image, EntryRva(image, lookup, j), p) && HasThunk(image, mem, lookup, j)
  }

  ghost predicate HasThunk(image: Image, mem: Memory, lookup: int, j: nat) {
    Readable(mem, image.base + EntryRva(image, lookup, j), image.bitness.Pointer())
  }

  ghost function Thunk(image: Image, mem: Memory, lookup: int, j: nat): u64
    requires HasThunk(image, mem, lookup, j)
  {
    ThunkIn(image.bitness, Window(mem, image.base + EntryRva(image, lookup, j), image.bitness.Pointer()))
  }

  /** The first `|names|` entries of a library's run, none of them its zero. */
  ghost predicate IsRunPrefix(image: Image, mem: Memory, lookup: int, iat: int, names: seq<ImportName>) {
    forall j :: 0 <= j < |names| ==>
      HasEntry(image, mem, lookup, iat, j) && IsThunk(image, mem, Thunk(image, mem, lookup, j), names[j])
  }

  ghost predicate IsRun(image: Image, mem: Memory, lookup: int, iat: int, names: seq<ImportName>) {
    && |names| < MAX_IMPORTS_PER_LIBRARY
    && IsRunPrefix(image, mem, lookup, iat, names)
    && HasEntry(image, mem, lookup, iat, |names|) && Thunk(image, mem, lookup, |names|) == 0
  }

  ghost predicate IsLibrary(image: Image, mem: Memory, d: Descriptor, lib: Library) {
    && d.iat != 0 && IsName(image, mem, d.name, lib.name)
    && match lib
       case Bound(_) => d.lookup == 0 && Fits(image, d.iat, image.bitness.Pointer())
       case Listed(_, iat, names) => d.lookup != 0 && d.iat == iat && IsRun(image, mem, d.lookup, iat, names)
  }

  function DescriptorAddress(image: Image, i: nat): int {
    image.base + image.importRva + 20 * i
  }

  ghost function DescriptorAt(image: Image, mem: Memory, i: nat): Descriptor
    requires Readable(mem, DescriptorAddress(image, i), 20)
  {
    DescriptorIn(Window(mem, DescriptorAddress(image, i), 20))
  }

  function LibraryImports(image: Image, lib: Library): seq<Import> {
    match lib
    case Bound(_) => []
    case Listed(name, iat, names) => RunImports(image, name, iat, names)
  }

  /** Entry `j` of the lookup table names the slot at `FirstThunk + j * pointer`. */
  function RunImports(image: Image, library: seq<byte>, iat: int, names: seq<ImportName>): (r: seq<Import>)
    ensures |r| == |names|
  {
    seq(|names|, j requires 0 <= j < |names| => Import(library, names[j], image.base + EntryRva(image, iat, j)))
  }

  function ImportsOf(image: Image, libs: seq<Library>): seq<Import> {
    if libs == [] then [] else ImportsOf(image, libs[..|libs| - 1]) + LibraryImports(image, libs[|libs| - 1])
  }

  function UnnamedOf(libs: seq<Library>): seq<seq<byte>> {
    if libs == [] then []
    else UnnamedOf(libs[..|libs| - 1]) + (if libs[|libs| - 1].Bound? then [libs[|libs| - 1].name] else [])
  }

  function TableOf(image: Image, libs: seq<Library>): ImportTable {
    ImportTable(ImportsOf(image, libs), UnnamedOf(libs))
  }

  ghost predicate DistinctSlots(imports: seq<Import>) {
    forall i, j :: 0 <= i < j < |imports| ==> imports[i].slot != imports[j].slot
  }

  /** The first `|libs|` descriptors and the libraries they describe. */
  ghost predicate IsTablePrefix(image: Image, mem: Memory, libs: seq<Library>) {
    forall i :: 0 <= i < |libs| ==>
      Readable(mem, DescriptorAddress(image, i), 20) && IsLibrary(image, mem, DescriptorAt(image, mem, i), libs[i])
  }

  /** The whole import table of the image, as memory holds it. */
  ghost predicate IsTable(image: Image, mem: Memory, libs: seq<Library>) {
    if image.importRva == 0 && image.importSize == 0 then libs == []
    else
      && image.importRva != 0 && image.importSize / 20 <= MAX_LIBRARIES + 1
      && Fits(image, image.importRva, image.importSize)
      && 20 * (|libs| + 1) <= image.importSize
      && IsTablePrefix(image, mem, libs)
      && Readable(mem, DescriptorAddress(image, |libs|), 20) && DescriptorAt(image, mem, |libs|).IsNull()
      && DistinctSlots(ImportsOf(image, libs)) && |ImportsOf(image, libs)| <= MAX_IMPORTS_TOTAL
  }

  // ----- What the walk has to be able to read beyond the table's own bytes

  ghost predicate RunCovered(image: Image, mem: Memory, lookup: int, iat: int, names: seq<ImportName>)
    requires IsRunPrefix(image, mem, lookup, iat, names)
  {
    forall j :: 0 <= j < |names| && names[j].Named? ==>
      NameCovered(image, mem, Thunk(image, mem, lookup, j) + 2, names[j].text)
  }

  ghost predicate LibraryCovered(image: Image, mem: Memory, d: Descriptor, lib: Library)
    requires IsLibrary(image, mem, d, lib)
  {
    && NameCovered(image, mem, d.name, lib.name)
    && (lib.Listed? ==> RunCovered(image, mem, d.lookup, lib.iat, lib.names))
  }

  /** The declared directory is all there, and so are the granules every name of the table touches. */
  ghost predicate Covered(image: Image, mem: Memory, libs: seq<Library>)
    requires IsTable(image, mem, libs)
  {
    && Readable(mem, image.base + image.importRva, image.importSize)
    && forall i :: 0 <= i < |libs| ==> LibraryCovered(image, mem, DescriptorAt(image, mem, i), libs[i])
  }

  // ----- The table is unique

  lemma ThunkIsUnique(image: Image, mem: Memory, value: u64, one: ImportName, other: ImportName)
    requires IsThunk(image, mem, value, one) && IsThunk(image, mem, value, other)
    ensures one == other
  {
    if one.Named? && other.Named? {
      NameIsUnique(mem, image.base + value + 2, one.text, other.text);
    }
  }

  lemma RunPrefixIsUnique(image: Image, mem: Memory, lookup: int, iat: int, one: seq<ImportName>, other: seq<ImportName>)
    requires IsRunPrefix(image, mem, lookup, iat, one) && IsRunPrefix(image, mem, lookup, iat, other)
    requires |one| <= |other|
    ensures one == other[..|one|]
  {
    forall j: nat | j < |one| ensures one[j] == other[j] {
      assert HasEntry(image, mem, lookup, iat, j);
      ThunkIsUnique(image, mem, Thunk(image, mem, lookup, j), one[j], other[j]);
    }
  }

  lemma RunIsUnique(image: Image, mem: Memory, lookup: int, iat: int, one: seq<ImportName>, other: seq<ImportName>)
    requires IsRun(image, mem, lookup, iat, one) && IsRun(image, mem, lookup, iat, other)
    ensures one == other
  {
    if |one| <= |other| {
      RunPrefixIsUnique(image, mem, lookup, iat, one, other);
    } else {
      RunPrefixIsUnique(image, mem, lookup, iat, other, one);
    }
  }

  lemma LibraryIsUnique(image: Image, mem: Memory, d: Descriptor, one: Library, other: Library)
    requires IsLibrary(image, mem, d, one) && IsLibrary(image, mem, d, other)
    ensures one == other
  {
    NameIsUnique(mem, image.base + d.name, one.name, other.name);
    if one.Listed? {
      RunIsUnique(image, mem, d.lookup, one.iat, one.names, other.names);
    }
  }

  lemma TableIsUnique(image: Image, mem: Memory, one: seq<Library>, other: seq<Library>)
    requires IsTable(image, mem, one) && IsTable(image, mem, other)
    ensures one == other
  {
    forall i | 0 <= i < |one| && i < |other| ensures one[i] == other[i] {
      LibraryIsUnique(image, mem, DescriptorAt(image, mem, i), one[i], other[i]);
    }
  }
}
