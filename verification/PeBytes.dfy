/**
 * An import table as it is written: descriptors of five little-endian fields, lookup tables at the
 * image's pointer width, and names behind two bytes of hint. Reading an image so written gives back
 * what was written.
 *
 * The bytes are laid down here by plain arithmetic on offsets, and share nothing with the walk that
 * takes them apart.
 */
module PeBytes {
  import opened Machine
  import opened ByteMemory
  import opened Unicode
  import opened PeImage
  import opened PeTables
  import opened PeImports

  /** One import as written: the ordinal itself, or the offset of a hint with a name after it. */
  datatype Entry = ByOrdinal(ordinal: u16) | ByName(hint: u32, text: seq<byte>)

  /** One library as written. A lookup table at zero is one that binding has thrown away. */
  datatype Part = Part(lookup: u32, stamp: u32, forwarder: u32, name: u32, iat: u32, text: seq<byte>, entries: seq<Entry>)

  function DescriptorBytes(part: Part): (bytes: seq<byte>)
    ensures |bytes| == 20
  {
    LE32(part.lookup) + LE32(part.stamp) + LE32(part.forwarder) + LE32(part.name) + LE32(part.iat)
  }

  function EntryBytes(bitness: Bitness, entry: Entry): (bytes: seq<byte>)
    ensures |bytes| == if bitness.Bits32? then 4 else 8
  {
    match entry
    case ByOrdinal(n) => if bitness.Bits32? then LE32(0x8000_0000 + n) else LE64(0x8000_0000_0000_0000 + n)
    case ByName(hint, _) => if bitness.Bits32? then LE32(hint) else LE64(hint)
  }

  function Zeros(n: nat): (bytes: seq<byte>)
    ensures |bytes| == n
  {
    seq(n, i => 0)
  }

  function Width(image: Image): nat { if image.bitness.Bits32? then 4 else 8 }

  ghost predicate TextAt(image: Image, mem: Memory, rva: int, text: seq<byte>) {
    && 0 < rva && rva + |text| + 1 <= image.sizeOfImage && |text| < 512
    && 0 !in text && IsUtf8(text) && Holds(mem, image.base + rva, text + [0])
  }

  /** Entry `j` of a library: its lookup bytes, its slot's place in the image, and its name if it has one. */
  ghost predicate EntryAt(image: Image, mem: Memory, part: Part, j: nat, entry: Entry) {
    && part.lookup + Width(image) * (j + 1) <= image.sizeOfImage && part.iat + Width(image) * (j + 1) <= image.sizeOfImage
    && Holds(mem, image.base + part.lookup + Width(image) * j, EntryBytes(image.bitness, entry))
    && (entry.ByName? ==> 0 < entry.hint < 0x8000_0000 && TextAt(image, mem, entry.hint + 2, entry.text))
  }

  ghost predicate PartAt(image: Image, mem: Memory, part: Part) {
    && part.iat != 0 && TextAt(image, mem, part.name, part.text)
    && if part.lookup == 0 then part.entries == [] && part.iat + Width(image) <= image.sizeOfImage
       else
         var n := |part.entries|;
         && n < 8192 && (forall j :: 0 <= j < n ==> EntryAt(image, mem, part, j, part.entries[j]))
         && part.lookup + Width(image) * (n + 1) <= image.sizeOfImage && part.iat + Width(image) * (n + 1) <= image.sizeOfImage
         && Holds(mem, image.base + part.lookup + Width(image) * n, Zeros(Width(image)))
  }

  /** The image holds these libraries, one descriptor after another and twenty zero bytes after the last. */
  ghost predicate Written(image: Image, mem: Memory, parts: seq<Part>) {
    && image.base + image.sizeOfImage <= MAX_U64
    && image.importRva != 0 && image.importRva + image.importSize <= image.sizeOfImage
    && 20 * (|parts| + 1) <= image.importSize < 20 * 66
    && (forall i {:trigger parts[i]} :: 0 <= i < |parts| ==>
          Holds(mem, image.base + image.importRva + 20 * i, DescriptorBytes(parts[i])) && PartAt(image, mem, parts[i]))
    && Holds(mem, image.base + image.importRva + 20 * |parts|, Zeros(20))
    && DistinctSlots(Imports(image, parts)) && |Imports(image, parts)| <= 16384
  }

  /** What was written: the imports, each with the slot the loader fills in for it, */
  function Imports(image: Image, parts: seq<Part>): seq<Import> {
    if parts == [] then []
    else
      var part := parts[|parts| - 1];
      Imports(image, parts[..|parts| - 1])
        + seq(|part.entries|, j requires 0 <= j < |part.entries| =>
                Import(part.text, NameOf(part.entries[j]), image.base + part.iat + Width(image) * j))
  }

  /** and the libraries whose imports are not named. */
  function Unnamed(parts: seq<Part>): seq<seq<byte>> {
    if parts == [] then []
    else
      var part := parts[|parts| - 1];
      Unnamed(parts[..|parts| - 1]) + if part.lookup == 0 then [part.text] else []
  }

  function NameOf(entry: Entry): ImportName {
    match entry
    case ByOrdinal(n) => Ordinal(n)
    case ByName(_, text) => Named(text)
  }

  // ----- What a name's text may be

  /** The encoding of any text is accepted as text, */
  lemma {:induction false} TextIsAccepted(text: seq<scalar>)
    ensures IsUtf8(Utf8(text))
  {
    if text != [] {
      TextIsAccepted(text[1..]);
      FirstIsAccepted(text[0], Utf8(text[1..]));
    }
  }

  lemma FirstIsAccepted(c: scalar, rest: seq<byte>)
    requires IsUtf8(rest)
    ensures IsUtf8(Utf8Of(c) + rest)
  {
    hide Utf8;
    var bytes := Utf8Of(c) + rest;
    assert bytes[|Utf8Of(c)|..] == rest;
  }

  /** and nothing else is: what is accepted is the encoding of some text. */
  lemma {:induction false} AcceptedIsText(bytes: seq<byte>) returns (text: seq<scalar>)
    requires IsUtf8(bytes)
    ensures Utf8(text) == bytes
    decreases |bytes|
  {
    if bytes == [] {
      text := [];
    } else {
      var c, n := FirstOf(bytes);
      var rest := AcceptedIsText(bytes[n..]);
      text := [c] + rest;
      assert text[1..] == rest && bytes == bytes[..n] + bytes[n..];
    }
  }

  /** The first character of accepted bytes, and how many of them it takes. */
  lemma FirstOf(bytes: seq<byte>) returns (c: scalar, n: nat)
    requires IsUtf8(bytes) && bytes != []
    ensures 0 < n <= |bytes| && Utf8Of(c) == bytes[..n] && IsUtf8(bytes[n..])
  {
    var b := bytes[0];
    if b < 0x80 {
      c, n := b, 1;
    } else if b < 0xe0 {
      n := 2;
      c := Two(b, bytes[1]);
    } else if b < 0xf0 {
      n := 3;
      c := Three(b, bytes[1], bytes[2]);
    } else {
      n := 4;
      c := Four(b, bytes[1], bytes[2], bytes[3]);
    }
  }

  lemma Two(a: byte, b: byte) returns (c: scalar)
    requires 0xc2 <= a <= 0xdf && Trails(b)
    ensures Utf8Of(c) == [a, b]
  {
    var w: int, x: int := a as int - 0xc0, b as int - 0x80;
    c := w * 0x40 + x;
  }

  lemma Three(a: byte, b: byte, d: byte) returns (c: scalar)
    requires 0xe0 <= a <= 0xef && Trails(b) && Trails(d) && (a == 0xe0 ==> b >= 0xa0) && (a == 0xed ==> b <= 0x9f)
    ensures Utf8Of(c) == [a, b, d]
  {
    var w: int, x: int, y: int := a as int - 0xe0, b as int - 0x80, d as int - 0x80;
    c := w * 0x1000 + x * 0x40 + y;
    DividesAs(c, w, x * 0x40 + y, 0x1000);
    DividesAs(c, w * 0x40 + x, y, 0x40);
    DividesAs(w * 0x40 + x, w, x, 0x40);
  }

  lemma Four(a: byte, b: byte, d: byte, e: byte) returns (c: scalar)
    requires 0xf0 <= a <= 0xf4 && Trails(b) && Trails(d) && Trails(e) && (a == 0xf0 ==> b >= 0x90) && (a == 0xf4 ==> b <= 0x8f)
    ensures Utf8Of(c) == [a, b, d, e]
  {
    var w: int, x: int, y: int, z: int := a as int - 0xf0, b as int - 0x80, d as int - 0x80, e as int - 0x80;
    c := w * 0x4_0000 + x * 0x1000 + y * 0x40 + z;
    DividesAs(c, w, x * 0x1000 + y * 0x40 + z, 0x4_0000);
    DividesAs(c, w * 0x40 + x, y * 0x40 + z, 0x1000);
    DividesAs(c, w * 0x1000 + x * 0x40 + y, z, 0x40);
    DividesAs(w * 0x40 + x, w, x, 0x40);
    DividesAs(w * 0x1000 + x * 0x40 + y, w * 0x40 + x, y, 0x40);
  }

  /** A name is at most 511 bytes, and no read for one leaves the 512 bytes from its start or crosses into another 512-byte granule. */
  lemma NamesAreBounded(image: Image, mem: Memory, rva: u32, name: seq<byte>, asked: set<Ask>, ask: Ask)
    requires IsName(image, mem, rva, name) && Only(image, asked, NameChunk(rva)) && ask in asked
    ensures |name| <= 511
    ensures var from, to := ask.span.start - image.base, ask.span.start - image.base + ask.span.len;
      rva <= from && to <= rva + 512 && to <= from / 0x200 * 0x200 + 0x200
  {
  }

  // ----- Taking the bytes apart

  /** A descriptor's fields come back from its bytes, each in its own place. */
  lemma DescriptorDecoded(part: Part)
    ensures DescriptorIn(DescriptorBytes(part)) == Descriptor(part.lookup, part.stamp, part.forwarder, part.name, part.iat)
  {
    hide LE32, U32;
    var bytes := DescriptorBytes(part);
    assert bytes[0..4] == LE32(part.lookup) && bytes[4..8] == LE32(part.stamp) && bytes[8..12] == LE32(part.forwarder)
        && bytes[12..16] == LE32(part.name) && bytes[16..20] == LE32(part.iat);
    Decoded32(part.lookup);
    Decoded32(part.stamp);
    Decoded32(part.forwarder);
    Decoded32(part.name);
    Decoded32(part.iat);
  }

  lemma ZerosDecoded()
    ensures DescriptorIn(Zeros(20)).IsNull() && ThunkIn(Bits32, Zeros(4)) == 0 && ThunkIn(Bits64, Zeros(8)) == 0
  {
    hide U32;
    assert forall n: nat, m: nat :: n <= m <= 20 ==> Zeros(20)[n..m] == Zeros(m - n);
    assert Zeros(8)[..4] == Zeros(4) && Zeros(8)[4..8] == Zeros(4);
    ZeroDecoded();
  }

  /** A descriptor ends the table only when every byte of it is zero. */
  lemma NullIsAllZeros(bytes: seq<byte>)
    requires |bytes| == 20
    ensures DescriptorIn(bytes).IsNull() <==> forall i :: 0 <= i < 20 ==> bytes[i] == 0
  {
    hide U32;
    FieldIsZero(bytes[0..4]);
    FieldIsZero(bytes[4..8]);
    FieldIsZero(bytes[8..12]);
    FieldIsZero(bytes[12..16]);
    FieldIsZero(bytes[16..20]);
    assert forall i :: 0 <= i < 4 ==> bytes[0..4][i] == bytes[i] && bytes[4..8][i] == bytes[4 + i] && bytes[8..12][i] == bytes[8 + i]
                                      && bytes[12..16][i] == bytes[12 + i] && bytes[16..20][i] == bytes[16 + i];
  }

  lemma FieldIsZero(bytes: seq<byte>)
    requires |bytes| == 4
    ensures U32(bytes) == 0 <==> bytes[0] == bytes[1] == bytes[2] == bytes[3] == 0
  {
  }

  lemma ZeroDecoded()
    ensures U32(Zeros(4)) == 0
  {
  }

  /** So does a lookup entry's value, at either width. */
  lemma EntryDecoded(bitness: Bitness, entry: Entry)
    ensures ThunkIn(bitness, EntryBytes(bitness, entry)) ==
      match entry
      case ByOrdinal(n) => (if bitness.Bits32? then 0x8000_0000 else 0x8000_0000_0000_0000) + n
      case ByName(hint, _) => hint
  {
    hide LE32, LE64, U32, U64;
    match entry
    case ByOrdinal(n) =>
      Decoded32(0x8000_0000 + n);
      Decoded64(0x8000_0000_0000_0000 + n);
    case ByName(hint, _) =>
      Decoded32(hint);
      Decoded64(hint);
  }

  // ----- What is written is the table memory holds

  function LibraryOf(part: Part): Library {
    if part.lookup == 0 then Bound(part.text) else Listed(part.text, part.iat, NamesOf(part.entries))
  }

  function NamesOf(entries: seq<Entry>): (names: seq<ImportName>)
    ensures |names| == |entries|
  {
    seq(|entries|, j requires 0 <= j < |entries| => NameOf(entries[j]))
  }

  function LibrariesOf(parts: seq<Part>): (libs: seq<Library>)
    ensures |libs| == |parts|
  {
    seq(|parts|, i requires 0 <= i < |parts| => LibraryOf(parts[i]))
  }

  lemma TextIsName(image: Image, mem: Memory, rva: int, text: seq<byte>)
    requires TextAt(image, mem, rva, text) && image.base + image.sizeOfImage <= MAX_U64
    ensures IsName(image, mem, rva, text)
  {
  }

  lemma HeldEntry(image: Image, mem: Memory, table: int, j: nat, bytes: seq<byte>)
    requires Holds(mem, image.base + table + Width(image) * j, bytes) && |bytes| == Width(image)
    ensures HasThunk(image, mem, table, j) && Thunk(image, mem, table, j) == ThunkIn(image.bitness, bytes)
  {
    var at := image.base + table + Width(image) * j;
    HeldWindow(mem, at, bytes, 0, |bytes|);
    assert at + 0 == image.base + EntryRva(image, table, j) && bytes[0..|bytes|] == bytes;
  }

  lemma EntryIsThere(image: Image, mem: Memory, part: Part, j: nat, entry: Entry)
    requires image.base + image.sizeOfImage <= MAX_U64 && EntryAt(image, mem, part, j, entry)
    ensures HasEntry(image, mem, part.lookup, part.iat, j)
    ensures IsThunk(image, mem, Thunk(image, mem, part.lookup, j), NameOf(entry))
  {
    hide EntryBytes, ThunkIn, HasThunk, IsName, TextAt;
    HeldEntry(image, mem, part.lookup, j, EntryBytes(image.bitness, entry));
    EntryDecoded(image.bitness, entry);
    if entry.ByName? {
      TextIsName(image, mem, entry.hint + 2, entry.text);
    }
  }

  lemma RunIsThere(image: Image, mem: Memory, part: Part)
    requires image.base + image.sizeOfImage <= MAX_U64 && PartAt(image, mem, part) && part.lookup != 0
    ensures IsRun(image, mem, part.lookup, part.iat, NamesOf(part.entries))
  {
    hide TextAt, EntryAt, IsThunk, HasThunk, Thunk, ThunkIn, Zeros, Holds, Readable;
    var names := NamesOf(part.entries);
    forall j: nat | j < |names|
      ensures HasEntry(image, mem, part.lookup, part.iat, j) && IsThunk(image, mem, Thunk(image, mem, part.lookup, j), names[j])
    {
      EntryIsThere(image, mem, part, j, part.entries[j]);
    }
    HeldEntry(image, mem, part.lookup, |part.entries|, Zeros(Width(image)));
    ZerosDecoded();
  }

  lemma PartIsLibrary(image: Image, mem: Memory, part: Part)
    requires image.base + image.sizeOfImage <= MAX_U64 && PartAt(image, mem, part)
    ensures IsLibrary(image, mem, Descriptor(part.lookup, part.stamp, part.forwarder, part.name, part.iat), LibraryOf(part))
  {
    hide TextAt, EntryAt, IsName, IsRun, Holds, NamesOf;
    TextIsName(image, mem, part.name, part.text);
    if part.lookup != 0 {
      RunIsThere(image, mem, part);
    }
  }

  lemma {:induction false} TableIsWritten(image: Image, parts: seq<Part>)
    requires forall i :: 0 <= i < |parts| && parts[i].lookup == 0 ==> parts[i].entries == []
    ensures TableOf(image, LibrariesOf(parts)) == ImportTable(Imports(image, parts), Unnamed(parts))
  {
    if parts != [] {
      var n := |parts| - 1;
      TableIsWritten(image, parts[..n]);
      assert LibrariesOf(parts)[..n] == LibrariesOf(parts[..n]);
      var part := parts[n];
      assert LibraryImports(image, LibraryOf(part)) ==
        seq(|part.entries|, j requires 0 <= j < |part.entries| =>
              Import(part.text, NameOf(part.entries[j]), image.base + part.iat + Width(image) * j));
    }
  }

  lemma DescriptorIsThere(image: Image, mem: Memory, i: nat, bytes: seq<byte>)
    requires Holds(mem, image.base + image.importRva + 20 * i, bytes) && |bytes| == 20
    ensures Readable(mem, DescriptorAddress(image, i), 20) && DescriptorAt(image, mem, i) == DescriptorIn(bytes)
  {
    HeldWindow(mem, DescriptorAddress(image, i), bytes, 0, 20);
    assert bytes[0..20] == bytes && DescriptorAddress(image, i) + 0 == DescriptorAddress(image, i);
  }

  /** The bytes of these libraries are a table of them, and of nothing else. */
  lemma WrittenIsTable(image: Image, mem: Memory, parts: seq<Part>)
    requires Written(image, mem, parts)
    ensures IsTable(image, mem, LibrariesOf(parts))
    ensures TableOf(image, LibrariesOf(parts)) == ImportTable(Imports(image, parts), Unnamed(parts))
  {
    hide DescriptorBytes, DescriptorIn, DescriptorAt, PartAt, IsLibrary, Imports, Unnamed, ImportsOf, UnnamedOf, Zeros, Readable;
    forall i: nat | i < |parts|
      ensures Readable(mem, DescriptorAddress(image, i), 20)
      ensures IsLibrary(image, mem, DescriptorAt(image, mem, i), LibrariesOf(parts)[i])
      ensures parts[i].lookup == 0 ==> parts[i].entries == []
    {
      DescriptorIsThere(image, mem, i, DescriptorBytes(parts[i]));
      DescriptorDecoded(parts[i]);
      PartIsLibrary(image, mem, parts[i]);
      BoundIsEmpty(image, mem, parts[i]);
    }
    DescriptorIsThere(image, mem, |parts|, Zeros(20));
    ZerosDecoded();
    TableIsWritten(image, parts);
  }

  lemma BoundIsEmpty(image: Image, mem: Memory, part: Part)
    requires PartAt(image, mem, part)
    ensures part.lookup == 0 ==> part.entries == []
  {
  }

  lemma LoadedIsCovered(image: Image, mem: Memory, libs: seq<Library>)
    requires IsTable(image, mem, libs) && image.importRva != 0
    requires image.base + image.sizeOfImage <= MAX_U64 && Readable(mem, image.base, image.sizeOfImage)
    ensures Covered(image, mem, libs)
  {
    hide DistinctSlots, ImportsOf, DescriptorAt, IsLibrary, LibraryCovered;
    forall i | 0 <= i < |libs| ensures LibraryCovered(image, mem, DescriptorAt(image, mem, i), libs[i]) {
      LoadedLibrary(image, mem, DescriptorAt(image, mem, i), libs[i]);
    }
  }

  lemma LoadedLibrary(image: Image, mem: Memory, d: Descriptor, lib: Library)
    requires IsLibrary(image, mem, d, lib)
    requires image.base + image.sizeOfImage <= MAX_U64 && Readable(mem, image.base, image.sizeOfImage)
    ensures LibraryCovered(image, mem, d, lib)
  {
    hide IsThunk, Thunk, IsName, NameCovered, HasThunk, Readable;
    LoadedName(image, mem, d.name, lib.name);
    if lib.Listed? {
      forall j | 0 <= j < |lib.names| && lib.names[j].Named?
        ensures LoadedThunk(image, mem, Thunk(image, mem, d.lookup, j), lib.names[j].text)
      {
        ThunkIsLoaded(image, mem, Thunk(image, mem, d.lookup, j), lib.names[j].text);
      }
    }
  }

  ghost predicate LoadedThunk(image: Image, mem: Memory, value: u64, text: seq<byte>) {
    IsName(image, mem, value + 2, text) && NameCovered(image, mem, value + 2, text)
  }

  lemma ThunkIsLoaded(image: Image, mem: Memory, value: u64, text: seq<byte>)
    requires IsThunk(image, mem, value, Named(text))
    requires image.base + image.sizeOfImage <= MAX_U64 && Readable(mem, image.base, image.sizeOfImage)
    ensures LoadedThunk(image, mem, value, text)
  {
    hide IsName, NameCovered, Readable;
    LoadedName(image, mem, value + 2, text);
  }

  lemma LoadedName(image: Image, mem: Memory, rva: int, name: seq<byte>)
    requires IsName(image, mem, rva, name) && 0 <= rva
    requires image.base + image.sizeOfImage <= MAX_U64 && Readable(mem, image.base, image.sizeOfImage)
    ensures NameCovered(image, mem, rva, name)
  {
    hide GranuleEnd;
  }

  /** An image that was written and is all there is read back as it was written. */
  method ReadWritten(image: Image, read: Reader, halt: nat -> bool, ghost mem: Memory, ghost parts: seq<Part>)
    returns (r: Result<ImportTable, PeError>)
    requires Written(image, mem, parts) && Readable(mem, image.base, image.sizeOfImage)
    requires Honest(read, mem) && Prompt(read, mem) && forall k :: !halt(k)
    ensures r == Ok(ImportTable(Imports(image, parts), Unnamed(parts)))
  {
    hide Written, IsTable, Covered, Honest, Prompt, Readable, TableOf, Imports, Unnamed, LibrariesOf;
    WrittenIsTable(image, mem, parts);
    WrittenInTheImage(image, mem, parts);
    LoadedIsCovered(image, mem, LibrariesOf(parts));
    assert TableAwaits(image, read, halt, mem, LibrariesOf(parts));
    ghost var libs, asked;
    var tick, polls;
    r, tick, polls, libs, asked := ReadImports(image, read, halt, mem);
    TableIsUnique(image, mem, libs, LibrariesOf(parts));
  }

  lemma WrittenInTheImage(image: Image, mem: Memory, parts: seq<Part>)
    requires Written(image, mem, parts)
    ensures image.importRva != 0 && image.base + image.sizeOfImage <= MAX_U64
  {
  }
}
