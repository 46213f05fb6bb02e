/**
 * A kernel's object namespace as it is written: the buckets and chains of a directory, and the
 * headers, names, types and security descriptors of the objects in it. Listing a directory so
 * written gives back what was written.
 *
 * The bytes are laid down here by plain arithmetic on offsets, modulo the address space, and share
 * nothing with the reads that take them apart.
 */
module ObjectBytes {
  import opened Machine
  import opened ByteMemory
  import opened Unicode
  import opened Session
  import opened UpcaseFold
  import opened ObjectNames
  import opened ObjectPaths
  import opened ObjectDirectory
  import opened Namespace

  const SPACE: int := 0x1_0000_0000_0000_0000

  /** The kernel answers with the bytes, and its layout is one a walk is made with. */
  ghost predicate Served(k: Kernel, bytes: ByteMemory.Memory) {
    && Reading(k.mem, bytes) && k.layout.Checked()
    && k.layout.unicodeLength + 4 <= k.layout.unicodeBuffer + k.layout.pointer
  }

  /** A pointer of the kernel's own width is at an address. */
  ghost predicate PointsAt(k: Kernel, bytes: ByteMemory.Memory, at: int, to: u64) {
    if k.layout.pointer == 4 then to <= 0xffff_ffff && Holds(bytes, at % SPACE, LE32(to))
    else Holds(bytes, at % SPACE, LE64(to))
  }

  ghost predicate ByteAt(bytes: ByteMemory.Memory, at: int, value: byte) { bytes(at % SPACE) == Some(value) }

  // ----- Directories

  /** One entry of a chain: where it is, and the object it holds. */
  datatype Link = Link(at: u64, body: u64)

  ghost predicate LinkAt(k: Kernel, bytes: ByteMemory.Memory, link: Link, next: u64) {
    && link.at != 0
    && PointsAt(k, bytes, link.at + k.layout.entryObject, link.body)
    && PointsAt(k, bytes, link.at + k.layout.entryChain, next)
  }

  function First(chain: seq<Link>): u64 { if chain == [] then 0 else chain[0].at }

  ghost predicate ChainAt(k: Kernel, bytes: ByteMemory.Memory, chain: seq<Link>) {
    forall i :: 0 <= i < |chain| ==> LinkAt(k, bytes, chain[i], First(chain[i + 1..]))
  }

  function Length(chains: seq<seq<Link>>): nat {
    if chains == [] then 0 else Length(chains[..|chains| - 1]) + |chains[|chains| - 1]|
  }

  ghost predicate BucketAt(k: Kernel, bytes: ByteMemory.Memory, directory: u64, b: nat, chain: seq<Link>) {
    PointsAt(k, bytes, directory + k.layout.hashBuckets + b * k.layout.pointer, First(chain)) && ChainAt(k, bytes, chain)
  }

  ghost predicate DirectoryAt(k: Kernel, bytes: ByteMemory.Memory, directory: u64, chains: seq<seq<Link>>) {
    && |chains| == k.layout.buckets && Length(chains) <= 65536
    && forall b :: 0 <= b < |chains| ==> BucketAt(k, bytes, directory, b, chains[b])
  }

  /** The objects of a chain and of a directory, in order, without the entries that hold none. */
  function ObjectsHeld(chain: seq<Link>): seq<u64> {
    if chain == [] then []
    else
      var last := chain[|chain| - 1];
      ObjectsHeld(chain[..|chain| - 1]) + if last.body == 0 then [] else [last.body]
  }

  function AllHeld(chains: seq<seq<Link>>): seq<u64> {
    if chains == [] then [] else AllHeld(chains[..|chains| - 1]) + ObjectsHeld(chains[|chains| - 1])
  }

  function Ats(chain: seq<Link>): (r: seq<u64>)
    ensures |r| == |chain|
  {
    seq(|chain|, i requires 0 <= i < |chain| => chain[i].at)
  }

  function AllAts(chains: seq<seq<Link>>): (r: seq<seq<u64>>)
    ensures |r| == |chains|
  {
    seq(|chains|, b requires 0 <= b < |chains| => Ats(chains[b]))
  }

  lemma PointerIsRead(k: Kernel, bytes: ByteMemory.Memory, at: int, to: u64)
    requires Served(k, bytes) && PointsAt(k, bytes, at, to)
    ensures PointerAt(k.mem, k.layout, at % SPACE) == Ok(to)
  {
    hide LE32, LE64, U32, U64, Reading, Holds;
    if k.layout.pointer == 4 {
      HeldIsRead(k.mem, bytes, at % SPACE, LE32(to));
      Decoded32(to);
    } else {
      HeldIsRead(k.mem, bytes, at % SPACE, LE64(to));
      Decoded64(to);
    }
  }

  lemma WrapTwice(x: int, y: int)
    ensures Wrap(Wrap(x) + y) == (x + y) % SPACE
  {
  }

  lemma LinkIsRead(k: Kernel, bytes: ByteMemory.Memory, link: Link, next: u64)
    requires Served(k, bytes) && LinkAt(k, bytes, link, next)
    ensures Reads(k.mem, k.layout, link.at) && ObjectOf(k.mem, k.layout, link.at) == link.body && LinkOf(k.mem, k.layout, link.at) == next
  {
    hide PointsAt, PointerAt, Reading;
    PointerIsRead(k, bytes, link.at + k.layout.entryObject, link.body);
    PointerIsRead(k, bytes, link.at + k.layout.entryChain, next);
  }

  lemma ChainIsRead(k: Kernel, bytes: ByteMemory.Memory, chain: seq<Link>)
    requires Served(k, bytes) && ChainAt(k, bytes, chain)
    ensures IsChain(k.mem, k.layout, First(chain), Ats(chain))
  {
    hide LinkAt, Reads, LinkOf, ObjectOf, Reading;
    forall i | 0 <= i < |chain|
      ensures chain[i].at != 0 && Reads(k.mem, k.layout, chain[i].at) && LinkOf(k.mem, k.layout, chain[i].at) == First(chain[i + 1..])
    {
      LinkIsRead(k, bytes, chain[i], First(chain[i + 1..]));
      LinkIsSomewhere(k, bytes, chain[i], First(chain[i + 1..]));
    }
  }

  lemma LinkIsSomewhere(k: Kernel, bytes: ByteMemory.Memory, link: Link, next: u64)
    requires LinkAt(k, bytes, link, next)
    ensures link.at != 0
  {
  }

  lemma {:induction false} HeldAreRead(k: Kernel, bytes: ByteMemory.Memory, chain: seq<Link>, n: nat)
    requires Served(k, bytes) && ChainAt(k, bytes, chain) && n <= |chain|
    ensures ObjectsOn(k.mem, k.layout, Ats(chain)[..n]) == ObjectsHeld(chain[..n])
  {
    hide LinkAt, Reads, ObjectOf, Reading;
    if n > 0 {
      HeldAreRead(k, bytes, chain, n - 1);
      LinkIsRead(k, bytes, chain[n - 1], First(chain[n..]));
      assert Ats(chain)[..n][..n - 1] == Ats(chain)[..n - 1] && chain[..n][..n - 1] == chain[..n - 1];
    }
  }

  lemma BucketIsRead(k: Kernel, bytes: ByteMemory.Memory, directory: u64, b: nat, chain: seq<Link>)
    requires Served(k, bytes) && BucketAt(k, bytes, directory, b, chain)
    ensures IsBucket(k.mem, k.layout, directory, b, Ats(chain)) && ObjectsOn(k.mem, k.layout, Ats(chain)) == ObjectsHeld(chain)
  {
    hide PointsAt, PointerAt, Reading, ChainAt, IsChain, ObjectsOn;
    PointerIsRead(k, bytes, directory + k.layout.hashBuckets + b * k.layout.pointer, First(chain));
    WrapTwice(directory + k.layout.hashBuckets, b * k.layout.pointer);
    ChainIsRead(k, bytes, chain);
    HeldAreRead(k, bytes, chain, |chain|);
    assert Ats(chain)[..|chain|] == Ats(chain) && chain[..|chain|] == chain;
  }

  lemma {:induction false} BucketsAreRead(k: Kernel, bytes: ByteMemory.Memory, directory: u64, chains: seq<seq<Link>>)
    requires Served(k, bytes) && forall b :: 0 <= b < |chains| ==> BucketAt(k, bytes, directory, b, chains[b])
    ensures ObjectsIn(k.mem, k.layout, AllAts(chains)) == AllHeld(chains) && Links(AllAts(chains)) == Length(chains)
  {
    hide BucketAt, ObjectsOn, ObjectsHeld, Reading;
    if chains != [] {
      var n := |chains| - 1;
      BucketsAreRead(k, bytes, directory, chains[..n]);
      BucketIsRead(k, bytes, directory, n, chains[n]);
      assert AllAts(chains)[..n] == AllAts(chains[..n]);
    }
  }

  /** Every bucket's chain is read from where it was written, and holds what was written. */
  lemma DirectoryIsRead(k: Kernel, bytes: ByteMemory.Memory, directory: u64, chains: seq<seq<Link>>)
    requires Served(k, bytes) && DirectoryAt(k, bytes, directory, chains)
    ensures IsDirectory(k.mem, k.layout, directory, AllAts(chains)) && ObjectsIn(k.mem, k.layout, AllAts(chains)) == AllHeld(chains)
  {
    hide BucketAt, IsBucket, ObjectsIn, ObjectsOn, Links, Length, Reading;
    BucketsAreRead(k, bytes, directory, chains);
    forall b | 0 <= b < |chains| ensures IsBucket(k.mem, k.layout, directory, b, AllAts(chains)[b]) {
      BucketIsRead(k, bytes, directory, b, chains[b]);
    }
  }

  // ----- Names

  /** A counted string: its length and capacity in bytes, and where its units are. */
  datatype Counted = Counted(units: seq<u16>, capacity: u16, buffer: u64)

  ghost predicate CountedAt(k: Kernel, bytes: ByteMemory.Memory, at: u64, name: Counted) {
    && 2 * |name.units| <= name.capacity
    && LengthsAt(k, bytes, at, 2 * |name.units|, name.capacity) && PointsAt(k, bytes, at + k.layout.unicodeBuffer, name.buffer)
    && (name.units != [] ==> name.buffer != 0)
    && forall i :: 0 <= i < |name.units| ==> UnitAt(bytes, name.buffer, i, name.units[i])
  }

  /** The whole structure is there, with these two lengths in it. */
  ghost predicate LengthsAt(k: Kernel, bytes: ByteMemory.Memory, at: u64, length: u16, capacity: u16) {
    && Readable(bytes, at, k.layout.unicodeBuffer + k.layout.pointer)
    && Holds(bytes, at + k.layout.unicodeLength, LE16(length) + LE16(capacity))
  }

  ghost predicate UnitAt(bytes: ByteMemory.Memory, buffer: u64, i: nat, unit: u16) {
    Holds(bytes, buffer + 2 * i, LE16(unit))
  }

  lemma LengthsAreRead(k: Kernel, bytes: ByteMemory.Memory, at: u64, length: u16, capacity: u16)
    requires Served(k, bytes) && LengthsAt(k, bytes, at, length, capacity)
    ensures var r := ReadBytes(k.mem, at, k.layout.unicodeBuffer + k.layout.pointer);
      r.Ok? && FieldAt(r.value, k.layout.unicodeLength) == Ok(length) && FieldAt(r.value, k.layout.unicodeLength + 2) == Ok(capacity)
  {
    hide Reading, LE16, U16, Holds, Readable, Window;
    var size: nat, from: nat := k.layout.unicodeBuffer + k.layout.pointer, k.layout.unicodeLength;
    ThereIsRead(k.mem, bytes, at, size);
    HalvesHeld(bytes, at + from, length, capacity);
    FieldInWindow(bytes, at, size, from, length);
    FieldInWindow(bytes, at, size, from + 2, capacity);
  }

  lemma HalvesHeld(bytes: ByteMemory.Memory, at: int, low: u16, high: u16)
    requires Holds(bytes, at, LE16(low) + LE16(high))
    ensures Holds(bytes, at, LE16(low)) && Holds(bytes, at + 2, LE16(high))
  {
    hide LE16;
    var both := LE16(low) + LE16(high);
    assert both[0] == LE16(low)[0] && both[1] == LE16(low)[1] && both[2] == LE16(high)[0] && both[3] == LE16(high)[1];
    assert bytes(at + 2) == Some(both[2]) && bytes(at + 3) == Some(both[3]);
  }

  lemma FieldInWindow(bytes: ByteMemory.Memory, at: int, size: nat, from: nat, value: u16)
    requires Readable(bytes, at, size) && from + 2 <= size && Holds(bytes, at + from, LE16(value))
    ensures U16(Window(bytes, at, size)[from..]) == value
  {
    hide LE16, U16;
    var read := Window(bytes, at, size);
    assert bytes(at + from + 0) == Some(LE16(value)[0]) && bytes(at + from + 1) == Some(LE16(value)[1]);
    assert read[from..from + 2] == LE16(value);
    FirstTwo(read, from);
    Decoded16(value);
  }

  lemma FirstTwo(bytes: seq<byte>, from: nat)
    requires from + 2 <= |bytes|
    ensures U16(bytes[from..]) == U16(bytes[from..from + 2])
  {
  }

  lemma UnitsAreRead(k: Kernel, bytes: ByteMemory.Memory, buffer: u64, units: seq<u16>)
    requires Served(k, bytes) && forall i :: 0 <= i < |units| ==> UnitAt(bytes, buffer, i, units[i])
    ensures var r := ReadBytes(k.mem, buffer, 2 * |units|); r.Ok? && UnitsOf(r.value[..2 * |units|]) == units
  {
    hide Reading, LE16, U16;
    forall a | buffer <= a < buffer + 2 * |units| ensures bytes(a).Some? {
      var i, j := (a - buffer) / 2, (a - buffer) % 2;
      assert UnitAt(bytes, buffer, i, units[i]);
      assert bytes(buffer + 2 * i + j) == Some(LE16(units[i])[j]);
    }
    ThereIsRead(k.mem, bytes, buffer, 2 * |units|);
    var read := Window(bytes, buffer, 2 * |units|);
    assert read[..2 * |units|] == read;
    forall i | 0 <= i < |units| ensures U16(read[2 * i..]) == units[i] {
      FieldInWindow(bytes, buffer, 2 * |units|, 2 * i, units[i]);
    }
    assert |UnitsOf(read)| == |units|;
  }

  /** A counted string comes back as the units it was written with, and says whether they are text. */
  lemma NameIsRead(k: Kernel, bytes: ByteMemory.Memory, at: u64, name: Counted, bound: nat)
    requires Served(k, bytes) && CountedAt(k, bytes, at, name)
    ensures UnicodeAt(k.mem, k.layout, at, bound) ==
      if name.units == [] || 2 * |name.units| <= bound then Ok((Rendered(name.units), IsText(name.units))) else Err(TooMany)
  {
    hide PointsAt, PointerAt, LengthsAt, ReadBytes, FieldAt, UnitsOf, UnitAt, Reading;
    LengthsAreRead(k, bytes, at, 2 * |name.units|, name.capacity);
    PointerIsRead(k, bytes, at + k.layout.unicodeBuffer, name.buffer);
    UnitsAreRead(k, bytes, name.buffer, name.units);
  }

  /** One that contradicts itself is refused: longer than its own capacity, of half a unit, or with its units nowhere. */
  lemma NameIsRefused(k: Kernel, bytes: ByteMemory.Memory, at: u64, length: u16, capacity: u16, buffer: u64, bound: nat)
    requires Served(k, bytes) && LengthsAt(k, bytes, at, length, capacity) && PointsAt(k, bytes, at + k.layout.unicodeBuffer, buffer)
    ensures length > capacity || length % 2 == 1 || (length > 0 && buffer == 0) ==> UnicodeAt(k.mem, k.layout, at, bound) == Err(ObjectError.Malformed)
  {
    hide PointsAt, PointerAt, LengthsAt, ReadBytes, FieldAt, UnitsOf, Reading;
    LengthsAreRead(k, bytes, at, length, capacity);
    PointerIsRead(k, bytes, at + k.layout.unicodeBuffer, buffer);
  }

  // ----- Which names are text

  /** The units of any text are text, */
  lemma {:induction false} TextIsAccepted(text: seq<scalar>)
    ensures IsText(Unicode.Utf16(text))
  {
    if text != [] {
      TextIsAccepted(text[1..]);
      var units := Utf16Of(text[0]) + Unicode.Utf16(text[1..]);
      assert units[|Utf16Of(text[0])|..] == Unicode.Utf16(text[1..]);
    }
  }

  /** and no other units are. */
  lemma {:induction false} AcceptedIsText(units: seq<u16>) returns (text: seq<scalar>)
    requires IsText(units)
    ensures Unicode.Utf16(text) == units
    decreases |units|
  {
    if units == [] {
      text := [];
    } else if IsHigh(units[0]) {
      var c: scalar := 0x1_0000 + (units[0] as int - 0xd800) * 0x400 + (units[1] as int - 0xdc00);
      DividesAs(c - 0x1_0000, units[0] as int - 0xd800, units[1] as int - 0xdc00, 0x400);
      var rest := AcceptedIsText(units[2..]);
      text := [c] + rest;
      assert text[1..] == rest && units == Utf16Of(c) + units[2..];
    } else {
      var rest := AcceptedIsText(units[1..]);
      var c: scalar := units[0];
      text := [c] + rest;
      assert text[1..] == rest && units == [units[0]] + units[1..];
    }
  }

  /** A rendering shows each unit as it is, but for halves of pairs, shown as the replacement character where the other half is not beside them. */
  lemma {:induction false} UnitIsShown(units: seq<u16>, i: nat)
    requires i < |units|
    ensures |Rendered(units)| == |units|
    ensures Rendered(units)[i] == units[i] || (Rendered(units)[i] == 0xfffd && 0xd800 <= units[i] < 0xe000)
    ensures 0xd800 <= units[i] < 0xdc00 && (i + 1 == |units| || !(0xdc00 <= units[i + 1] < 0xe000)) ==> Rendered(units)[i] == 0xfffd
    ensures 0xdc00 <= units[i] < 0xe000 && (i == 0 || !(0xd800 <= units[i - 1] < 0xdc00)) ==> Rendered(units)[i] == 0xfffd
    decreases |units|
  {
    RenderingIsText(units);
    if IsHigh(units[0]) && |units| > 1 && IsLow(units[1]) {
      if i >= 2 {
        UnitIsShown(units[2..], i - 2);
      }
    } else if i >= 1 {
      UnitIsShown(units[1..], i - 1);
    }
  }

  // ----- Objects

  function HeaderAt(k: Kernel, body: u64): int { body - k.layout.headerBody }

  lemma ByteIsRead(k: Kernel, bytes: ByteMemory.Memory, at: int, value: byte)
    requires Served(k, bytes) && ByteAt(bytes, at, value)
    ensures ReadBytes(k.mem, at % SPACE, 1) == Ok([value])
  {
    hide Reading;
    assert Holds(bytes, at % SPACE, [value]);
    HeldIsRead(k.mem, bytes, at % SPACE, [value]);
  }

  /** An object's name is in a header of its own, as far before the object's as the kernel's table says for the headers it has. */
  ghost predicate NamedAt(k: Kernel, bytes: ByteMemory.Memory, body: u64, mask: byte, distance: byte, name: Counted) {
    && ByteAt(bytes, HeaderAt(k, body) + k.layout.headerInfoMask, mask) && mask % 4 in {2, 3}
    && k.globals.infoMaskToOffset.Some? && ByteAt(bytes, k.globals.infoMaskToOffset.value + mask % 4, distance)
    && distance >= k.layout.nameInfoSize
    && CountedAt(k, bytes, (HeaderAt(k, body) - distance + k.layout.nameInfoName) % SPACE, name) && |name.units| <= 512
  }

  lemma NameIsFound(k: Kernel, bytes: ByteMemory.Memory, body: u64, mask: byte, distance: byte, name: Counted)
    requires Served(k, bytes) && NamedAt(k, bytes, body, mask, distance, name)
    ensures NameOf(k.mem, k.layout, k.globals, body) == Ok(Some((Rendered(name.units), IsText(name.units))))
  {
    hide UnicodeAt, ReadBytes, CountedAt, ByteAt, Wrap, Reading, Rendered, IsText;
    var header := HeaderAt(k, body);
    WrapTwice(header, k.layout.headerInfoMask);
    WrapTwice(header, 0 - distance);
    WrapTwice(header - distance, k.layout.nameInfoName);
    WrapOnce(header);
    WrapOnce(k.globals.infoMaskToOffset.value + mask % 4);
    WrapOnce(header - distance);
    ByteIsRead(k, bytes, header + k.layout.headerInfoMask, mask);
    ByteIsRead(k, bytes, k.globals.infoMaskToOffset.value + mask % 4, distance);
    NameIsRead(k, bytes, (header - distance + k.layout.nameInfoName) % SPACE, name, 1024);
  }

  lemma WrapOnce(x: int)
    ensures Wrap(x) == x % SPACE
  {
  }

  /** The pointer to its descriptor shares a word with a count, in bits no descriptor's address has. */
  ghost predicate SecuredAt(k: Kernel, bytes: ByteMemory.Memory, body: u64, descriptor: u64, count: nat) {
    && k.layout.Checked() && descriptor % (2 * k.layout.pointer) == 0 && count < 2 * k.layout.pointer && descriptor + count <= MAX_U64
    && PointsAt(k, bytes, HeaderAt(k, body) + k.layout.headerSecurity, descriptor + count)
  }

  lemma DescriptorIsFound(k: Kernel, bytes: ByteMemory.Memory, body: u64, descriptor: u64, count: nat)
    requires k.layout.Checked() && Served(k, bytes) && SecuredAt(k, bytes, body, descriptor, count)
    ensures SecurityOf(k.mem, k.layout, body) == Ok(if descriptor == 0 then None else Some(descriptor))
  {
    hide PointerAt, PointsAt, Reading;
    WrapTwice(HeaderAt(k, body), k.layout.headerSecurity);
    PointerIsRead(k, bytes, HeaderAt(k, body) + k.layout.headerSecurity, descriptor + count);
    CountCleared(descriptor, count, 2 * k.layout.pointer);
  }

  lemma CountCleared(descriptor: nat, count: nat, unit: nat)
    requires (unit == 8 || unit == 16) && descriptor % unit == 0 && count < unit
    ensures (descriptor + count) % unit == count
  {
  }

  function Bit(x: nat, i: nat): nat { if i == 0 then x % 2 else Bit(x / 2, i - 1) }

  /** Each bit is set when an odd number of the three have it set. */
  ghost predicate IsMixed(mixed: byte, index: byte, cookie: byte, other: byte) {
    forall i :: 0 <= i < 8 ==> Bit(mixed, i) == (Bit(index, i) + Bit(cookie, i) + Bit(other, i)) % 2
  }

  lemma {:induction false} BitIsOne(x: nat, i: nat)
    ensures Bit(x, i) < 2
  {
    if i > 0 {
      BitIsOne(x / 2, i - 1);
    }
  }

  lemma {:induction false} XorBit(a: nat, b: nat, n: nat, i: nat)
    requires i < n
    ensures Bit(XorBits(a, b, n), i) == (Bit(a, i) + Bit(b, i)) % 2
  {
    LowBit((a + b) % 2, XorBits(a / 2, b / 2, n - 1));
    if i > 0 {
      XorBit(a / 2, b / 2, n - 1, i - 1);
    } else {
      ParityOf(a, b);
    }
  }

  lemma LowBit(bit: nat, rest: nat)
    requires bit < 2
    ensures (bit + 2 * rest) % 2 == bit && (bit + 2 * rest) / 2 == rest
  {
  }

  lemma ParityOf(a: nat, b: nat)
    ensures (a + b) % 2 == (a % 2 + b % 2) % 2
  {
  }

  lemma {:induction false} SameBits(a: nat, b: nat, n: nat)
    requires a < Power(n) && b < Power(n) && forall i :: 0 <= i < n ==> Bit(a, i) == Bit(b, i)
    ensures a == b
  {
    if n > 0 {
      forall i | 0 <= i < n - 1 ensures Bit(a / 2, i) == Bit(b / 2, i) {
        assert Bit(a, i + 1) == Bit(b, i + 1);
      }
      SameBits(a / 2, b / 2, n - 1);
      assert Bit(a, 0) == Bit(b, 0);
    }
  }

  lemma Unmixed(mixed: byte, index: byte, cookie: byte, other: byte)
    requires IsMixed(mixed, index, cookie, other)
    ensures Xor(Xor(mixed, cookie), other) == index
  {
    hide Bit, XorBits, Power;
    forall i | 0 <= i < 8 ensures Bit(Xor(Xor(mixed, cookie), other), i) == Bit(index, i) {
      XorBit(mixed, cookie, 8, i);
      XorBit(Xor(mixed, cookie), other, 8, i);
      BitIsOne(index, i);
      BitIsOne(cookie, i);
      BitIsOne(other, i);
    }
    EightBits();
    SameBits(Xor(Xor(mixed, cookie), other), index, 8);
  }

  /** Its type is a place in the kernel's table, kept in its header mixed with a cookie and with a byte of the header's own address. */
  ghost predicate TypedAt(k: Kernel, bytes: ByteMemory.Memory, body: u64, mixed: byte, index: byte, cookie: byte, typeAt: u64, name: Counted) {
    && k.globals.headerCookie.Some? && k.globals.typeIndexTable.Some?
    && ByteAt(bytes, HeaderAt(k, body) + k.layout.headerTypeIndex, mixed)
    && IsMixed(mixed, index, cookie, HeaderAt(k, body) % SPACE / 0x100 % 0x100)
    && ByteAt(bytes, k.globals.headerCookie.value, cookie)
    && PointsAt(k, bytes, k.globals.typeIndexTable.value + index * k.layout.pointer, typeAt) && typeAt != 0
    && CountedAt(k, bytes, (typeAt + k.layout.typeName) % SPACE, name) && |name.units| <= 512
  }

  /** The type read is the one at the index that was written, and one with no name is none. */
  lemma TypeIsFound(k: Kernel, bytes: ByteMemory.Memory, body: u64, mixed: byte, index: byte, cookie: byte, typeAt: u64, name: Counted)
    requires Served(k, bytes) && TypedAt(k, bytes, body, mixed, index, cookie, typeAt, name)
    ensures TypeOf(k.mem, k.layout, k.globals, body) == if name.units == [] then None else Some(Rendered(name.units))
  {
    hide UnicodeAt, ReadBytes, CountedAt, ByteAt, Reading, Rendered, IsText, PointerAt, PointsAt, Xor, IsMixed;
    var header := HeaderAt(k, body);
    var other := header % SPACE / 0x100 % 0x100;
    WrapTwice(header, k.layout.headerTypeIndex);
    ByteIsRead(k, bytes, header + k.layout.headerTypeIndex, mixed);
    ByteIsRead(k, bytes, k.globals.headerCookie.value, cookie);
    Unmixed(mixed, index, cookie, other);
    PointerIsRead(k, bytes, k.globals.typeIndexTable.value + index * k.layout.pointer, typeAt);
    NameIsRead(k, bytes, (typeAt + k.layout.typeName) % SPACE, name, 1024);
    RenderingIsText(name.units);
  }

  /** An object as written. */
  datatype Written = Written(body: u64, mask: byte, distance: byte, name: Counted, descriptor: u64, count: nat,
                             mixed: byte, index: byte, cookie: byte, typeAt: u64, typeName: Counted)

  ghost predicate ObjectIsAt(k: Kernel, bytes: ByteMemory.Memory, o: Written) {
    && NamedAt(k, bytes, o.body, o.mask, o.distance, o.name) && SecuredAt(k, bytes, o.body, o.descriptor, o.count)
    && TypedAt(k, bytes, o.body, o.mixed, o.index, o.cookie, o.typeAt, o.typeName) && o.typeName.units != []
  }

  function Shown(o: Written): KernelObject {
    KernelObject(o.body, Rendered(o.name.units), IsText(o.name.units), Some(Rendered(o.typeName.units)),
                 if o.descriptor == 0 then None else Some(o.descriptor))
  }

  /** An object is described as it was written. */
  lemma ObjectIsDescribed(k: Kernel, bytes: ByteMemory.Memory, o: Written)
    requires k.layout.Checked() && Served(k, bytes) && ObjectIsAt(k, bytes, o)
    ensures Describe(k.mem, k.layout, k.globals, o.body) == Listed(Shown(o))
  {
    hide NamedAt, SecuredAt, TypedAt, NameOf, SecurityOf, TypeOf, Reading, Rendered, IsText;
    NameIsFound(k, bytes, o.body, o.mask, o.distance, o.name);
    DescriptorIsFound(k, bytes, o.body, o.descriptor, o.count);
    TypeIsFound(k, bytes, o.body, o.mixed, o.index, o.cookie, o.typeAt, o.typeName);
  }

  // ----- What an object that cannot be described is counted as

  lemma HeaderIsMissing(k: Kernel, bytes: ByteMemory.Memory, body: u64)
    requires k.layout.Checked() && Served(k, bytes) && bytes((HeaderAt(k, body) + k.layout.headerInfoMask) % SPACE).None?
    ensures Describe(k.mem, k.layout, k.globals, body).CannotBeRead?
  {
    hide UnicodeAt, SecurityOf, TypeOf, Reading;
    var at := HeaderAt(k, body) + k.layout.headerInfoMask;
    WrapTwice(HeaderAt(k, body), k.layout.headerInfoMask);
    ThereIsRead(k.mem, bytes, at % SPACE, 1);
  }

  lemma HeaderHasNoName(k: Kernel, bytes: ByteMemory.Memory, body: u64, mask: byte)
    requires k.layout.Checked() && Served(k, bytes) && ByteAt(bytes, HeaderAt(k, body) + k.layout.headerInfoMask, mask)
    ensures mask % 4 in {0, 1} ==> Describe(k.mem, k.layout, k.globals, body).Nameless?
    ensures mask % 4 in {2, 3} && k.globals.infoMaskToOffset.None? ==> Describe(k.mem, k.layout, k.globals, body) == Fatal(Unavailable)
  {
    hide UnicodeAt, SecurityOf, TypeOf, Reading, ReadBytes, ByteAt;
    var at := HeaderAt(k, body) + k.layout.headerInfoMask;
    WrapTwice(HeaderAt(k, body), k.layout.headerInfoMask);
    ByteIsRead(k, bytes, at, mask);
  }

  /** A name header too short to hold a name. */
  lemma NameDoesNotFit(k: Kernel, bytes: ByteMemory.Memory, body: u64, mask: byte, distance: byte)
    requires k.layout.Checked() && Served(k, bytes) && ByteAt(bytes, HeaderAt(k, body) + k.layout.headerInfoMask, mask)
    requires mask % 4 in {2, 3} && k.globals.infoMaskToOffset.Some?
    requires ByteAt(bytes, k.globals.infoMaskToOffset.value + mask % 4, distance) && distance < k.layout.nameInfoSize
    ensures Describe(k.mem, k.layout, k.globals, body).ContradictsItself?
  {
    hide UnicodeAt, SecurityOf, TypeOf, Reading, ReadBytes, ByteAt;
    WrapTwice(HeaderAt(k, body), k.layout.headerInfoMask);
    ByteIsRead(k, bytes, HeaderAt(k, body) + k.layout.headerInfoMask, mask);
    ByteIsRead(k, bytes, k.globals.infoMaskToOffset.value + mask % 4, distance);
  }

  // ----- A directory and the objects in it

  ghost predicate FilledAt(k: Kernel, bytes: ByteMemory.Memory, directory: u64, chains: seq<seq<Link>>, objects: seq<Written>) {
    && DirectoryAt(k, bytes, directory, chains)
    && Bodies(objects) == AllHeld(chains) && forall i :: 0 <= i < |objects| ==> ObjectIsAt(k, bytes, objects[i])
  }

  function Bodies(objects: seq<Written>): seq<u64> {
    seq(|objects|, i requires 0 <= i < |objects| => objects[i].body)
  }

  function AllShown(objects: seq<Written>): (r: seq<KernelObject>)
    ensures |r| == |objects|
  {
    seq(|objects|, i requires 0 <= i < |objects| => Shown(objects[i]))
  }

  lemma {:induction false} ListedAreShown(ds: seq<Description>, objects: seq<Written>)
    requires |ds| == |objects| && forall i :: 0 <= i < |ds| ==> ds[i] == Listed(Shown(objects[i]))
    ensures ListingOf(ds, false) == Listing(AllShown(objects), 0, 0, false) && NoneFatal(ds)
  {
    hide Shown;
    if ds != [] {
      var n := |ds| - 1;
      ListedAreShown(ds[..n], objects[..n]);
      assert AllShown(objects) == AllShown(objects[..n]) + [Shown(objects[n])];
    }
  }

  /** Listing a directory gives back the objects written in it, in order, and leaves nothing uncounted. */
  lemma DirectoryIsListed(k: Kernel, bytes: ByteMemory.Memory, directory: u64, chains: seq<seq<Link>>, objects: seq<Written>)
    requires k.layout.Checked() && Served(k, bytes) && FilledAt(k, bytes, directory, chains, objects)
    ensures FullyLists(k, directory, Listing(AllShown(objects), 0, 0, false))
  {
    hide DirectoryAt, IsDirectory, ObjectsIn, AllHeld, ObjectIsAt, Describe, Shown, Reading, AllShown, NoneFatal, ListingOf;
    DirectoryIsRead(k, bytes, directory, chains);
    var ds := Descriptions(k, AllHeld(chains));
    forall i | 0 <= i < |objects| ensures ds[i] == Listed(Shown(objects[i])) {
      assert Bodies(objects)[i] == objects[i].body;
      ObjectIsDescribed(k, bytes, objects[i]);
    }
    assert |ds| == |Bodies(objects)|;
    ListedAreShown(ds, objects);
    assert ListsAll(k, directory, AllAts(chains), Listing(AllShown(objects), 0, 0, false));
  }

  // ----- A path

  /** Text of characters below 0x80. */
  function Ascii(s: string): Text
    requires forall i :: 0 <= i < |s| ==> s[i] < 128 as char
  {
    seq(|s|, i requires 0 <= i < |s| => s[i] as int)
  }

  /** One directory on the way, and which of its objects the path goes through. */
  datatype Floor = Floor(directory: u64, chains: seq<seq<Link>>, objects: seq<Written>, at: nat) {
    predicate Stands() { at < |objects| }
  }

  /** The object is the first of its directory whose name is the component, whatever the case of its letters. */
  ghost predicate FloorAt(k: Kernel, bytes: ByteMemory.Memory, floor: Floor, component: Text) {
    && FilledAt(k, bytes, floor.directory, floor.chains, floor.objects) && floor.Stands()
    && Plain(component) && (forall i :: 0 <= i < |floor.objects| ==> Plain(floor.objects[i].name.units))
    && SameButCase(floor.objects[floor.at].name.units, component)
    && forall i :: 0 <= i < floor.at ==> !SameButCase(floor.objects[i].name.units, component)
  }

  ghost predicate PathAt(k: Kernel, bytes: ByteMemory.Memory, components: seq<Text>, floors: seq<Floor>) {
    && |floors| == |components| > 0 && (forall i :: 0 <= i < |floors| ==> FloorAt(k, bytes, floors[i], components[i]))
    && k.globals.root.Some? && PointsAt(k, bytes, k.globals.root.value, floors[0].directory) && floors[0].directory != 0
    && forall i :: 0 <= i < |floors| - 1 ==> LeadsDown(floors[i], floors[i + 1])
  }

  ghost predicate LeadsDown(floor: Floor, next: Floor) {
    && floor.Stands() && floor.objects[floor.at].typeName.units == Ascii("Directory")
    && floor.objects[floor.at].body == next.directory
  }

  lemma {:induction false} PlainIsText(units: seq<u16>)
    requires Plain(units)
    ensures IsText(units) && Rendered(units) == units
  {
    if units != [] {
      PlainIsText(units[1..]);
      assert units == [units[0]] + units[1..];
    }
  }

  lemma PlainMatch(k: Kernel, o: Written, component: Text)
    requires Plain(o.name.units) && Plain(component)
    ensures Matches(k, Shown(o), component) <==> SameButCase(o.name.units, component)
  {
    hide SteadyName, SameButCase, Plain;
    PlainIsText(o.name.units);
    PlainNamesMatch(k.mem, k.globals.upcase, k.layout.pointer, k.host, o.name.units, component);
  }

  function StepOf(floor: Floor): Step { Step(floor.directory, Listing(AllShown(floor.objects), 0, 0, false), floor.at) }

  lemma FloorIsAStep(k: Kernel, bytes: ByteMemory.Memory, floor: Floor, component: Text)
    requires k.layout.Checked() && Served(k, bytes) && FloorAt(k, bytes, floor, component)
    ensures StepHolds(k, StepOf(floor), component) && floor.Stands() && StepOf(floor).Found() == Shown(floor.objects[floor.at])
  {
    hide FilledAt, FullyLists, SameButCase, Plain, Matches, Reading, Shown;
    DirectoryIsListed(k, bytes, floor.directory, floor.chains, floor.objects);
    forall i | 0 <= i <= floor.at
      ensures Matches(k, AllShown(floor.objects)[i], component) <==> SameButCase(floor.objects[i].name.units, component)
    {
      PlainMatch(k, floor.objects[i], component);
    }
  }

  lemma DirectoryIsSpelt()
    ensures Ascii("Directory") == DIRECTORY && Rendered(DIRECTORY) == DIRECTORY
  {
    hide Rendered, IsText;
    assert Ascii("Directory") == DIRECTORY;
    PlainIsText(DIRECTORY);
  }

  lemma FloorLeadsDown(floor: Floor, next: Floor)
    requires LeadsDown(floor, next)
    ensures Descends(StepOf(floor), next.directory)
  {
    hide Rendered, IsText, Ascii;
    DirectoryIsSpelt();
  }

  function StepsOf(floors: seq<Floor>): (r: seq<Step>)
    ensures |r| == |floors|
  {
    seq(|floors|, i requires 0 <= i < |floors| => StepOf(floors[i]))
  }

  lemma FloorsAreATrail(k: Kernel, bytes: ByteMemory.Memory, components: seq<Text>, floors: seq<Floor>)
    requires k.layout.Checked() && Served(k, bytes) && PathAt(k, bytes, components, floors)
    ensures IsTrail(k, floors[0].directory, components, StepsOf(floors))
  {
    hide FloorAt, LeadsDown, StepHolds, Descends, PointsAt, Reading, Floor.Stands;
    var trail := StepsOf(floors);
    forall i | 0 <= i < |floors| ensures StepHolds(k, trail[i], components[i]) {
      FloorIsAStep(k, bytes, floors[i], components[i]);
    }
    forall i: nat {:trigger trail[i]} | 0 < i < |floors| ensures Descends(trail[i - 1], trail[i].directory) {
      StairsDescend(k, bytes, components, floors, i - 1);
    }
  }

  lemma StairsDescend(k: Kernel, bytes: ByteMemory.Memory, components: seq<Text>, floors: seq<Floor>, i: nat)
    requires PathAt(k, bytes, components, floors) && i + 1 < |floors|
    ensures Descends(StepOf(floors[i]), StepOf(floors[i + 1]).directory)
  {
    hide FloorAt, LeadsDown, Descends, PointsAt;
    FloorLeadsDown(floors[i], floors[i + 1]);
  }

  /** A path written down through its directories is a trail of first matches from the root. */
  lemma PathIsATrail(k: Kernel, bytes: ByteMemory.Memory, components: seq<Text>, floors: seq<Floor>)
    requires k.layout.Checked() && Served(k, bytes) && PathAt(k, bytes, components, floors)
    ensures RootOf(k.mem, k.layout, k.globals) == Ok(floors[0].directory)
    ensures floors[|floors| - 1].Stands() && IsAnswer(k, components, Ok(Shown(floors[|floors| - 1].objects[floors[|floors| - 1].at])), StepsOf(floors))
  {
    hide FloorAt, LeadsDown, StepHolds, Descends, PointerAt, PointsAt, Shown, Reading, IsTrail;
    PointerIsRead(k, bytes, k.globals.root.value, floors[0].directory);
    FloorsAreATrail(k, bytes, components, floors);
    var n := |floors| - 1;
    FloorIsAStep(k, bytes, floors[n], components[n]);
  }

  /** Each component behind a backslash. */
  function PathOf(components: seq<Text>): Text {
    if components == [] then [] else [0x5c] + components[0] + PathOf(components[1..])
  }

  lemma {:induction false} PathIsJoined(components: seq<Text>)
    requires components != []
    ensures PathOf(components) == [SEPARATOR] + Join(components)
  {
    if |components| > 1 {
      PathIsJoined(components[1..]);
    }
  }

  lemma PathIsSpelt(components: seq<Text>)
    requires 0 < |components| <= 32 && forall i :: 0 <= i < |components| ==> components[i] != [] && 0x5c !in components[i]
    ensures ComponentsOf(PathOf(components)) == Ok(components)
  {
    hide Join, PathOf, ComponentsOf;
    PathIsJoined(components);
    PathsAreExact(PathOf(components), components);
  }

  /** A lookup of that path finds the object at the end of it. */
  method FindWritten(namespace: Namespace, components: seq<Text>, ghost mem: Session.Memory, ghost bytes: ByteMemory.Memory, ghost floors: seq<Floor>)
    returns (r: Result<KernelObject, ObjectError>)
    requires namespace.Valid() && Steady(namespace.target.answers, mem) && namespace.target.NeverHalts()
    requires |components| <= 32 && forall i :: 0 <= i < |components| ==> components[i] != [] && 0x5c !in components[i]
    requires Served(namespace.AsKernel(mem), bytes) && PathAt(namespace.AsKernel(mem), bytes, components, floors)
    modifies namespace.upcase, namespace.target
    ensures floors != [] && floors[|floors| - 1].Stands() && r == Ok(Shown(floors[|floors| - 1].objects[floors[|floors| - 1].at]))
  {
    hide Served, FloorAt, LeadsDown, PointsAt, Steady, IsAnswer, RootOf, ComponentsOf, Shown, StepsOf, Accounts;
    ghost var k := namespace.AsKernel(mem);
    PathIsATrail(k, bytes, components, floors);
    PathIsSpelt(components);
    assert RootIsThere(k);
    ghost var trail, last;
    r, trail, last := namespace.ObjectAt(PathOf(components), mem);
  }
}
