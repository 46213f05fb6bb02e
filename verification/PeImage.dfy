/**
 * A loaded image in partly readable memory, and the bounded reads the import walk is made of.
 *
 * `Memory` is what the target holds: an address it does not answer for is unreadable. `Reader` is
 * the closure the parser is handed, and its answer may change from one read to the next. Nothing is
 * assumed of a reader except where a contract names `Bounded` (it returns no more than it was asked
 * for), `Honest` (and only what is there) or `Prompt` (it returns a span whole when every byte of it
 * is there).
 *
 * Each read is a function of the reader and of how many reads came before it, and so is each walk
 * made of reads. The loops below are proved to compute those functions.
 */
module PeImage {
  import opened Machine
  import opened ByteMemory

  const MAX_NAME: nat := 512
  const NAME_READ_GRANULE: nat := 0x200

  /** What the closure answers to its `n`th call. */
  type Reader = (nat, int, nat) -> Option<seq<byte>>

  datatype Span = Span(start: int, len: nat)

  /** What a read is made for: the directory, an entry of a lookup table, or part of a name. */
  datatype Purpose = Directory | LookupEntry(table: u32, index: nat) | NameChunk(rva: u32)

  /** One call of the reader. */
  datatype Ask = Ask(tick: nat, span: Span, purpose: Purpose)

  /** What a walk answered, how many reads had been made by then, and which of them were its own. */
  datatype Ran<T> = Ran(r: Result<T, PeError>, tick: nat, asked: set<Ask>)

  datatype Bitness = Bits32 | Bits64 {
    function Pointer(): (r: nat)
      ensures r == 4 || r == 8
    {
      if Bits32? then 4 else 8
    }
  }

  datatype Image = Image(base: u64, bitness: Bitness, sizeOfImage: u32, importRva: u32, importSize: u32)

  datatype Reason =
    | OutsideImage | AddressOverflow | ShortField
    | DirectoryHalfDeclared | TooManyLibraries | DirectoryPastEnd | NotTerminated
    | NoLibraryName | NoAddressTable | AddressEntryTooFar | LookupEntryTooFar | OrdinalBits
    | ThunkNotAnOffset | HintOverflow | SlotClaimedTwice | TooManyImports | LibraryTooLong
    | NameAtZero | NameNotText | NameTooLong | NameOffsetOverflow

  datatype PeError = Unreadable(at: int, len: nat) | Malformed(reason: Reason) | Interrupted

  // ----- What a reader may be relied on for

  ghost predicate Honest(read: Reader, mem: Memory) {
    forall t: nat, a: int, n: nat :: read(t, a, n).Some? ==> |read(t, a, n).value| <= n && Holds(mem, a, read(t, a, n).value)
  }

  ghost predicate Prompt(read: Reader, mem: Memory) {
    forall t: nat, a: int, n: nat :: Readable(mem, a, n) ==> read(t, a, n).Some? && |read(t, a, n).value| == n
  }

  ghost predicate Bounded(read: Reader) {
    forall t: nat, a: int, n: nat :: read(t, a, n).Some? ==> |read(t, a, n).value| <= n
  }

  /** Two readers answer these reads alike. */
  ghost predicate Agree(one: Reader, other: Reader, asked: set<Ask>) {
    forall ask :: ask in asked ==> Answer(one, ask) == Answer(other, ask)
  }

  function Answer(read: Reader, ask: Ask): Option<seq<byte>> {
    read(ask.tick, ask.span.start, ask.span.len)
  }

  // ----- Bounded reads

  /** The span lies inside the image, and its end is an address. */
  predicate Fits(image: Image, rva: int, len: nat) {
    rva < image.sizeOfImage && rva + len <= image.sizeOfImage && image.base + rva + len <= MAX_U64
  }

  /** `Image::checked_va`, with `va` inside it. */
  function CheckedVa(image: Image, rva: u32, len: nat): (r: Result<int, PeError>)
    ensures r.Ok? <==> Fits(image, rva, len)
    ensures r.Ok? ==> r.value == image.base + rva
  {
    if rva >= image.sizeOfImage || rva + len > image.sizeOfImage then Err(Malformed(OutsideImage))
    else if image.base + rva > MAX_U64 || image.base + rva + len > MAX_U64 then Err(Malformed(AddressOverflow))
    else Ok(image.base + rva)
  }

  /** Every read is inside the image, and is no more than its purpose needs. */
  ghost predicate Confined(image: Image, asked: set<Ask>) {
    forall ask :: ask in asked ==> InsideImage(image, ask.span) && Serves(image, ask)
  }

  ghost predicate InsideImage(image: Image, span: Span) {
    image.base <= span.start && span.start + span.len <= image.base + image.sizeOfImage
  }

  ghost predicate Serves(image: Image, ask: Ask) {
    match ask.purpose
    case Directory => ask.span == Span(image.base + image.importRva, image.importSize)
    case LookupEntry(table, index) =>
      ask.span.start == image.base + EntryRva(image, table, index) && ask.span.len <= image.bitness.Pointer()
    case NameChunk(rva) =>
      && image.base + rva <= ask.span.start && ask.span.start + ask.span.len <= image.base + rva + MAX_NAME
      && InGranule(image, ask.span)
  }

  /** The RVA of entry `j` of a table of pointers. */
  function EntryRva(image: Image, table: int, j: nat): int {
    if image.bitness.Bits32? then table + 4 * j else table + 8 * j
  }

  /** What is left of a read of `len` bytes once it is clipped to the image. */
  function Clip(image: Image, rva: u32, len: nat): (r: nat)
    ensures r <= len
  {
    var room := if rva < image.sizeOfImage then image.sizeOfImage - rva else 0;
    if len < room then len else room
  }

  /** Whether an error is one a bounded read gives: a span outside the image, or one that failed. */
  ghost predicate ReadError(read: Reader, asked: set<Ask>, e: PeError) {
    match e
    case Unreadable(at, len) => Failed(read, asked, Span(at, len))
    case Malformed(reason) => reason.OutsideImage? || reason.AddressOverflow?
    case Interrupted => false
  }

  ghost predicate Failed(read: Reader, asked: set<Ask>, span: Span) {
    exists ask :: ask in asked && ask.span == span && Answer(read, ask).None?
  }

  /** The clipping reader: one read at most. */
  function At(image: Image, read: Reader, tick: nat, purpose: Purpose, rva: u32, len: nat): (ran: Ran<seq<byte>>)
    ensures forall ask :: ask in ran.asked ==> ask == Ask(tick, Span(image.base + rva, Clip(image, rva, len)), purpose)
    ensures forall ask :: ask in ran.asked ==> InsideImage(image, ask.span)
    ensures ran.r.Ok? ==> Fits(image, rva, Clip(image, rva, len))
    ensures ran.r.Ok? && Bounded(read) ==> |ran.r.value| <= Clip(image, rva, len)
    ensures ran.r.Err? ==> ReadError(read, ran.asked, ran.r.error)
  {
    var want := Clip(image, rva, len);
    match CheckedVa(image, rva, want)
    case Err(e) => Ran(Err(e), tick, {})
    case Ok(address) =>
      var ask := Ask(tick, Span(address, want), purpose);
      match Answer(read, ask)
      case None => Ran(Err(Unreadable(address, want)), tick + 1, {ask})
      case Some(bytes) => Ran(Ok(bytes), tick + 1, {ask})
  }

  /** What it answers is memory's, where the reader's answers are. */
  lemma AtReads(image: Image, read: Reader, tick: nat, purpose: Purpose, rva: u32, len: nat, mem: Memory)
    ensures var ran := At(image, read, tick, purpose, rva, len);
      && (ran.r.Ok? && Honest(read, mem) ==> |ran.r.value| <= Clip(image, rva, len) && Holds(mem, image.base + rva, ran.r.value))
      && (Prompt(read, mem) && IsThere(image, mem, rva, Clip(image, rva, len)) ==> ran.r.Ok? && |ran.r.value| == Clip(image, rva, len))
  {
  }

  ghost predicate IsThere(image: Image, mem: Memory, rva: int, len: nat) {
    Fits(image, rva, len) && Readable(mem, image.base + rva, len)
  }

  lemma AtAgrees(image: Image, read: Reader, other: Reader, tick: nat, purpose: Purpose, rva: u32, len: nat)
    requires Agree(read, other, At(image, read, tick, purpose, rva, len).asked)
    ensures At(image, other, tick, purpose, rva, len) == At(image, read, tick, purpose, rva, len)
  {
  }

  // ----- Names

  /** Well-formed UTF-8, which is what `String::from_utf8` accepts. */
  predicate IsUtf8(s: seq<byte>)
    decreases |s|
  {
    if s == [] then true
    else if s[0] < 0x80 then IsUtf8(s[1..])
    else if 0xc2 <= s[0] <= 0xdf then |s| >= 2 && Trails(s[1]) && IsUtf8(s[2..])
    else if 0xe0 <= s[0] <= 0xef then
      && |s| >= 3 && Trails(s[1]) && Trails(s[2])
      && (s[0] == 0xe0 ==> s[1] >= 0xa0) && (s[0] == 0xed ==> s[1] <= 0x9f)
      && IsUtf8(s[3..])
    else if 0xf0 <= s[0] <= 0xf4 then
      && |s| >= 4 && Trails(s[1]) && Trails(s[2]) && Trails(s[3])
      && (s[0] == 0xf0 ==> s[1] >= 0x90) && (s[0] == 0xf4 ==> s[1] <= 0x8f)
      && IsUtf8(s[4..])
    else false
  }

  predicate Trails(b: byte) { 0x80 <= b < 0xc0 }

  /** The name at an RVA: the text up to the first NUL, which comes within the bound and the image. */
  ghost predicate IsName(image: Image, mem: Memory, rva: int, name: seq<byte>) {
    && rva != 0 && |name| < MAX_NAME
    && Fits(image, rva, |name| + 1)
    && Terminated(mem, image.base + rva, name) && IsUtf8(name)
  }

  /** The bytes up to the first NUL. */
  ghost predicate Terminated(mem: Memory, at: int, name: seq<byte>) {
    Holds(mem, at, name + [0]) && 0 !in name
  }

  lemma NameIsUnique(mem: Memory, at: int, one: seq<byte>, other: seq<byte>)
    requires Terminated(mem, at, one) && Terminated(mem, at, other)
    ensures one == other
  {
    NameNoLonger(mem, at, one, other);
    NameNoLonger(mem, at, other, one);
    forall i | 0 <= i < |one| ensures one[i] == other[i] {
      assert (one + [0])[i] == (other + [0])[i];
    }
  }

  lemma NameNoLonger(mem: Memory, at: int, one: seq<byte>, other: seq<byte>)
    requires Terminated(mem, at, one) && Terminated(mem, at, other)
    ensures |one| <= |other|
  {
    TerminatorAt(mem, at, other, |other|);
    if |other| < |one| {
      TerminatorAt(mem, at, one, |other|);
    }
  }

  lemma TerminatorAt(mem: Memory, at: int, name: seq<byte>, k: nat)
    requires Terminated(mem, at, name) && k <= |name|
    ensures mem(at + k).Some? && (mem(at + k).value == 0 <==> k == |name|)
  {
    assert mem(at + k) == Some((name + [0])[k]);
  }

  function GranuleEnd(rva: int): (r: int)
    ensures rva < r <= rva + NAME_READ_GRANULE
  {
    rva - rva % NAME_READ_GRANULE + NAME_READ_GRANULE
  }

  function Min(a: int, b: int): int { if a < b then a else b }

  /** How far a read of a name of this length may look: the end of the name's own last granule. */
  function NameReach(image: Image, rva: int, length: nat): (r: nat)
    requires Fits(image, rva, length + 1) && length < MAX_NAME
    ensures r > length
  {
    Min(Min(GranuleEnd(rva + length), rva + MAX_NAME), image.sizeOfImage) - rva
  }

  /** Every byte of the granules the name touches is there, whatever is missing beyond them. */
  ghost predicate NameCovered(image: Image, mem: Memory, rva: int, name: seq<byte>)
    requires IsName(image, mem, rva, name)
  {
    var reach := NameReach(image, rva, |name|);
    Fits(image, rva, reach) && Readable(mem, image.base + rva, reach)
  }

  ghost predicate InGranule(image: Image, span: Span) {
    span.start + span.len <= image.base + GranuleEnd(span.start - image.base)
  }

  function FirstZero(bytes: seq<byte>): (r: Option<nat>)
    ensures r.None? ==> 0 !in bytes
    ensures r.Some? ==> r.value < |bytes| && bytes[r.value] == 0 && 0 !in bytes[..r.value]
  {
    if bytes == [] then None
    else if bytes[0] == 0 then Some(0)
    else
      match FirstZero(bytes[1..])
      case None => None
      case Some(k) => assert bytes[..k + 1] == [bytes[0]] + bytes[1..][..k]; Some(k + 1)
  }

  /** What `read_c_string` can refuse a name for. */
  ghost predicate NameError(read: Reader, asked: set<Ask>, e: PeError) {
    ReadError(read, asked, e)
    || (e.Malformed? && (e.reason.NameAtZero? || e.reason.NameNotText? || e.reason.NameTooLong?
                         || e.reason.NameOffsetOverflow?))
  }

  /** Every read is for this one purpose, and inside the image and the purpose's bounds. */
  ghost predicate Only(image: Image, asked: set<Ask>, purpose: Purpose) {
    Confined(image, asked) && forall ask :: ask in asked ==> ask.purpose == purpose
  }

  /** A name as a function of the reader: the loop from `raw` on, */
  function ScanFrom(image: Image, read: Reader, tick: nat, rva: u32, raw: seq<byte>): Ran<seq<byte>>
    decreases MAX_NAME - |raw|
  {
    if |raw| >= MAX_NAME then Ran(Err(Malformed(NameTooLong)), tick, {})
    else if rva + |raw| > MAX_U32 then Ran(Err(Malformed(NameOffsetOverflow)), tick, {})
    else
      var chunk := NextChunk(image, read, tick, rva, |raw|);
      if chunk.r.Err? then chunk
      else if chunk.r.value == [] then Ran(Err(Malformed(NameTooLong)), chunk.tick, chunk.asked)
      else
        match FirstZero(chunk.r.value)
        case Some(end) => Ran(Ok(raw + chunk.r.value[..end]), chunk.tick, chunk.asked)
        case None =>
          var rest := ScanFrom(image, read, chunk.tick, rva, raw + chunk.r.value);
          Ran(rest.r, rest.tick, chunk.asked + rest.asked)
  }

  /** and the whole of `read_c_string`. */
  function NameRun(image: Image, read: Reader, tick: nat, rva: u32): Ran<seq<byte>> {
    if rva == 0 then Ran(Err(Malformed(NameAtZero)), tick, {})
    else
      var raw := ScanFrom(image, read, tick, rva, []);
      if raw.r.Ok? && !IsUtf8(raw.r.value) then Ran(Err(Malformed(NameNotText)), raw.tick, raw.asked) else raw
  }

  /** Readers that answer a name's reads alike give it alike, whatever else they differ in. */
  lemma {:induction false} ScanAgrees(image: Image, read: Reader, other: Reader, tick: nat, rva: u32, raw: seq<byte>)
    requires Agree(read, other, ScanFrom(image, read, tick, rva, raw).asked)
    ensures ScanFrom(image, other, tick, rva, raw) == ScanFrom(image, read, tick, rva, raw)
    decreases MAX_NAME - |raw|
  {
    hide Answer, At;
    if |raw| < MAX_NAME && rva + |raw| <= MAX_U32 {
      var chunk := NextChunk(image, read, tick, rva, |raw|);
      assert chunk.asked <= ScanFrom(image, read, tick, rva, raw).asked;
      ChunkAgrees(image, read, other, tick, rva, |raw|);
      if chunk.r.Ok? && chunk.r.value != [] && FirstZero(chunk.r.value).None? {
        ScanAgrees(image, read, other, chunk.tick, rva, raw + chunk.r.value);
      }
    }
  }

  lemma ChunkAgrees(image: Image, read: Reader, other: Reader, tick: nat, rva: u32, taken: nat)
    requires taken < MAX_NAME && rva + taken <= MAX_U32
    requires Agree(read, other, NextChunk(image, read, tick, rva, taken).asked)
    ensures NextChunk(image, other, tick, rva, taken) == NextChunk(image, read, tick, rva, taken)
  {
    var here: u32 := rva + taken;
    AtAgrees(image, read, other, tick, NameChunk(rva), here, Min(NAME_READ_GRANULE - here % NAME_READ_GRANULE, MAX_NAME - taken));
  }

  lemma NameAgrees(image: Image, read: Reader, other: Reader, tick: nat, rva: u32)
    requires Agree(read, other, NameRun(image, read, tick, rva).asked)
    ensures NameRun(image, other, tick, rva) == NameRun(image, read, tick, rva)
  {
    hide ScanFrom;
    if rva != 0 {
      ScanAgrees(image, read, other, tick, rva, []);
    }
  }

  /** No read of a name crosses a granule, leaves the image or goes beyond the name's bound. */
  lemma {:induction false} ScanIsConfined(image: Image, read: Reader, tick: nat, rva: u32, raw: seq<byte>)
    ensures Only(image, ScanFrom(image, read, tick, rva, raw).asked, NameChunk(rva))
    decreases MAX_NAME - |raw|
  {
    hide Serves, InsideImage;
    if |raw| < MAX_NAME && rva + |raw| <= MAX_U32 {
      var chunk := NextChunk(image, read, tick, rva, |raw|);
      if chunk.r.Ok? && chunk.r.value != [] && FirstZero(chunk.r.value).None? {
        ScanIsConfined(image, read, chunk.tick, rva, raw + chunk.r.value);
      }
    }
  }

  /** `read_c_string`: the name at `rva`, read up to its terminator and no further than its granules. */
  method ReadCString(image: Image, read: Reader, before: nat, rva: u32, ghost mem: Memory)
    returns (r: Result<seq<byte>, PeError>, tick: nat, ghost asked: set<Ask>)
    ensures Ran(r, tick, asked) == NameRun(image, read, before, rva)
    ensures Only(image, asked, NameChunk(rva))
    ensures r.Err? ==> NameError(read, asked, r.error)
    ensures r.Ok? && Honest(read, mem) ==> IsName(image, mem, rva, r.value)
    ensures forall w | Honest(read, mem) && Prompt(read, mem) && IsName(image, mem, rva, w) ::
      NameCovered(image, mem, rva, w) ==> r == Ok(w)
  {
    if rva == 0 {
      return Err(Malformed(NameAtZero)), before, {};
    }
    ghost var hope: Option<seq<byte>> := None;
    if w :| Honest(read, mem) && Prompt(read, mem) && IsName(image, mem, rva, w) && NameCovered(image, mem, rva, w) {
      hope := Some(w);
      forall v | IsName(image, mem, rva, v) ensures v == w {
        NameIsUnique(mem, image.base + rva, v, w);
      }
    }
    var raw;
    raw, tick, asked := ScanName(image, read, before, rva, mem, hope);
    ScanIsConfined(image, read, before, rva, []);
    r := if raw.Ok? && !IsUtf8(raw.value) then Err(Malformed(NameNotText)) else raw;
  }

  /** The bytes of a name so far: no terminator among them. */
  ghost predicate Unended(image: Image, mem: Memory, rva: int, raw: seq<byte>) {
    Holds(mem, image.base + rva, raw) && 0 !in raw
  }

  /** The loop of `read_c_string`. `hope` is the name, where it is there to be found. */
  method ScanName(image: Image, read: Reader, before: nat, rva: u32, ghost mem: Memory, ghost hope: Option<seq<byte>>)
    returns (r: Result<seq<byte>, PeError>, tick: nat, ghost asked: set<Ask>)
    requires hope.Some? ==> Honest(read, mem) && Prompt(read, mem)
    requires hope.Some? ==> IsName(image, mem, rva, hope.value) && NameCovered(image, mem, rva, hope.value)
    ensures Ran(r, tick, asked) == ScanFrom(image, read, before, rva, [])
    ensures r.Err? ==> NameError(read, asked, r.error)
    ensures r.Ok? && Honest(read, mem) ==> |r.value| < MAX_NAME && Fits(image, rva, |r.value| + 1)
    ensures r.Ok? && Honest(read, mem) ==> Terminated(mem, image.base + rva, r.value)
    ensures hope.Some? ==> r == Ok(hope.value)
  {
    hide Honest, Prompt, NextChunk, NameCovered, IsName, Terminated, Unended, Fits, ReadError, Only;
    asked, tick := {}, before;
    var raw: seq<byte> := [];
    ghost var whole := ScanFrom(image, read, before, rva, []);
    NothingYet(image, mem, rva);
    while |raw| < MAX_NAME
      invariant Rest(whole, asked, ScanFrom(image, read, tick, rva, raw))
      invariant Honest(read, mem) ==> Unended(image, mem, rva, raw)
      invariant hope.Some? ==> |raw| <= |hope.value|
      decreases MAX_NAME - |raw|
    {
      if rva + |raw| > MAX_U32 {
        if hope.Some? {
          NameIsNear(image, mem, rva, hope.value);
        }
        return Err(Malformed(NameOffsetOverflow)), tick, asked;
      }
      var chunk := NextChunk(image, read, tick, rva, |raw|);
      ChunkReads(image, read, tick, rva, |raw|, mem, hope);
      asked, tick := asked + chunk.asked, chunk.tick;
      if chunk.r.Err? {
        StillAnError(read, chunk.asked, asked, chunk.r.error);
        return Err(chunk.r.error), tick, asked;
      }
      if chunk.r.value == [] {
        return Err(Malformed(NameTooLong)), tick, asked;
      }
      var end := FirstZero(chunk.r.value);
      if Honest(read, mem) {
        NameStep(image, mem, rva, raw, chunk.r.value, hope);
      }
      if end.Some? {
        if Honest(read, mem) {
          NameFits(image, rva, |raw|, chunk.r.value, end.value);
        }
        return Ok(raw + chunk.r.value[..end.value]), tick, asked;
      }
      raw := raw + chunk.r.value;
    }
    if hope.Some? {
      NameIsNear(image, mem, rva, hope.value);
    }
    r := Err(Malformed(NameTooLong));
  }

  lemma StillAnError(read: Reader, some: set<Ask>, all: set<Ask>, e: PeError)
    requires ReadError(read, some, e) && some <= all
    ensures ReadError(read, all, e)
  {
  }

  /** A run so far and the rest of it make the whole. */
  ghost predicate Rest<T>(whole: Ran<T>, asked: set<Ask>, rest: Ran<T>) {
    whole == Ran(rest.r, rest.tick, asked + rest.asked)
  }

  lemma NothingYet(image: Image, mem: Memory, rva: int)
    ensures Unended(image, mem, rva, [])
  {
  }

  lemma NameIsNear(image: Image, mem: Memory, rva: u32, name: seq<byte>)
    requires IsName(image, mem, rva, name)
    ensures |name| < MAX_NAME && rva + |name| <= MAX_U32
  {
  }

  lemma NameFits(image: Image, rva: u32, taken: nat, chunk: seq<byte>, end: nat)
    requires end < |chunk| && Fits(image, rva, taken + |chunk|) && taken + |chunk| <= MAX_NAME
    ensures taken + end < MAX_NAME && Fits(image, rva, taken + end + 1)
  {
  }

  /** What one honest chunk does to the bytes of a name. */
  lemma NameStep(image: Image, mem: Memory, rva: int, raw: seq<byte>, chunk: seq<byte>, hope: Option<seq<byte>>)
    requires Unended(image, mem, rva, raw) && Holds(mem, image.base + rva + |raw|, chunk)
    requires hope.Some? ==> IsName(image, mem, rva, hope.value) && |raw| <= |hope.value|
    ensures FirstZero(chunk).None? ==> Unended(image, mem, rva, raw + chunk)
    ensures FirstZero(chunk).None? && hope.Some? ==> |raw + chunk| <= |hope.value|
    ensures FirstZero(chunk).Some? ==>
      var name := raw + chunk[..FirstZero(chunk).value];
      Terminated(mem, image.base + rva, name) && (hope.Some? ==> name == hope.value)
  {
    match FirstZero(chunk)
    case None =>
      HoldsJoin(mem, image.base + rva, raw, chunk);
      if hope.Some? {
        NameGoesOn(image, mem, rva, hope.value, raw, chunk);
      }
    case Some(end) =>
      NameEnds(mem, image.base + rva, raw, chunk, end);
      if hope.Some? {
        NameIsUnique(mem, image.base + rva, raw + chunk[..end], hope.value);
      }
  }

  /** One read of `read_c_string`'s loop: what is left of the granule, once `taken` bytes are in hand. */
  function NextChunk(image: Image, read: Reader, tick: nat, rva: u32, taken: nat): (ran: Ran<seq<byte>>)
    requires taken < MAX_NAME && rva + taken <= MAX_U32
    ensures Only(image, ran.asked, NameChunk(rva))
    ensures ran.r.Err? ==> ReadError(read, ran.asked, ran.r.error)
  {
    var here: u32 := rva + taken;
    At(image, read, tick, NameChunk(rva), here, Min(NAME_READ_GRANULE - here % NAME_READ_GRANULE, MAX_NAME - taken))
  }

  lemma ChunkReads(image: Image, read: Reader, tick: nat, rva: u32, taken: nat, mem: Memory, hope: Option<seq<byte>>)
    requires taken < MAX_NAME && rva + taken <= MAX_U32
    requires hope.Some? ==> Honest(read, mem) && Prompt(read, mem) && taken <= |hope.value|
    requires hope.Some? ==> IsName(image, mem, rva, hope.value) && NameCovered(image, mem, rva, hope.value)
    ensures var ran := NextChunk(image, read, tick, rva, taken);
      && (ran.r.Ok? && Honest(read, mem) ==>
            && Holds(mem, image.base + rva + taken, ran.r.value)
            && Fits(image, rva, taken + |ran.r.value|) && taken + |ran.r.value| <= MAX_NAME)
      && (hope.Some? ==> ran.r.Ok? && ran.r.value != [])
  {
    hide Honest, Prompt, At;
    var here: u32 := rva + taken;
    var want := Min(NAME_READ_GRANULE - here % NAME_READ_GRANULE, MAX_NAME - taken);
    if hope.Some? {
      ChunkIsCovered(image, mem, rva, hope.value, taken, want);
    }
    AtReads(image, read, tick, NameChunk(rva), here, want, mem);
  }

  lemma NameEnds(mem: Memory, at: int, raw: seq<byte>, chunk: seq<byte>, end: nat)
    requires Holds(mem, at, raw) && Holds(mem, at + |raw|, chunk) && 0 !in raw
    requires end < |chunk| && chunk[end] == 0 && 0 !in chunk[..end]
    ensures Terminated(mem, at, raw + chunk[..end])
  {
    HoldsJoin(mem, at, raw, chunk);
    assert raw + chunk[..end] + [0] == (raw + chunk)[..|raw| + end + 1];
  }

  lemma NameGoesOn(image: Image, mem: Memory, rva: int, name: seq<byte>, raw: seq<byte>, chunk: seq<byte>)
    requires IsName(image, mem, rva, name) && |raw| <= |name|
    requires Holds(mem, image.base + rva + |raw|, chunk) && 0 !in chunk
    ensures |raw| + |chunk| <= |name|
  {
    assert |name| < |raw| + |chunk| ==> mem(image.base + rva + |name|) == Some(chunk[|name| - |raw|]);
    TerminatorAt(mem, image.base + rva, name, |name|);
  }

  /** The chunk a walk asks for part-way along a covered name is inside what covers it. */
  lemma ChunkIsCovered(image: Image, mem: Memory, rva: u32, name: seq<byte>, taken: nat, want: nat)
    requires rva + taken <= MAX_U32
    requires IsName(image, mem, rva, name) && NameCovered(image, mem, rva, name) && taken <= |name|
    requires 0 < want <= MAX_NAME - taken && rva + taken + want <= GranuleEnd(rva + taken)
    ensures var len := Clip(image, rva + taken, want);
      0 < len && Fits(image, rva + taken, len) && Readable(mem, image.base + rva + taken, len)
  {
    assert GranuleEnd(rva + taken) <= GranuleEnd(rva + |name|);
  }
}
