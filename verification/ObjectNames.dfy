/** What target memory says of one kernel object: its name, its security descriptor and its type. */
module ObjectNames {
  import opened Machine
  import opened Session
  import opened UpcaseFold

  const MAX_NAME_BYTES: nat := 1024
  const MAX_BUCKETS: nat := 1024
  const REPLACEMENT: u16 := 0xfffd

  /** Text as the UTF-16 code units every comparison here looks at. */
  type Text = seq<u16>

  datatype ObjectError =
    | Unreadable(at: int, len: nat)
    | Malformed
    | BadPath
    | NotFound(directory: Text, component: Text)
    | NotADirectory(component: Text)
    | Untyped(component: Text)
    | Unavailable
    | TooMany
    | Halted(component: Text)
    | NotFoundInPart(directory: Text, component: Text, unreadable: nat, malformed: nat)

  /** What reading the target's structures can fail with, as against what a lookup can answer. */
  predicate IsReadError(e: ObjectError) { e.Unreadable? || e.Malformed? || e.Unavailable? || e.TooMany? }

  datatype Layout = Layout(pointer: nat, buckets: nat, hashBuckets: u32, entryChain: u32, entryObject: u32,
                           headerBody: u32, headerTypeIndex: u32, headerInfoMask: u32, headerSecurity: u32,
                           nameInfoName: u32, nameInfoSize: u32, unicodeLength: u32, unicodeBuffer: u32, typeName: u32)
  {
    /** The part of `Layout::check` a walk's loops rest on. */
    predicate Checked() { (pointer == 4 || pointer == 8) && 0 < buckets <= MAX_BUCKETS }
  }

  datatype Globals = Globals(root: Option<u64>, infoMaskToOffset: Option<u64>, headerCookie: Option<u64>,
                             typeIndexTable: Option<u64>, upcase: Option<UpcaseTable>)

  datatype KernelObject = KernelObject(address: u64, name: Text, exactName: bool, typeName: Option<Text>, security: Option<u64>)

  // ----- Reads

  function ReadBytes(mem: Memory, at: u64, len: nat): (r: Result<seq<byte>, ObjectError>)
    ensures r.Ok? ==> |r.value| >= len
  {
    var bytes := mem(at, len);
    if bytes.Some? && |bytes.value| >= len then Ok(bytes.value) else Err(Unreadable(at, len))
  }

  /** The pointer in bytes that were read for one, at whichever of the two widths the target uses. */
  function PointerIn(layout: Layout, at: u64, bytes: Option<seq<byte>>): (r: Result<u64, ObjectError>)
    ensures r.Err? ==> IsReadError(r.error)
  {
    if bytes.None? || |bytes.value| < layout.pointer then Err(Unreadable(at, layout.pointer))
    else if layout.pointer == 4 then Ok(U32(bytes.value))
    else if layout.pointer == 8 then Ok(U64(bytes.value))
    else Err(Malformed)
  }

  function PointerAt(mem: Memory, layout: Layout, at: u64): (r: Result<u64, ObjectError>)
    ensures r.Err? ==> IsReadError(r.error)
  {
    PointerIn(layout, at, mem(at, layout.pointer))
  }

  function FieldAt(bytes: seq<byte>, offset: nat): Result<u16, ObjectError> {
    if offset + 2 <= |bytes| then Ok(U16(bytes[offset..])) else Err(Malformed)
  }

  // ----- Names that are text, and names that are not

  predicate IsHigh(unit: u16) { 0xd800 <= unit < 0xdc00 }
  predicate IsLow(unit: u16) { 0xdc00 <= unit < 0xe000 }

  /** Every surrogate is one of a pair. */
  predicate IsText(units: seq<u16>) {
    if units == [] then true
    else if IsHigh(units[0]) then |units| > 1 && IsLow(units[1]) && IsText(units[2..])
    else !IsLow(units[0]) && IsText(units[1..])
  }

  /** The units with each unpaired surrogate replaced. */
  function Rendered(units: seq<u16>): Text {
    if units == [] then []
    else if IsHigh(units[0]) && |units| > 1 && IsLow(units[1]) then units[..2] + Rendered(units[2..])
    else [if IsHigh(units[0]) || IsLow(units[0]) then REPLACEMENT else units[0]] + Rendered(units[1..])
  }

  /** A rendering is always text, and is the name exactly when the name is text. */
  lemma {:induction false} RenderingIsText(units: seq<u16>)
    ensures IsText(Rendered(units)) && |Rendered(units)| == |units|
    ensures Rendered(units) == units <==> IsText(units)
    decreases |units|
  {
    if units != [] {
      if IsHigh(units[0]) && |units| > 1 && IsLow(units[1]) {
        RenderingIsText(units[2..]);
        assert units == units[..2] + units[2..];
        assert Rendered(units)[2..] == Rendered(units[2..]);
      } else {
        RenderingIsText(units[1..]);
        assert units == [units[0]] + units[1..];
        assert Rendered(units)[1..] == Rendered(units[1..]);
      }
    }
  }

  function UnitsOf(bytes: seq<byte>): seq<u16> {
    seq(|bytes| / 2, i requires 0 <= i < |bytes| / 2 => U16(bytes[2 * i..]))
  }

  /** `utf16`: the text of a name, and whether it is the name or only shows it. */
  function Utf16(bytes: seq<byte>): (Text, bool) {
    (Rendered(UnitsOf(bytes)), IsText(UnitsOf(bytes)))
  }

  function UnicodeAt(mem: Memory, layout: Layout, at: u64, bound: nat): (r: Result<(Text, bool), ObjectError>)
    ensures r.Err? ==> IsReadError(r.error)
  {
    var bytes :- ReadBytes(mem, at, layout.unicodeBuffer + layout.pointer);
    var length :- FieldAt(bytes, layout.unicodeLength);
    var maximum :- FieldAt(bytes, layout.unicodeLength + 2);
    if length > maximum then Err(Malformed)
    else
      var buffer :- PointerAt(mem, layout, Wrap(at + layout.unicodeBuffer));
      if length == 0 then Ok(([], true))
      else if buffer == 0 || length % 2 != 0 then Err(Malformed)
      else if length > bound then Err(TooMany)
      else
        var raw :- ReadBytes(mem, buffer, length);
        Ok(Utf16(raw[..length]))
  }

  // ----- One object

  function HeaderOf(layout: Layout, body: u64): u64 { Wrap(body - layout.headerBody) }

  /** An object's own name, or nothing for an object filed under none. */
  function NameOf(mem: Memory, layout: Layout, globals: Globals, body: u64): (r: Result<Option<(Text, bool)>, ObjectError>)
    ensures r.Err? ==> IsReadError(r.error)
  {
    var header := HeaderOf(layout, body);
    var mask :- ReadBytes(mem, Wrap(header + layout.headerInfoMask), 1);
    if (mask[0] / 2) % 2 == 0 then Ok(None)
    else if globals.infoMaskToOffset.None? then Err(Unavailable)
    else
      var distance :- ReadBytes(mem, Wrap(globals.infoMaskToOffset.value + mask[0] % 4), 1);
      if distance[0] < layout.nameInfoSize then Err(Malformed)
      else
        var name :- UnicodeAt(mem, layout, Wrap(Wrap(header - distance[0]) + layout.nameInfoName), MAX_NAME_BYTES);
        Ok(Some(name))
  }

  /** The descriptor pointer with the reference count cleared out of its low bits. */
  function SecurityOf(mem: Memory, layout: Layout, body: u64): (r: Result<Option<u64>, ObjectError>)
    requires layout.Checked()
    ensures r.Err? ==> IsReadError(r.error)
  {
    var counted :- PointerAt(mem, layout, Wrap(HeaderOf(layout, body) + layout.headerSecurity));
    var descriptor: u64 := counted - counted % (2 * layout.pointer);
    Ok(if descriptor == 0 then None else Some(descriptor))
  }

  /** Exclusive or, bit by bit from the lowest. */
  function XorBits(a: nat, b: nat, n: nat): nat {
    if n == 0 then 0 else (a + b) % 2 + 2 * XorBits(a / 2, b / 2, n - 1)
  }

  function Power(n: nat): nat { if n == 0 then 1 else 2 * Power(n - 1) }

  lemma {:induction false} XorFits(a: nat, b: nat, n: nat)
    ensures XorBits(a, b, n) < Power(n)
  {
    if n > 0 {
      XorFits(a / 2, b / 2, n - 1);
    }
  }

  lemma EightBits()
    ensures Power(8) == 0x100
  {
  }

  function Xor(a: byte, b: byte): byte {
    XorFits(a, b, 8);
    EightBits();
    XorBits(a, b, 8)
  }

  /** The name of an object's type, when the type table can be read. */
  function TypeOf(mem: Memory, layout: Layout, globals: Globals, body: u64): Option<Text> {
    if globals.headerCookie.None? || globals.typeIndexTable.None? then None
    else
      var header := HeaderOf(layout, body);
      var raw := ReadBytes(mem, Wrap(header + layout.headerTypeIndex), 1);
      var cookie := ReadBytes(mem, globals.headerCookie.value, 1);
      if raw.Err? || cookie.Err? then None
      else
        var index := Xor(Xor(raw.value[0], cookie.value[0]), (header / 0x100) % 0x100);
        var entry := PointerAt(mem, layout, Wrap(globals.typeIndexTable.value + index * layout.pointer));
        if entry.Err? || entry.value == 0 then None
        else
          var name := UnicodeAt(mem, layout, Wrap(entry.value + layout.typeName), MAX_NAME_BYTES);
          if name.Err? || name.value.0 == [] then None else Some(name.value.0)
  }

  /** What becomes of one entry of a directory in a listing of it. */
  datatype Description =
    | Listed(found: KernelObject)
    | CannotBeRead
    | ContradictsItself
    | Nameless
    | Fatal(error: ObjectError)

  function Skipping(e: ObjectError): Description {
    match e
    case Unreadable(_, _) => CannotBeRead
    case Malformed => ContradictsItself
    case _ => Fatal(e)
  }

  function Describe(mem: Memory, layout: Layout, globals: Globals, body: u64): (d: Description)
    requires layout.Checked()
    ensures d.Fatal? ==> IsReadError(d.error)
  {
    match NameOf(mem, layout, globals, body)
    case Err(e) => Skipping(e)
    case Ok(None) => Nameless
    case Ok(Some((name, exact))) =>
      match SecurityOf(mem, layout, body)
      case Err(e) => Skipping(e)
      case Ok(security) => Listed(KernelObject(body, name, exact, TypeOf(mem, layout, globals, body), security))
  }

  // ----- A description depends on nothing but what memory answers

  ghost predicate Alike(mem: Memory, other: Memory) {
    forall a: int, n: nat :: mem(a, n) == other(a, n)
  }

  lemma UnicodeAlike(mem: Memory, other: Memory, layout: Layout, at: u64, bound: nat)
    requires Alike(mem, other)
    ensures UnicodeAt(mem, layout, at, bound) == UnicodeAt(other, layout, at, bound)
  {
    hide Utf16, PointerIn, FieldAt;
  }

  lemma NameAlike(mem: Memory, other: Memory, layout: Layout, globals: Globals, body: u64)
    requires Alike(mem, other)
    ensures NameOf(mem, layout, globals, body) == NameOf(other, layout, globals, body)
  {
    hide UnicodeAt;
    forall at: u64 ensures UnicodeAt(mem, layout, at, MAX_NAME_BYTES) == UnicodeAt(other, layout, at, MAX_NAME_BYTES) {
      UnicodeAlike(mem, other, layout, at, MAX_NAME_BYTES);
    }
  }

  lemma TypeAlike(mem: Memory, other: Memory, layout: Layout, globals: Globals, body: u64)
    requires Alike(mem, other)
    ensures TypeOf(mem, layout, globals, body) == TypeOf(other, layout, globals, body)
  {
    hide UnicodeAt, Xor, PointerIn;
    forall at: u64 ensures UnicodeAt(mem, layout, at, MAX_NAME_BYTES) == UnicodeAt(other, layout, at, MAX_NAME_BYTES) {
      UnicodeAlike(mem, other, layout, at, MAX_NAME_BYTES);
    }
  }

  lemma DescribeAlike(mem: Memory, other: Memory, layout: Layout, globals: Globals, body: u64)
    requires Alike(mem, other) && layout.Checked()
    ensures Describe(mem, layout, globals, body) == Describe(other, layout, globals, body)
  {
    hide NameOf, TypeOf, PointerIn;
    NameAlike(mem, other, layout, globals, body);
    TypeAlike(mem, other, layout, globals, body);
  }
}
