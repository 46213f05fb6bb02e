/**
 * Names that are not text. A lookup skips them, on the ground that no path could have meant one.
 *
 * The object manager compares the units it holds, not a rendering of them, so the ground is about
 * the fold: it holds exactly when the fold never brings a surrogate together with a unit of another
 * kind. Windows' own table moves no surrogate, and a table read from a target promises nothing.
 */
module NameIdentity {
  import opened Machine
  import opened Session
  import opened UpcaseFold
  import opened UpcaseTrie
  import opened ObjectNames
  import opened ObjectPaths
  import opened ObjectDirectory
  import opened Objects = Namespace

  datatype UnitClass = High | Low | Plain

  function ClassOf(unit: u16): UnitClass {
    if IsHigh(unit) then High else if IsLow(unit) then Low else Plain
  }

  ghost predicate FoldAlike(fold: u16 -> u16, one: seq<u16>, other: seq<u16>) {
    |one| == |other| && forall i :: 0 <= i < |one| ==> fold(one[i]) == fold(other[i])
  }

  /** Units the fold identifies are of one class. */
  ghost predicate KeepsClasses(fold: u16 -> u16) {
    forall a: u16, b: u16 :: fold(a) == fold(b) ==> ClassOf(a) == ClassOf(b)
  }

  /** The fold a lookup uses: the target's table where there is one, the host's where it does not answer, ASCII by rule. */
  ghost function FoldOf(k: Kernel): u16 -> u16 {
    (unit: u16) => SteadyFold(k.mem, k.globals.upcase, k.layout.pointer, k.host, unit)
  }

  /** An object filed under these units, as a listing shows it. */
  ghost predicate Shows(found: KernelObject, units: seq<u16>) {
    found.name == Rendered(units) && found.exactName == IsText(units)
  }

  /** A lookup of a component finds an object whenever the units it is filed under fold as the component does. */
  ghost predicate SeesEveryName(k: Kernel) {
    forall found: KernelObject, units: seq<u16>, component: Text :: SeesName(k, found, units, component)
  }

  ghost predicate SeesName(k: Kernel, found: KernelObject, units: seq<u16>, component: Text) {
    Shows(found, units) && IsText(component) ==> (Matches(k, found, component) <==> FoldAlike(FoldOf(k), units, component))
  }

  lemma {:induction false} SameClassesSameText(one: seq<u16>, other: seq<u16>)
    requires |one| == |other| && forall i :: 0 <= i < |one| ==> ClassOf(one[i]) == ClassOf(other[i])
    ensures IsText(one) == IsText(other)
    decreases |one|
  {
    if one != [] {
      assert ClassOf(one[0]) == ClassOf(other[0]);
      if IsHigh(one[0]) && |one| > 1 {
        assert ClassOf(one[1]) == ClassOf(other[1]);
        SameClassesSameText(one[2..], other[2..]);
      } else {
        SameClassesSameText(one[1..], other[1..]);
      }
    }
  }

  /** A component that is text, and a name that is not, for any two units the fold confuses. */
  lemma ConfusedUnits(fold: u16 -> u16, a: u16, b: u16) returns (name: seq<u16>, component: seq<u16>)
    requires fold(a) == fold(b) && ClassOf(a) != ClassOf(b)
    ensures FoldAlike(fold, name, component) && IsText(component) && !IsText(name)
  {
    if ClassOf(a).Plain? {
      name, component := [b], [a];
    } else if ClassOf(b).Plain? {
      name, component := [a], [b];
    } else if IsHigh(a) {
      name, component := [a, a], [a, b];
      assert component[2..] == [];
    } else {
      name, component := [b, b], [b, a];
      assert component[2..] == [];
    }
  }

  lemma FoldedAlike(k: Kernel, one: Text, other: Text)
    ensures FoldedName(k, one) == FoldedName(k, other) <==> FoldAlike(FoldOf(k), one, other)
  {
    hide SteadyFold;
    if FoldedName(k, one) == FoldedName(k, other) {
      assert |one| == |FoldedName(k, one)| == |other|;
      forall i | 0 <= i < |one| ensures FoldOf(k)(one[i]) == FoldOf(k)(other[i]) {
        assert FoldedName(k, one)[i] == FoldedName(k, other)[i];
      }
    }
  }

  lemma NameIsSeen(k: Kernel, found: KernelObject, units: seq<u16>, component: Text)
    requires KeepsClasses(FoldOf(k))
    ensures SeesName(k, found, units, component)
  {
    hide SteadyFold, IsText;
    if Shows(found, units) && IsText(component) {
      RenderingIsText(units);
      FoldedAlike(k, units, component);
      if FoldAlike(FoldOf(k), units, component) {
        SameClassesSameText(units, component);
      }
    }
  }

  /** Skipping names that are not text loses nothing, for every object and every path, exactly when the fold keeps classes. */
  lemma SkippingIsSafe(k: Kernel)
    ensures SeesEveryName(k) <==> KeepsClasses(FoldOf(k))
  {
    hide SteadyFold, SteadyName, IsText;
    if KeepsClasses(FoldOf(k)) {
      forall found, units, component ensures SeesName(k, found, units, component) {
        NameIsSeen(k, found, units, component);
      }
    } else {
      var a: u16, b: u16 :| FoldOf(k)(a) == FoldOf(k)(b) && ClassOf(a) != ClassOf(b);
      var name, component := ConfusedUnits(FoldOf(k), a, b);
      assert !SeesName(k, KernelObject(0, Rendered(name), false, None, None), name, component);
    }
  }

  // ----- A kernel in which a lookup misses the object it was asked for

  /** A table with one delta out of place: U+00E9 folds onto a surrogate. */
  function Misplaced(unit: u16): u16 { if unit == 0xe9 then 0xd800 else unit }

  const TABLE: u64 := 0x10_0000
  const DIRECTORY_AT: u64 := 0x4000
  const BODY: u64 := 0x6030

  const LAYOUT: Layout := Layout(8, 1, 0, 0, 8, 0x30, 0x18, 0x1a, 0x28, 8, 0x20, 0, 8, 0x10)
  const GLOBALS: Globals := Globals(Some(0x1000), Some(0x2000), None, None, Some(UpcaseTable(0x3000, 0, 0)))

  function Pointer(low: byte, next: byte, third: byte): Option<seq<byte>> { Some([low, next, third, 0, 0, 0, 0, 0]) }

  /** One directory of one entry, an object whose name is the single unit U+D800, and the table. */
  function HiddenMemory(elements: seq<u16>): Memory {
    (at: int, len: nat) =>
      if len == 8 then
        if at == 0x1000 then Pointer(0, 0x40, 0)           // the root directory
        else if at == 0x3000 then Pointer(0, 0, 0x10)      // the upcase table
        else if at == 0x4000 then Pointer(0, 0x50, 0)      // its one bucket
        else if at == 0x5000 then Pointer(0, 0, 0)         // the entry's link
        else if at == 0x5008 then Pointer(0x30, 0x60, 0)   // and its object
        else if at == 0x5ff0 then Pointer(0, 0x70, 0)      // the name's buffer
        else if at == 0x6028 then Pointer(0, 0, 0)         // no security descriptor
        else None
      else if len == 1 then
        if at == 0x601a then Some([2])                     // the object has a name
        else if at == 0x2002 then Some([0x20])             // this far before its header
        else None
      else if len == 16 then
        if at == 0x5fe8 then Some([2, 0, 2, 0, 0, 0, 0, 0, 0, 0x70, 0, 0, 0, 0, 0, 0]) else None
      else if len == 2 then
        if at == 0x7000 then Some([0x00, 0xd8])            // the name
        else if at >= 0x10_0000 then TableMemory(TABLE, elements)(at, len)
        else None
      else None
  }

  function HiddenKernel(elements: seq<u16>): Kernel {
    Kernel(HiddenMemory(elements), LAYOUT, GLOBALS, (unit: u16) => unit)
  }

  const HIDDEN: KernelObject := KernelObject(BODY, [REPLACEMENT], false, None, None)

  lemma PointerIs(at: u64, low: byte, next: byte, third: byte)
    ensures PointerIn(LAYOUT, at, Pointer(low, next, third)) == Ok(low + 0x100 * next + 0x1_0000 * third)
  {
  }

  lemma PointersAre(elements: seq<u16>)
    ensures var mem := HiddenMemory(elements);
      && PointerAt(mem, LAYOUT, 0x1000) == Ok(DIRECTORY_AT) && PointerAt(mem, LAYOUT, 0x4000) == Ok(0x5000)
      && PointerAt(mem, LAYOUT, 0x5000) == Ok(0) && PointerAt(mem, LAYOUT, 0x5008) == Ok(BODY)
      && PointerAt(mem, LAYOUT, 0x5ff0) == Ok(0x7000) && PointerAt(mem, LAYOUT, 0x6028) == Ok(0)
  {
    hide PointerIn, Pointer, TableMemory;
    PointerIs(0x1000, 0, 0x40, 0);
    PointerIs(0x4000, 0, 0x50, 0);
    PointerIs(0x5000, 0, 0, 0);
    PointerIs(0x5008, 0x30, 0x60, 0);
    PointerIs(0x5ff0, 0, 0x70, 0);
    PointerIs(0x6028, 0, 0, 0);
  }

  lemma LoneSurrogate()
    ensures Utf16([0x00, 0xd8]) == ([REPLACEMENT], false) && Rendered([0xd800]) == [REPLACEMENT] && !IsText([0xd800])
  {
    var bytes: seq<byte> := [0x00, 0xd8];
    var units: seq<u16> := [0xd800];
    assert UnitsOf(bytes) == units by {
      assert UnitsOf(bytes)[0] == U16(bytes[0..]) == 0xd800;
    }
    assert Rendered(units) == [REPLACEMENT] by {
      assert units[1..] == [] && Rendered([]) == [];
      assert IsHigh(units[0]);
    }
    assert !IsText(units);
    assert Utf16(bytes) == (Rendered(units), IsText(units));
  }

  lemma HiddenFields()
    ensures var bytes: seq<byte> := [2, 0, 2, 0, 0, 0, 0, 0, 0, 0x70, 0, 0, 0, 0, 0, 0]; FieldAt(bytes, 0) == Ok(2) && FieldAt(bytes, 2) == Ok(2)
  {
  }

  lemma HiddenText(elements: seq<u16>)
    ensures UnicodeAt(HiddenMemory(elements), LAYOUT, 0x5fe8, MAX_NAME_BYTES) == Ok(([REPLACEMENT], false))
  {
    hide PointerAt, Pointer, TableMemory, Utf16, FieldAt;
    PointersAre(elements);
    HiddenFields();
    LoneSurrogate();
    assert [0x00, 0xd8][..2] == [0x00, 0xd8];
  }

  lemma HiddenName(elements: seq<u16>)
    ensures NameOf(HiddenMemory(elements), LAYOUT, GLOBALS, BODY) == Ok(Some(([REPLACEMENT], false)))
  {
    hide PointerAt, Pointer, TableMemory, UnicodeAt;
    HiddenText(elements);
    assert HeaderOf(LAYOUT, BODY) == 0x6000;
    assert ReadBytes(HiddenMemory(elements), 0x601a, 1) == Ok([2]) && ReadBytes(HiddenMemory(elements), 0x2002, 1) == Ok([0x20]);
  }

  lemma HiddenSecurity(elements: seq<u16>)
    ensures SecurityOf(HiddenMemory(elements), LAYOUT, BODY) == Ok(None)
  {
    hide PointerAt, HiddenMemory;
    PointersAre(elements);
    assert HeaderOf(LAYOUT, BODY) == 0x6000;
  }

  lemma HiddenIsDescribed(elements: seq<u16>)
    ensures Describe(HiddenMemory(elements), LAYOUT, GLOBALS, BODY) == Listed(HIDDEN)
    ensures Shows(HIDDEN, [0xd800])
  {
    hide NameOf, SecurityOf, HiddenMemory, Rendered, IsText, Utf16;
    HiddenName(elements);
    HiddenSecurity(elements);
    LoneSurrogate();
  }

  lemma HiddenEntry(elements: seq<u16>)
    ensures var mem := HiddenMemory(elements);
      Reads(mem, LAYOUT, 0x5000) && LinkOf(mem, LAYOUT, 0x5000) == 0 && ObjectOf(mem, LAYOUT, 0x5000) == BODY
  {
    hide PointerAt, HiddenMemory;
    PointersAre(elements);
    assert ObjectAddress(LAYOUT, 0x5000) == 0x5008 && LinkAddress(LAYOUT, 0x5000) == 0x5000;
  }

  lemma OneEntryChain(mem: Memory, layout: Layout, entry: u64)
    requires entry != 0 && Reads(mem, layout, entry) && LinkOf(mem, layout, entry) == 0 && ObjectOf(mem, layout, entry) != 0
    ensures IsChain(mem, layout, entry, [entry]) && ObjectsOn(mem, layout, [entry]) == [ObjectOf(mem, layout, entry)]
  {
    hide Reads, LinkOf, ObjectOf, Leads, ObjectsOn;
    ChainStarts(mem, layout, entry);
    ChainGrows(mem, layout, entry, [], entry);
    assert [] + [entry] == [entry];
  }

  lemma HiddenChain(elements: seq<u16>)
    ensures var mem := HiddenMemory(elements); IsBucket(mem, LAYOUT, DIRECTORY_AT, 0, [0x5000]) && ObjectsOn(mem, LAYOUT, [0x5000]) == [BODY]
  {
    hide PointerAt, HiddenMemory, Reads, LinkOf, ObjectOf, IsChain, ObjectsOn;
    PointersAre(elements);
    HiddenEntry(elements);
    OneEntryChain(HiddenMemory(elements), LAYOUT, 0x5000);
    assert BucketAddress(LAYOUT, DIRECTORY_AT, 0) == 0x4000;
  }

  lemma HiddenBucket(elements: seq<u16>)
    ensures var mem := HiddenMemory(elements); IsDirectory(mem, LAYOUT, DIRECTORY_AT, [[0x5000]]) && ObjectsIn(mem, LAYOUT, [[0x5000]]) == [BODY]
  {
    hide HiddenMemory, IsBucket, ObjectsOn;
    var mem := HiddenMemory(elements);
    HiddenChain(elements);
    var chains: seq<seq<u64>> := [[0x5000]];
    assert chains[..0] == [] && Links([]) == 0 && ObjectsIn(mem, LAYOUT, []) == [];
  }

  lemma HiddenDirectory(elements: seq<u16>)
    ensures FullyLists(HiddenKernel(elements), DIRECTORY_AT, Listing([HIDDEN], 0, 0, false))
    ensures RootOf(HiddenMemory(elements), LAYOUT, GLOBALS) == Ok(DIRECTORY_AT)
  {
    hide PointerAt, HiddenMemory, Describe, IsDirectory, ObjectsIn;
    var k := HiddenKernel(elements);
    PointersAre(elements);
    HiddenBucket(elements);
    HiddenIsDescribed(elements);
    var ds := Descriptions(k, [BODY]);
    assert ds == [Listed(HIDDEN)] && ds[..0] == [];
    assert ObjectsAmong(ds[..0]) == [] && CountOf(ds[..0], CannotBeRead) == 0 && CountOf(ds[..0], ContradictsItself) == 0;
    assert ListsAll(k, DIRECTORY_AT, [[0x5000]], Listing([HIDDEN], 0, 0, false));
  }

  lemma TableIsInHiddenMemory(elements: seq<u16>)
    requires |elements| <= 0x1_0000
    ensures Lays(HiddenMemory(elements), TABLE, elements)
  {
    hide TableMemory, Element;
    TableIsLaid(TABLE, elements);
    forall i | 0 <= i < |elements| ensures Element(AlwaysAnswers(HiddenMemory(elements)), 0, TABLE, i) == Some(elements[i]) {
      SameElement(elements, i);
    }
  }

  lemma SameElement(elements: seq<u16>, i: nat)
    requires i < |elements| <= 0x1_0000
    ensures Element(AlwaysAnswers(HiddenMemory(elements)), 0, TABLE, i) == Element(AlwaysAnswers(TableMemory(TABLE, elements)), 0, TABLE, i)
  {
    hide TableMemory;
    assert Wrap(TABLE + 2 * i) == TABLE + 2 * i;
  }

  /** The kernel's fold, wherever its table is asked, is the misplaced one. */
  lemma HiddenFold(elements: seq<u16>, unit: u16)
    requires 0x100 <= |elements| <= 0x1_0000 && RowsDone(elements, Misplaced, 0x100) && !BelowTheTable(unit)
    ensures FoldOf(HiddenKernel(elements))(unit) == Misplaced(unit)
  {
    hide HiddenMemory, FromTable, RowsDone;
    HiddenBase(elements);
    TableIsInHiddenMemory(elements);
    RoundTrip(Misplaced, elements, HiddenMemory(elements), TABLE, unit);
  }

  lemma HiddenBase(elements: seq<u16>)
    ensures BaseAt(AlwaysAnswers(HiddenMemory(elements)), 0, UpcaseTable(0x3000, 0, 0), 8) == Some(TABLE)
  {
    hide TableMemory;
    PointerIs(0x3000, 0, 0, 0x10);
  }

  lemma HiddenIsMissed(elements: seq<u16>)
    requires 0x100 <= |elements| <= 0x1_0000 && RowsDone(elements, Misplaced, 0x100)
    ensures var k := HiddenKernel(elements); FoldAlike(FoldOf(k), [0xd800], [0xe9]) && !SeesEveryName(k) && !KeepsClasses(FoldOf(k))
  {
    hide HiddenMemory, SteadyFold, RowsDone, SeesEveryName;
    var k := HiddenKernel(elements);
    HiddenFold(elements, 0xe9);
    HiddenFold(elements, 0xd800);
    assert FoldOf(k)(0xe9) == FoldOf(k)(0xd800) && ClassOf(0xe9) != ClassOf(0xd800);
    SkippingIsSafe(k);
  }

  /**
   * The whole of it: the object is filed under a name that folds as the component does, and the
   * lookup reads its directory in full and answers that there is no such object.
   */
  method ALookupThatMisses() returns (k: Kernel, r: Result<KernelObject, ObjectError>)
    ensures k.layout.Checked() && FullyLists(k, DIRECTORY_AT, Listing([HIDDEN], 0, 0, false))
    ensures Shows(HIDDEN, [0xd800]) && IsText([0xe9]) && FoldAlike(FoldOf(k), [0xd800], [0xe9])
    ensures !SeesEveryName(k) && !KeepsClasses(FoldOf(k))
    ensures r == Err(NotFound([SEPARATOR], [0xe9]))
  {
    hide HiddenMemory, SteadyFold, FullyLists, RowsDone, TableSize, Shows, FoldAlike, SeesEveryName, KeepsClasses, IsText, ComponentsOf, RootIsThere, IsAnswer,
      Accounts, RootOf, Obeys, Sound;
    MisplacedFits();
    var elements := TrieEncoding(Misplaced);
    k := HiddenKernel(elements);
    HiddenIsMissed(elements);
    HiddenDirectory(elements);
    HiddenIsDescribed(elements);
    ComponentIs();
    MissIsHeld(k);
    r := Ask(k, [SEPARATOR, 0xe9], [[0xe9]], Err(NotFound([SEPARATOR], [0xe9])));
  }

  lemma MisplacedFits()
    ensures TableSize(Misplaced) <= 0x1_0000
  {
    FewMovesFit(Misplaced, {0xe9});
  }

  /** A lookup in a kernel whose memory holds still, by a caller that never asks for a stop. */
  method Ask(k: Kernel, path: Text, ghost components: seq<Text>, ghost answer: Result<KernelObject, ObjectError>)
    returns (r: Result<KernelObject, ObjectError>)
    requires k.layout.Checked() && RootIsThere(k) && ComponentsOf(path) == Ok(components) && IsAnswer(k, components, answer, [])
    ensures r == answer
  {
    hide ComponentsOf, RootIsThere, IsAnswer, Accounts, Obeys, Sound;
    var mem := k.mem;
    var target := new Target((t: nat, at: int, len: nat) => mem(at, len), None);
    var names := new Objects.Namespace(target, k.layout, k.globals, k.host);
    assert names.AsKernel(mem) == k;
    ghost var trail, last;
    r, trail, last := names.ObjectAt(path, mem);
  }

  lemma ComponentIs()
    ensures ComponentsOf([SEPARATOR, 0xe9]) == Ok([[0xe9]]) && IsText([0xe9])
  {
    assert AreComponents([[0xe9]]) && Join([[0xe9]]) == [0xe9];
    PathsAreExact([SEPARATOR, 0xe9], [[0xe9]]);
  }

  lemma MissIsHeld(k: Kernel)
    requires k.layout.Checked() && RootOf(k.mem, k.layout, k.globals) == Ok(DIRECTORY_AT)
    requires FullyLists(k, DIRECTORY_AT, Listing([HIDDEN], 0, 0, false))
    ensures RootIsThere(k) && IsAnswer(k, [[0xe9]], Err(NotFound([SEPARATOR], [0xe9])), [])
  {
    hide FullyLists, RootOf, SteadyName;
    var components: seq<Text> := [[0xe9]];
    TrailStarts(k, DIRECTORY_AT, components);
    assert NoMatch(k, [HIDDEN], [0xe9]);
    assert Misses(k, DIRECTORY_AT, components, [], [SEPARATOR], [0xe9], 0, 0);
  }
}
