/**
 * A kernel's upcase table as it is written: a pointer to it two structures deep, and its elements as
 * little-endian units. Every unit of a kernel so written folds as its table says, and those below the
 * table's floor as no table decides.
 */
module UpcaseBytes {
  import opened Machine
  import opened ByteMemory
  import opened Session
  import opened UpcaseFold
  import opened UpcaseTrie

  const SPACE: int := 0x1_0000_0000_0000_0000

  ghost predicate TableAt(bytes: ByteMemory.Memory, base: u64, elements: seq<u16>) {
    forall i :: 0 <= i < |elements| ==> ElementAt(bytes, base, i, elements[i])
  }

  ghost predicate ElementAt(bytes: ByteMemory.Memory, base: u64, i: nat, element: u16) {
    Holds(bytes, (base + 2 * i) % SPACE, LE16(element))
  }

  /** The pointer to the table, at the target's own width. */
  ghost predicate BasedAt(bytes: ByteMemory.Memory, table: UpcaseTable, pointer: nat, base: u64) {
    var at := (table.siloGlobals + table.nlsState + table.upcaseTable) % SPACE;
    (pointer == 4 && base <= MAX_U32 && Holds(bytes, at, LE32(base))) || (pointer == 8 && Holds(bytes, at, LE64(base)))
  }

  lemma TableIsRead(mem: Session.Memory, bytes: ByteMemory.Memory, base: u64, elements: seq<u16>)
    requires Reading(mem, bytes) && TableAt(bytes, base, elements)
    ensures Lays(mem, base, elements)
  {
    hide LE16, U16, Reading;
    forall i | 0 <= i < |elements| ensures Element(AlwaysAnswers(mem), 0, base, i) == Some(elements[i]) {
      assert ElementAt(bytes, base, i, elements[i]);
      HeldIsRead(mem, bytes, (base + 2 * i) % SPACE, LE16(elements[i]));
      Decoded16(elements[i]);
    }
  }

  lemma BaseIsRead(mem: Session.Memory, bytes: ByteMemory.Memory, table: UpcaseTable, pointer: nat, base: u64)
    requires Reading(mem, bytes) && BasedAt(bytes, table, pointer, base)
    ensures BaseAt(AlwaysAnswers(mem), 0, table, pointer) == Some(base)
  {
    hide LE32, LE64, U32, U64, Reading, Holds;
    var at := (table.siloGlobals + table.nlsState + table.upcaseTable) % SPACE;
    assert table.PointerAt() == at;
    if pointer == 4 {
      HeldIsRead(mem, bytes, at, LE32(base));
      Decoded32(base);
    } else {
      HeldIsRead(mem, bytes, at, LE64(base));
      Decoded64(base);
    }
  }

  /** Each unit folds as the table written for the fold says, in the table's own band. */
  lemma FoldIsRead(mem: Session.Memory, bytes: ByteMemory.Memory, table: UpcaseTable, pointer: nat, host: u16 -> u16,
                   fold: u16 -> u16, base: u64, elements: seq<u16>, unit: u16)
    requires Reading(mem, bytes) && BasedAt(bytes, table, pointer, base) && base != 0
    requires 0x100 <= |elements| <= 0x1_0000 && RowsDone(elements, fold, 0x100) && TableAt(bytes, base, elements)
    ensures SteadyFold(mem, Some(table), pointer, host, unit) ==
      if 0x61 <= unit <= 0x7a then unit - 0x20 else if unit < 0xc0 then unit else fold(unit)
  {
    hide Reading, BasedAt, RowsDone, TableAt, BaseAt, FromTable, Lays;
    BaseIsRead(mem, bytes, table, pointer, base);
    TableIsRead(mem, bytes, base, elements);
    RoundTrip(fold, elements, mem, base, unit);
  }

  /** A kernel whose table is null folds nothing more, and one whose table is not known folds as the host does. */
  lemma NoTableIsRead(mem: Session.Memory, bytes: ByteMemory.Memory, table: UpcaseTable, pointer: nat, host: u16 -> u16, unit: u16)
    requires Reading(mem, bytes) && unit >= 0xc0
    ensures BasedAt(bytes, table, pointer, 0) ==> SteadyFold(mem, Some(table), pointer, host, unit) == unit
    ensures bytes((table.siloGlobals + table.nlsState + table.upcaseTable) % SPACE).None? ==>
      SteadyFold(mem, Some(table), pointer, host, unit) == host(unit)
    ensures SteadyFold(mem, None, pointer, host, unit) == host(unit)
  {
    hide Reading, BasedAt, FromTable, U32, U64;
    if BasedAt(bytes, table, pointer, 0) {
      BaseIsRead(mem, bytes, table, pointer, 0);
    }
    var at := (table.siloGlobals + table.nlsState + table.upcaseTable) % SPACE;
    assert table.PointerAt() == at;
    ThereIsRead(mem, bytes, at, pointer);
  }
}
