/**
 * What an A64 instruction word does to control flow, read from its encoding, and how a branch's
 * destination is carried in it.
 *
 * Words are integers below 2^32 and a mask on them is written as the bit field it selects. The
 * theorems are about retargeting: giving a direct branch another destination in its window changes
 * that destination and nothing else, and words that agree outside the destination field go to one
 * place only if they are one word.
 */
module Arm64 {
  import opened Machine

  datatype Flow =
    | Jmp(to: Option<u64>)
    | Call(to: Option<u64>)
    | Branch(to: Option<u64>)
    | Return
    | Trap
    | Fallthrough

  /** The bits of a word above a place, and those below it: a shift, and a mask. */
  function Quot(x: nat, d: nat): nat
    requires d > 0
  {
    x / d
  }

  function Rem(x: nat, d: nat): nat
    requires d > 0
  {
    x % d
  }

  predicate IsImmediate(word: u32) { Quot(word, 0x0400_0000) % 32 == 0x05 }
  predicate IsConditional(word: u32) { Quot(word, 0x0200_0000) == 0x2a }
  predicate IsCompare(word: u32) { Quot(word, 0x0200_0000) % 64 == 0x1a }
  predicate IsTest(word: u32) { Quot(word, 0x0200_0000) % 64 == 0x1b }
  predicate IsRegister(word: u32) { Quot(word, 0x0200_0000) == 0x6b }
  predicate IsException(word: u32) { Quot(word, 0x0100_0000) == 0xd4 }
  predicate IsReserved(word: u32) { Quot(word, 0x0200_0000) % 16 == 0 }

  function Pow2(n: nat): (p: nat)
    ensures p > 0
  {
    if n == 0 then 1 else 2 * Pow2(n - 1)
  }

  /** A 32-bit word read as signed. */
  function Signed32(x: u32): int { if x < 0x8000_0000 then x else x - 0x1_0000_0000 }

  /** The field is moved up to the sign bit and back down, in units of instructions. */
  function Displacement(immediate: u32, bits: nat): int
    requires 0 < bits <= 32
  {
    var scale := Pow2(32 - bits);
    Signed32(immediate * scale % 0x1_0000_0000) / scale
  }

  /** `relative`: a branch is measured from itself, and addresses wrap. */
  function Relative(address: u64, immediate: u32, bits: nat): u64
    requires 0 < bits <= 32
  {
    Wrap(address + 4 * Displacement(immediate, bits))
  }

  predicate IsLink(word: u32) { Quot(word, 0x8000_0000) != 0 }
  predicate IsUnallocated(word: u32) { Quot(word, 0x0100_0000) % 2 != 0 }
  predicate IsAlways(word: u32) { Rem(word, 16) / 2 == 7 }

  function Field26(word: u32): nat { Rem(word, 0x0400_0000) }
  function Field19(word: u32): nat { Rem(Quot(word, 32), 0x8_0000) }
  function Field14(word: u32): nat { Rem(Quot(word, 32), 0x4000) }

  function FlowOf(word: u32, address: u64): Flow {
    if IsImmediate(word) then
      var target := Some(Relative(address, Field26(word), 26));
      if IsLink(word) then Call(target) else Jmp(target)
    else if IsConditional(word) then
      if IsUnallocated(word) then Trap
      else
        var target := Some(Relative(address, Field19(word), 19));
        if IsAlways(word) then Jmp(target) else Branch(target)
    else if IsCompare(word) then
      Branch(Some(Relative(address, Field19(word), 19)))
    else if IsTest(word) then
      Branch(Some(Relative(address, Field14(word), 14)))
    else if IsRegister(word) then
      RegisterFlow(Rem(Quot(word, 0x0020_0000), 16), Rem(Quot(word, 0x0001_0000), 32), Rem(Quot(word, 1024), 64))
    else if IsException(word) then
      if Rem(Quot(word, 0x0020_0000), 8) == 0 && Rem(Quot(word, 4), 8) == 0 && Rem(word, 4) != 0 then Fallthrough else Trap
    else if IsReserved(word) then Trap
    else Fallthrough
  }

  function RegisterFlow(opc: nat, op2: nat, op3: nat): Flow {
    if op2 != 0x1f || (op3 != 0 && op3 != 2 && op3 != 3) then Trap
    else if opc == 0 || opc == 8 then Jmp(None)
    else if opc == 1 || opc == 9 then Call(None)
    else if opc == 2 || opc == 4 || opc == 5 then Return
    else Trap
  }

  /** A quotient and a remainder are the only ones. */
  lemma QuotIs(x: nat, q: int, r: int, d: nat)
    requires 0 <= r < d && x == q * d + r
    ensures Quot(x, d) == q && Rem(x, d) == r
  {
    DividesAs(x, q, r, d);
  }

  lemma PutBack(x: nat, d: nat)
    requires d > 0
    ensures x == Quot(x, d) * d + Rem(x, d) && Rem(x, d) < d
  {
  }

  /** The top six and seven bits of a word are within its top byte. */
  lemma TopByte(word: u32)
    ensures Quot(word, 0x0100_0000) < 256
    ensures Quot(word, 0x0200_0000) == Quot(word, 0x0100_0000) / 2
    ensures Quot(word, 0x0400_0000) == Quot(word, 0x0100_0000) / 4
  {
    hide Quot, Rem;
    PutBack(word, 0x0100_0000);
    var top, rest := Quot(word, 0x0100_0000), Rem(word, 0x0100_0000);
    QuotIs(word, top / 2, top % 2 * 0x0100_0000 + rest, 0x0200_0000);
    QuotIs(word, top / 4, top % 4 * 0x0100_0000 + rest, 0x0400_0000);
  }

  /** No word is in two classes, so the order in which they are tried decides nothing. */
  lemma ClassesAreDisjoint(word: u32)
    ensures |Classes(word)| <= 1
  {
    hide Quot;
    TopByte(word);
  }

  function Classes(word: u32): seq<nat> {
    (if IsImmediate(word) then [0] else []) + (if IsConditional(word) then [1] else [])
    + (if IsCompare(word) then [2] else []) + (if IsTest(word) then [3] else [])
    + (if IsRegister(word) then [4] else []) + (if IsException(word) then [5] else [])
    + (if IsReserved(word) then [6] else [])
  }

  /** A register branch put together from its fields is taken apart into them. */
  lemma RegisterWord(opc: nat, op2: nat, op3: nat, low: nat, address: u64)
    requires opc < 16 && op2 < 32 && op3 < 64 && low < 1024
    ensures FlowOf(0xd600_0000 + opc * 0x0020_0000 + op2 * 0x0001_0000 + op3 * 1024 + low, address) == RegisterFlow(opc, op2, op3)
  {
    hide RegisterFlow, Quot, Rem;
    var word := 0xd600_0000 + opc * 0x0020_0000 + op2 * 0x0001_0000 + op3 * 1024 + low;
    var third, second, first := 0x35_8000 + opc * 2048 + op2 * 64 + op3, 0xd600 + opc * 32 + op2, 0x6b0 + opc;
    QuotIs(word, third, low, 1024);
    QuotIs(third, second, op3, 64);
    QuotIs(word, second, op3 * 1024 + low, 0x0001_0000);
    QuotIs(second, first, op2, 32);
    QuotIs(word, first, op2 * 0x0001_0000 + op3 * 1024 + low, 0x0020_0000);
    QuotIs(first, 0x6b, opc, 16);
    QuotIs(word, 0x6b, opc * 0x0020_0000 + op2 * 0x0001_0000 + op3 * 1024 + low, 0x0200_0000);
    TopByte(word);
  }

  /** The register branches by mnemonic, whatever their operands. */
  lemma RegisterForms(n: nat, m: nat, address: u64)
    requires n < 32 && m < 32
    ensures FlowOf(0xd61f_0000 + 32 * n, address) == Jmp(None)                  // br
    ensures FlowOf(0xd61f_081f + 32 * n, address) == Jmp(None)                  // braaz
    ensures FlowOf(0xd71f_0c00 + 32 * n + m, address) == Jmp(None)              // brab
    ensures FlowOf(0xd63f_0000 + 32 * n, address) == Call(None)                 // blr
    ensures FlowOf(0xd73f_0800 + 32 * n + m, address) == Call(None)             // blraa
    ensures FlowOf(0xd65f_0000 + 32 * n, address) == Return                     // ret
    ensures FlowOf(0xd65f_0bff, address) == Return                              // retaa
    ensures FlowOf(0xd69f_03e0, address) == Return                              // eret
    ensures FlowOf(0xd6bf_03e0, address) == Return                              // drps
    ensures FlowOf(0xd620_0000 + 32 * n, address) == Trap                       // unallocated
    ensures FlowOf(0xd63f_0400 + 32 * n, address) == Trap
    ensures FlowOf(0xd67f_0000 + 32 * n, address) == Trap
  {
    hide FlowOf;
    RegisterWord(0, 31, 0, 32 * n, address);
    RegisterWord(0, 31, 2, 32 * n + 31, address);
    RegisterWord(8, 31, 3, 32 * n + m, address);
    RegisterWord(1, 31, 0, 32 * n, address);
    RegisterWord(9, 31, 2, 32 * n + m, address);
    RegisterWord(2, 31, 0, 32 * n, address);
    RegisterWord(2, 31, 2, 0x3ff, address);
    RegisterWord(4, 31, 0, 0x3e0, address);
    RegisterWord(5, 31, 0, 0x3e0, address);
    RegisterWord(1, 0, 0, 32 * n, address);
    RegisterWord(1, 31, 1, 32 * n, address);
    RegisterWord(3, 31, 0, 32 * n, address);
  }

  /** Whatever is not allocated among them stops. */
  lemma OtherRegisterForms(opc: nat, op2: nat, op3: nat, low: nat, address: u64)
    requires opc < 16 && op2 < 32 && op3 < 64 && low < 1024
    requires opc in {3, 6, 7} || opc >= 10 || op2 < 31 || op3 == 1 || op3 > 3
    ensures FlowOf(0xd600_0000 + opc * 0x0020_0000 + op2 * 0x0001_0000 + op3 * 1024 + low, address) == Trap
  {
    hide FlowOf;
    RegisterWord(opc, op2, op3, low, address);
  }

  /** Of the exceptions, only the system calls come back to the next word. */
  lemma ExceptionWord(opc: nat, imm: u16, op2: nat, level: nat, address: u64)
    requires opc < 8 && op2 < 8 && level < 4
    ensures FlowOf(0xd400_0000 + opc * 0x0020_0000 + imm * 32 + op2 * 4 + level, address)
         == if opc == 0 && op2 == 0 && level != 0 then Fallthrough else Trap
  {
    hide Quot, Rem;
    var word := 0xd400_0000 + opc * 0x0020_0000 + imm * 32 + op2 * 4 + level;
    var middle := 0x3500_0000 + opc * 0x8_0000 + imm * 8 + op2;
    QuotIs(word, middle, level, 4);
    QuotIs(middle, 0x06a0_0000 + opc * 0x1_0000 + imm, op2, 8);
    QuotIs(word, 0x6a0 + opc, imm * 32 + op2 * 4 + level, 0x0020_0000);
    QuotIs(0x6a0 + opc, 0xd4, opc, 8);
    QuotIs(word, 0xd4, opc * 0x0020_0000 + imm * 32 + op2 * 4 + level, 0x0100_0000);
    TopByte(word);
  }

  // The window a field of a given width reaches.

  lemma {:induction false} PowersSplit(low: nat, high: nat)
    ensures Pow2(low) * Pow2(high) == Pow2(low + high)
  {
    if low > 0 {
      PowersSplit(low - 1, high);
    }
  }

  lemma Pow32()
    ensures Pow2(32) == 0x1_0000_0000 && Pow2(31) == 0x8000_0000
  {
    assert Pow2(8) == 0x100;
    PowersSplit(8, 8);
    PowersSplit(16, 16);
  }

  lemma DivideBack(value: int, scale: nat)
    requires scale > 0
    ensures value * scale / scale == value
  {
    var product := value * scale;
    var quotient := product / scale;
    assert product == quotient * scale + product % scale;
    assert (value - quotient) * scale == value * scale - quotient * scale;
    SmallMultiple(value - quotient, scale);
  }

  lemma Scaled(x: int, y: int, scale: nat)
    requires scale > 0
    ensures x < y <==> x * scale < y * scale
    ensures (x - y) * scale == x * scale - y * scale
  {
  }

  lemma SignedUp(field: nat, scale: nat, whole: nat, half: nat)
    requires scale > 0 && field < whole && whole * scale == 0x1_0000_0000 && half * scale == 0x8000_0000
    ensures 0 <= field * scale <= MAX_U32
    ensures Signed32(field * scale) == (if field < half then field else field - whole) * scale
  {
    Scaled(-1, field, scale);
    Scaled(field, whole, scale);
    Scaled(field, half, scale);
  }

  /** The shifts extend the field's sign, at every width. */
  lemma FieldIsSigned(field: u32, bits: nat)
    requires 0 < bits <= 32 && field < Pow2(bits)
    ensures Displacement(field, bits) == if field < Pow2(bits - 1) then field else field - Pow2(bits)
  {
    hide Pow2, Signed32;
    var scale := Pow2(32 - bits);
    Pow32();
    PowersSplit(bits, 32 - bits);
    PowersSplit(bits - 1, 32 - bits);
    SignedUp(field, scale, Pow2(bits), Pow2(bits - 1));
    DivideBack(if field < Pow2(bits - 1) then field else field - Pow2(bits), scale);
    KeptByWrap(field * scale);
  }

  lemma KeptByWrap(x: u32)
    ensures x % 0x1_0000_0000 == x
  {
  }

  /** How far `target` is from `address`, the short way round the address space. */
  function Distance(address: u64, target: u64): int {
    var away := Wrap(target - address);
    if away < 0x8000_0000_0000_0000 then away else away - 0x1_0000_0000_0000_0000
  }

  /** `target` is a whole number of instructions away, within the signed range of the field. */
  predicate Reaches(address: u64, target: u64, bits: nat) {
    var distance := Distance(address, target);
    distance % 4 == 0 && -2 * Pow2(bits) <= distance < 2 * Pow2(bits)
  }

  /** The field that names `target` from `address`. */
  function FieldFor(address: u64, target: u64, bits: nat): nat
    requires Reaches(address, target, bits)
  {
    var distance := Distance(address, target);
    if distance >= 0 then distance / 4 else distance / 4 + Pow2(bits)
  }

  lemma {:induction false} PowersGrow(n: nat, m: nat)
    requires n <= m
    ensures Pow2(n) <= Pow2(m)
  {
    if n < m {
      PowersGrow(n, m - 1);
    }
  }

  /** Moving by a short step is being that far away. */
  lemma StepIsDistance(address: u64, step: int, target: u64)
    requires -0x4_0000_0000 <= step <= 0x4_0000_0000
    ensures Wrap(address + step) == target <==> Distance(address, target) == step
  {
    hide Wrap;
    WrapNear(address + step);
    WrapNear(target - address);
  }

  lemma WrapNear(x: int)
    requires -0x1_0000_0000_0000_0000 <= x < 0x2_0000_0000_0000_0000
    ensures x < 0 ==> Wrap(x) == x + 0x1_0000_0000_0000_0000
    ensures 0 <= x <= MAX_U64 ==> Wrap(x) == x
    ensures x > MAX_U64 ==> Wrap(x) == x - 0x1_0000_0000_0000_0000
  {
  }

  lemma Halves(bits: nat)
    requires 0 < bits <= 32
    ensures Pow2(bits) == 2 * Pow2(bits - 1) && Pow2(bits) <= 0x1_0000_0000
  {
    PowersGrow(bits, 32);
    Pow32();
  }

  /** A field of any width takes a branch to each address of its window, to each from one value. */
  lemma RelativeIsExact(address: u64, field: u32, bits: nat, target: u64)
    requires 0 < bits <= 32 && field < Pow2(bits)
    ensures Relative(address, field, bits) == target <==>
            Reaches(address, target, bits) && FieldFor(address, target, bits) == field
  {
    hide Displacement, Distance, Wrap, Pow2;
    FieldIsSigned(field, bits);
    Halves(bits);
    StepIsDistance(address, 4 * Displacement(field, bits), target);
  }

  // Direct branches, and giving one another destination.

  /** Where the destination field is: `scale` is the place of its lowest bit. */
  datatype Shape = Shape(scale: nat, bits: nat)

  function ShapeOf(word: u32): Option<Shape> {
    if IsImmediate(word) then Some(Shape(1, 26))
    else if IsConditional(word) && !IsUnallocated(word) then Some(Shape(32, 19))
    else if IsCompare(word) then Some(Shape(32, 19))
    else if IsTest(word) then Some(Shape(32, 14))
    else None
  }

  function FieldOf(word: u32, shape: Shape): nat
    requires shape.scale > 0
  {
    Rem(Quot(word, shape.scale), Pow2(shape.bits))
  }

  function Destination(flow: Flow): Option<u64> {
    match flow
    case Jmp(to) => to
    case Call(to) => to
    case Branch(to) => to
    case _ => None
  }

  function Redirected(flow: Flow, target: u64): Flow {
    match flow
    case Jmp(_) => Jmp(Some(target))
    case Call(_) => Call(Some(target))
    case Branch(_) => Branch(Some(target))
    case _ => flow
  }

  /** The word with another value in its destination field. */
  function WithField(word: u32, shape: Shape, field: nat): int
    requires shape.scale > 0
  {
    word + (field - FieldOf(word, shape)) * shape.scale
  }

  lemma Widths()
    ensures Pow2(14) == 0x4000 && Pow2(19) == 0x8_0000 && Pow2(26) == 0x0400_0000
  {
    assert Pow2(7) == 0x80 && Pow2(5) == 0x20;
    PowersSplit(7, 7);
    PowersSplit(5, 14);
    PowersSplit(7, 19);
  }

  lemma FieldsByShape(word: u32)
    ensures FieldOf(word, Shape(1, 26)) == Field26(word) < 0x0400_0000
    ensures FieldOf(word, Shape(32, 19)) == Field19(word) < 0x8_0000
    ensures FieldOf(word, Shape(32, 14)) == Field14(word) < 0x4000
  {
    hide Pow2, Quot, Rem;
    Widths();
    QuotIs(word, word, 0, 1);
    PutBack(word, 0x0400_0000);
    PutBack(Quot(word, 32), 0x8_0000);
    PutBack(Quot(word, 32), 0x4000);
  }

  /** A destination is read from a word exactly when it has the field for one, and from there. */
  lemma DestinationIsTheField(word: u32, address: u64)
    ensures Destination(FlowOf(word, address)).Some? <==> ShapeOf(word).Some?
    ensures ShapeOf(word).Some? ==>
              var shape := ShapeOf(word).value;
              && FieldOf(word, shape) < Pow2(shape.bits) && FieldOf(word, shape) <= MAX_U32
              && Destination(FlowOf(word, address)) == Some(Relative(address, FieldOf(word, shape), shape.bits))
  {
    hide Relative, Pow2, FieldOf, Field26, Field19, Field14, IsImmediate, IsConditional, IsCompare, IsTest, IsRegister, IsException, IsReserved, IsLink, IsUnallocated, IsAlways;
    Widths();
    ClassesAreDisjoint(word);
    FieldsByShape(word);
  }

  /** Every direct branch goes somewhere in its window. */
  lemma DestinationIsInReach(word: u32, address: u64, target: u64)
    requires Destination(FlowOf(word, address)) == Some(target)
    ensures ShapeOf(word).Some? && Reaches(address, target, ShapeOf(word).value.bits)
    ensures FieldFor(address, target, ShapeOf(word).value.bits) == FieldOf(word, ShapeOf(word).value)
  {
    hide Relative, Pow2, Reaches, FlowOf, FieldFor, FieldOf;
    DestinationIsTheField(word, address);
    var shape := ShapeOf(word).value;
    RelativeIsExact(address, FieldOf(word, shape), shape.bits, target);
  }

  // A word put together from the bits above a field, the field and the bits below it.

  function Word26(high: nat, field: nat): nat { high * 0x0400_0000 + field }
  function Word19(high: nat, field: nat, low: nat): nat { high * 0x0100_0000 + field * 32 + low }
  function Word14(high: nat, field: nat, low: nat): nat { high * 0x8_0000 + field * 32 + low }

  lemma Split26(word: u32)
    ensures word == Word26(Quot(word, 0x0400_0000), Field26(word)) && Quot(word, 0x0400_0000) < 64 && Field26(word) < 0x0400_0000
  {
    hide Quot, Rem;
    PutBack(word, 0x0400_0000);
  }

  lemma Split19(word: u32)
    ensures word == Word19(Quot(word, 0x0100_0000), Field19(word), Rem(word, 32))
    ensures Quot(word, 0x0100_0000) < 256 && Field19(word) < 0x8_0000 && Rem(word, 32) < 32
  {
    hide Quot, Rem;
    PutBack(word, 32);
    PutBack(Quot(word, 32), 0x8_0000);
    QuotIs(word, Quot(Quot(word, 32), 0x8_0000), Field19(word) * 32 + Rem(word, 32), 0x0100_0000);
  }

  lemma Split14(word: u32)
    ensures word == Word14(Quot(word, 0x8_0000), Field14(word), Rem(word, 32))
    ensures Quot(word, 0x8_0000) < 0x2000 && Field14(word) < 0x4000 && Rem(word, 32) < 32
  {
    hide Quot, Rem;
    PutBack(word, 32);
    PutBack(Quot(word, 32), 0x4000);
    QuotIs(word, Quot(Quot(word, 32), 0x4000), Field14(word) * 32 + Rem(word, 32), 0x8_0000);
  }

  lemma Tests26(high: nat, field: nat)
    requires high < 64 && field < 0x0400_0000
    ensures Word26(high, field) <= MAX_U32 && Field26(Word26(high, field)) == field
    ensures IsImmediate(Word26(high, field)) == (high % 32 == 0x05) && IsLink(Word26(high, field)) == (high / 32 != 0)
  {
    hide Quot, Rem;
    var word := Word26(high, field);
    QuotIs(word, high, field, 0x0400_0000);
    QuotIs(word, high / 32, high % 32 * 0x0400_0000 + field, 0x8000_0000);
  }

  /** The tests of a word, by its top byte and its low five bits. */
  lemma Tests19(high: nat, field: nat, low: nat)
    requires high < 256 && field < 0x8_0000 && low < 32
    ensures var word := Word19(high, field, low);
            && word <= MAX_U32 && Field19(word) == field
            && IsImmediate(word) == (high / 4 % 32 == 0x05) && IsConditional(word) == (high / 2 == 0x2a)
            && IsCompare(word) == (high / 2 % 64 == 0x1a) && IsTest(word) == (high / 2 % 64 == 0x1b)
            && IsUnallocated(word) == (high % 2 != 0) && IsAlways(word) == (low % 16 / 2 == 7)
  {
    hide Quot, Rem;
    var word := Word19(high, field, low);
    QuotIs(word, high * 0x8_0000 + field, low, 32);
    QuotIs(high * 0x8_0000 + field, high, field, 0x8_0000);
    QuotIs(word, high, field * 32 + low, 0x0100_0000);
    QuotIs(word, high * 0x10_0000 + field * 2 + low / 16, low % 16, 16);
    TopByte(word);
  }

  lemma Field14Is(high: nat, field: nat, low: nat)
    requires high < 0x2000 && field < 0x4000 && low < 32
    ensures Word14(high, field, low) <= MAX_U32 && Field14(Word14(high, field, low)) == field
    ensures Word14(high, field, low) == Word19(high / 32, high % 32 * 0x4000 + field, low)
  {
    hide Quot, Rem;
    QuotIs(Word14(high, field, low), high * 0x4000 + field, low, 32);
    QuotIs(high * 0x4000 + field, high, field, 0x4000);
  }

  // The direct forms by mnemonic, over every displacement and every operand.

  /** A displacement in instructions, as a field of `whole` values holds it. */
  function Stored(displacement: int, whole: nat): int {
    if displacement < 0 then displacement + whole else displacement
  }

  lemma StoredIsThere(displacement: int, bits: nat, address: u64)
    requires 0 < bits <= 26 && 0 <= displacement + Pow2(bits - 1) < Pow2(bits)
    ensures 0 <= Stored(displacement, Pow2(bits)) < Pow2(bits) <= MAX_U32
    ensures Relative(address, Stored(displacement, Pow2(bits)), bits) == (address + 4 * displacement) % 0x1_0000_0000_0000_0000
  {
    hide Pow2, Displacement;
    Widths();
    PowersGrow(bits, 26);
    Halves(bits);
    FieldIsSigned(Stored(displacement, Pow2(bits)), bits);
  }

  lemma StoredByWidth(displacement: int, address: u64)
    ensures -0x0200_0000 <= displacement < 0x0200_0000 ==>
              var field := Stored(displacement, 0x0400_0000);
              0 <= field < 0x0400_0000 && Relative(address, field, 26) == (address + 4 * displacement) % 0x1_0000_0000_0000_0000
    ensures -0x4_0000 <= displacement < 0x4_0000 ==>
              var field := Stored(displacement, 0x8_0000);
              0 <= field < 0x8_0000 && Relative(address, field, 19) == (address + 4 * displacement) % 0x1_0000_0000_0000_0000
    ensures -0x2000 <= displacement < 0x2000 ==>
              var field := Stored(displacement, 0x4000);
              0 <= field < 0x4000 && Relative(address, field, 14) == (address + 4 * displacement) % 0x1_0000_0000_0000_0000
  {
    hide Relative, Stored, Pow2;
    Widths();
    Halves(26);
    Halves(19);
    Halves(14);
    if -0x0200_0000 <= displacement < 0x0200_0000 {
      StoredIsThere(displacement, 26, address);
    }
    if -0x4_0000 <= displacement < 0x4_0000 {
      StoredIsThere(displacement, 19, address);
    }
    if -0x2000 <= displacement < 0x2000 {
      StoredIsThere(displacement, 14, address);
    }
  }

  /** `b` jumps, and `bl` calls. */
  lemma BranchForms(displacement: int, address: u64)
    requires -0x0200_0000 <= displacement < 0x0200_0000
    ensures var field := Stored(displacement, 0x0400_0000);
            var target := (address + 4 * displacement) % 0x1_0000_0000_0000_0000;
            && 0 <= field < 0x0400_0000
            && FlowOf(0x1400_0000 + field, address) == Jmp(Some(target))                                    // b
            && FlowOf(0x9400_0000 + field, address) == Call(Some(target))                                   // bl
  {
    hide Relative, Stored, Quot, Rem, IsImmediate, IsLink, Field26;
    StoredByWidth(displacement, address);
    var field := Stored(displacement, 0x0400_0000);
    Tests26(0x05, field);
    Tests26(0x25, field);
  }

  /** A conditional branch may fall through unless its condition is one of the two that always hold. */
  lemma ConditionalForms(displacement: int, hinted: nat, condition: nat, address: u64)
    requires -0x4_0000 <= displacement < 0x4_0000 && hinted < 2 && condition < 16
    ensures var field := Stored(displacement, 0x8_0000);
            var target := (address + 4 * displacement) % 0x1_0000_0000_0000_0000;
            && 0 <= field < 0x8_0000
            && FlowOf(0x5400_0000 + 32 * field + 16 * hinted + condition, address)                           // b.cond, bc.cond
               == (if condition < 14 then Branch(Some(target)) else Jmp(Some(target)))
            && FlowOf(0x5500_0000 + 32 * field + 16 * hinted + condition, address) == Trap                   // unallocated
  {
    hide Relative, Stored, Quot, Rem, IsImmediate, IsConditional, IsUnallocated, IsAlways, Field19;
    StoredByWidth(displacement, address);
    var field := Stored(displacement, 0x8_0000);
    Tests19(0x54, field, 16 * hinted + condition);
    Tests19(0x55, field, 16 * hinted + condition);
  }

  /** `cbz` and `cbnz`, of either width of register. */
  lemma CompareForms(displacement: int, wide: nat, inverted: nat, register: nat, address: u64)
    requires -0x4_0000 <= displacement < 0x4_0000 && wide < 2 && inverted < 2 && register < 32
    ensures var field := Stored(displacement, 0x8_0000);
            && 0 <= field < 0x8_0000
            && FlowOf(0x3400_0000 + 0x8000_0000 * wide + 0x0100_0000 * inverted + 32 * field + register, address)
               == Branch(Some((address + 4 * displacement) % 0x1_0000_0000_0000_0000))
  {
    hide Relative, Stored, Quot, Rem, IsImmediate, IsConditional, IsCompare, IsTest, Field19;
    StoredByWidth(displacement, address);
    Tests19(0x34 + 0x80 * wide + inverted, Stored(displacement, 0x8_0000), register);
  }

  /** `tbz` and `tbnz`, of any of the 64 bits. */
  lemma TestForms(displacement: int, high: nat, inverted: nat, bit: nat, register: nat, address: u64)
    requires -0x2000 <= displacement < 0x2000 && high < 2 && inverted < 2 && bit < 32 && register < 32
    ensures var field := Stored(displacement, 0x4000);
            && 0 <= field < 0x4000
            && FlowOf(0x3600_0000 + 0x8000_0000 * high + 0x0100_0000 * inverted + 0x8_0000 * bit + 32 * field + register, address)
               == Branch(Some((address + 4 * displacement) % 0x1_0000_0000_0000_0000))
  {
    hide Relative, Stored, Quot, Rem, IsImmediate, IsConditional, IsCompare, IsTest, Field14;
    StoredByWidth(displacement, address);
    var top, field := 0x36 + 0x80 * high + inverted, Stored(displacement, 0x4000);
    Field14Is(32 * top + bit, field, register);
    Tests19(top, bit * 0x4000 + field, register);
  }

  /** The words that are none of these: those of the reserved space stop, and every other one goes on. */
  lemma OtherWords(top: nat, rest: nat, address: u64)
    requires top < 256 && rest < 0x0100_0000
    requires top / 4 % 32 != 0x05 && top / 2 != 0x2a && top / 2 % 64 != 0x1a && top / 2 % 64 != 0x1b && top / 2 != 0x6b && top != 0xd4
    ensures FlowOf(0x0100_0000 * top + rest, address) == if top / 2 % 16 == 0 then Trap else Fallthrough
  {
    hide Quot, Rem;
    var word := 0x0100_0000 * top + rest;
    QuotIs(word, top, rest, 0x0100_0000);
    TopByte(word);
  }

  /** Another field value is another word of the same kind. */
  ghost predicate SameKind(word: u32, changed: int, shape: Shape, field: nat)
    requires shape.scale > 0
  {
    && 0 <= changed <= MAX_U32 && ShapeOf(changed) == Some(shape) && FieldOf(changed, shape) == field
    && forall address, target: u64 :: Redirected(FlowOf(changed, address), target) == Redirected(FlowOf(word, address), target)
  }

  lemma Replaced26(word: u32, field: nat)
    requires IsImmediate(word) && field < 0x0400_0000
    ensures SameKind(word, Word26(Quot(word, 0x0400_0000), field), Shape(1, 26), field)
  {
    hide Relative, Pow2, Quot, Rem, Field26, Field19, Field14, Word26, Word19, Word14, IsImmediate, IsLink, IsConditional, IsCompare, IsTest, IsRegister, IsException, IsReserved, IsUnallocated, IsAlways;
    Split26(word);
    Tests26(Quot(word, 0x0400_0000), Field26(word));
    Tests26(Quot(word, 0x0400_0000), field);
    FieldsByShape(Word26(Quot(word, 0x0400_0000), field));
  }

  lemma Replaced19(word: u32, field: nat)
    requires ShapeOf(word) == Some(Shape(32, 19)) && field < 0x8_0000
    ensures SameKind(word, Word19(Quot(word, 0x0100_0000), field, Rem(word, 32)), Shape(32, 19), field)
  {
    hide Relative, Pow2, Quot, Rem, Field26, Field19, Field14, Word26, Word19, Word14, IsImmediate, IsLink, IsConditional, IsCompare, IsTest, IsRegister, IsException, IsReserved, IsUnallocated, IsAlways;
    var high, low := Quot(word, 0x0100_0000), Rem(word, 32);
    Split19(word);
    Tests19(high, Field19(word), low);
    Tests19(high, field, low);
    FieldsByShape(Word19(high, field, low));
  }

  lemma Replaced14(word: u32, field: nat)
    requires ShapeOf(word) == Some(Shape(32, 14)) && field < 0x4000
    ensures SameKind(word, Word14(Quot(word, 0x8_0000), field, Rem(word, 32)), Shape(32, 14), field)
  {
    hide Relative, Pow2, Quot, Rem, Field26, Field19, Field14, Word26, Word19, Word14, IsImmediate, IsLink, IsConditional, IsCompare, IsTest, IsRegister, IsException, IsReserved, IsUnallocated, IsAlways;
    var high, was, low := Quot(word, 0x8_0000), Field14(word), Rem(word, 32);
    Split14(word);
    Field14Is(high, was, low);
    Field14Is(high, field, low);
    Tests19(high / 32, high % 32 * 0x4000 + was, low);
    Tests19(high / 32, high % 32 * 0x4000 + field, low);
    FieldsByShape(Word14(high, field, low));
  }

  lemma FieldIsReplaced(word: u32, field: nat)
    requires ShapeOf(word).Some? && field < Pow2(ShapeOf(word).value.bits)
    ensures SameKind(word, WithField(word, ShapeOf(word).value, field), ShapeOf(word).value, field)
  {
    hide Pow2, Quot, Rem, SameKind, FieldOf, Field26, Field19, Field14, IsImmediate, IsConditional, IsCompare, IsTest, IsUnallocated;
    Widths();
    FieldsByShape(word);
    if ShapeOf(word).value == Shape(1, 26) {
      Replaced26(word, field);
      Split26(word);
    } else if ShapeOf(word).value == Shape(32, 19) {
      Replaced19(word, field);
      Split19(word);
    } else {
      Replaced14(word, field);
      Split14(word);
    }
  }

  /**
   * Retargeting: a direct branch can be sent anywhere in its window, and only its destination
   * changes. What kind of transfer it is, its condition and its registers stay.
   */
  lemma RetargetedWordGoesThere(word: u32, address: u64, target: u64)
    requires ShapeOf(word).Some? && Reaches(address, target, ShapeOf(word).value.bits)
    ensures var shape := ShapeOf(word).value;
            var changed := WithField(word, shape, FieldFor(address, target, shape.bits));
            0 <= changed <= MAX_U32 && FlowOf(changed, address) == Redirected(FlowOf(word, address), target)
  {
    hide Relative, FlowOf, FieldOf, ShapeOf, WithField;
    var shape := ShapeOf(word).value;
    ShapesAreNarrow(word);
    var field := FieldFor(address, target, shape.bits);
    PowersGrow(shape.bits, 32);
    Pow32();
    FieldIsReplaced(word, field);
    var changed := WithField(word, shape, field);
    RelativeIsExact(address, field, shape.bits, target);
    DestinationIsTheField(changed, address);
    assert Redirected(FlowOf(changed, address), target) == FlowOf(changed, address);
  }

  lemma ShapesAreNarrow(word: u32)
    requires ShapeOf(word).Some?
    ensures 0 < ShapeOf(word).value.bits <= 26 && ShapeOf(word).value.scale > 0
  {
  }

  /** Retargeting a direct branch to where it already goes gives it back. */
  lemma RetargetedToItself(word: u32, address: u64, target: u64)
    requires Destination(FlowOf(word, address)) == Some(target)
    ensures ShapeOf(word).Some? && Reaches(address, target, ShapeOf(word).value.bits)
    ensures WithField(word, ShapeOf(word).value, FieldFor(address, target, ShapeOf(word).value.bits)) == word
  {
    hide FlowOf, Reaches, FieldFor, FieldOf, Pow2;
    DestinationIsInReach(word, address, target);
  }

  /** Of the words that agree outside the destination field, one goes to each address. */
  lemma OneWordForEachDestination(word: u32, other: u32, address: u64, target: u64)
    requires ShapeOf(word).Some? && ShapeOf(other) == ShapeOf(word)
    requires WithField(word, ShapeOf(word).value, 0) == WithField(other, ShapeOf(word).value, 0)
    requires Destination(FlowOf(word, address)) == Destination(FlowOf(other, address)) == Some(target)
    ensures word == other
  {
    hide FlowOf, Reaches, FieldFor, FieldOf, Pow2, ShapeOf;
    ShapesAreNarrow(word);
    DestinationIsInReach(word, address, target);
    DestinationIsInReach(other, address, target);
  }

  // Function lengths in unwind data.

  datatype UnwindRecord = PackedLength(bytes: u64) | XdataAt(rva: u32) | Reserved

  function UnwindRecordOf(second: u32): UnwindRecord {
    if Rem(second, 4) == 0 then XdataAt(second)
    else if Rem(second, 4) == 3 then Reserved
    else PackedLength(4 * Rem(Quot(second, 4), 2048))
  }

  function XdataLength(header: u32): Option<u64> {
    if Rem(Quot(header, 0x4_0000), 4) == 0 then Some(4 * Rem(header, 0x4_0000)) else None
  }

  /** A packed record gives back the length packed into it, whatever the bits above. */
  lemma PackedRecord(flag: nat, instructions: nat, rest: nat)
    requires flag < 4 && instructions < 2048 && rest < 0x8_0000
    ensures var word := flag + 4 * instructions + 0x2000 * rest;
            word <= MAX_U32 && UnwindRecordOf(word) ==
              if flag == 0 then XdataAt(word) else if flag == 3 then Reserved else PackedLength(4 * instructions)
  {
    hide Quot, Rem;
    var word := flag + 4 * instructions + 0x2000 * rest;
    QuotIs(word, instructions + 2048 * rest, flag, 4);
    QuotIs(instructions + 2048 * rest, rest, instructions, 2048);
  }

  /** So does an `.xdata` header of version zero, and a header of any other version gives none. */
  lemma XdataHeader(instructions: nat, version: nat, rest: nat)
    requires instructions < 0x4_0000 && version < 4 && rest < 0x1000
    ensures var word := instructions + 0x4_0000 * version + 0x10_0000 * rest;
            word <= MAX_U32 && XdataLength(word) == if version == 0 then Some(4 * instructions) else None
  {
    hide Quot, Rem;
    var word := instructions + 0x4_0000 * version + 0x10_0000 * rest;
    QuotIs(word, version + 4 * rest, instructions, 0x4_0000);
    QuotIs(version + 4 * rest, rest, version, 4);
  }
}
