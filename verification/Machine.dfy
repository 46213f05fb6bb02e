/** Fixed-width integers, optional values and little-endian decoding, shared by every model. */
module Machine {

  type byte = x: int | 0 <= x < 0x100
  type u16 = x: int | 0 <= x < 0x1_0000
  type u32 = x: int | 0 <= x < 0x1_0000_0000
  type u64 = x: int | 0 <= x < 0x1_0000_0000_0000_0000

  const MAX_U32: int := 0xffff_ffff
  const MAX_U64: int := 0xffff_ffff_ffff_ffff

  datatype Option<+T> = None | Some(value: T)

  datatype Result<+T, +E> = Ok(value: T) | Err(error: E) {
    predicate IsFailure() { Err? }
    function PropagateFailure<U>(): Result<U, E>
      requires Err?
    {
      Err(error)
    }
    function Extract(): T
      requires Ok?
    {
      value
    }
  }

  /** Addition modulo 2^64, as `u64::wrapping_add` performs it. */
  function Wrap(address: int): (r: u64)
    ensures 0 <= address <= MAX_U64 ==> r == address
  {
    address % 0x1_0000_0000_0000_0000
  }

  /** `u64::saturating_add`. */
  function SaturatingAdd(a: u64, b: u64): (r: u64)
    ensures r >= a && r >= b
  {
    if a + b > MAX_U64 then MAX_U64 else a + b
  }

  function U16(bytes: seq<byte>): u16
    requires |bytes| >= 2
  {
    (bytes[0] as int) + 0x100 * (bytes[1] as int)
  }

  function U32(bytes: seq<byte>): u32
    requires |bytes| >= 4
  {
    (bytes[0] as int) + 0x100 * (bytes[1] as int) + 0x1_0000 * (bytes[2] as int) + 0x100_0000 * (bytes[3] as int)
  }

  function U64(bytes: seq<byte>): u64
    requires |bytes| >= 8
  {
    (U32(bytes[..4]) as int) + 0x1_0000_0000 * (U32(bytes[4..8]) as int)
  }

  // ----- Little-endian bytes, and that decoding undoes them

  function LE16(x: u16): (bytes: seq<byte>)
    ensures |bytes| == 2
  {
    [x % 0x100, x / 0x100]
  }

  function LE32(x: u32): (bytes: seq<byte>)
    ensures |bytes| == 4
  {
    LE16(x % 0x1_0000) + LE16(x / 0x1_0000)
  }

  function LE64(x: u64): (bytes: seq<byte>)
    ensures |bytes| == 8
  {
    LE32(x % 0x1_0000_0000) + LE32(x / 0x1_0000_0000)
  }

  lemma Decoded16(x: u16)
    ensures U16(LE16(x)) == x
  {
  }

  lemma Decoded32(x: u32)
    ensures U32(LE32(x)) == x
  {
    Decoded16(x % 0x1_0000);
    Decoded16(x / 0x1_0000);
  }

  lemma Encoded16(low: byte, high: byte)
    ensures LE16(low + 0x100 * high) == [low, high]
  {
  }

  lemma Encoded32(bytes: seq<byte>)
    requires |bytes| == 4
    ensures LE32(U32(bytes)) == bytes
  {
    hide LE16;
    var low, high := (bytes[0] as int) + 0x100 * (bytes[1] as int), (bytes[2] as int) + 0x100 * (bytes[3] as int);
    Encoded16(bytes[0], bytes[1]);
    Encoded16(bytes[2], bytes[3]);
    Joined(low, high);
  }

  lemma Joined(low: u16, high: u16)
    ensures (low + 0x1_0000 * high) % 0x1_0000 == low && (low + 0x1_0000 * high) / 0x1_0000 == high
  {
  }

  lemma Decoded64(x: u64)
    ensures U64(LE64(x)) == x
  {
    hide LE32, U32;
    Decoded32(x % 0x1_0000_0000);
    Decoded32(x / 0x1_0000_0000);
    assert LE64(x)[..4] == LE32(x % 0x1_0000_0000) && LE64(x)[4..8] == LE32(x / 0x1_0000_0000);
  }

  /** A quotient and a remainder are the only ones. */
  lemma DividesAs(x: int, q: int, r: int, d: nat)
    requires 0 <= r < d && x == q * d + r
    ensures x / d == q && x % d == r
  {
    var p, s := x / d, x % d;
    assert x == p * d + s;
    assert (q - p) * d == q * d - p * d && (p - q) * d == p * d - q * d;
    if s >= r {
      SmallMultiple(q - p, d);
    } else {
      SmallMultiple(p - q, d);
    }
  }

  lemma SmallMultiple(k: int, scale: nat)
    requires 0 <= k * scale < scale
    ensures k == 0
  {
    assert k > 0 ==> k * scale >= scale;
  }

  /** No element occurs twice. */
  predicate NoDuplicates<T(==)>(s: seq<T>) {
    forall i, j :: 0 <= i < j < |s| ==> s[i] != s[j]
  }
}
