/** Memory as bytes, some of it missing, and what it means for bytes to be at an address. */
module ByteMemory {
  import opened Machine

  type Memory = int -> Option<byte>

  ghost predicate Readable(mem: Memory, at: int, len: nat) {
    forall a :: at <= a < at + len ==> mem(a).Some?
  }

  ghost function Window(mem: Memory, at: int, len: nat): (bytes: seq<byte>)
    requires Readable(mem, at, len)
    ensures |bytes| == len
  {
    seq(len, i requires 0 <= i < len => mem(at + i).value)
  }

  ghost predicate Holds(mem: Memory, at: int, bytes: seq<byte>) {
    forall i :: 0 <= i < |bytes| ==> mem(at + i) == Some(bytes[i])
  }

  /** What is held at an address is the window there, part by part. */
  lemma HeldWindow(mem: Memory, at: int, bytes: seq<byte>, from: nat, to: nat)
    requires Holds(mem, at, bytes) && from <= to <= |bytes|
    ensures Readable(mem, at + from, to - from) && Window(mem, at + from, to - from) == bytes[from..to]
  {
    forall a | at + from <= a < at + to ensures mem(a).Some? {
      assert mem(at + (a - at)) == Some(bytes[a - at]);
    }
  }

  lemma HoldsJoin(mem: Memory, at: int, left: seq<byte>, right: seq<byte>)
    requires Holds(mem, at, left) && Holds(mem, at + |left|, right)
    ensures Holds(mem, at, left + right)
  {
    forall i | 0 <= i < |left + right| ensures mem(at + i) == Some((left + right)[i]) {
      if |left| <= i {
        assert mem(at + |left| + (i - |left|)) == Some(right[i - |left|]);
      }
    }
  }

  /** A reader that answers with what is there, all of it or nothing. */
  ghost predicate Reading(read: (int, nat) -> Option<seq<byte>>, mem: Memory) {
    forall a: int, n: nat :: read(a, n) == if Readable(mem, a, n) then Some(Window(mem, a, n)) else None
  }

  lemma ThereIsRead(read: (int, nat) -> Option<seq<byte>>, mem: Memory, at: int, len: nat)
    requires Reading(read, mem)
    ensures read(at, len) == if Readable(mem, at, len) then Some(Window(mem, at, len)) else None
  {
  }

  lemma HeldIsRead(read: (int, nat) -> Option<seq<byte>>, mem: Memory, at: int, bytes: seq<byte>)
    requires Reading(read, mem) && Holds(mem, at, bytes)
    ensures read(at, |bytes|) == Some(bytes)
  {
    HeldWindow(mem, at, bytes, 0, |bytes|);
    assert bytes[0..|bytes|] == bytes && at + 0 == at;
  }
}
