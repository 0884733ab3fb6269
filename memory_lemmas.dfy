/** What ALEMemory.cpp promises about registers and the address space, proved
    about the specification functions that the Memory class implements. */
module AleMemoryFacts {
  import opened Wrappers
  import opened AleConstants
  import opened AleMemory

  /** Decoding the 4-byte little-endian image of an int gives the int back. */
  lemma DecodeEncode(v: int)
    requires InInt32(v)
    ensures Decode(Encode(v)) == v
  {
    var u0 := v % 0x1_0000_0000;
    var u1 := u0 / 0x100;
    var u2 := u1 / 0x100;
    assert u0 == u0 % 0x100 + 0x100 * u1;
    assert u1 == u1 % 0x100 + 0x100 * u2;
    assert u2 == u2 % 0x100 + 0x100 * (u2 / 0x100);
    assert Unsigned(Encode(v)) == u0;
    assert v >= 0 ==> u0 == v;
    assert v < 0 ==> u0 == v + 0x1_0000_0000;
  }

  /** Reducing modulo 2^32 first does not change the low 8 or 16 bits. */
  lemma LowBitsOfWord(v: int)
    ensures (v % 0x1_0000_0000) % 0x100 == v % 0x100
    ensures (v % 0x1_0000_0000) % 0x1_0000 == v % 0x1_0000
  {
    var q := v / 0x1_0000_0000;
    var u := v % 0x1_0000_0000;
    assert v == 0x1_0000_0000 * q + u;
    LowByte(v, q, u);
    LowHalf(v, q, u);
  }

  lemma LowByte(v: int, q: int, u: int)
    requires v == 0x1_0000_0000 * q + u && 0 <= u
    ensures u % 0x100 == v % 0x100
  {
    var k, r := u / 0x100, u % 0x100;
    assert u == 0x100 * k + r;
    ModUnique(v, 0x100, 0x100_0000 * q + k, r);
  }

  lemma LowHalf(v: int, q: int, u: int)
    requires v == 0x1_0000_0000 * q + u && 0 <= u
    ensures u % 0x1_0000 == v % 0x1_0000
  {
    var k, r := u / 0x1_0000, u % 0x1_0000;
    assert u == 0x1_0000 * k + r;
    ModUnique(v, 0x1_0000, 0x1_0000 * q + k, r);
  }

  /** The remainder is the r of any x = d * k + r with 0 <= r < d. */
  lemma ModUnique(x: int, d: int, k: int, r: int)
    requires 0 < d && x == d * k + r && 0 <= r < d
    ensures x % d == r
  {
    var k', r' := x / d, x % d;
    assert x == d * k' + r' && 0 <= r' < d;
    var n := k - k';
    assert d * k == d * k' + d * n by { Distribute(d, k', n); }
    if n > 0 {
      AtLeastOnce(d, n);
    } else if n < 0 {
      AtLeastOnce(d, -n);
    }
  }

  lemma Distribute(d: int, a: int, b: int)
    ensures d * (a + b) == d * a + d * b
  {
  }

  lemma AtLeastOnce(d: nat, n: int)
    requires n >= 1
    ensures d * n >= d
  {
  }

  /** With the upper bytes of the buffer left at zero, the low one or two bytes
      of v's image decode to v modulo 2^8 or 2^16. */
  lemma DecodeLowBytes(v: int, n: int)
    requires n == 1 || n == 2
    ensures Decode(Encode(v)[..n] + Zeros(4 - n)) == v % (if n == 1 then 0x100 else 0x1_0000)
  {
    var u0 := v % 0x1_0000_0000;
    var u1 := u0 / 0x100;
    LowBitsOfWord(v);
    var bytes := Encode(v)[..n] + Zeros(4 - n);
    if n == 1 {
      assert bytes == [u0 % 0x100, 0, 0, 0];
      assert Unsigned(bytes) == u0 % 0x100;
    } else {
      assert bytes == [u0 % 0x100, u1 % 0x100, 0, 0];
      assert u0 == u0 % 0x100 + 0x100 * u1;
      assert u1 == u1 % 0x100 + 0x100 * (u1 / 0x100);
      assert u0 == (u0 % 0x100 + 0x100 * (u1 % 0x100)) + 0x1_0000 * (u1 / 0x100);
      assert Unsigned(bytes) == u0 % 0x100 + 0x100 * (u1 % 0x100);
    }
  }

  /** Writing a register sets it, overwriting any old value, and changes no
      other register and no byte. */
  lemma PutThenGet(m: MemoryState, reg: string, value: int, other: string)
    ensures GetReg(PutReg(m, reg, value), reg) == Ok(value)
    ensures other != reg ==> GetReg(PutReg(m, reg, value), other) == GetReg(m, other)
    ensures PutReg(m, reg, value).space == m.space
  {
  }

  /** Every address p..p+n-1 lies strictly between 0 and SP's initial value. */
  predicate SpanInRange(p: int, n: int) {
    n <= 0 || (InRange(p) && InRange(p + n - 1))
  }

  /** Every address p..p+n-1 has been written. */
  predicate Written(space: map<int, Byte>, p: int, n: int) {
    forall q :: p <= q < p + n ==> q in space
  }

  /** A read of n bytes succeeds exactly when each byte is in range and written. */
  lemma {:induction false} ReadBytesOk(space: map<int, Byte>, p: int, n: int)
    ensures ReadBytes(space, p, n).Ok? <==> SpanInRange(p, n) && Written(space, p, n)
    decreases n
  {
    if n > 0 {
      ReadBytesOk(space, p + 1, n - 1);
    }
  }

  /** The first bad byte q decides the error, and for that byte the range check
      comes before the initialisation check. */
  lemma {:induction false} ReadBytesFault(space: map<int, Byte>, p: int, n: int, q: int)
    requires p <= q < p + n
    requires SpanInRange(p, q - p) && Written(space, p, q - p)
    requires !InRange(q) || q !in space
    ensures ReadBytes(space, p, n)
            == if !InRange(q) then Err(OutOfRange(q)) else Err(Uninitialized(q))
    decreases q - p
  {
    if q > p {
      assert p in space;
      ReadBytesFault(space, p + 1, n - 1, q);
    }
  }

  /** ReadAddr fails with "out of range" for a non-positive start address,
      whatever the contents of the address space. */
  lemma ReadNonPositive(m: MemoryState, address: int, byteCount: int)
    requires 1 <= byteCount <= 4 && address <= 0
    ensures Read(m, address, byteCount) == Err(OutOfRange(address))
  {
    ReadBytesFault(m.space, address, byteCount, address);
  }

  /** A ReadAddr of n bytes succeeds exactly when every byte is in range and
      written; otherwise it reports the first failing byte, checking its range
      before its initialisation. */
  lemma ReadOutcome(m: MemoryState, address: int, byteCount: int)
    requires 1 <= byteCount <= 4
    ensures Read(m, address, byteCount).Ok?
            <==> SpanInRange(address, byteCount) && Written(m.space, address, byteCount)
    ensures forall q :: address <= q < address + byteCount && !InRange(q)
              && SpanInRange(address, q - address) && Written(m.space, address, q - address)
              ==> Read(m, address, byteCount) == Err(OutOfRange(q))
    ensures forall q :: address <= q < address + byteCount && InRange(q) && q !in m.space
              && SpanInRange(address, q - address) && Written(m.space, address, q - address)
              ==> Read(m, address, byteCount) == Err(Uninitialized(q))
  {
    ReadBytesOk(m.space, address, byteCount);
    forall q | address <= q < address + byteCount && (!InRange(q) || q !in m.space)
      && SpanInRange(address, q - address) && Written(m.space, address, q - address)
      ensures Read(m, address, byteCount)
              == if !InRange(q) then Err(OutOfRange(q)) else Err(Uninitialized(q))
    {
      ReadBytesFault(m.space, address, byteCount, q);
    }
  }

  /** A fresh memory holds SP alone, at INT_MAX - 3, and no byte can be read. */
  lemma InitialMemory(reg: string, address: int, byteCount: int)
    requires 1 <= byteCount <= 4
    ensures GetReg(Initial, StackPointer) == Ok(0x7fff_fffc)
    ensures reg != StackPointer ==> GetReg(Initial, reg) == Err(NoSuchRegister(reg))
    ensures Read(Initial, address, byteCount).Err?
  {
    ReadOutcome(Initial, address, byteCount);
    assert address !in Initial.space;
  }

  /** WriteBytes writes the first k bytes, where k counts the leading in-range
      addresses, fails at the next one if there is one, and keeps what it wrote. */
  lemma {:induction false} WriteBytesEffect(space: map<int, Byte>, p: int, bytes: seq<Byte>, k: int)
    requires 0 <= k <= |bytes|
    requires SpanInRange(p, k)
    requires k < |bytes| ==> !InRange(p + k)
    ensures WriteBytes(space, p, bytes).0
            == if k == |bytes| then Pass else Fail(OutOfRange(p + k))
    ensures forall q :: q in WriteBytes(space, p, bytes).1 <==> q in space || p <= q < p + k
    ensures forall q :: q in WriteBytes(space, p, bytes).1 ==>
              WriteBytes(space, p, bytes).1[q] == if p <= q < p + k then bytes[q - p] else space[q]
    decreases |bytes|
  {
    if bytes != [] && k > 0 {
      WriteBytesEffect(space[p := bytes[0]], p + 1, bytes[1..], k - 1);
    }
  }

  /** WriteAddr over an in-range span sets exactly bytes address..address+n-1 to
      the low n bytes of the value's image and changes nothing else. */
  lemma WriteInRange(m: MemoryState, value: int, address: int, byteCount: int)
    requires 1 <= byteCount <= 4 && SpanInRange(address, byteCount)
    ensures Write(m, value, address, byteCount).0 == Pass
    ensures Write(m, value, address, byteCount).1.registers == m.registers
    ensures forall q :: q in Write(m, value, address, byteCount).1.space
                        <==> q in m.space || address <= q < address + byteCount
    ensures forall q :: q in Write(m, value, address, byteCount).1.space ==>
              Write(m, value, address, byteCount).1.space[q]
              == if address <= q < address + byteCount then Encode(value)[q - address] else m.space[q]
  {
    WriteBytesEffect(m.space, address, Encode(value)[..byteCount], byteCount);
  }

  /** A WriteAddr that runs past the upper bound fails at the first address out
      of range, having already written the bytes below it: there is no rollback. */
  lemma WriteCrossingBound(m: MemoryState, value: int, address: int, byteCount: int)
    requires 1 <= byteCount <= 4 && 0 < address < SPInitValue <= address + byteCount - 1
    ensures Write(m, value, address, byteCount).0 == Fail(OutOfRange(SPInitValue))
    ensures forall q :: address <= q < SPInitValue ==>
              q in Write(m, value, address, byteCount).1.space
              && Write(m, value, address, byteCount).1.space[q] == Encode(value)[q - address]
  {
    WriteBytesEffect(m.space, address, Encode(value)[..byteCount], SPInitValue - address);
  }

  /** A ReadAddr of more than four bytes never yields a value: the first of the
      five leading bytes that is out of range or unwritten decides the error,
      and when all five are readable the copy of the fifth overruns the
      buffer. */
  lemma WideRead(m: MemoryState, address: int, byteCount: int)
    requires byteCount > 4
    ensures Read(m, address, byteCount).Err?
    ensures SpanInRange(address, 5) && Written(m.space, address, 5) ==>
              Read(m, address, byteCount) == Err(Undefined("read past the four-byte buffer"))
    ensures forall q :: address <= q < address + 5 && (!InRange(q) || q !in m.space)
              && SpanInRange(address, q - address) && Written(m.space, address, q - address)
              ==> Read(m, address, byteCount)
                  == if !InRange(q) then Err(OutOfRange(q)) else Err(Uninitialized(q))
  {
    ReadBytesOk(m.space, address, 5);
    forall q | address <= q < address + 5 && (!InRange(q) || q !in m.space)
      && SpanInRange(address, q - address) && Written(m.space, address, q - address)
      ensures Read(m, address, byteCount)
              == if !InRange(q) then Err(OutOfRange(q)) else Err(Uninitialized(q))
    {
      ReadBytesFault(m.space, address, 5, q);
    }
  }

  /** A WriteAddr of more than four bytes leaves memory as a four-byte write
      does and never passes: it fails at the first of the five leading
      addresses out of range, and when all five are in range the copy of the
      fifth byte overruns the buffer. */
  lemma WideWrite(m: MemoryState, value: int, address: int, byteCount: int)
    requires byteCount > 4
    ensures Write(m, value, address, byteCount).1 == Write(m, value, address, 4).1
    ensures Write(m, value, address, byteCount).0.Fail?
    ensures SpanInRange(address, 5) ==>
              Write(m, value, address, byteCount).0 == Fail(Undefined("write past the four-byte buffer"))
    ensures forall q :: address <= q < address + 5 && !InRange(q) && SpanInRange(address, q - address)
              ==> Write(m, value, address, byteCount).0 == Fail(OutOfRange(q))
  {
    var bytes := Encode(value)[..4];
    if SpanInRange(address, 4) {
      WriteBytesEffect(m.space, address, bytes, 4);
    }
    forall q | address <= q < address + 5 && !InRange(q) && SpanInRange(address, q - address)
      ensures Write(m, value, address, byteCount).0 == Fail(OutOfRange(q))
    {
      if q < address + 4 {
        WriteBytesEffect(m.space, address, bytes, q - address);
      } else {
        WriteBytesEffect(m.space, address, bytes, 4);
      }
    }
  }

  /** Bytes just written read back as written. */
  lemma {:induction false} ReadBackWritten(space: map<int, Byte>, p: int, bytes: seq<Byte>)
    requires SpanInRange(p, |bytes|)
    ensures ReadBytes(WriteBytes(space, p, bytes).1, p, |bytes|) == Ok(bytes)
    decreases |bytes|
  {
    if bytes != [] {
      var after := WriteBytes(space, p, bytes).1;
      ReadBackWritten(space[p := bytes[0]], p + 1, bytes[1..]);
      WriteBytesEffect(space[p := bytes[0]], p + 1, bytes[1..], |bytes| - 1);
      assert p in after && after[p] == bytes[0];
      assert [bytes[0]] + bytes[1..] == bytes;
    }
  }

  /** Round trip: a 4-byte WriteAddr followed by a 4-byte ReadAddr at the same
      in-range address returns the value written. */
  lemma ReadAfterWrite(m: MemoryState, value: int, address: int)
    requires InInt32(value) && SpanInRange(address, 4)
    ensures Write(m, value, address, 4).0 == Pass
    ensures Read(Write(m, value, address, 4).1, address, 4) == Ok(value)
  {
    var bytes := Encode(value)[..4];
    assert bytes == Encode(value);
    WriteBytesEffect(m.space, address, bytes, 4);
    ReadBackWritten(m.space, address, bytes);
    assert bytes + Zeros(0) == bytes;
    DecodeEncode(value);
  }

  /** For a 1- or 2-byte WriteAddr and ReadAddr only the low n bytes are carried:
      the read returns the value modulo 2^(8n). */
  lemma ReadAfterWriteLow(m: MemoryState, value: int, address: int, byteCount: int)
    requires byteCount == 1 || byteCount == 2
    requires SpanInRange(address, byteCount)
    ensures Write(m, value, address, byteCount).0 == Pass
    ensures Read(Write(m, value, address, byteCount).1, address, byteCount)
            == Ok(value % (if byteCount == 1 then 0x100 else 0x1_0000))
  {
    var bytes := Encode(value)[..byteCount];
    WriteBytesEffect(m.space, address, bytes, byteCount);
    ReadBackWritten(m.space, address, bytes);
    DecodeLowBytes(value, byteCount);
  }

  /** A full four-byte read does not depend on the buffer's stale bytes. */
  lemma WordReadDeterminate(m: MemoryState, address: int, stale: seq<Byte>)
    requires |stale| == 4
    ensures ReadOverBuffer(m, address, 4, stale) == Read(m, address, 4)
  {
    var r := ReadBytes(m.space, address, 4);
    if r.Ok? {
      assert r.value + stale[4..] == r.value + Zeros(0);
    }
  }

  /** A one-byte read of the byte 5 yields -251 when the buffer's stale upper
      bytes are all 0xff, where the zero-filled read yields 5. */
  lemma NarrowReadSeesStaleBytes()
    ensures Read(Write(Initial, 5, 1, 1).1, 1, 1) == Ok(5)
    ensures ReadOverBuffer(Write(Initial, 5, 1, 1).1, 1, 1, [0, 0xff, 0xff, 0xff]) == Ok(-251)
  {
    assert Encode(5)[..1] == [5];
    assert [5][1..] == [];
    var m := Write(Initial, 5, 1, 1).1;
    assert m.space == map[1 := 5];
    assert ReadBytes(m.space, 2, 0) == Ok([]);
    assert [5] + [] == [5];
    assert ReadBytes(m.space, 1, 1) == Ok([5]);
    assert [5] + Zeros(3) == [5, 0, 0, 0];
    assert [5] + [0, 0xff, 0xff, 0xff][1..] == [5, 0xff, 0xff, 0xff];
  }
}
