/** The emulator's memory: a lazily populated register file and a sparse,
    byte-addressed address space (ALEMemory.h, ALEMemory.cpp). */
module AleMemory {
  import opened Wrappers
  import opened AleConstants

  type Byte = x: int | 0 <= x < 256

  /** The four bytes of v as a 32-bit two's-complement int, least significant
      first: the layout `*(int*)byte_array = value` produces on a little-endian host. */
  function Encode(v: int): (bytes: seq<Byte>)
    ensures |bytes| == 4
  {
    var u0 := v % 0x1_0000_0000;
    var u1 := u0 / 0x100;
    var u2 := u1 / 0x100;
    [u0 % 0x100, u1 % 0x100, u2 % 0x100, u2 / 0x100]
  }

  function Unsigned(bytes: seq<Byte>): nat
    requires |bytes| == 4
  {
    var b0, b1, b2, b3 := bytes[0] as int, bytes[1] as int, bytes[2] as int, bytes[3] as int;
    b0 + 0x100 * (b1 + 0x100 * (b2 + 0x100 * b3))
  }

  /** The int that four little-endian bytes represent: `*(int*)byte_array`. */
  function Decode(bytes: seq<Byte>): (v: int)
    requires |bytes| == 4
    ensures InInt32(v)
  {
    var u := Unsigned(bytes);
    if u >= 0x8000_0000 then u - 0x1_0000_0000 else u
  }

  function Zeros(n: nat): (z: seq<Byte>)
    ensures |z| == n && forall k :: 0 <= k < n ==> z[k] == 0
  {
    seq(n, _ => 0)
  }

  /** The bytes of a read or write occupy addresses strictly between 0 and SP's
      initial value. */
  predicate InRange(address: int) {
    0 < address < SPInitValue
  }

  /** The abstract state of an ALEMemory object. */
  datatype MemoryState = MemoryState(registers: map<string, int>, space: map<int, Byte>)

  /** A fresh memory: only SP exists, at its initial value; no byte is written. */
  const Initial: MemoryState := MemoryState(map[StackPointer := SPInitValue], map[])

  function PutReg(m: MemoryState, reg: string, value: int): MemoryState {
    m.(registers := m.registers[reg := value])
  }

  function GetReg(m: MemoryState, reg: string): Result<int> {
    if reg in m.registers then Ok(m.registers[reg]) else Err(NoSuchRegister(reg))
  }

  /** The n bytes at p, p+1, ...; each byte is checked for range before it is
      checked for initialisation, and the first failing byte decides the error. */
  function ReadBytes(space: map<int, Byte>, p: int, n: int): (r: Result<seq<Byte>>)
    decreases n
    ensures r.Ok? ==> |r.value| == if n <= 0 then 0 else n
  {
    if n <= 0 then Ok([])
    else if !InRange(p) then Err(OutOfRange(p))
    else if p !in space then Err(Uninitialized(p))
    else Prepend([space[p]], ReadBytes(space, p + 1, n - 1))
  }

  function Prepend(prefix: seq<Byte>, r: Result<seq<Byte>>): Result<seq<Byte>> {
    match r
    case Ok(rest) => Ok(prefix + rest)
    case Err(e) => Err(e)
  }

  lemma PrependAssoc(a: seq<Byte>, b: seq<Byte>, r: Result<seq<Byte>>)
    ensures Prepend(a, Prepend(b, r)) == Prepend(a + b, r)
    ensures Prepend([], r) == r
  {
    if r.Ok? {
      assert a + (b + r.value) == (a + b) + r.value;
      assert [] + r.value == r.value;
    }
  }

  /** Reading n bytes from a readable first byte is that byte followed by the
      remaining n - 1. */
  lemma ReadBytesStep(space: map<int, Byte>, p: int, n: int, prefix: seq<Byte>)
    requires n > 0 && InRange(p) && p in space
    ensures Prepend(prefix, ReadBytes(space, p, n)) == Prepend(prefix + [space[p]], ReadBytes(space, p + 1, n - 1))
  {
    PrependAssoc(prefix, [space[p]], ReadBytes(space, p + 1, n - 1));
  }

  /** The bytes ReadAddr's loop reads: byteCount of them, where a count above
      four passes the checks of a fifth byte and then overruns the four-byte
      buffer. */
  function ReadAccess(space: map<int, Byte>, address: int, byteCount: int): (r: Result<seq<Byte>>)
    ensures r.Ok? ==> byteCount <= 4 && |r.value| == if byteCount <= 0 then 0 else byteCount
  {
    match ReadBytes(space, address, if byteCount > 4 then 5 else byteCount)
    case Err(e) => Err(e)
    case Ok(bytes) => if byteCount > 4 then Err(Undefined("read past the four-byte buffer")) else Ok(bytes)
  }

  /** ReadAddr: the bytes are assembled into a 4-byte buffer whose remaining
      bytes the C++ leaves indeterminate; the model takes them as zero. */
  function Read(m: MemoryState, address: int, byteCount: int): Result<int> {
    match ReadAccess(m.space, address, byteCount)
    case Ok(bytes) => Ok(Decode(bytes + Zeros(4 - |bytes|)))
    case Err(e) => Err(e)
  }

  /** ReadAddr as written: the bytes read overwrite the front of a buffer that
      still holds whatever stale bytes it started with. */
  function ReadOverBuffer(m: MemoryState, address: int, byteCount: int, stale: seq<Byte>): Result<int>
    requires byteCount <= 4 && |stale| == 4
  {
    match ReadBytes(m.space, address, byteCount)
    case Ok(bytes) => Ok(Decode(bytes + stale[|bytes|..]))
    case Err(e) => Err(e)
  }

  /** Writes bytes at p, p+1, ... until one lies out of range; the bytes written
      before that one stay written. */
  function WriteBytes(space: map<int, Byte>, p: int, bytes: seq<Byte>): (Outcome, map<int, Byte>)
    decreases |bytes|
  {
    if bytes == [] then (Pass, space)
    else if !InRange(p) then (Fail(OutOfRange(p)), space)
    else WriteBytes(space[p := bytes[0]], p + 1, bytes[1..])
  }

  /** WriteAddr: the low byteCount bytes of value's 4-byte representation.  A
      count above four writes all four, passes the range check of a fifth
      byte and then overruns the buffer. */
  function Write(m: MemoryState, value: int, address: int, byteCount: int): (Outcome, MemoryState) {
    var bytes := if byteCount <= 0 then [] else Encode(value)[..if byteCount > 4 then 4 else byteCount];
    var (outcome, space) := WriteBytes(m.space, address, bytes);
    if outcome.Fail? || byteCount <= 4 then (outcome, m.(space := space))
    else if !InRange(address + 4) then (Fail(OutOfRange(address + 4)), m.(space := space))
    else (Fail(Undefined("write past the four-byte buffer")), m.(space := space))
  }

  /** ALEMemory. */
  class Memory {
    var registerData: map<string, int>
    var addressSpace: map<int, Byte>

    function State(): MemoryState
      reads this
    {
      MemoryState(registerData, addressSpace)
    }

    constructor ()
      ensures State() == Initial
      ensures registerData.Keys == {StackPointer} && addressSpace == map[]
    {
      registerData := map[StackPointer := SPInitValue];
      addressSpace := map[];
    }

    method PutRegValue(reg: string, value: int)
      modifies this
      ensures registerData == old(registerData)[reg := value]
      ensures addressSpace == old(addressSpace)
      ensures State() == PutReg(old(State()), reg, value)
    {
      registerData := registerData[reg := value];
    }

    method GetRegValue(reg: string) returns (r: Result<int>)
      ensures reg in registerData ==> r == Ok(registerData[reg])
      ensures reg !in registerData ==> r == Err(NoSuchRegister(reg))
      ensures r == GetReg(State(), reg)
    {
      if reg in registerData {
        r := Ok(registerData[reg]);
      } else {
        r := Err(NoSuchRegister(reg));
      }
    }

    method ReadAddr(address: int, byteCount: int) returns (r: Result<int>)
      ensures r == Read(State(), address, byteCount)
    {
      var byteArray := new Byte[4](_ => 0);
      var bytes := CopyBytes(address, byteCount, byteArray);
      if bytes.Err? {
        return Err(bytes.error);
      }
      assert byteArray[..] == bytes.value + Zeros(4 - |bytes.value|);
      r := Ok(Decode(byteArray[..]));
    }

    /** ReadAddr's loop: copies the byteCount bytes at address into the
        buffer, stopping at the first byte out of range or never written, or
        at a fifth byte, which the buffer has no room for. */
    method CopyBytes(address: int, byteCount: int, byteArray: array<Byte>) returns (r: Result<seq<Byte>>)
      requires byteArray.Length == 4
      requires forall k :: 0 <= k < 4 ==> byteArray[k] == 0
      modifies byteArray
      ensures r == ReadAccess(addressSpace, address, byteCount)
      ensures r.Ok? ==> byteArray[..] == r.value + Zeros(4 - |r.value|)
    {
      ghost var n := if byteCount <= 0 then 0 else if byteCount > 4 then 5 else byteCount;
      ghost var whole := ReadBytes(addressSpace, address, n);
      var i := 0;
      PrependAssoc([], [], whole);
      assert byteArray[..0] == [];
      while i < byteCount
        invariant 0 <= i <= n && i <= 4
        invariant i > 0 ==> address > 0
        invariant forall k :: i <= k < 4 ==> byteArray[k] == 0
        invariant whole == Prepend(byteArray[..i], ReadBytes(addressSpace, address + i, n - i))
      {
        if address <= 0 || address + i >= SPInitValue {
          assert ReadBytes(addressSpace, address + i, n - i) == Err(OutOfRange(address + i));
          return Err(OutOfRange(address + i));
        }
        if address + i !in addressSpace {
          assert ReadBytes(addressSpace, address + i, n - i) == Err(Uninitialized(address + i));
          return Err(Uninitialized(address + i));
        }
        if i == 4 {
          assert ReadBytes(addressSpace, address + i, n - i).Ok?;
          return Err(Undefined("read past the four-byte buffer"));
        }
        ghost var prefix := byteArray[..i];
        var x := addressSpace[address + i];
        ReadBytesStep(addressSpace, address + i, n - i, prefix);
        byteArray[i] := x;
        assert byteArray[..i + 1] == prefix + [x];
        i := i + 1;
      }
      r := Ok(byteArray[..i]);
      assert whole == r by {
        assert ReadBytes(addressSpace, address + i, n - i) == Ok([]);
        assert byteArray[..i] + [] == byteArray[..i];
      }
      assert byteArray[..] == byteArray[..i] + Zeros(4 - i);
    }

    method WriteAddr(value: int, address: int, byteCount: int) returns (outcome: Outcome)
      modifies this
      ensures registerData == old(registerData)
      ensures (outcome, State()) == Write(old(State()), value, address, byteCount)
    {
      var byteArray := Encode(value);
      ghost var bytes := if byteCount <= 0 then [] else byteArray[..if byteCount > 4 then 4 else byteCount];
      var i := 0;
      while i < byteCount
        invariant 0 <= i <= |bytes|
        invariant i > 0 ==> address > 0
        invariant WriteBytes(old(addressSpace), address, bytes)
                  == WriteBytes(addressSpace, address + i, bytes[i..])
        invariant registerData == old(registerData)
      {
        if address <= 0 || address + i >= SPInitValue {
          return Fail(OutOfRange(address + i));
        }
        if i == 4 {
          return Fail(Undefined("write past the four-byte buffer"));
        }
        addressSpace := addressSpace[address + i := byteArray[i]];
        i := i + 1;
      }
      outcome := Pass;
    }
  }
}
