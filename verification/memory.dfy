/**
  The Go backend's pointer-chain resolution: `IAbs`, the wrapping `AddOffset`,
  reads of a process's memory through the operating system, and the walk that
  follows a chain of offsets, stopping at the first failed read.

  The operating system is an abstract `Reader`: given an address and a byte
  count it reports an error number and the bytes it copied.
*/
module Memory {
  import opened Wrappers
  import opened Numerals

  const Int64Min: int := -0x8000_0000_0000_0000

  predicate IsInt64(a: int) { -0x8000_0000_0000_0000 <= a < 0x8000_0000_0000_0000 }

  predicate AllInt64(s: seq<int>) { forall i :: 0 <= i < |s| ==> IsInt64(s[i]) }

  /** `x` reduced to a signed 64-bit value, as Go's int64 arithmetic wraps. */
  function WrapInt64(x: int): (r: int)
    ensures IsInt64(r)
  {
    (x + 0x8000_0000_0000_0000) % 0x1_0000_0000_0000_0000 - 0x8000_0000_0000_0000
  }

  /** The two instantiations of the generic pointer type: `uint32` and `uint64`. */
  datatype PtrWidth = Ptr32 | Ptr64

  function Bytes(w: PtrWidth): nat
  {
    match w
    case Ptr32 => 4
    case Ptr64 => 8
  }

  function Modulus(w: PtrWidth): nat
  {
    match w
    case Ptr32 => 0x1_0000_0000
    case Ptr64 => 0x1_0000_0000_0000_0000
  }

  lemma ModulusIsPow(w: PtrWidth)
    ensures Modulus(w) == Pow(256, Bytes(w))
  {
    assert Pow(256, 4) == 0x1_0000_0000;
    assert Pow(256, 8) == Pow(256, 4) * Pow(256, 4);
  }

  // ---------------------------------------------------------------------
  // Euclidean remainders

  lemma ModUnique(x: int, q: int, r: int, m: int)
    requires m > 0 && 0 <= r < m && x == q * m + r
    ensures x % m == r
  {
    var d := x / m - q;
    assert d * m == r - x % m;
    MulSign(d, m);
  }

  /** Adding a multiple of the modulus does not change the remainder. */
  lemma ModShift(x: int, k: int, m: int)
    requires m > 0
    ensures (x + k * m) % m == x % m
  {
    assert x + k * m == (x / m + k) * m + x % m;
    ModUnique(x + k * m, x / m + k, x % m, m);
  }

  /** Reducing an operand first does not change the remainder of a sum or difference. */
  lemma ModOperand(x: int, y: int, m: int)
    requires m > 0
    ensures (x + y % m) % m == (x + y) % m
    ensures (x - y % m) % m == (x - y) % m
  {
    assert y % m == y + (-(y / m)) * m;
    ModShift(x + y, -(y / m), m);
    assert x - y % m == x - y + (y / m) * m;
    ModShift(x - y, y / m, m);
  }

  // ---------------------------------------------------------------------
  // IAbs and AddOffset

  /**
    The absolute value of an `int64`, computed with Go's wrapping negation:
    it is `|a|` taken back into the signed 64-bit range, so the minimum value
    is its own absolute value and is the one negative result.
  */
  function IAbs(a: int): (r: int)
    requires IsInt64(a)
    ensures r == WrapInt64(Abs(a))
    ensures r < 0 <==> a == Int64Min
  {
    var r := if a < 0 then WrapInt64(-a) else a;
    ModUnique(Abs(a) + 0x8000_0000_0000_0000, if a == Int64Min then 1 else 0,
              if a == Int64Min then 0 else Abs(a) + 0x8000_0000_0000_0000, 0x1_0000_0000_0000_0000);
    r
  }

  /**
    `ptr` moved by a signed offset in the pointer's own unsigned arithmetic.
    A negative offset is subtracted as `IAbs(offset)` converted to the pointer
    type (its low bits), a non-negative one added after the same conversion;
    either way the result is the true sum reduced modulo 2^32 or 2^64.
  */
  function AddOffset(ptr: nat, offset: int, w: PtrWidth): (r: nat)
    requires ptr < Modulus(w) && IsInt64(offset)
    ensures r < Modulus(w)
    ensures r == (ptr + offset) % Modulus(w)
  {
    var m := Modulus(w);
    if offset < 0 then
      var a := IAbs(offset);
      ModOperand(ptr, a, m);
      AbsCongruent(ptr, offset, w);
      (ptr - a % m) % m
    else
      ModOperand(ptr, offset, m);
      (ptr + offset % m) % m
  }

  /** Subtracting `IAbs` of a negative offset, even the minimum, is adding the offset modulo 2^32 or 2^64. */
  lemma AbsCongruent(ptr: nat, offset: int, w: PtrWidth)
    requires IsInt64(offset) && offset < 0
    ensures (ptr - IAbs(offset)) % Modulus(w) == (ptr + offset) % Modulus(w)
  {
    if offset == Int64Min {
      var k := 0x1_0000_0000_0000_0000 / Modulus(w);
      assert ptr - IAbs(offset) == (ptr + offset) + k * Modulus(w);
      ModShift(ptr + offset, k, Modulus(w));
    }
  }

  // ---------------------------------------------------------------------
  // Reading memory

  /** What one `ReadProcessMemory` call reports: its error number (0 on success) and the bytes it copied. */
  datatype OsRead = OsRead(errNo: nat, copied: seq<byte>)

  /** The operating system's read of `size` bytes at an address. */
  type Reader = (nat, nat) -> OsRead

  datatype ReadError = SysError(errNo: nat) | ShortRead

  /**
    A zeroed buffer of `size` bytes after the operating system copied into it:
    the copied bytes at the front, zeros after them.
  */
  function Fill(copied: seq<byte>, size: nat): (buf: seq<byte>)
    ensures |buf| == size
    ensures forall i :: 0 <= i < size ==> buf[i] == if i < |copied| then copied[i] else 0
  {
    if |copied| >= size then copied[..size] else copied + Zeros(size - |copied|)
  }

  datatype MemoryRead = MemoryRead(value: nat, err: Option<ReadError>)

  /**
    `ReadMemory` of a pointer-sized unsigned value: the read fails with the
    system error when there is one, and as a short read when fewer bytes than
    the width were copied; a successful read is the little-endian value of the
    bytes copied.
  */
  function ReadMemory(read: Reader, address: nat, w: PtrWidth): (m: MemoryRead)
    ensures m.value < Modulus(w)
    ensures m.err == None <==> read(address, Bytes(w)).errNo == 0 && |read(address, Bytes(w)).copied| >= Bytes(w)
    ensures read(address, Bytes(w)).errNo != 0 ==> m.err == Some(SysError(read(address, Bytes(w)).errNo))
    ensures m.err == None ==> m.value == LittleEndian(read(address, Bytes(w)).copied[..Bytes(w)])
  {
    var os := read(address, Bytes(w));
    var value := LittleEndian(Fill(os.copied, Bytes(w)));
    ModulusIsPow(w);
    if os.errNo != 0 then MemoryRead(value, Some(SysError(os.errNo)))
    else if |os.copied| < Bytes(w) then MemoryRead(value, Some(ShortRead))
    else MemoryRead(value, None)
  }

  datatype BytesRead = BytesRead(value: seq<byte>, err: Option<ReadError>)

  /**
    `ReadBytes`: a buffer of exactly `count` bytes. A count of zero gives the
    empty buffer and no error whatever the reader would do; otherwise the read
    succeeds exactly when there is no system error and all `count` bytes were
    copied, and then the buffer holds them.
  */
  function ReadBytes(read: Reader, address: nat, count: nat): (b: BytesRead)
    ensures |b.value| == count
    ensures count == 0 ==> b == BytesRead([], None)
    ensures count > 0 ==>
              (b.err == None <==> read(address, count).errNo == 0 && |read(address, count).copied| >= count)
    ensures count > 0 && read(address, count).errNo != 0 ==> b.err == Some(SysError(read(address, count).errNo))
    ensures b.err == None ==> b.value == read(address, count).copied[..count]
  {
    if count == 0 then BytesRead([], None)
    else
      var os := read(address, count);
      var value := Fill(os.copied, count);
      if os.errNo != 0 then BytesRead(value, Some(SysError(os.errNo)))
      else if |os.copied| < count then BytesRead(value, Some(ShortRead))
      else BytesRead(value, None)
  }

  // ---------------------------------------------------------------------
  // Following a pointer chain

  /**
    Where a walk ends: the address reached, the error that stopped it, and the
    addresses read on the way, in order.
  */
  datatype Walk = Walk(address: nat, err: Option<ReadError>, visited: seq<nat>)

  /**
    From `address`, for each remaining offset: read the pointer stored there and
    move by the offset. A failed read stops the walk at the address it tried.
  */
  function Follow(read: Reader, w: PtrWidth, address: nat, rest: seq<int>): (r: Walk)
    requires address < Modulus(w) && AllInt64(rest)
    ensures r.address < Modulus(w)
    decreases |rest|
  {
    if |rest| == 0 then Walk(address, None, [])
    else
      var m := ReadMemory(read, address, w);
      if m.err.Some? then Walk(address, m.err, [address])
      else
        var next := Follow(read, w, AddOffset(m.value, rest[0], w), rest[1..]);
        Walk(next.address, next.err, [address] + next.visited)
  }

  /** `_ResolvePointer` as a walk: no offsets leave `base` as it is; otherwise the first offset is added without a read. */
  function Resolve(read: Reader, w: PtrWidth, base: nat, offsets: seq<int>): (r: Walk)
    requires base < Modulus(w) && AllInt64(offsets)
    ensures r.address < Modulus(w)
  {
    if |offsets| == 0 then Walk(base, None, [])
    else Follow(read, w, AddOffset(base, offsets[0], w), offsets[1..])
  }

  /** The value a successful read at `address` yields. */
  function Loaded(read: Reader, address: nat, w: PtrWidth): nat
  {
    ReadMemory(read, address, w).value
  }

  /** A tail of a chain of offsets is a chain of offsets. */
  lemma TailInt64(s: seq<int>)
    requires AllInt64(s) && |s| > 0
    ensures AllInt64(s[1..])
  {
    forall i | 0 <= i < |s| - 1 ensures IsInt64(s[1..][i]) { assert s[1..][i] == s[i + 1]; }
  }

  /**
    The reads a walk makes: at most one per offset, the first at the starting
    address, and each later one at the previous read's value moved by the next
    offset, every read but the last having succeeded.
  */
  lemma {:induction false} FollowSteps(read: Reader, w: PtrWidth, address: nat, rest: seq<int>)
    requires address < Modulus(w) && AllInt64(rest)
    ensures var r := Follow(read, w, address, rest);
      && |r.visited| <= |rest|
      && (|rest| > 0 ==> |r.visited| > 0 && r.visited[0] == address)
      && (forall i :: 0 <= i < |r.visited| ==> r.visited[i] < Modulus(w))
      && (forall i :: 0 <= i < |r.visited| - 1 ==>
            ReadMemory(read, r.visited[i], w).err == None
            && r.visited[i + 1] == AddOffset(Loaded(read, r.visited[i], w), rest[i], w))
    decreases |rest|
  {
    if |rest| > 0 {
      var m := ReadMemory(read, address, w);
      if m.err == None {
        var a := AddOffset(m.value, rest[0], w);
        var tail := rest[1..];
        TailInt64(rest);
        FollowSteps(read, w, a, tail);
        var next := Follow(read, w, a, tail);
        var r := Follow(read, w, address, rest);
        assert r.visited == [address] + next.visited;
        forall i | 0 <= i < |r.visited| - 1
          ensures ReadMemory(read, r.visited[i], w).err == None
          ensures r.visited[i + 1] == AddOffset(Loaded(read, r.visited[i], w), rest[i], w)
        {
          if i > 0 {
            assert r.visited[i] == next.visited[i - 1] && r.visited[i + 1] == next.visited[i];
            assert rest[i] == tail[i - 1];
          }
        }
      }
    }
  }

  /**
    How a walk ends: with an error, at the address whose read failed and with
    that read's error; without one, after one read per offset, at the last
    value read moved by the last offset.
  */
  lemma FollowEnd(read: Reader, w: PtrWidth, address: nat, rest: seq<int>)
    requires address < Modulus(w) && AllInt64(rest)
    ensures var r := Follow(read, w, address, rest);
      && (r.err.Some? ==>
            |r.visited| > 0 && r.address == r.visited[|r.visited| - 1]
            && ReadMemory(read, r.address, w).err == r.err)
      && (r.err == None ==>
            |r.visited| == |rest|
            && (|rest| > 0 ==> r.visited[|rest| - 1] < Modulus(w) && ReadMemory(read, r.visited[|rest| - 1], w).err == None)
            && r.address == (if |rest| == 0 then address
                             else AddOffset(Loaded(read, r.visited[|rest| - 1], w), rest[|rest| - 1], w)))
  {
    FollowFailed(read, w, address, rest);
    FollowSucceeded(read, w, address, rest);
  }

  /** A walk that fails stops at the last address it tried, whose read gave the error. */
  lemma {:induction false} FollowFailed(read: Reader, w: PtrWidth, address: nat, rest: seq<int>)
    requires address < Modulus(w) && AllInt64(rest)
    ensures var r := Follow(read, w, address, rest);
      r.err.Some? ==>
        |r.visited| > 0 && r.address == r.visited[|r.visited| - 1]
        && ReadMemory(read, r.address, w).err == r.err
    decreases |rest|
  {
    if |rest| > 0 {
      var m := ReadMemory(read, address, w);
      if m.err == None {
        var a := AddOffset(m.value, rest[0], w);
        TailInt64(rest);
        FollowFailed(read, w, a, rest[1..]);
      }
    }
  }

  /** A walk that succeeds reads once per offset and ends at the last value read moved by the last offset. */
  lemma {:induction false} FollowSucceeded(read: Reader, w: PtrWidth, address: nat, rest: seq<int>)
    requires address < Modulus(w) && AllInt64(rest)
    ensures var r := Follow(read, w, address, rest);
      r.err == None ==>
        |r.visited| == |rest|
        && (|rest| > 0 ==> r.visited[|rest| - 1] < Modulus(w) && ReadMemory(read, r.visited[|rest| - 1], w).err == None)
        && r.address == (if |rest| == 0 then address
                         else AddOffset(Loaded(read, r.visited[|rest| - 1], w), rest[|rest| - 1], w))
    decreases |rest|
  {
    if |rest| > 0 {
      var m := ReadMemory(read, address, w);
      if m.err == None {
        var a := AddOffset(m.value, rest[0], w);
        var tail := rest[1..];
        TailInt64(rest);
        FollowSucceeded(read, w, a, tail);
        var next := Follow(read, w, a, tail);
        var r := Follow(read, w, address, rest);
        assert r.visited == [address] + next.visited;
        if |tail| > 0 && r.err == None {
          assert r.visited[|rest| - 1] == next.visited[|tail| - 1];
          assert rest[|rest| - 1] == tail[|tail| - 1];
        }
      }
    }
  }

  /**
    `_ResolvePointer`: with no offsets the base is returned and nothing is read;
    otherwise the walk starts at base plus the first offset, reads exactly one
    pointer per further offset when it succeeds, and stops at the first read
    that fails, returning that read's error.
  */
  lemma ResolveTrace(read: Reader, w: PtrWidth, base: nat, offsets: seq<int>)
    requires base < Modulus(w) && AllInt64(offsets)
    ensures var r := Resolve(read, w, base, offsets);
      && (|offsets| == 0 ==> r == Walk(base, None, []))
      && (|offsets| > 0 ==>
            && |r.visited| <= |offsets| - 1
            && (|r.visited| > 0 ==> r.visited[0] == AddOffset(base, offsets[0], w))
            && (forall i :: 0 <= i < |r.visited| - 1 ==>
                  ReadMemory(read, r.visited[i], w).err == None
                  && r.visited[i + 1] == AddOffset(Loaded(read, r.visited[i], w), offsets[i + 1], w))
            && (r.err.Some? ==>
                  |r.visited| > 0 && r.address == r.visited[|r.visited| - 1]
                  && ReadMemory(read, r.address, w).err == r.err)
            && (r.err == None ==>
                  |r.visited| == |offsets| - 1
                  && r.address == (if |offsets| == 1 then AddOffset(base, offsets[0], w)
                                   else AddOffset(Loaded(read, r.visited[|offsets| - 2], w), offsets[|offsets| - 1], w))))
  {
    if |offsets| > 0 {
      var a := AddOffset(base, offsets[0], w);
      var rest := offsets[1..];
      TailInt64(offsets);
      FollowSteps(read, w, a, rest);
      FollowEnd(read, w, a, rest);
      assert forall i :: 0 <= i < |rest| ==> rest[i] == offsets[i + 1];
      assert Resolve(read, w, base, offsets) == Follow(read, w, a, rest);
    }
  }

  /**
    `_ResolvePointer` at one pointer width, as the Go loop computes it: it
    returns the address and error of the walk `Resolve` describes.
  */
  method ResolvePointerAt(read: Reader, w: PtrWidth, base: nat, offsets: seq<int>)
    returns (address: nat, err: Option<ReadError>)
    requires base < Modulus(w) && AllInt64(offsets)
    ensures address == Resolve(read, w, base, offsets).address
    ensures err == Resolve(read, w, base, offsets).err
  {
    err := None;
    if |offsets| == 0 {
      address := base;
      return;
    }
    ghost var target := Resolve(read, w, base, offsets);
    address := AddOffset(base, offsets[0], w);
    var i := 1;
    while i < |offsets|
      invariant 1 <= i <= |offsets| && address < Modulus(w) && err == None
      invariant AllInt64(offsets[i..])
      invariant Follow(read, w, address, offsets[i..]).address == target.address
      invariant Follow(read, w, address, offsets[i..]).err == target.err
    {
      var m := ReadMemory(read, address, w);
      if m.err.Some? {
        err := m.err;
        return;
      }
      assert offsets[i..][1..] == offsets[i + 1..];
      address := AddOffset(m.value, offsets[i], w);
      i := i + 1;
    }
  }

  /**
    `ResolvePointer`: a 64-bit process walks with `uint64` pointers; any other
    walks with `uint32` pointers from the base truncated to 32 bits, and its
    result, zero-extended, stays below 2^32.
  */
  method ResolvePointer(read: Reader, isX64: bool, base: nat, offsets: seq<int>)
    returns (address: nat, err: Option<ReadError>)
    requires base < 0x1_0000_0000_0000_0000 && AllInt64(offsets)
    ensures address < 0x1_0000_0000_0000_0000
    ensures !isX64 ==> address < 0x1_0000_0000
    ensures isX64 ==> address == Resolve(read, Ptr64, base, offsets).address
                      && err == Resolve(read, Ptr64, base, offsets).err
    ensures !isX64 ==> address == Resolve(read, Ptr32, base % 0x1_0000_0000, offsets).address
                       && err == Resolve(read, Ptr32, base % 0x1_0000_0000, offsets).err
  {
    if isX64 {
      address, err := ResolvePointerAt(read, Ptr64, base, offsets);
    } else {
      address, err := ResolvePointerAt(read, Ptr32, base % 0x1_0000_0000, offsets);
    }
  }
}
