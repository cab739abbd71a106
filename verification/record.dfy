/**
  Recording a region of another process's memory over time: frames of bytes
  and their capture times in milliseconds, appended in lockstep, and the
  binary search that picks the frame to show for a playback time.

  The clock is two parameters (the nanosecond times read before and after the
  copy); the copy itself is `Memory.ReadBytes` over an abstract reader.
*/
module Record {
  import opened Wrappers
  import opened Numerals
  import opened Memory

  /** A recording of `size` bytes starting at `startAddress`. */
  class Recording {
    var startAddress: nat
    var size: nat
    var frames: seq<seq<byte>>
    var timestamps: seq<int>

    /** Frames and timestamps are appended together, and every frame is one full copy of the region. */
    ghost predicate Valid()
      reads this
    {
      && |frames| == |timestamps|
      && (forall i :: 0 <= i < |frames| ==> |frames[i]| == size)
    }

    /** `NewRecording`: the region, and no frames yet. */
    constructor (startAddress: nat, size: nat)
      ensures this.startAddress == startAddress && this.size == size
      ensures frames == [] && timestamps == []
      ensures Valid()
    {
      this.startAddress := startAddress;
      this.size := size;
      frames := [];
      timestamps := [];
    }
  }

  datatype CaptureError = NilRecording | ReadFailed(cause: ReadError)

  datatype FrameError = RecordingIsNil | NoFrames

  /**
    The capture time in milliseconds: the midpoint of the two clock readings,
    in wrapping `int64` arithmetic and truncating division. Without overflow it
    is the sum divided by two million.
  */
  function Timestamp(startNanos: int, endNanos: int): (t: int)
    ensures 0 <= startNanos && 0 <= endNanos && startNanos + endNanos < 0x8000_0000_0000_0000 ==>
              t == (startNanos + endNanos) / 2_000_000
  {
    var sum := startNanos + endNanos;
    var r := TruncDiv(TruncDiv(WrapInt64(sum), 2), 1_000_000);
    if 0 <= startNanos && 0 <= endNanos && sum < 0x8000_0000_0000_0000 then
      ModUnique(sum + 0x8000_0000_0000_0000, 0, sum + 0x8000_0000_0000_0000, 0x1_0000_0000_0000_0000);
      DivDiv(sum, 2, 1_000_000);
      r
    else r
  }

  /** Dividing twice is dividing by the product. */
  lemma DivDiv(x: nat, a: nat, b: nat)
    requires a > 0 && b > 0
    ensures (x / a) / b == x / (a * b)
  {
    var q := (x / a) / b;
    var r := (x / a) % b;
    assert x == q * (a * b) + (r * a + x % a) by {
      assert x == (x / a) * a + x % a;
      assert x / a == q * b + r;
    }
    MulMono(r, b - 1, a);
    ModUniqueQuotient(x, q, r * a + x % a, a * b);
  }

  lemma ModUniqueQuotient(x: int, q: int, r: int, m: int)
    requires m > 0 && 0 <= r < m && x == q * m + r
    ensures x / m == q
  {
    var d := x / m - q;
    assert d * m == r - x % m;
    MulSign(d, m);
  }

  /** Division by a positive number is monotone. */
  lemma DivMono(a: nat, b: nat, d: nat)
    requires a <= b && d > 0
    ensures a / d <= b / d
  {
    var k := a / d - b / d;
    assert k * d == a - a % d - (b - b % d);
    MulSign(k, d);
  }

  /** A capture's time lies between the millisecond readings taken before and after it. */
  lemma TimestampBetween(startNanos: nat, endNanos: nat)
    requires startNanos <= endNanos && startNanos + endNanos < 0x8000_0000_0000_0000
    ensures startNanos / 1_000_000 <= Timestamp(startNanos, endNanos) <= endNanos / 1_000_000
  {
    var mid := (startNanos + endNanos) / 2;
    DivDiv(startNanos + endNanos, 2, 1_000_000);
    DivMono(startNanos, mid, 1_000_000);
    DivMono(mid, endNanos, 1_000_000);
  }

  /**
    `CaptureFrame`: a nil recording is an error; otherwise the region is read
    once, a failed read is returned and changes nothing, and a successful one
    appends the bytes and the time together.
  */
  method CaptureFrame(rec: Recording?, read: Reader, startNanos: int, endNanos: int)
    returns (err: Option<CaptureError>)
    requires rec != null ==> rec.Valid()
    modifies rec
    ensures rec == null ==> err == Some(NilRecording)
    ensures rec != null ==>
              && rec.Valid()
              && rec.startAddress == old(rec.startAddress) && rec.size == old(rec.size)
              && var b := ReadBytes(read, rec.startAddress, rec.size);
              if b.err.Some? then
                err == Some(ReadFailed(b.err.value))
                && rec.frames == old(rec.frames) && rec.timestamps == old(rec.timestamps)
              else
                err == None
                && rec.frames == old(rec.frames) + [b.value]
                && rec.timestamps == old(rec.timestamps) + [Timestamp(startNanos, endNanos)]
  {
    if rec == null {
      return Some(NilRecording);
    }
    var b := ReadBytes(read, rec.startAddress, rec.size);
    var time := Timestamp(startNanos, endNanos);
    if b.err.Some? {
      return Some(ReadFailed(b.err.value));
    }
    rec.frames := rec.frames + [b.value];
    rec.timestamps := rec.timestamps + [time];
    err := None;
  }

  predicate Sorted(ts: seq<int>)
  {
    forall i, j :: 0 <= i <= j < |ts| ==> ts[i] <= ts[j]
  }

  /** The position of the first timestamp at or after `t`, or the length when there is none: a left-to-right scan. */
  function FirstAtLeast(ts: seq<int>, t: int): (i: nat)
    ensures i <= |ts|
    ensures forall j :: 0 <= j < i ==> ts[j] < t
    ensures i < |ts| ==> ts[i] >= t
  {
    if |ts| == 0 then 0
    else if ts[0] >= t then 0
    else 1 + FirstAtLeast(ts[1..], t)
  }

  /** What `FrameIndex` computes for sorted timestamps: the first time at or after `t`, and 0 when none is. */
  function FrameIndexOf(ts: seq<int>, t: int): (i: nat)
    ensures i < |ts| || i == 0
    ensures i > 0 ==> ts[i] >= t && ts[i - 1] < t
  {
    var k := FirstAtLeast(ts, t);
    if k < |ts| then k else 0
  }

  /**
    `FrameIndex`, the binary search: -1 for a nil recording. The index is 0 or
    a position whose time is at or after `t`; for sorted timestamps it is the
    first such position, and 0 when there is none.
  */
  method FrameIndex(rec: Recording?, time: int) returns (index: int)
    ensures rec == null ==> index == -1
    ensures rec != null ==>
              (index == 0 || (0 < index < |rec.timestamps| && rec.timestamps[index] >= time))
    ensures rec != null && Sorted(rec.timestamps) ==> index == FrameIndexOf(rec.timestamps, time)
  {
    if rec == null {
      return -1;
    }
    var ts := rec.timestamps;
    index := 0;
    var low := 0;
    var high := |ts| - 1;
    while low <= high
      invariant 0 <= low <= high + 1 <= |ts|
      invariant (index == high + 1 && index < |ts| && ts[index] >= time) || (index == 0 && high == |ts| - 1)
      invariant Sorted(ts) ==> forall j :: 0 <= j < low ==> ts[j] < time
      invariant Sorted(ts) ==> forall j :: high < j < |ts| ==> ts[j] >= time
      decreases high - low
    {
      var mid := (low + high) / 2;
      if ts[mid] < time {
        low := mid + 1;
      } else {
        index := mid;
        high := mid - 1;
      }
    }
    if Sorted(ts) {
      FirstAtLeastIs(ts, time, low);
    }
  }

  /** A cut with every earlier time before `t` and every later one at or after it is the first time at or after `t`. */
  lemma {:induction false} FirstAtLeastIs(ts: seq<int>, t: int, k: nat)
    requires k <= |ts|
    requires forall j :: 0 <= j < k ==> ts[j] < t
    requires forall j :: k <= j < |ts| ==> ts[j] >= t
    ensures FirstAtLeast(ts, t) == k
  {
    if k > 0 {
      var tail := ts[1..];
      assert forall j :: 0 <= j < k - 1 ==> tail[j] == ts[j + 1];
      assert forall j :: k - 1 <= j < |tail| ==> tail[j] == ts[j + 1];
      FirstAtLeastIs(tail, t, k - 1);
    }
  }

  /** The clamp `GetFrame` applies to the index. */
  function Clamp(index: int, count: nat): (c: int)
    requires count > 0
    ensures 0 <= c < count
    ensures 0 <= index < count ==> c == index
  {
    if index < 0 then 0 else if index >= count then count - 1 else index
  }

  /**
    `GetFrame`: an error for a nil recording or one without frames; otherwise
    the frame at the clamped `FrameIndex`, which for sorted timestamps is the
    first frame captured at or after `time`, and the first frame when every
    frame is older.
  */
  method GetFrame(rec: Recording?, time: int) returns (frame: Result<seq<byte>, FrameError>)
    requires rec != null ==> rec.Valid()
    ensures rec == null ==> frame == Failure(RecordingIsNil)
    ensures rec != null && |rec.frames| == 0 ==> frame == Failure(NoFrames)
    ensures rec != null && |rec.frames| > 0 ==> frame.Success? && frame.value in rec.frames
    ensures rec != null && |rec.frames| > 0 && Sorted(rec.timestamps) ==>
              frame == Success(rec.frames[FrameIndexOf(rec.timestamps, time)])
  {
    if rec == null {
      return Failure(RecordingIsNil);
    }
    if |rec.frames| == 0 {
      return Failure(NoFrames);
    }
    var index := FrameIndex(rec, time);
    index := Clamp(index, |rec.frames|);
    frame := Success(rec.frames[index]);
  }

  /** With sorted times, a playback time after the last capture shows the first frame, not the last. */
  lemma AfterLastShowsFirst(ts: seq<int>, t: int)
    requires Sorted(ts) && |ts| > 0 && ts[|ts| - 1] < t
    ensures FrameIndexOf(ts, t) == 0
  {
    FirstAtLeastIs(ts, t, |ts|);
  }
}
