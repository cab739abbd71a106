/**
  The application state behind the views: the address box's hex parsing, the
  poll tick that decides between leaving the data alone, clearing it and
  fetching it, the recording state, and the copy of a decoded byte string into
  a byte view.

  Backend calls are asynchronous in the application; here each tick is given the
  outcome of its fetch (`None` for a rejected call) and applies it at once.
*/
module AppState {
  import opened Wrappers
  import opened Numerals

  // ---------------------------------------------------------------------
  // Address parsing

  /**
    `parseAddress`: the text read as the hexadecimal literal `0x<text>`,
    which accepts digits of either case followed only by trailing white space;
    anything else is a syntax error that becomes 0.
  */
  function ParseAddress(s: string): (address: nat)
  {
    var t := TrimEnd(s);
    if |t| > 0 && AllDigits(t, 16) then DigitsValue(t, 16) else 0
  }

  /** Trailing white space is all `TrimEnd` removes: a character that is not white space survives it. */
  lemma {:induction false} TrimEndKeeps(s: string, j: nat)
    requires j < |s| && !IsJsWhitespace(s[j])
    ensures j < |TrimEnd(s)| && TrimEnd(s)[j] == s[j]
    decreases |s|
  {
    if IsJsWhitespace(s[|s| - 1]) {
      var init := s[..|s| - 1];
      assert init[j] == s[j];
      TrimEndKeeps(init, j);
    }
  }

  /** Trimming digits followed by white space leaves the digits. */
  lemma {:induction false} TrimEndPadding(digits: string, pad: string)
    requires |digits| > 0 && AllDigits(digits, 16)
    requires forall j :: 0 <= j < |pad| ==> IsJsWhitespace(pad[j])
    ensures TrimEnd(digits + pad) == digits
    decreases |pad|
  {
    DigitsNotWhitespace(digits, 16);
    if |pad| == 0 {
      assert digits + pad == digits;
    } else {
      var shorter := pad[..|pad| - 1];
      assert (digits + pad)[..|digits + pad| - 1] == digits + shorter;
      TrimEndPadding(digits, shorter);
    }
  }

  /** Hex digits of either case, optionally followed by white space, parse to their value. */
  lemma ParseAddressDigits(digits: string, pad: string)
    requires |digits| > 0 && AllDigits(digits, 16)
    requires forall j :: 0 <= j < |pad| ==> IsJsWhitespace(pad[j])
    ensures ParseAddress(digits + pad) == DigitsValue(digits, 16)
  {
    TrimEndPadding(digits, pad);
  }

  /**
    A character that is not a hex digit, at or before any character that is
    not white space, makes the text invalid: a sign, a prefix, a letter beyond
    `f`, or white space in front or in the middle all give 0.
  */
  lemma ParseAddressInvalid(s: string, i: nat, j: nat)
    requires i <= j < |s| && !IsDigit(s[i], 16) && !IsJsWhitespace(s[j])
    ensures ParseAddress(s) == 0
  {
    TrimEndKeeps(s, j);
    var t := TrimEnd(s);
    assert t[i] == s[i];
  }

  /** Empty or blank text gives 0. */
  lemma {:induction false} ParseAddressBlank(s: string)
    requires forall j :: 0 <= j < |s| ==> IsJsWhitespace(s[j])
    ensures ParseAddress(s) == 0
    decreases |s|
  {
    if |s| > 0 {
      var init := s[..|s| - 1];
      assert forall j :: 0 <= j < |init| ==> init[j] == s[j];
      ParseAddressBlank(init);
    }
  }

  /** An address shown as `formatHex` output, as the row labels show addresses, reads back as itself. */
  lemma ParseAddressFormatHex(n: nat)
    ensures ParseAddress(FormatHex(n)) == n
  {
    var raw := IntToString(n, 16);
    var k := if |raw| >= 2 then 0 else 2 - |raw|;
    NatDigitsValue(n, 16);
    PaddedUpper(raw, 2, '0');
    LeadingZeros(k, ToUpper(raw), 16);
    assert FormatHex(n) + "" == FormatHex(n);
    ParseAddressDigits(FormatHex(n), "");
  }

  // ---------------------------------------------------------------------
  // The byte view

  /** What `setUint8` stores for each character code: its low eight bits. */
  function CharCodes(s: string): (bytes: seq<byte>)
    ensures |bytes| == |s|
    ensures forall i :: 0 <= i < |s| && (s[i] as int) < 256 ==> bytes[i] == s[i] as int
  {
    seq(|s|, i requires 0 <= i < |s| => (s[i] as int) % 256)
  }

  /** The binary string whose character codes are `bytes`, as `atob` produces from their base64 text. */
  function BinaryString(bytes: seq<byte>): (s: string)
    ensures |s| == |bytes|
  {
    seq(|bytes|, i requires 0 <= i < |bytes| => bytes[i] as char)
  }

  /** Copying the binary string of some bytes into a view gives back those bytes. */
  lemma CharCodesOfBinaryString(bytes: seq<byte>)
    ensures CharCodes(BinaryString(bytes)) == bytes
  {
    var s := BinaryString(bytes);
    assert forall i :: 0 <= i < |bytes| ==> s[i] as int == bytes[i];
  }

  /**
    `base64ToDataView` after decoding: a new buffer as long as the string, whose
    byte i is the code of character i.
  */
  method BytesToView(s: string) returns (view: array<byte>)
    ensures fresh(view)
    ensures view[..] == CharCodes(s)
  {
    view := new byte[|s|];
    var i := 0;
    while i < |s|
      invariant 0 <= i <= |s|
      invariant forall k :: 0 <= k < i ==> view[k] == (s[k] as int) % 256
    {
      view[i] := (s[i] as int) % 256;
      i := i + 1;
    }
  }

  // ---------------------------------------------------------------------
  // Poll tick and recording state

  datatype RecordingState = NotRecording | Recording | Playing

  /** The data shown: the shared empty view, or the bytes of a fetch. */
  datatype Data = EmptyData | Fetched(bytes: seq<byte>)

  datatype PollStep = Idle | Clear | Fetch

  /**
    The poll tick's decision: nothing while playing back; a fetch when a
    process with a non-zero id is chosen and nothing is being recorded;
    otherwise the data is cleared, unless it already is the empty view.
  */
  function PollDecision(state: RecordingState, pid: Option<nat>, data: Data): (step: PollStep)
    ensures step == Fetch <==> state == NotRecording && pid.Some? && pid.value != 0
    ensures step == Clear <==> state != Playing && !(pid.Some? && pid.value != 0 && state == NotRecording)
                               && data != EmptyData
  {
    if state == Playing then Idle
    else if pid.None? || pid.value == 0 || state == Recording then
      if data != EmptyData then Clear else Idle
    else
      assert state.NotRecording?;
      Fetch
  }

  class AppModel {
    var data: Data
    var recordingState: RecordingState
    var stream: bool
    var recorder: bool
    var video: bool
    var recordingUrl: string

    /** The state `useAppState` starts from, with or without a mounted video element. */
    constructor (video: bool)
      ensures data == EmptyData && recordingState == NotRecording
      ensures !stream && !recorder && this.video == video && recordingUrl == ""
    {
      data := EmptyData;
      recordingState := NotRecording;
      stream := false;
      recorder := false;
      this.video := video;
      recordingUrl := "";
    }

    /**
      One poll tick for the chosen process (`None` when none is chosen), given
      the decoded bytes its fetch would return (`None` when the call fails).
      A failed fetch leaves the empty view.
    */
    method Poll(pid: Option<nat>, fetched: Option<string>)
      modifies this
      ensures recordingState == old(recordingState) && stream == old(stream) && recorder == old(recorder)
      ensures video == old(video) && recordingUrl == old(recordingUrl)
      ensures data == match PollDecision(old(recordingState), pid, old(data))
                      case Idle => old(data)
                      case Clear => EmptyData
                      case Fetch => if fetched.Some? then Fetched(CharCodes(fetched.value)) else EmptyData
    {
      var isPlaying := recordingState == Playing;
      if isPlaying {
        return;
      }
      if pid.None? || pid.value == 0 || recordingState == Recording {
        if data != EmptyData {
          data := EmptyData;
        }
        return;
      }
      if fetched.Some? {
        var view := BytesToView(fetched.value);
        data := Fetched(view[..]);
      } else if data != EmptyData {
        data := EmptyData;
      }
    }

    /** `setStream`: a stream is only taken when the video element is there to show it; clearing always succeeds. */
    method SetStream(present: bool)
      modifies this
      ensures stream == if present && !old(video) then old(stream) else present
      ensures data == old(data) && recordingState == old(recordingState) && recorder == old(recorder)
      ensures video == old(video) && recordingUrl == old(recordingUrl)
    {
      if present {
        if !video {
          return;
        }
      }
      stream := present;
    }

    /** `recordStream`: without a stream nothing happens; otherwise a recorder starts and the state is Recording. */
    method RecordStream()
      modifies this
      ensures !old(stream) ==> recorder == old(recorder) && recordingState == old(recordingState)
      ensures old(stream) ==> recorder && recordingState == Recording
      ensures data == old(data) && stream == old(stream) && video == old(video) && recordingUrl == old(recordingUrl)
    {
      if !stream {
        return;
      }
      recorder := true;
      recordingState := Recording;
    }

    /** `stopRecordStream`: without a recorder nothing happens; otherwise the recorder is dropped and the state is Playing. */
    method StopRecordStream()
      modifies this
      ensures !old(recorder) ==> recorder == old(recorder) && recordingState == old(recordingState)
      ensures old(recorder) ==> !recorder && recordingState == Playing
      ensures data == old(data) && stream == old(stream) && video == old(video) && recordingUrl == old(recordingUrl)
    {
      if !recorder {
        return;
      }
      recorder := false;
      recordingState := Playing;
    }

    /**
      `clearRecording`: the recording's address is always forgotten, but the
      state returns to NotRecording only when there is a video element, since
      the early return skips the reset.
    */
    method ClearRecording()
      modifies this
      ensures recordingUrl == ""
      ensures recordingState == if old(video) then NotRecording else old(recordingState)
      ensures data == old(data) && stream == old(stream) && recorder == old(recorder) && video == old(video)
    {
      recordingUrl := "";
      if !video {
        return;
      }
      recordingState := NotRecording;
    }
  }
}
