/**
 * The hook with its default props (codes of 8 to 12 characters, 500 ms of
 * silence), driven keystroke by keystroke through `RFIDReader` and, on a
 * clock, through `Replay`.
 */
module Scenarios {
  import opened RFIDHook
  import opened Traces
  import opened Timing
  import opened Reader

  /** `code` typed one character per keystroke, `gap` milliseconds apart, the first at `start`. */
  function Burst(code: string, start: int, gap: int): (ks: seq<Stroke>)
    ensures |ks| == |code|
    ensures forall i :: 0 <= i < |code| ==> ks[i] == Stroke([code[i]], start + i * gap)
  {
    seq(|code|, i requires 0 <= i < |code| => Stroke([code[i]], start + i * gap))
  }

  /** Typing a code one character per keystroke puts exactly that code in the buffer. */
  lemma {:induction false} BurstTypesCode(code: string, start: int, gap: int)
    ensures Typed(AsKeys(Burst(code, start, gap))) == code
    decreases |code|
  {
    if code != [] {
      var n := |code|;
      var init := code[..n - 1];
      BurstTypesCode(init, start, gap);
      var ks := AsKeys(Burst(code, start, gap));
      assert ks[..n - 1] == AsKeys(Burst(init, start, gap));
      assert init + [code[n - 1]] == code;
    }
  }

  /** An eight-character code typed 50 ms apart and ended by Enter is reported once. */
  lemma DefaultsReportEightCharacterScan()
    ensures Replay(Defaults, Idle, Burst("A1B2C3D4", 0, 50) + [Stroke(Enter, 400)]) ==
      Trace(Idle, ["A1B2C3D4"])
  {
    var burst := Burst("A1B2C3D4", 0, 50);
    BurstTypesCode("A1B2C3D4", 0, 50);
    BurstIsOneScan(Defaults, burst, 400);
  }

  /** A four-character code is too short for the default window and is dropped. */
  lemma DefaultsDropFourCharacterScan()
    ensures Replay(Defaults, Idle, Burst("A1B2", 0, 50) + [Stroke(Enter, 200)]) == Trace(Idle, [])
  {
    var burst := Burst("A1B2", 0, 50);
    BurstTypesCode("A1B2", 0, 50);
    BurstIsOneScan(Defaults, burst, 200);
  }

  /** A 600 ms pause before Enter lets the timer discard the code; the empty buffer Enter then sees is dropped too. */
  lemma DefaultsDropScanAfterPause()
    ensures Replay(Defaults, Idle, Burst("A1B2C3D4", 0, 50) + [Stroke(Enter, 950)]) == Trace(Idle, [])
  {
    AbandonedScan(Defaults, Burst("A1B2C3D4", 0, 50), 950);
  }

  /** Three one-character keys typed into an empty buffer spell the three-character code. */
  lemma ThreeKeys(x: string, y: string, z: string)
    requires |x| == 1 && |y| == 1 && |z| == 1
    ensures "" + x + y + z == [x[0], y[0], z[0]]
  {
  }

  /**
   * The class with a 2..4 window: a three-character scan, with a modifier
   * key in between that adds nothing, reaches `onRead` with the code.
   */
  method ReaderReportsScan() returns (read: Option<string>)
    ensures read == Some("A1B")
  {
    var r := new RFIDReader(2, 4, 500);
    read := r.HandleKeyDown("A", 0);
    read := r.HandleKeyDown("1", 50);
    read := r.HandleKeyDown("Shift", 90);
    read := r.HandleKeyDown("B", 100);
    ThreeKeys("A", "1", "B");
    read := r.HandleKeyDown(Enter, 150);
  }

  /** The class with default props: a four-character scan is dropped and the buffer emptied. */
  method ReaderDropsShortScan() returns (read: Option<string>, buffer: string)
    ensures read == None && buffer == ""
  {
    var r := new RFIDReader();
    read := r.HandleKeyDown("A", 0);
    read := r.HandleKeyDown("1", 50);
    read := r.HandleKeyDown("B", 100);
    read := r.HandleKeyDown("2", 150);
    read := r.HandleKeyDown(Enter, 200);
    buffer := r.buffer;
  }

  /**
   * The class with a 2..4 window: the timer fires after an abandoned scan,
   * and the Enter that follows finds an empty buffer and reports nothing.
   */
  method ReaderDropsAbandonedScan() returns (read: Option<string>)
    ensures read == None
  {
    var r := new RFIDReader(2, 4, 500);
    read := r.HandleKeyDown("A", 0);
    read := r.HandleKeyDown("1", 50);
    read := r.HandleKeyDown("B", 100);
    r.TimerFire();
    read := r.HandleKeyDown(Enter, 700);
  }

  /** Deactivating the hook mid-scan keeps the partial code, so the scan still completes. */
  method ReaderKeepsBufferWhenDeactivated() returns (read: Option<string>)
    ensures read == Some("A1B")
  {
    var r := new RFIDReader(2, 4, 500);
    read := r.HandleKeyDown("A", 0);
    read := r.HandleKeyDown("1", 50);
    r.SetActive(false);
    read := r.HandleKeyDown("B", 100);
    ThreeKeys("A", "1", "B");
    read := r.HandleKeyDown(Enter, 150);
  }
}
