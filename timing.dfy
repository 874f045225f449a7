/**
 * Keystrokes on a clock, under one scheduling assumption: a timer callback
 * that has come due runs before a later keystroke is delivered, so a
 * keystroke at time `at` first lets a pending timer with `deadline <= at`
 * discard the buffer. (A browser only promises that a timer waits at least
 * its delay; the assumption rules out input being handled ahead of a due
 * timer.) `Replay` is that schedule; the lemmas show that a burst whose gaps
 * are all shorter than the delay behaves as the untimed `Run`, and that a
 * gap at least as long as the delay splits the input into two independent
 * scans.
 */
module Timing {
  import opened RFIDHook
  import opened Traces

  /** A keydown event: its key value and its time in milliseconds. */
  datatype Stroke = Stroke(key: string, at: int)

  /** How long after a keystroke its timer comes due. */
  function Delay(c: Config): nat {
    EffectiveDelay(c.timeoutDuration)
  }

  /** The pending timer has come due by time `now`. */
  predicate Due(s: State, now: int) {
    s.timer.Pending? && s.timer.deadline <= now
  }

  /** One keystroke as the event loop delivers it: a due timer fires first. */
  function Deliver(c: Config, s: State, k: Stroke): Outcome {
    var before := if Due(s, k.at) then Step(c, s, Fire).next else s;
    HandleKey(c, before, k.key, k.at)
  }

  function Replay(c: Config, s: State, ks: seq<Stroke>): Trace
    decreases |ks|
  {
    if ks == [] then Trace(s, [])
    else
      var prev := Replay(c, s, ks[..|ks| - 1]);
      var o := Deliver(c, prev.final, ks[|ks| - 1]);
      Trace(o.next, prev.reported + Logged(o.read))
  }

  /** The strokes as untimed key events. */
  function AsKeys(ks: seq<Stroke>): (evs: seq<Event>)
    ensures |evs| == |ks|
    ensures forall i :: 0 <= i < |ks| ==> evs[i] == Key(ks[i].key, ks[i].at)
  {
    seq(|ks|, i requires 0 <= i < |ks| => Key(ks[i].key, ks[i].at))
  }

  /** Every stroke comes less than one delay after the one before it. */
  predicate Continuous(c: Config, ks: seq<Stroke>) {
    forall i :: 0 < i < |ks| ==> ks[i].at < ks[i - 1].at + Delay(c)
  }

  lemma {:induction false} ReplaySnoc(c: Config, s: State, ks: seq<Stroke>, k: Stroke)
    ensures Replay(c, s, ks + [k]) ==
      Trace(Deliver(c, Replay(c, s, ks).final, k).next,
            Replay(c, s, ks).reported + Logged(Deliver(c, Replay(c, s, ks).final, k).read))
  {
    assert (ks + [k])[..|ks + [k]| - 1] == ks;
  }

  /**
   * After a non-empty replay the recognizer is `Idle` if the last key was
   * Enter, and otherwise has exactly one timer, due one delay after the
   * last keystroke.
   */
  lemma LastStrokeSetsTimer(c: Config, s: State, ks: seq<Stroke>)
    requires ks != []
    ensures ks[|ks| - 1].key == Enter ==> Replay(c, s, ks).final == Idle
    ensures ks[|ks| - 1].key != Enter ==>
      Replay(c, s, ks).final.timer == Pending(ks[|ks| - 1].at + Delay(c))
  {
  }

  /**
   * While no timer comes due, the clock makes no difference: the replay is
   * the untimed run of the same keys.
   */
  lemma {:induction false} ReplayWithoutTimeouts(c: Config, s: State, ks: seq<Stroke>)
    requires ks != [] ==> !Due(s, ks[0].at)
    requires Continuous(c, ks)
    ensures Replay(c, s, ks) == Run(c, s, AsKeys(ks))
    decreases |ks|
  {
    if ks != [] {
      var init := ks[..|ks| - 1];
      var k := ks[|ks| - 1];
      assert Continuous(c, init);
      ReplayWithoutTimeouts(c, s, init);
      assert AsKeys(ks)[..|ks| - 1] == AsKeys(init);
      if init != [] {
        LastStrokeSetsTimer(c, s, init);
        assert k.at < init[|init| - 1].at + Delay(c);
      }
      assert !Due(Replay(c, s, init).final, k.at);
    }
  }

  /** Replays that agree on their first stroke agree on everything after it. */
  lemma {:induction false} SameFirstStroke(c: Config, s1: State, s2: State, ks: seq<Stroke>)
    requires ks != []
    requires Deliver(c, s1, ks[0]) == Deliver(c, s2, ks[0])
    ensures Replay(c, s1, ks) == Replay(c, s2, ks)
    decreases |ks|
  {
    if |ks| > 1 {
      SameFirstStroke(c, s1, s2, ks[..|ks| - 1]);
    } else {
      assert ks[..0] == [];
    }
  }

  /** Replaying `a + b` is replaying `a`, then `b` from where `a` left off. */
  lemma {:induction false} ReplayAppend(c: Config, s: State, a: seq<Stroke>, b: seq<Stroke>)
    ensures Replay(c, s, a + b) ==
      Trace(Replay(c, Replay(c, s, a).final, b).final,
            Replay(c, s, a).reported + Replay(c, Replay(c, s, a).final, b).reported)
    decreases |b|
  {
    if b == [] {
      assert a + b == a;
    } else {
      var init := b[..|b| - 1];
      ReplayAppend(c, s, a, init);
      assert init + [b[|b| - 1]] == b;
      ReplayAppendStep(c, s, a, init, b[|b| - 1]);
    }
  }

  /** The inductive step of `ReplayAppend`: one more stroke on both sides. */
  lemma ReplayAppendStep(c: Config, s: State, a: seq<Stroke>, init: seq<Stroke>, k: Stroke)
    requires Replay(c, s, a + init) ==
      Trace(Replay(c, Replay(c, s, a).final, init).final,
            Replay(c, s, a).reported + Replay(c, Replay(c, s, a).final, init).reported)
    ensures Replay(c, s, a + (init + [k])) ==
      Trace(Replay(c, Replay(c, s, a).final, init + [k]).final,
            Replay(c, s, a).reported + Replay(c, Replay(c, s, a).final, init + [k]).reported)
  {
    var mid := Replay(c, s, a);
    var rest := Replay(c, mid.final, init);
    var o := Deliver(c, rest.final, k);
    Associative(a, init, [k]);
    ReplaySnoc(c, s, a + init, k);
    ReplaySnoc(c, mid.final, init, k);
    Associative(mid.reported, rest.reported, Logged(o.read));
  }

  /**
   * A silence of at least one delay splits the input into two independent
   * scans: the strokes after the gap behave exactly as they would from
   * `Idle`, and the codes reported are those of each part, in order.
   */
  lemma GapSplitsScans(c: Config, s: State, a: seq<Stroke>, b: seq<Stroke>)
    requires a != [] && b != []
    requires b[0].at >= a[|a| - 1].at + Delay(c)
    ensures Replay(c, s, a + b) ==
      Trace(Replay(c, Idle, b).final, Replay(c, s, a).reported + Replay(c, Idle, b).reported)
  {
    ReplayAppend(c, s, a, b);
    LastStrokeSetsTimer(c, s, a);
    var mid := Replay(c, s, a).final;
    assert Deliver(c, mid, b[0]) == Deliver(c, Idle, b[0]);
    SameFirstStroke(c, mid, Idle, b);
  }

  /**
   * A burst of one-character keys whose gaps, and the gap before the final
   * Enter, are all shorter than the delay is one scan: its concatenation is
   * reported once when its length is in the window, nothing otherwise.
   */
  lemma BurstIsOneScan(c: Config, burst: seq<Stroke>, at: int)
    requires forall i :: 0 <= i < |burst| ==> Printable(burst[i].key)
    requires Continuous(c, burst + [Stroke(Enter, at)])
    ensures Replay(c, Idle, burst + [Stroke(Enter, at)]) ==
      Trace(Idle, if Accepts(c, Typed(AsKeys(burst))) then [Typed(AsKeys(burst))] else [])
  {
    var ks := burst + [Stroke(Enter, at)];
    ReplayWithoutTimeouts(c, Idle, ks);
    assert AsKeys(ks) == AsKeys(burst) + [Key(Enter, at)];
    ScanOfPrintableKeys(c, AsKeys(burst), at);
  }

  /** Keystrokes without Enter report nothing. */
  lemma {:induction false} NoEnterNoReports(c: Config, s: State, ks: seq<Stroke>)
    requires forall i :: 0 <= i < |ks| ==> ks[i].key != Enter
    ensures Replay(c, s, ks).reported == []
    decreases |ks|
  {
    if ks != [] {
      NoEnterNoReports(c, s, ks[..|ks| - 1]);
    }
  }

  /**
   * A scan abandoned for at least one delay is discarded: the Enter that
   * finally arrives sees an empty buffer, whose length 0 is reported only
   * when the window admits the empty code.
   */
  lemma AbandonedScan(c: Config, burst: seq<Stroke>, at: int)
    requires burst != []
    requires forall i :: 0 <= i < |burst| ==> burst[i].key != Enter
    requires at >= burst[|burst| - 1].at + Delay(c)
    ensures Replay(c, Idle, burst + [Stroke(Enter, at)]) ==
      Trace(Idle, if Accepts(c, "") then [""] else [])
  {
    GapSplitsScans(c, Idle, burst, [Stroke(Enter, at)]);
    NoEnterNoReports(c, Idle, burst);
    assert [Stroke(Enter, at)][..0] == [];
  }
}
