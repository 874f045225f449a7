/**
 * Sequences of the three things that can happen to the recognizer: a
 * keystroke, the inactivity timer's callback, and an outside call of
 * `clearBuffer`. `Run` replays them through the state machine; `Typed`,
 * `SinceLastReset` and `Scans` say, without mentioning the timer, what the
 * buffer and the reported codes should be, and the lemmas prove that the
 * state machine matches them.
 */
module Traces {
  import opened RFIDHook

  datatype Event =
    | Key(key: string, at: int)  // a keydown event at time `at`
    | Fire                        // the pending timer callback runs
    | Reset                       // `clearBuffer` called from outside

  /** The result of a run: the final state and every code passed to `onRead`, in order. */
  datatype Trace = Trace(final: State, reported: seq<string>)

  /**
   * One event. A `Fire` with no pending timer changes nothing: no callback
   * is scheduled, so none runs.
   */
  function Step(c: Config, s: State, e: Event): (o: Outcome)
    ensures !e.Key? ==> o.read == None
    ensures e.Reset? ==> o.next == Idle
    ensures e.Fire? && s.timer.Pending? ==> o.next == Idle
    ensures TimerGuardsBuffer(s) ==> TimerGuardsBuffer(o.next)
  {
    match e
    case Key(k, at) => HandleKey(c, s, k, at)
    case Fire => Outcome(if s.timer.Pending? then Idle else s, None)
    case Reset => Outcome(Idle, None)
  }

  function Run(c: Config, s: State, evs: seq<Event>): Trace
    decreases |evs|
  {
    if evs == [] then Trace(s, [])
    else
      var prev := Run(c, s, evs[..|evs| - 1]);
      var o := Step(c, prev.final, evs[|evs| - 1]);
      Trace(o.next, prev.reported + Logged(o.read))
  }

  /** The events that end a partial scan: Enter, the timer callback, and `clearBuffer`. */
  predicate Resets(e: Event) {
    e.Fire? || e.Reset? || (e.Key? && e.key == Enter)
  }

  predicate IsEnter(e: Event) {
    e.Key? && e.key == Enter
  }

  /** The events after the last reset. */
  function SinceLastReset(evs: seq<Event>): seq<Event> {
    if evs == [] || Resets(evs[|evs| - 1]) then []
    else SinceLastReset(evs[..|evs| - 1]) + [evs[|evs| - 1]]
  }

  /**
   * `SinceLastReset` is the longest suffix without a reset: a suffix of
   * `evs`, free of resets, and either all of `evs` or preceded by a reset.
   */
  lemma {:induction false} SinceLastResetIsLastSegment(evs: seq<Event>)
    ensures |SinceLastReset(evs)| <= |evs|
    ensures SinceLastReset(evs) == evs[|evs| - |SinceLastReset(evs)|..]
    ensures forall i :: 0 <= i < |SinceLastReset(evs)| ==> !Resets(SinceLastReset(evs)[i])
    ensures |SinceLastReset(evs)| < |evs| ==> Resets(evs[|evs| - |SinceLastReset(evs)| - 1])
    decreases |evs|
  {
    if evs != [] && !Resets(evs[|evs| - 1]) {
      var init := evs[..|evs| - 1];
      SinceLastResetIsLastSegment(init);
      var t := SinceLastReset(init);
      assert SinceLastReset(evs) == t + [evs[|evs| - 1]];
      assert evs[|evs| - |t| - 1..] == init[|init| - |t|..] + [evs[|evs| - 1]];
    }
  }

  /** The one-character keys among `evs`, concatenated in arrival order. */
  function Typed(evs: seq<Event>): string {
    if evs == [] then ""
    else
      var e := evs[|evs| - 1];
      Typed(evs[..|evs| - 1]) + if e.Key? && Printable(e.key) then e.key else ""
  }

  function CountEnters(evs: seq<Event>): nat {
    if evs == [] then 0
    else CountEnters(evs[..|evs| - 1]) + if IsEnter(evs[|evs| - 1]) then 1 else 0
  }

  /**
   * The codes a correct recognizer reports for `evs`: at each Enter, the
   * characters typed since the last reset, when their number is in the
   * window. Every code is in the window, and there is at most one per Enter.
   */
  function Scans(c: Config, evs: seq<Event>): (codes: seq<string>)
    ensures forall i :: 0 <= i < |codes| ==> Accepts(c, codes[i])
    ensures |codes| <= CountEnters(evs)
  {
    if evs == [] then []
    else
      var init := evs[..|evs| - 1];
      var code := Typed(SinceLastReset(init));
      Scans(c, init) + if IsEnter(evs[|evs| - 1]) && Accepts(c, code) then [code] else []
  }

  lemma Associative<T>(x: seq<T>, y: seq<T>, z: seq<T>)
    ensures (x + y) + z == x + (y + z)
  {
  }

  /** Run's final state is the last step applied to the run of all but the last event. */
  lemma {:induction false} RunSnoc(c: Config, s: State, evs: seq<Event>, e: Event)
    ensures Run(c, s, evs + [e]) ==
      Trace(Step(c, Run(c, s, evs).final, e).next,
            Run(c, s, evs).reported + Logged(Step(c, Run(c, s, evs).final, e).read))
  {
    assert (evs + [e])[..|evs + [e]| - 1] == evs;
  }

  /** Every state a run from `Idle` reaches has a pending timer whenever its buffer is non-empty. */
  lemma {:induction false} RunGuardsBuffer(c: Config, evs: seq<Event>)
    ensures TimerGuardsBuffer(Run(c, Idle, evs).final)
    decreases |evs|
  {
    if evs != [] {
      RunGuardsBuffer(c, evs[..|evs| - 1]);
    }
  }

  /**
   * Invariant of every run from `Idle`: the buffer is the concatenation of
   * the one-character keys received since the last reset (Enter, the timer
   * callback, or `clearBuffer`).
   */
  lemma {:induction false} BufferIsTypedSinceReset(c: Config, evs: seq<Event>)
    ensures Run(c, Idle, evs).final.buffer == Typed(SinceLastReset(evs))
    decreases |evs|
  {
    if evs != [] {
      var init := evs[..|evs| - 1];
      var e := evs[|evs| - 1];
      BufferIsTypedSinceReset(c, init);
      RunGuardsBuffer(c, init);
      if !Resets(e) {
        assert SinceLastReset(evs) == SinceLastReset(init) + [e];
        var t := SinceLastReset(init) + [e];
        assert t[..|t| - 1] == SinceLastReset(init);
      }
    }
  }

  /** Every run from `Idle` reports exactly the valid scans, in order. */
  lemma {:induction false} ReadsAreScans(c: Config, evs: seq<Event>)
    ensures Run(c, Idle, evs).reported == Scans(c, evs)
    decreases |evs|
  {
    if evs != [] {
      var init := evs[..|evs| - 1];
      ReadsAreScans(c, init);
      BufferIsTypedSinceReset(c, init);
    }
  }

  /** A run never reports a code outside the window, nor more codes than there were Enter keys. */
  lemma ReadsWithinWindow(c: Config, evs: seq<Event>)
    ensures forall i :: 0 <= i < |Run(c, Idle, evs).reported| ==> Accepts(c, Run(c, Idle, evs).reported[i])
    ensures |Run(c, Idle, evs).reported| <= CountEnters(evs)
  {
    ReadsAreScans(c, evs);
  }

  /**
   * Keystrokes that reset nothing only append: from any state, the old
   * buffer is kept as a prefix and the one-character keys follow it, and
   * nothing is reported.
   */
  lemma {:induction false} KeysOnlyAppend(c: Config, s: State, evs: seq<Event>)
    requires forall i :: 0 <= i < |evs| ==> evs[i].Key? && !Resets(evs[i])
    ensures Run(c, s, evs).final.buffer == s.buffer + Typed(evs)
    ensures Run(c, s, evs).reported == []
    ensures evs != [] ==> Run(c, s, evs).final.timer == Pending(evs[|evs| - 1].at + EffectiveDelay(c.timeoutDuration))
    decreases |evs|
  {
    if evs != [] {
      var init := evs[..|evs| - 1];
      var e := evs[|evs| - 1];
      KeysOnlyAppend(c, s, init);
      var prev := Run(c, s, init);
      var o := HandleKey(c, prev.final, e.key, e.at);
      assert Run(c, s, evs) == Trace(o.next, prev.reported + Logged(o.read));
      var piece := if Printable(e.key) then e.key else "";
      assert o.next.buffer == prev.final.buffer + piece;
      assert Typed(evs) == Typed(init) + piece;
      Associative(s.buffer, Typed(init), piece);
    }
  }

  /**
   * End to end: one-character keys followed by Enter report exactly their
   * concatenation, once, when its length is in the window, and nothing
   * otherwise; either way the recognizer ends `Idle`.
   */
  lemma ScanOfPrintableKeys(c: Config, keys: seq<Event>, at: int)
    requires forall i :: 0 <= i < |keys| ==> keys[i].Key? && Printable(keys[i].key)
    ensures Run(c, Idle, keys + [Key(Enter, at)]) ==
      Trace(Idle, if Accepts(c, Typed(keys)) then [Typed(keys)] else [])
  {
    assert |Enter| == 5;
    assert forall i :: 0 <= i < |keys| ==> !Resets(keys[i]);
    KeysOnlyAppend(c, Idle, keys);
    RunSnoc(c, Idle, keys, Key(Enter, at));
    var buffer := Run(c, Idle, keys).final.buffer;
    assert buffer == Typed(keys);
    assert Run(c, Idle, keys + [Key(Enter, at)]).reported == Logged(HandleKey(c, Run(c, Idle, keys).final, Enter, at).read);
  }

  /** `clearBuffer` is idempotent: calling it twice has the effect of calling it once. */
  lemma ResetIdempotent(c: Config, s: State, evs: seq<Event>)
    ensures Run(c, s, evs + [Reset, Reset]) == Run(c, s, evs + [Reset])
  {
    RunSnoc(c, s, evs, Reset);
    RunSnoc(c, s, evs + [Reset], Reset);
    assert evs + [Reset, Reset] == (evs + [Reset]) + [Reset];
  }

  /** The timer callback discards a partial scan: afterwards the buffer is empty and nothing new is reported. */
  lemma FireDiscards(c: Config, evs: seq<Event>)
    ensures Run(c, Idle, evs + [Fire]) == Trace(Idle, Run(c, Idle, evs).reported)
  {
    var r := Run(c, Idle, evs);
    RunGuardsBuffer(c, evs);
    assert Step(c, r.final, Fire) == Outcome(Idle, None);
    RunSnoc(c, Idle, evs, Fire);
    assert r.reported + Logged(None) == r.reported;
  }
}
