/**
 * The hook instance as an object. `buffer` and `timer` are the two refs
 * that `handleKeyDown`, the timer callback and `clearBuffer` update in
 * place; `emitted` logs the codes passed to `onRead`, and `history` the
 * events seen so far. The invariant `Valid` ties the fields to the run of
 * that history, so every method can state the buffer and the reported
 * codes in terms of `Typed`, `SinceLastReset` and `Scans`.
 */
module Reader {
  import opened RFIDHook
  import opened Traces

  class RFIDReader {
    const config: Config
    var active: bool
    var buffer: string
    var timer: Timer
    ghost var emitted: seq<string>
    ghost var history: seq<Event>

    function Snapshot(): State
      reads this
    {
      State(buffer, timer)
    }

    ghost predicate Valid()
      reads this
    {
      Run(config, Idle, history) == Trace(Snapshot(), emitted)
    }

    /**
     * What `Valid` guarantees at any moment: the buffer holds the
     * one-character keys received since the last reset, a non-empty buffer
     * has a pending timer, and the codes reported so far are exactly the
     * valid scans of the history.
     */
    lemma MatchesReference()
      requires Valid()
      ensures buffer == Typed(SinceLastReset(history))
      ensures TimerGuardsBuffer(Snapshot())
      ensures emitted == Scans(config, history)
    {
      BufferIsTypedSinceReset(config, history);
      RunGuardsBuffer(config, history);
      ReadsAreScans(config, history);
    }

    /** The hook's first render: props (with their defaults), an empty buffer, no timer. */
    constructor (minLength: int := 8, maxLength: int := 12, timeoutDuration: int := 500, active: bool := true)
      ensures Valid()
      ensures config == Config(minLength, maxLength, timeoutDuration) && this.active == active
      ensures Snapshot() == Idle && emitted == [] && history == []
    {
      config := Config(minLength, maxLength, timeoutDuration);
      this.active := active;
      buffer := "";
      timer := NoTimer;
      emitted := [];
      history := [];
    }

    /** Focus is requested exactly when the hook is active and the input element exists. */
    method FocusInput(mounted: bool) returns (requested: bool)
      ensures requested <==> active && mounted
    {
      requested := false;
      if active && mounted {
        requested := true;
      }
    }

    /**
     * A re-render with a new `active` prop. The effect cleanup stops only the
     * focus poll: the buffer and the pending timer are kept.
     */
    method SetActive(a: bool)
      modifies this`active
      ensures active == a
      ensures Snapshot() == old(Snapshot())
      ensures old(Valid()) ==> Valid()
    {
      active := a;
    }

    /**
     * Empties the buffer and cancels the pending timer, whatever the state;
     * a second call changes nothing. Counted as a `Reset` event.
     */
    method ClearBuffer()
      modifies this`buffer, this`timer, this`history
      ensures Snapshot() == Idle
      ensures old(Snapshot()) == Idle ==> Snapshot() == old(Snapshot())
      ensures history == old(history) + [Reset]
      ensures old(Valid()) ==> Valid()
    {
      buffer := "";
      if timer.Pending? {
        timer := NoTimer;
      }
      history := history + [Reset];
      RunSnoc(config, Idle, old(history), Reset);
    }

    /**
     * The inactivity timer's callback: it runs only while a timer is pending,
     * and discards the partial scan without reporting it.
     */
    method TimerFire()
      requires Valid() && timer.Pending?
      modifies this`buffer, this`timer, this`history
      ensures Valid()
      ensures Snapshot() == Idle && emitted == old(emitted)
      ensures history == old(history) + [Fire]
    {
      ClearBuffer();
      history := old(history) + [Fire];
      RunSnoc(config, Idle, old(history), Fire);
    }

    /**
     * `handleKeyDown`: cancel and re-arm the timer; on Enter report the
     * buffer if its length is in the window, then clear; otherwise append a
     * one-character key. `read` is the code passed to `onRead`, if any.
     */
    method HandleKeyDown(key: string, now: int) returns (read: Option<string>)
      requires Valid()
      modifies this`buffer, this`timer, this`emitted, this`history
      ensures Valid()
      ensures Outcome(Snapshot(), read) == HandleKey(config, old(Snapshot()), key, now)
      ensures emitted == old(emitted) + Logged(read)
      ensures history == old(history) + [Key(key, now)]
    {
      ghost var before, h := Snapshot(), history;
      ghost var o := HandleKey(config, before, key, now);

      if timer.Pending? {
        timer := NoTimer;
      }
      timer := Pending(now + EffectiveDelay(config.timeoutDuration));
      read := None;

      if key == Enter {
        var scannedCode := buffer;
        if config.minLength <= |scannedCode| && |scannedCode| <= config.maxLength {
          read := Some(scannedCode);
          emitted := emitted + [scannedCode];
        }
        ClearBuffer();
      } else if |key| == 1 {
        buffer := buffer + key;
      }
      assert Snapshot() == o.next && read == o.read;

      assert emitted == old(emitted) + Logged(o.read);
      history := h + [Key(key, now)];
      assert Step(config, before, Key(key, now)) == o;
      RunSnoc(config, Idle, h, Key(key, now));
    }
  }
}
