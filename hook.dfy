/**
 * The keystroke-buffering recognizer of the `useRFIDReader` hook.
 *
 * A card reader "types" its code followed by Enter. The hook keeps a buffer
 * of the characters typed so far and one inactivity timer that every
 * keystroke cancels and re-arms. On Enter the buffer is reported through
 * `onRead` when its length lies within `minLength..maxLength`, and the
 * buffer and timer are cleared either way.
 *
 * `HandleKey` states one keystroke as a function of the state before it;
 * the class `Reader.RFIDReader` is the hook itself, proved against it.
 */
module RFIDHook {

  datatype Option<T> = None | Some(value: T)

  /** The key value that ends a scan. */
  const Enter: string := "Enter"

  /** The numeric props of the hook. */
  datatype Config = Config(minLength: int, maxLength: int, timeoutDuration: int)

  /** The props' default values: codes of 8 to 12 characters, 500 ms of silence. */
  const Defaults: Config := Config(8, 12, 500)

  /**
   * The timer handle kept in `timeoutRef`: either no callback is pending
   * (never set, cancelled, or already run), or one is, due at `deadline` on
   * the clock that time-stamps keystrokes.
   */
  datatype Timer = NoTimer | Pending(deadline: int)

  /** The recognizer's mutable state: the buffer and the timer. */
  datatype State = State(buffer: string, timer: Timer)

  /** Empty buffer, no pending timer: the state after every reset. */
  const Idle: State := State("", NoTimer)

  /** What one keystroke does: the next state, and the code passed to `onRead`, if any. */
  datatype Outcome = Outcome(next: State, read: Option<string>)

  /** The length window a scanned code must fall in (both ends inclusive). */
  predicate Accepts(c: Config, code: string) {
    c.minLength <= |code| <= c.maxLength
  }

  /** A key value of exactly one character is appended; longer key names are not. */
  predicate Printable(key: string) {
    |key| == 1
  }

  /** A partial scan is never left without a timer that will discard it. */
  predicate TimerGuardsBuffer(s: State) {
    s.buffer != "" ==> s.timer.Pending?
  }

  /** The `onRead` calls made by one keystroke, as a log entry. */
  function Logged(read: Option<string>): seq<string> {
    if read.Some? then [read.value] else []
  }

  const Int32Limit: int := 0x8000_0000

  /**
   * The delay `setTimeout` actually waits for a requested delay of `ms`
   * milliseconds: the argument is converted to a 32-bit signed integer
   * (wrapping modulo 2^32), and a negative result counts as 0. Together
   * the last two clauses and the bound fix `d`: the residue of `ms` modulo
   * 2^32 when that residue is below 2^31, and 0 otherwise.
   */
  function EffectiveDelay(ms: int): (d: nat)
    ensures d < Int32Limit
    ensures 0 <= ms < Int32Limit ==> d == ms
    ensures -Int32Limit <= ms < 0 ==> d == 0
    ensures ms % (2 * Int32Limit) < Int32Limit ==> (ms - d) % (2 * Int32Limit) == 0
    ensures ms % (2 * Int32Limit) >= Int32Limit ==> d == 0
  {
    var wrapped := ms % (2 * Int32Limit);
    if wrapped < Int32Limit then wrapped else 0
  }

  /**
   * One keystroke, as `handleKeyDown` processes it at time `now`.
   * Enter reports the buffer exactly when its length is in the window and
   * returns to `Idle` either way; any other key reports nothing, leaves one
   * timer pending, due one delay after this keystroke, and appends the key
   * to the buffer when it is a single character.
   */
  function HandleKey(c: Config, s: State, key: string, now: int): (o: Outcome)
    ensures key == Enter ==> o.next == Idle
    ensures key == Enter ==> (o.read.Some? <==> Accepts(c, s.buffer))
    ensures o.read.Some? ==> key == Enter && o.read.value == s.buffer
    ensures key != Enter ==> o.next.timer == Pending(now + EffectiveDelay(c.timeoutDuration))
    ensures key != Enter ==> o.next.buffer == s.buffer + if Printable(key) then key else ""
    ensures TimerGuardsBuffer(o.next)
  {
    if key == Enter then
      Outcome(Idle, if Accepts(c, s.buffer) then Some(s.buffer) else None)
    else
      var buffer := if Printable(key) then s.buffer + key else s.buffer;
      Outcome(State(buffer, Pending(now + EffectiveDelay(c.timeoutDuration))), None)
  }
}
