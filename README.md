# RFID keystroke recognizer

A model of the `useRFIDReader` React hook. The hook turns the keystrokes of a
keyboard-emulating card reader into scanned codes. The reader "types" a code
and then Enter. The hook keeps two things:

- a buffer of the one-character keys received so far;
- one inactivity timer. Every keystroke cancels the timer and arms it again.
  When the timer fires, it discards the buffer.

On Enter the hook passes the buffer to `onRead` when its length lies in
`minLength..maxLength`, both ends included. It then clears the buffer and the
timer whether or not it reported anything. The defaults are 8, 12 and 500 ms,
and the hook is active by default.

The project has five modules:

- `RFIDHook` (`hook.dfy`) holds the state: a buffer and a timer that is
  either absent or pending until a deadline. It defines the delay `setTimeout`
  really waits (`EffectiveDelay`) and one keystroke as a function
  (`HandleKey`).
- `Reader` (`reader.dfy`) is the hook instance as the class `RFIDReader`. Its
  fields `buffer` and `timer` are updated in place, as the hook's refs are.
  The ghost field `emitted` logs the `onRead` calls, and the ghost field
  `history` logs the events seen so far. `HandleKeyDown` is proved against
  `HandleKey`. `ClearBuffer` and `TimerFire` are proved to reach the empty
  state with no timer. All the methods that change the fields keep an
  invariant that ties the fields to the event history.
- `Traces` (`traces.dfy`) runs sequences of events through the recognizer.
  An event is a keystroke, the timer callback, or an outside `clearBuffer`
  call. The module also gives reference definitions that never mention the
  timer: `Typed` (the one-character keys), `SinceLastReset` (the events after
  the last reset) and `Scans` (the codes a correct recognizer reports). The
  lemmas prove that the recognizer matches these definitions.
- `Timing` (`timing.dfy`) puts keystrokes on a clock. It assumes that a
  timer that has come due runs before the next keystroke is delivered. Two
  results follow. A
  burst whose gaps are all shorter than the delay behaves as the untimed run.
  A silence at least as long as the delay splits the input into two
  independent scans.
- `Scenarios` (`scenarios.dfy`) holds concrete runs, both with the default
  props and through the class.

## Model

| member | source | states |
|---|---|---|
| RFIDHook.EffectiveDelay | src/lib/hooks/useRFIDReader.ts:39-41 | The timer's delay is `timeoutDuration` whenever that is in 0..2^31-1. A negative 32-bit value gives 0. The delay is always below 2^31. Any other value is reduced modulo 2^32: the residue when it is below 2^31, and 0 otherwise. |
| RFIDHook.HandleKey | src/lib/hooks/useRFIDReader.ts:35-62 | Enter always returns to an empty buffer with no timer. It reports a code exactly when the buffer's length is in the window, and the code is the buffer itself. Any other key reports nothing. It leaves exactly one timer pending, due one delay after the keystroke. It appends the key when the key is one character, and otherwise leaves the buffer as it was. A non-empty buffer always has a pending timer. |
| Reader.RFIDReader.constructor | src/lib/hooks/useRFIDReader.ts:11-22 | The props take the given values, with defaults 8, 12, 500 and active. The buffer starts empty with no timer, and nothing has been reported. |
| Reader.RFIDReader.FocusInput | src/lib/hooks/useRFIDReader.ts:24-28 | Focus is requested if and only if the hook is active and the input element is mounted. |
| Reader.RFIDReader.SetActive | src/lib/hooks/useRFIDReader.ts:64-76 | Changing `active` leaves the buffer and the pending timer as they were, because the effect cleanup stops only the focus poll. The invariant is kept. |
| Reader.RFIDReader.ClearBuffer | src/lib/hooks/useRFIDReader.ts:30-33 | Afterwards the buffer is empty and no timer is pending. A second call changes nothing. The invariant is kept. |
| Reader.RFIDReader.TimerFire | src/lib/hooks/useRFIDReader.ts:39-41 | The timer callback empties the buffer, leaves no timer pending and reports nothing. The invariant is kept. |
| Reader.RFIDReader.HandleKeyDown | src/lib/hooks/useRFIDReader.ts:35-62 | The new buffer, the new timer and the reported code are exactly those `HandleKey` gives for the old state. At most one code is logged per keystroke. The invariant is kept. |
| Reader.RFIDReader.MatchesReference | src/lib/hooks/useRFIDReader.ts:43-59 | In every reachable state, the buffer is the one-character keys received since the last reset. A non-empty buffer has a pending timer. The codes reported so far are exactly the valid scans of the history. |
| Traces.Step | src/lib/hooks/useRFIDReader.ts:30-41 | The timer callback and `clearBuffer` never report a code. `clearBuffer` returns to the empty state. The callback of a pending timer does so too. Every event keeps "a non-empty buffer has a pending timer". |
| Traces.Scans | src/lib/hooks/useRFIDReader.ts:43-51 | Every reference code lies in the length window. There are no more codes than Enter keys. |
| Traces.SinceLastResetIsLastSegment | src/lib/hooks/useRFIDReader.ts:30-33 | The events after the last reset form a suffix of the history that contains no reset. The suffix is either the whole history or is preceded by a reset (Enter, the timer callback or `clearBuffer`). |
| Traces.RunGuardsBuffer | src/lib/hooks/useRFIDReader.ts:37-41 | Every state reachable from the empty state has a pending timer whenever its buffer is non-empty. |
| Traces.BufferIsTypedSinceReset | src/lib/hooks/useRFIDReader.ts:44-59 | After any run from the empty state, the buffer is the in-order concatenation of the one-character keys received since the last reset. |
| Traces.ReadsAreScans | src/lib/hooks/useRFIDReader.ts:43-53 | After any run from the empty state, the codes passed to `onRead` are exactly the reference scans, in order. |
| Traces.ReadsWithinWindow | src/lib/hooks/useRFIDReader.ts:46-51 | No run ever reports a code outside the length window. No run reports more codes than there were Enter keys. |
| Traces.KeysOnlyAppend | src/lib/hooks/useRFIDReader.ts:57-59 | Keys other than Enter only append. From any state, the old buffer stays as a prefix and the one-character keys follow it in order. Nothing is reported. The only pending timer is due one delay after the last key. |
| Traces.ScanOfPrintableKeys | src/lib/hooks/useRFIDReader.ts:43-53 | One-character keys followed by Enter report their concatenation once when its length is in the window, and nothing otherwise. The recognizer ends empty with no timer. |
| Traces.ResetIdempotent | src/lib/hooks/useRFIDReader.ts:30-33 | Calling `clearBuffer` twice has the same effect as calling it once. |
| Traces.FireDiscards | src/lib/hooks/useRFIDReader.ts:39-41 | After the timer callback, the buffer is empty, no timer is pending, and nothing new has been reported. |
| Timing.LastStrokeSetsTimer | src/lib/hooks/useRFIDReader.ts:37-41 | After a replay ending in Enter the recognizer is empty with no timer. After any other last key, exactly one timer is pending, due one delay after that key. |
| Timing.ReplayWithoutTimeouts | src/lib/hooks/useRFIDReader.ts:37-41 | Suppose every keystroke comes less than one delay after the previous one. Then the timed replay equals the untimed run of the same keys. |
| Timing.GapSplitsScans | src/lib/hooks/useRFIDReader.ts:39-41 | Suppose there is a silence of at least one delay. Then the strokes after it behave exactly as they would from the empty state, and the reported codes are those of each part, in order. |
| Timing.BurstIsOneScan | src/lib/hooks/useRFIDReader.ts:35-59 | Take a burst of one-character keys, then Enter, with every gap shorter than the delay. It reports the burst's concatenation once when its length is in the window, and nothing otherwise. |
| Timing.NoEnterNoReports | src/lib/hooks/useRFIDReader.ts:43-51 | Keystrokes without Enter never call `onRead`. |
| Timing.AbandonedScan | src/lib/hooks/useRFIDReader.ts:39-41 | Keys followed by a pause of at least one delay and then Enter report nothing. The exception is a window that admits the empty code, in which case the empty code is reported. |
| Scenarios.DefaultsReportEightCharacterScan | src/lib/hooks/useRFIDReader.ts:13-15 | With the defaults, "A1B2C3D4" typed 50 ms apart and then Enter is reported once. |
| Scenarios.DefaultsDropFourCharacterScan | src/lib/hooks/useRFIDReader.ts:46-49 | With the defaults, a four-character code is rejected on Enter and nothing is reported. |
| Scenarios.DefaultsDropScanAfterPause | src/lib/hooks/useRFIDReader.ts:39-41 | With the defaults, a 600 ms pause before Enter lets the timer discard the code, so nothing is reported. |
| Scenarios.ReaderReportsScan | src/lib/hooks/useRFIDReader.ts:57-59 | Through the class with a 2..4 window, "A", "1", "Shift", "B" and then Enter reports "A1B". The modifier key adds nothing. |
| Scenarios.ReaderDropsShortScan | src/lib/hooks/useRFIDReader.ts:43-53 | Through the class with default props, a four-character scan reports nothing and leaves the buffer empty. |
| Scenarios.ReaderDropsAbandonedScan | src/lib/hooks/useRFIDReader.ts:39-41 | Through the class, the timer callback after an abandoned scan means the later Enter reports nothing. |
| Scenarios.ReaderKeepsBufferWhenDeactivated | src/lib/hooks/useRFIDReader.ts:64-76 | Deactivating the hook mid-scan keeps the partial code, and `handleKeyDown` is not gated by `active`, so the scan still completes. |

Deactivating the hook does not clear the buffer or cancel the timer. The
effect cleanup at src/lib/hooks/useRFIDReader.ts:74 only stops the focus
poll, and `handleKeyDown` does not consult `active`. `SetActive` and
`ReaderKeepsBufferWhenDeactivated` state this.

## Left out

- React's lifecycle is not modelled: `useRef`, `useCallback` dependency arrays and re-renders. The props are fixed when the reader is constructed. A re-render with new numeric props is not modelled; `active` is the only prop that changes, through `SetActive`.
- The focus supervisor's `setInterval` poll and `document.activeElement` (lines 64-76) are DOM plumbing. Only the guard in `focusInput` is modelled, with "the input is mounted" as a parameter.
- Real `setTimeout`, `clearTimeout` and the clock are not modelled. A timer is a deadline on an abstract millisecond clock, and keystroke times are parameters. The callback is an explicit `TimerFire` method or `Fire` event. In `Timing`, a callback due at or before a keystroke's time is assumed to run before that keystroke; a browser only promises that a timer waits at least its delay.
- `onRead` is a ghost log (`emitted`) plus the code that `HandleKeyDown` returns. What the callback itself does belongs to its caller and is not part of this model. The callback is assumed to return normally. If it throws, the `clearBuffer` call on line 53 is skipped, so the buffer and the fresh timer survive and an Enter within the delay would report the same code again; the model does not capture this.
- EffectiveDelay: fractional, NaN and infinite delays are not modelled, because the props are integers here. The browsers' minimum-delay clamp for nested timers is not modelled either.
- Props are plain integers. A fractional `minLength` or `maxLength` is not modelled.
- A key counts as printable when it is one Dafny character. JavaScript's `length` counts UTF-16 code units, so a key outside the Basic Multilingual Plane counts as 2 there and 1 here.
- src/App.tsx and src/lib/components/modal/rfid-validate-modal.tsx are presentation only and are not part of this model.
