# Typewriter text of the portfolio site, in Dafny

The portfolio is a single-page React site. Its one piece of stateful logic is
the `TypewriterText` component (`src/App.tsx:20-46`): given a list of phrases it
types the current phrase one character per 100 ms tick, waits 2000 ms, deletes
it one character per 50 ms tick, and moves on to the next phrase, wrapping
round to the first forever.

This project models that state machine and proves what it does.

- `jsstring.dfy`, module `JsString`: the part of JavaScript's
  `String.prototype.substring` the component relies on. Both index arguments
  are clamped into `[0, length]` and swapped when out of order.
  `SubstringFromZero` is the `substring(0, k)` form, the only form the component
  calls.
- `typewriter.dfy`, module `Typewriter`:
  - the state (`index`, `text`, `mode`) and `Step`, the state after the one
    pending timer fires;
  - `Run` and `Elapsed`, the state and the time after k timers;
  - lemmas about single ticks, whole typing and deleting runs, one full cycle,
    k cycles, and the return to the initial state;
  - the class `TypewriterText`, whose fields are the component's state cells and
    whose methods `Tick` and `PauseElapsed` overwrite them as the timer callbacks
    do.

`Mode` merges the source's `isDeleting` flag with the pending 2000 ms pause:
`Typing` and `Deleting` are the two values of `isDeleting`, and `Pausing` means
"not deleting, and the pause timer is armed". The typing tick that arms the
pause sets the text to the value it already has. React then does not re-render,
so no further tick is scheduled until the pause fires. `Tick` therefore requires
`mode != Pausing`, and `PauseElapsed` requires `mode == Pausing`.

Both decisions in a tick look at the text as it was BEFORE the tick, and the
model keeps that order. The typing tick that finds the phrase complete arms the
pause, and that tick changes nothing, because `substring` clamps the end to the
length. The deleting tick that finds the text empty moves to the next phrase,
and it too leaves `""` as `""`, because a negative end clamps to 0. So a phrase
of length L takes L + 1 typing ticks, the pause, and L + 1 deleting ticks:
2L + 3 timers and `150 * (L + 1) + 2000` ms (`CycleFrom`). A reading in which
the pause starts on the tick that completes the phrase, and the index moves on
the tick that empties the text, is not what the code does. `HiYoTrace` shows the
code's own trace for the list `["Hi", "Yo"]`: the pause is armed by tick 3, not
tick 2, and index 1 is reached after 7 timers.

The phrase list must be non-empty (`requires 0 < |texts|`). With an empty list
`texts[0]` is `undefined` and the first tick throws. The only caller passes a
four-element literal (`src/App.tsx:136-141`). The `%` of
`(currentIndex + 1) % texts.length` has non-negative operands, so Dafny's
Euclidean `%` agrees with JavaScript's.

## Model

| member | source | states |
|---|---|---|
| JsString.ClampIndex | src/App.tsx:29 | a substring index lies in `[0, len]`: a negative index becomes 0, one above the length becomes the length, and one in range is unchanged |
| JsString.Substring | src/App.tsx:29 | `substring(start, end)` is the slice between the indices, in either order, and is never longer than the string; with a start at or below 0 an end at or below 0 gives `""` (the `substring(0, -1)` of a deleting tick on `""`), an end at or beyond the length gives the whole string (the `substring(0, L + 1)` of a typing tick on the full phrase), and an end in range gives the prefix up to it |
| JsString.SubstringFromZeroIsPrefix | src/App.tsx:29 | `substring(0, k)` is a prefix of the string: all of it for `k >= length`, empty for `k <= 0`, the first k characters in between |
| JsString.SubstringFromZeroAgrees | src/App.tsx:35 | the `substring(0, k)` form used by the model is the general `substring` with start 0 |
| Typewriter.Initial | src/App.tsx:21-23 | the mounted state (index 0, `""`, typing) is consistent for the non-empty phrase list it is mounted with |
| Typewriter.PendingDelay | src/App.tsx:37-40 | the pending timer waits 50 ms exactly while deleting, 100 ms exactly while typing, 2000 ms exactly while pausing |
| Typewriter.Step | src/App.tsx:26-40 | the index stays in `[0, n)`, and it changes only on a deleting tick that starts from the empty text |
| Typewriter.StepPreservesConsistent | src/App.tsx:26-37 | every step keeps the text a prefix of the current phrase, and a pause only follows a full phrase |
| Typewriter.TypingTickAppendsNext | src/App.tsx:35 | a typing tick on a text shorter than the phrase appends exactly the phrase's next character and keeps typing |
| Typewriter.TypingTickOnFullPhraseArmsPause | src/App.tsx:35-37 | a typing tick on the full phrase keeps text and index and only arms the pause |
| Typewriter.DeletingTickRemovesLast | src/App.tsx:29 | a deleting tick on a non-empty text removes exactly its last character |
| Typewriter.DeletingTickOnEmptyAdvances | src/App.tsx:29-33 | a deleting tick on the empty text keeps it empty, stops deleting, and moves the index to `(index + 1) mod n` |
| Typewriter.ModeChanges | src/App.tsx:28-37 | deleting stops exactly when a deleting tick starts from `""`; a typing tick never starts deleting or moves the index; pause completion only switches deleting on |
| Typewriter.Run | src/App.tsx:27-43 | after any number of timers the index is still in `[0, n)` |
| Typewriter.Elapsed | src/App.tsx:37-40 | k timers take between 50 ms and 2000 ms each, that is between `50 * k` and `2000 * k` ms in total |
| Typewriter.RunPreservesConsistent | src/App.tsx:21-37 | from a consistent state every reachable state is consistent (index in range, text a prefix of the current phrase) |
| Typewriter.RunAdditive | src/App.tsx:27-43 | a + b timers are a timers followed by b timers, in state and in elapsed time |
| Typewriter.TypingRun | src/App.tsx:35-40 | k typing ticks from a typed prefix of length j show the first j + k characters and take 100 ms each |
| Typewriter.DeletingRun | src/App.tsx:29-40 | k deleting ticks from a prefix of length j show the first j - k characters and take 50 ms each |
| Typewriter.TypeAndPause | src/App.tsx:35-40 | from `(i, "", Typing)`, L + 1 typing ticks and the pause give `(i, phrase, Deleting)` in `100 * (L + 1) + 2000` ms |
| Typewriter.DeleteAndAdvance | src/App.tsx:29-40 | from `(i, phrase, Deleting)`, L + 1 deleting ticks give `((i + 1) mod n, "", Typing)` in `50 * (L + 1)` ms |
| Typewriter.CycleFrom | src/App.tsx:26-40 | one cycle (L + 1 typing ticks, the pause, L + 1 deleting ticks) goes from `(i, "", Typing)` to `((i + 1) mod n, "", Typing)` and takes `150 * (L + 1) + 2000` ms |
| Typewriter.IndexAfter | src/App.tsx:32 | applying `(index + 1) % n` any number of times keeps the index in `[0, n)` |
| Typewriter.IndexAfterIsMod | src/App.tsx:32 | moving on k phrases from phrase i lands on phrase `(i + k) mod n` |
| Typewriter.Cycles | src/App.tsx:26-40 | k consecutive cycles from `(i, "", Typing)` end with an empty text, typing, at the phrase k places further on |
| Typewriter.CyclesFromInitial | src/App.tsx:21-40 | after k full cycles from the initial state the text is `""`, the mode typing and the index `k mod n` |
| Typewriter.RoundTripToInitial | src/App.tsx:21-40 | one cycle per phrase brings the widget back exactly to its initial state |
| Typewriter.HiYoTrace | src/App.tsx:26-40 | for `["Hi", "Yo"]`: "Hi" after 2 ticks, pause armed after 3, deleting after 4, `""` after 6, phrase 1 after 7, "Yo" after 9 |
| Typewriter.TypewriterText.constructor | src/App.tsx:21-23 | a mounted widget starts at index 0, empty text, typing (the state `Initial`), in a consistent state |
| Typewriter.TypewriterText.Tick | src/App.tsx:27-40 | a tick overwrites the state cells with `Step` of the old state, keeps the object invariant, and moves the index only from an empty deleting text |
| Typewriter.TypewriterText.PauseElapsed | src/App.tsx:37 | the pause callback switches deleting on and leaves text and index unchanged |

## Left out

- Timers as real time: `setTimeout`, `clearTimeout` and the effect cleanup (`src/App.tsx:27`, `src/App.tsx:42`). Ticks and the end of the pause are abstract events, one pending at a time; delays are stated as numbers (`PendingDelay`, `Elapsed`).
- The 2000 ms pause timer is never cleared and can fire after unmount. This is timing and concurrency, and the model has no unmount.
- React scheduling. The phrase array literal is a new reference on every render of `App`, for example on each scroll update. Such a render re-runs the effect and can schedule an extra tick while the pause is pending. That tick again finds the text equal to the full phrase and arms a second 2000 ms pause (`src/App.tsx:36-37`). Neither pause timer is cleared, so the second `setIsDeleting(true)` can fire after the first pause has run, the phrase has been deleted and the next phrase has started typing; it then switches to deleting part-way through that phrase. The model has one pending timer at a time, so it does not have these extra pauses. State-equality bail-outs are only reflected in the `Pausing` mode.
- An empty phrase list, on which the first tick throws: the constructor requires a non-empty list.
- UTF-16 code units: strings are `seq<char>`, which matches the ASCII phrases used.
- Rendering: the `<span>` with the text and the blinking cursor (`src/App.tsx:45`), `SkillCard`, `ProjectCard` and the `App` markup carry no logic.
- `scrollToSection` and the `scrollY` listener (`src/App.tsx:104-114`): browser DOM and event I/O.
