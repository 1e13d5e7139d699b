# gravity_game text entry, in Dafny

The game `gravity_game` has a typing mini-game. Each frame, the system
`text_input` in `src/main.rs` updates a line buffer that persists between
frames (a `Local<String>`). A frame brings three inputs: whether Return was
just pressed, whether Backspace was just pressed, and the characters received
since the last frame. If Return was pressed, the buffer as it stood is
compared with the word `"help"`, "correct" is printed on a match, and the
buffer is cleared in any case. Then Backspace pops the last character, if
there is one. Last, every received character that is not a Unicode control
character is appended, in arrival order.

The model is pure and functional:

- `chars.dfy` (module `Chars`): Rust's `char::is_control` as the Unicode Cc
  ranges U+0000–U+001F and U+007F–U+009F, and the filter `Printable` that
  keeps the other characters in order.
- `text_input.dfy` (module `TextInput`): the per-frame input `Frame`, the
  result `Step` (new buffer plus the "correct" signal), `Pop` (`String::pop`),
  the transition `Tick`, and `RunTextInput`, which performs the source's
  statements one at a time (including the character loop `AppendTyped`) and
  is proved to compute `Tick`.
- `session.dfy` (module `Session`): `Final` and `Signals` thread the buffer
  through a sequence of frames, starting from any buffer. The source starts from the
  empty buffer, `TextInput.Initial`. The lemmas cover properties that span
  several frames.

`src/main.rs` has one target word, `WORD1 = "help"` (line 11), and a match
only prints "correct" (line 139). The model reports this as the `correct`
flag of each frame.

## Model

| member | source | states |
|---|---|---|
| Chars.Printable | src/main.rs:146-150 | what is appended has no control characters, is no longer than what was typed, and is exactly what was typed when that had no control characters |
| Chars.PrintableAppend | src/main.rs:146-150 | the filter distributes over concatenation, so typed characters keep their arrival order however the stream is split |
| Chars.PrintableSingle | src/main.rs:147-148 | a single received character is kept exactly when it is not a control character |
| Chars.PrintableKeepsContents | src/main.rs:146-150 | every occurrence of a non-control character is kept and every control character is dropped (multiset count per character) |
| TextInput.Pop | src/main.rs:143-145 | on a non-empty buffer the result followed by the removed last character is the old buffer; on an empty buffer the result is empty |
| TextInput.PopPush | src/main.rs:143-148 | popping right after pushing a character gives back the buffer as it was |
| TextInput.Tick | src/main.rs:131-151 | "correct" holds exactly when Return was pressed and the old buffer is "help"; with Return the new buffer is just this frame's printable characters; otherwise it is the old buffer (minus its last character if Backspace was pressed and it was non-empty) followed by them |
| TextInput.AppendTyped | src/main.rs:146-150 | the character loop appends exactly the non-control characters, in order, after the buffer |
| TextInput.RunTextInput | src/main.rs:131-151 | the statement-by-statement system yields the same buffer and signal as `Tick`, and never lets a control character into a clean buffer |
| TextInput.NearMissesRejected | src/main.rs:136-140 | a proper prefix of "help" (such as "hel") or an extension of it (such as "helpx") does not report "correct" on Return |
| TextInput.TickPreservesNoControl | src/main.rs:147-148 | a buffer free of control characters stays free of them after any frame |
| TextInput.ReturnClears | src/main.rs:136-145 | with Return the buffer afterwards is only this frame's printable characters whether or not the word matched, and also pressing Backspace in that frame changes neither the buffer nor the signal |
| TextInput.TypingExtends | src/main.rs:136-150 | in a frame with neither key the old buffer is an unchanged prefix of the new one, which is at most the typed count longer |
| TextInput.BackspaceUndoesTyping | src/main.rs:143-150 | typing a printable character and pressing Backspace in the next frame restores the buffer; typing a control character leaves it unchanged |
| TextInput.BackspaceDropsLast | src/main.rs:143-145 | Backspace alone removes exactly the last character of a non-empty buffer and leaves an empty one empty |
| Session.Signals | src/main.rs:131-151 | a run reports exactly one signal per frame |
| Session.SignalsNeedReturn | src/main.rs:136-140 | across a run, a "correct" signal is raised only in a frame with Return pressed |
| Session.FinalNoControl | src/main.rs:147-148 | a buffer free of control characters stays so across any number of frames, so every buffer reached from the empty start is free of them |
| Session.FinalConcat | src/main.rs:134 | because the buffer persists between frames, running two stretches of frames one after the other leaves the same buffer as running their concatenation |
| Session.SignalsConcat | src/main.rs:134-140 | the signals of a concatenation are those of the first stretch followed by those of the second, run from where the first left off |
| Session.SignalAt | src/main.rs:136-140 | frame i reports "correct" exactly when it has Return and the buffer left by frames before it is "help" |
| Session.TypingOnlyRun | src/main.rs:146-150 | over frames without Return or Backspace the buffer grows by the printable part of everything typed, however it was split into frames, and nothing is reported |
| Session.TypeThenConfirm | src/main.rs:136-150 | from the empty buffer, typing across frames and then pressing Return reports "correct" exactly when the printable characters typed spell "help", and the buffer afterwards holds only that frame's characters |
| Session.HelpScenario | src/main.rs:136-150 | typing h, e, l, p one per frame then Return reports "correct" once, in the Return frame, and leaves the buffer empty |
| Session.PrefixScenario | src/main.rs:136-141 | typing "hel" then Return reports nothing and leaves the buffer empty |
| Session.BackspaceScenario | src/main.rs:143-150 | typing "abc" then Backspace leaves "ab" |

## Left out

- The Bevy app wiring, camera, sprite and asset spawning, and background rectangles (`src/main.rs:13-99`) are engine and rendering setup with no logic to state.
- The Rapier physics plugin (`src/main.rs:16`) is registered but never used. No bodies or colliders are created.
- The growth systems `enemy_approach`, `enemy_approach_left` and `enemy_approach_right` (`src/main.rs:102-128`) are left out. They are `f32` scale and translation arithmetic, and closed forms such as "scale after N frames is 1 + N times the rate" do not hold exactly under float rounding.
- The console output is left out. The "correct" line is modelled as the `correct` signal. The echo of the buffer on Return ("Text input: …") is not modelled.
- Key edge detection (`just_pressed`) and the character event queue (`EventReader`) are engine services. Each frame receives them as two booleans and a `string`.
