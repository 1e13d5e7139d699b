/**
 The line-entry state machine run once per frame: the buffer persists across
 frames, and each frame brings the Return and Backspace edges and the
 characters typed since the previous frame.
 */
module TextInput {
  import opened Chars

  /** The only word the game accepts. */
  const Word1: string := "help"

  /** The buffer before any frame has run (an empty `String`). */
  const Initial: string := ""

  /** One frame's input: whether Return and Backspace were just pressed, and
      the characters received, in arrival order. */
  datatype Frame = Frame(returnPressed: bool, backPressed: bool, typed: string)

  /** One frame's result: the new buffer, and whether "correct" was reported. */
  datatype Step = Step(buffer: string, correct: bool)

  /** A frame in which only characters arrive. */
  function TypeOnly(typed: string): Frame {
    Frame(false, false, typed)
  }

  /** A frame in which only Backspace is pressed. */
  const BackOnly: Frame := Frame(false, true, [])

  /** A frame in which only Return is pressed. */
  const ReturnOnly: Frame := Frame(true, false, [])

  /** `String::pop` with its result discarded: the last character goes,
      and an empty buffer stays empty. */
  function Pop(buf: string): (r: string)
    ensures |buf| > 0 ==> r + [buf[|buf| - 1]] == buf
    ensures buf == [] ==> r == []
  {
    if buf == [] then [] else buf[..|buf| - 1]
  }

  /** Backspace undoes the push of one character. */
  lemma PopPush(buf: string, c: char)
    ensures Pop(buf + [c]) == buf
  {
  }

  /** One frame of the text-entry system. Return is judged against the
      buffer as it stood before this frame and then clears it; Backspace acts
      on what is left; the typed characters that are not control characters
      are appended last. */
  function Tick(buf: string, f: Frame): (r: Step)
    ensures r.correct <==> f.returnPressed && buf == Word1
    ensures f.returnPressed ==> r.buffer == Printable(f.typed)
    ensures !f.returnPressed && !f.backPressed ==> r.buffer == buf + Printable(f.typed)
    ensures !f.returnPressed && f.backPressed && |buf| > 0 ==>
              r.buffer == buf[..|buf| - 1] + Printable(f.typed)
    ensures !f.returnPressed && f.backPressed && buf == [] ==> r.buffer == Printable(f.typed)
  {
    var cleared := if f.returnPressed then [] else buf;
    var keyed := if f.backPressed then Pop(cleared) else cleared;
    Step(keyed + Printable(f.typed), f.returnPressed && buf == Word1)
  }

  /** The loop over received characters, one push at a time. */
  method AppendTyped(buf: string, typed: string) returns (out: string)
    ensures out == buf + Printable(typed)
  {
    out := buf;
    var i := 0;
    while i < |typed|
      invariant 0 <= i <= |typed|
      invariant out == buf + Printable(typed[..i])
    {
      var c := typed[i];
      PushStep(typed, i);
      if !IsControl(c) {
        out := out + [c];
      }
      i := i + 1;
    }
    assert typed[..i] == typed;
  }

  /** One more character of the stream passes the filter exactly when it
      is not a control character. */
  lemma PushStep(typed: string, i: nat)
    requires i < |typed|
    ensures Printable(typed[..i + 1]) ==
              Printable(typed[..i]) + (if IsControl(typed[i]) then [] else [typed[i]])
  {
    assert typed[..i + 1] == typed[..i] + [typed[i]];
    PrintableAppend(typed[..i], [typed[i]]);
    PrintableSingle(typed[i]);
  }

  /** The system as the frame loop runs it, statement by statement; it
      computes exactly what `Tick` describes. */
  method RunTextInput(buf: string, f: Frame) returns (out: string, correct: bool)
    ensures Step(out, correct) == Tick(buf, f)
    ensures NoControl(buf) ==> NoControl(out)
  {
    out := buf;
    correct := false;
    if f.returnPressed {
      if out == Word1 {
        correct := true;
      }
      out := [];
    }
    if f.backPressed {
      out := Pop(out);
    }
    out := AppendTyped(out, f.typed);
  }

  /** On Return the verdict depends only on the buffer as it stood: a
      proper prefix of the word, or the word followed by anything more, is
      not a match. */
  lemma NearMissesRejected(buf: string, typed: string)
    requires buf < Word1 || Word1 < buf
    ensures !Tick(buf, Frame(true, false, typed)).correct
    ensures !Tick(buf, Frame(true, true, typed)).correct
  {
  }

  /** No control character ever enters the buffer. */
  lemma TickPreservesNoControl(buf: string, f: Frame)
    requires NoControl(buf)
    ensures NoControl(Tick(buf, f).buffer)
  {
  }

  /** Return clears the buffer whether or not the word matched, so after the
      frame only what was typed in that frame remains; Backspace pressed in
      the same frame changes nothing. */
  lemma ReturnClears(buf: string, f: Frame)
    requires f.returnPressed
    ensures Tick(buf, f).buffer == Printable(f.typed)
    ensures Tick(buf, f).buffer == Tick(buf, f.(backPressed := !f.backPressed)).buffer
    ensures Tick(buf, f).correct == Tick(buf, f.(backPressed := !f.backPressed)).correct
  {
  }

  /** In a frame with neither key the old buffer is an unchanged prefix of
      the new one. */
  lemma TypingExtends(buf: string, typed: string)
    ensures buf <= Tick(buf, TypeOnly(typed)).buffer
    ensures |Tick(buf, TypeOnly(typed)).buffer| <= |buf| + |typed|
    ensures forall i :: 0 <= i < |buf| ==> Tick(buf, TypeOnly(typed)).buffer[i] == buf[i]
  {
  }

  /** Typing one printable character and then pressing Backspace in the next
      frame restores the buffer; typing a control character changes
      nothing. */
  lemma BackspaceUndoesTyping(buf: string, c: char)
    ensures !IsControl(c) ==> Tick(Tick(buf, TypeOnly([c])).buffer, BackOnly).buffer == buf
    ensures IsControl(c) ==> Tick(buf, TypeOnly([c])).buffer == buf
  {
  }

  /** Backspace on a non-empty buffer drops exactly its last character. */
  lemma BackspaceDropsLast(buf: string)
    ensures |buf| > 0 ==> Tick(buf, BackOnly).buffer + [buf[|buf| - 1]] == buf
    ensures buf == [] ==> Tick(buf, BackOnly).buffer == []
  {
  }
}
