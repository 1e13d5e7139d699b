/**
 Many frames of the text-entry system in a row: the buffer threads from one
 frame to the next, and each frame contributes one "correct" signal.
 */
module Session {
  import opened Chars
  import opened TextInput

  /** The buffer left after running `frames` in order from `buf`. */
  function Final(buf: string, frames: seq<Frame>): string
    decreases |frames|
  {
    if frames == [] then buf else Final(Tick(buf, frames[0]).buffer, frames[1..])
  }

  /** The "correct" signal of each frame when running `frames` from `buf`. */
  function Signals(buf: string, frames: seq<Frame>): (r: seq<bool>)
    ensures |r| == |frames|
    decreases |frames|
  {
    if frames == [] then []
    else [Tick(buf, frames[0]).correct] + Signals(Tick(buf, frames[0]).buffer, frames[1..])
  }

  /** Everything typed during `frames`, control characters included. */
  function AllTyped(frames: seq<Frame>): string {
    if frames == [] then [] else frames[0].typed + AllTyped(frames[1..])
  }

  /** A frame with neither Return nor Backspace. */
  predicate TypingOnly(f: Frame) {
    !f.returnPressed && !f.backPressed
  }

  /** A signal is raised only in a frame with Return pressed. */
  lemma {:induction false} SignalsNeedReturn(buf: string, frames: seq<Frame>)
    ensures forall i :: 0 <= i < |frames| && Signals(buf, frames)[i] ==> frames[i].returnPressed
    decreases |frames|
  {
    if frames != [] {
      var next := Tick(buf, frames[0]).buffer;
      SignalsNeedReturn(next, frames[1..]);
      var rest := Signals(next, frames[1..]);
      forall i | 0 < i < |frames| && Signals(buf, frames)[i]
        ensures frames[i].returnPressed
      {
        assert rest[i - 1] == Signals(buf, frames)[i];
        assert frames[1..][i - 1] == frames[i];
      }
    }
  }

  /** A buffer free of control characters stays free of them over any
      number of frames; in particular every buffer reached from the initial
      empty one is. */
  lemma {:induction false} FinalNoControl(buf: string, frames: seq<Frame>)
    requires NoControl(buf)
    ensures NoControl(Final(buf, frames))
    decreases |frames|
  {
    if frames != [] {
      TickPreservesNoControl(buf, frames[0]);
      FinalNoControl(Tick(buf, frames[0]).buffer, frames[1..]);
    }
  }

  /** Because the buffer persists between frames, running two stretches of
      frames one after the other leaves the same buffer as running their
      concatenation. */
  lemma {:induction false} FinalConcat(buf: string, f: seq<Frame>, g: seq<Frame>)
    ensures Final(buf, f + g) == Final(Final(buf, f), g)
    decreases |f|
  {
    if f == [] {
      assert f + g == g;
    } else {
      assert (f + g)[0] == f[0];
      assert (f + g)[1..] == f[1..] + g;
      FinalConcat(Tick(buf, f[0]).buffer, f[1..], g);
    }
  }

  /** The signals of a concatenation are those of the first stretch followed
      by those of the second, run from where the first left off. */
  lemma {:induction false} SignalsConcat(buf: string, f: seq<Frame>, g: seq<Frame>)
    ensures Signals(buf, f + g) == Signals(buf, f) + Signals(Final(buf, f), g)
    decreases |f|
  {
    if f == [] {
      assert f + g == g;
    } else {
      var step := Tick(buf, f[0]);
      assert (f + g)[0] == f[0];
      assert (f + g)[1..] == f[1..] + g;
      SignalsConcat(step.buffer, f[1..], g);
      var head := Signals(step.buffer, f[1..]);
      var second := Signals(Final(step.buffer, f[1..]), g);
      assert [step.correct] + (head + second) == ([step.correct] + head) + second;
    }
  }

  /** Frame `i` reports "correct" exactly when it has Return pressed and the
      buffer left by the frames before it is the word. */
  lemma {:induction false} SignalAt(buf: string, frames: seq<Frame>, i: nat)
    requires i < |frames|
    ensures Signals(buf, frames)[i] <==>
              frames[i].returnPressed && Final(buf, frames[..i]) == Word1
    decreases i
  {
    if i > 0 {
      var next := Tick(buf, frames[0]).buffer;
      SignalAt(next, frames[1..], i - 1);
      assert frames[..i][0] == frames[0];
      assert frames[..i][1..] == frames[1..][..i - 1];
    }
  }

  /** Over frames without Return or Backspace, the buffer grows by the
      printable part of everything typed, however it was split into frames,
      and no frame reports "correct". */
  lemma {:induction false} TypingOnlyRun(buf: string, frames: seq<Frame>)
    requires forall i :: 0 <= i < |frames| ==> TypingOnly(frames[i])
    ensures Final(buf, frames) == buf + Printable(AllTyped(frames))
    ensures forall i :: 0 <= i < |frames| ==> !Signals(buf, frames)[i]
    decreases |frames|
  {
    if frames != [] {
      var f := frames[0];
      assert TypingOnly(f);
      TypingOnlyRun(buf + Printable(f.typed), frames[1..]);
      PrintableAppend(f.typed, AllTyped(frames[1..]));
    }
  }

  /** From the initial empty buffer, typing over any number of frames and
      then pressing Return reports "correct" in the Return frame exactly when
      the printable characters typed spell the word; either way the buffer
      afterwards holds only what arrived in the Return frame. */
  lemma TypeThenConfirm(frames: seq<Frame>, last: Frame)
    requires forall i :: 0 <= i < |frames| ==> TypingOnly(frames[i])
    requires last.returnPressed
    ensures Signals(Initial, frames + [last])[|frames|] <==> Printable(AllTyped(frames)) == Word1
    ensures forall i :: 0 <= i < |frames| ==> !Signals(Initial, frames + [last])[i]
    ensures Final(Initial, frames + [last]) == Printable(last.typed)
  {
    TypingOnlyRun(Initial, frames);
    FinalConcat(Initial, frames, [last]);
    SignalsConcat(Initial, frames, [last]);
    var typedSoFar := Final(Initial, frames);
    assert typedSoFar == Printable(AllTyped(frames));
    assert Signals(typedSoFar, [last]) == [Tick(typedSoFar, last).correct];
    assert Final(typedSoFar, [last]) == Tick(typedSoFar, last).buffer;
  }

  /** Typing h, e, l, p one per frame and then pressing Return reports
      "correct" once, in the Return frame, and leaves the buffer empty. */
  lemma HelpScenario()
    ensures Signals(Initial, [TypeOnly("h"), TypeOnly("e"), TypeOnly("l"), TypeOnly("p"), ReturnOnly])
            == [false, false, false, false, true]
    ensures Final(Initial, [TypeOnly("h"), TypeOnly("e"), TypeOnly("l"), TypeOnly("p"), ReturnOnly]) == ""
  {
    var frames := [TypeOnly("h"), TypeOnly("e"), TypeOnly("l"), TypeOnly("p")];
    assert AllTyped(frames) == "help";
    TypeThenConfirm(frames, ReturnOnly);
    assert frames + [ReturnOnly] ==
           [TypeOnly("h"), TypeOnly("e"), TypeOnly("l"), TypeOnly("p"), ReturnOnly];
  }

  /** Typing "hel" and pressing Return reports nothing and leaves the buffer
      empty. */
  lemma PrefixScenario()
    ensures Signals(Initial, [TypeOnly("hel"), ReturnOnly]) == [false, false]
    ensures Final(Initial, [TypeOnly("hel"), ReturnOnly]) == ""
  {
    var frames := [TypeOnly("hel")];
    assert AllTyped(frames) == "hel";
    assert Printable("hel") == "hel";
    TypeThenConfirm(frames, ReturnOnly);
    assert frames + [ReturnOnly] == [TypeOnly("hel"), ReturnOnly];
  }

  /** Typing "abc" and then pressing Backspace leaves "ab". */
  lemma BackspaceScenario()
    ensures Final(Initial, [TypeOnly("abc"), BackOnly]) == "ab"
  {
    var frames := [TypeOnly("abc"), BackOnly];
    assert Printable("abc") == "abc";
    assert Tick(Initial, frames[0]).buffer == "abc";
    assert Tick("abc", frames[1]).buffer == "ab";
    assert frames[1..] == [BackOnly];
    assert [BackOnly][1..] == [];
    assert Final("ab", []) == "ab";
  }
}
