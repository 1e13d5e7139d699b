/**
 Characters as the text-entry system sees them: which ones are control
 characters, and the filter that keeps only the others.
 */
module Chars {

  /** Rust's `char::is_control`: the Unicode general category Cc, that is
      U+0000 through U+001F and U+007F through U+009F. */
  predicate IsControl(c: char) {
    c as int <= 0x1F || (0x7F <= c as int <= 0x9F)
  }

  /** No character of `s` is a control character. */
  predicate NoControl(s: string) {
    forall i :: 0 <= i < |s| ==> !IsControl(s[i])
  }

  /** The characters of `s` that are not control characters, in order. */
  function Printable(s: string): (r: string)
    ensures NoControl(r)
    ensures |r| <= |s|
    ensures NoControl(s) ==> r == s
  {
    if s == [] then []
    else
      var rest := Printable(s[1..]);
      assert s == [s[0]] + s[1..];
      if IsControl(s[0]) then rest else [s[0]] + rest
  }

  /** Filtering distributes over concatenation, so characters keep their
      arrival order: together with `PrintableSingle` this pins `Printable`
      down completely. */
  lemma {:induction false} PrintableAppend(a: string, b: string)
    ensures Printable(a + b) == Printable(a) + Printable(b)
  {
    if a == [] {
      assert a + b == b;
    } else {
      assert (a + b)[0] == a[0];
      assert (a + b)[1..] == a[1..] + b;
      PrintableAppend(a[1..], b);
    }
  }

  /** A single character survives the filter exactly when it is not a
      control character. */
  lemma PrintableSingle(c: char)
    ensures Printable([c]) == if IsControl(c) then [] else [c]
  {
  }

  /** The filter keeps every occurrence of every character that is not a
      control character and drops every occurrence of the others. */
  lemma {:induction false} PrintableKeepsContents(s: string)
    ensures forall c :: multiset(Printable(s))[c] == if IsControl(c) then 0 else multiset(s)[c]
  {
    if s != [] {
      PrintableKeepsContents(s[1..]);
      assert s == [s[0]] + s[1..];
    }
  }
}
