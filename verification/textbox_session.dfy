/** Sequences of input events delivered to one text box: key presses and
    mouse-downs. `Run` uses the corrected click handler; `RunAsWritten` uses
    the handler as written, and a concrete run shows it letting the caret
    overrun the text so that the next insertion throws. */
module TextBoxSession {
  import opened Wrappers
  import opened Geometry
  import opened TextBoxState
  import opened TextBoxKeys
  import opened TextBoxMouse

  datatype Event = Press(info: KeyInfo) | Click(column: int)

  /** One event with the corrected click handler. */
  function Step(b: TextBox, e: Event): (r: Result<TextBox, Exception>)
    ensures Valid(b) ==> r.Success? && Valid(r.value)
    ensures r.Success? ==> r.value.size == b.size
  {
    match e
    case Press(k) =>
      (match KeyDown(b, k)
       case Failure(x) => Failure(x)
       case Success(s) => Success(s.box))
    case Click(x) => Success(OnMouseDownClamped(b, x).box)
  }

  /** One event with the click handler as written; key presses behave as in
      `Step`. */
  function StepAsWritten(b: TextBox, e: Event): (r: Result<TextBox, Exception>)
    ensures e.Press? ==> r == Step(b, e)
    ensures e.Click? ==> r.Success? && Content(r.value) == Content(b)
  {
    match e
    case Press(k) =>
      (match KeyDown(b, k)
       case Failure(x) => Failure(x)
       case Success(s) => Success(s.box))
    case Click(x) => Success(OnMouseDown(b, x).box)
  }

  function Run(b: TextBox, es: seq<Event>): Result<TextBox, Exception>
    decreases |es|
  {
    if es == [] then Success(b)
    else
      match Step(b, es[0])
      case Failure(x) => Failure(x)
      case Success(b') => Run(b', es[1..])
  }

  function RunAsWritten(b: TextBox, es: seq<Event>): Result<TextBox, Exception>
    decreases |es|
  {
    if es == [] then Success(b)
    else
      match StepAsWritten(b, es[0])
      case Failure(x) => Failure(x)
      case Success(b') => RunAsWritten(b', es[1..])
  }

  predicate KeysOnly(es: seq<Event>) {
    forall i :: 0 <= i < |es| ==> es[i].Press?
  }

  /** Any sequence of key presses and (corrected) clicks from a valid state
      keeps the invariant, so no `Substring` call ever throws. */
  lemma {:induction false} RunPreservesValid(b: TextBox, es: seq<Event>)
    requires Valid(b)
    ensures Run(b, es).Success? && Valid(Run(b, es).value)
    ensures Run(b, es).value.size == b.size
    decreases |es|
  {
    if es != [] {
      var b' := Step(b, es[0]).value;
      RunPreservesValid(b', es[1..]);
    }
  }

  /** Key presses alone keep the invariant with the handlers as written. */
  lemma {:induction false} KeyRunPreservesValid(b: TextBox, es: seq<Event>)
    requires Valid(b) && KeysOnly(es)
    ensures RunAsWritten(b, es).Success? && Valid(RunAsWritten(b, es).value)
    decreases |es|
  {
    if es != [] {
      assert es[0].Press?;
      var b' := StepAsWritten(b, es[0]).value;
      assert KeysOnly(es[1..]) by {
        forall i | 0 <= i < |es[1..]| ensures es[1..][i].Press? {
          assert es[1..][i] == es[i + 1];
        }
      }
      KeyRunPreservesValid(b', es[1..]);
    }
  }

  /** Typing a string: one key press per character. */
  function Typing(s: string): (es: seq<Event>)
    ensures |es| == |s| && KeysOnly(es)
    ensures forall i :: 0 <= i < |s| ==> es[i] == Press(KeyInfo(s[i], OtherKey(0)))
  {
    seq(|s|, i requires 0 <= i < |s| => Press(KeyInfo(s[i], OtherKey(0))))
  }

  predicate Printable(s: string) {
    forall i :: 0 <= i < |s| ==> !IsControl(s[i])
  }

  /** Pressing a printable key inserts it at the caret and keeps the
      invariant. */
  lemma PressInserts(b: TextBox, c: char, key: ConsoleKey)
    requires Valid(b) && !IsControl(c)
    ensures var r := Step(b, Press(KeyInfo(c, key)));
      && r.Success? && Valid(r.value)
      && Content(r.value) == Content(b)[..Caret(b)] + [c] + Content(b)[Caret(b)..]
      && Caret(r.value) == Caret(b) + 1
      && (b.cursorPosition + 1 < b.size ==>
            r.value.cursorPosition == b.cursorPosition + 1 && r.value.displayOffset == b.displayOffset)
      && (b.cursorPosition + 1 >= b.size ==>
            r.value.cursorPosition == b.cursorPosition && r.value.displayOffset == b.displayOffset + 1)
  {
    assert Step(b, Press(KeyInfo(c, key))) == Success(InsertChar(b, c).value.box);
  }

  /** Inserting `x` and then `rest` after it is inserting `[x] + rest`. */
  lemma InsertThenInsert(t: string, i: int, x: char, rest: string)
    requires 0 <= i <= |t|
    ensures var t' := t[..i] + [x] + t[i..];
      t'[..i + 1] + rest + t'[i + 1..] == t[..i] + ([x] + rest) + t[i..]
  {
    var t' := t[..i] + [x] + t[i..];
    assert t'[..i + 1] == t[..i] + [x];
    assert t'[i + 1..] == t[i..];
  }

  /** Typing printable characters inserts them, in order, at the caret and
      leaves the caret just after them. */
  lemma {:induction false} TypingInsertsText(b: TextBox, s: string)
    requires Valid(b) && Printable(s)
    ensures var r := Run(b, Typing(s));
      && r.Success?
      && Content(r.value) == Content(b)[..Caret(b)] + s + Content(b)[Caret(b)..]
      && Caret(r.value) == Caret(b) + |s|
    decreases |s|
  {
    var t, i := Content(b), Caret(b);
    var es := Typing(s);
    if s == [] {
      assert t[..i] + s + t[i..] == t;
    } else {
      assert es[0] == Press(KeyInfo(s[0], OtherKey(0)));
      PressInserts(b, s[0], OtherKey(0));
      var b' := Step(b, es[0]).value;
      assert Run(b, es) == Run(b', es[1..]);
      assert es[1..] == Typing(s[1..]);
      assert Printable(s[1..]) by {
        forall k | 0 <= k < |s[1..]| ensures !IsControl(s[1..][k]) {
          assert s[1..][k] == s[k + 1];
        }
      }
      TypingInsertsText(b', s[1..]);
      InsertThenInsert(t, i, s[0], s[1..]);
      assert [s[0]] + s[1..] == s;
    }
  }

  lemma RunStep(b: TextBox, es: seq<Event>)
    requires es != [] && Step(b, es[0]).Success?
    ensures Run(b, es) == Run(Step(b, es[0]).value, es[1..])
  {
  }

  lemma RunAsWrittenStep(b: TextBox, es: seq<Event>)
    requires es != [] && StepAsWritten(b, es[0]).Success?
    ensures RunAsWritten(b, es) == RunAsWritten(StepAsWritten(b, es[0]).value, es[1..])
  {
  }

  /** Typing printable characters moves the caret column right until it
      reaches the last column, and scrolls the view by one for every character
      after that. */
  lemma {:induction false} TypingColumns(b: TextBox, s: string)
    requires Valid(b) && Printable(s)
    ensures var r := Run(b, Typing(s));
      && r.Success?
      && r.value.cursorPosition == (if b.cursorPosition + |s| < b.size then b.cursorPosition + |s| else b.size - 1)
      && r.value.displayOffset ==
           b.displayOffset + (if b.cursorPosition + |s| < b.size then 0 else b.cursorPosition + |s| - (b.size - 1))
    decreases |s|
  {
    var es := Typing(s);
    if s != [] {
      assert es[0] == Press(KeyInfo(s[0], OtherKey(0)));
      PressInserts(b, s[0], OtherKey(0));
      var b' := Step(b, es[0]).value;
      assert Run(b, es) == Run(b', es[1..]);
      assert es[1..] == Typing(s[1..]);
      assert Printable(s[1..]) by {
        forall k | 0 <= k < |s[1..]| ensures !IsControl(s[1..][k]) {
          assert s[1..][k] == s[k + 1];
        }
      }
      TypingColumns(b', s[1..]);
    }
  }

  /** Typing as many printable characters as the width into a fresh box
      (see `NullValidIsFresh`), say "hello" at width 5: the last character no
      longer fits before the last column, so the view scrolls by one and the
      caret column stays at `size - 1`. */
  lemma FillingWidthScrollsOnce(b0: TextBox, s: string)
    requires Valid(b0) && b0.text.None? && |s| == b0.size && Printable(s)
    ensures var r := Run(b0, Typing(s));
      && r.Success?
      && r.value.text == Some(s)
      && r.value.cursorPosition == b0.size - 1 && r.value.displayOffset == 1
      && r.value.cursor == Point(b0.size, 0)
  {
    TypingFromStart(b0, s);
  }

  /** Typing into a valid box with a null text yields exactly the typed text. */
  lemma TypingFromStart(b0: TextBox, s: string)
    requires Valid(b0) && b0.text.None? && Printable(s)
    ensures var r := Run(b0, Typing(s));
      && r.Success? && Valid(r.value) && r.value.size == b0.size
      && r.value.text == (if s == [] then None else Some(s))
      && r.value.cursorPosition == (if |s| < b0.size then |s| else b0.size - 1)
      && r.value.displayOffset == (if |s| < b0.size then 0 else |s| - (b0.size - 1))
  {
    TypingInsertsText(b0, s);
    TypingColumns(b0, s);
    RunPreservesValid(b0, Typing(s));
    assert Content(b0)[..Caret(b0)] + s + Content(b0)[Caret(b0)..] == s;
    if s == [] {
      assert Typing(s) == [];
    } else {
      TypingSetsText(b0, s);
    }
  }

  /** A non-empty run of key presses never leaves the text null. */
  lemma {:induction false} TypingSetsText(b0: TextBox, s: string)
    requires Valid(b0) && Printable(s) && s != []
    ensures Run(b0, Typing(s)).Success? && Run(b0, Typing(s)).value.text.Some?
  {
    TypingInsertsText(b0, s);
    RunPreservesValid(b0, Typing(s));
  }

  /** Running two event sequences one after the other is running their
      concatenation; a failure in the first stops the run. */
  lemma {:induction false} RunAppend(b: TextBox, xs: seq<Event>, ys: seq<Event>)
    ensures Run(b, xs + ys) ==
      match Run(b, xs)
      case Failure(x) => Failure(x)
      case Success(b') => Run(b', ys)
    decreases |xs|
  {
    if xs != [] {
      assert (xs + ys)[0] == xs[0];
      assert (xs + ys)[1..] == xs[1..] + ys;
      match Step(b, xs[0])
      case Failure(x) =>
      case Success(b') => RunAppend(b', xs[1..], ys);
    } else {
      assert xs + ys == ys;
    }
  }

  lemma {:induction false} RunAsWrittenAppend(b: TextBox, xs: seq<Event>, ys: seq<Event>)
    ensures RunAsWritten(b, xs + ys) ==
      match RunAsWritten(b, xs)
      case Failure(x) => Failure(x)
      case Success(b') => RunAsWritten(b', ys)
    decreases |xs|
  {
    if xs != [] {
      assert (xs + ys)[0] == xs[0];
      assert (xs + ys)[1..] == xs[1..] + ys;
      match StepAsWritten(b, xs[0])
      case Failure(x) =>
      case Success(b') => RunAsWrittenAppend(b', xs[1..], ys);
    } else {
      assert xs + ys == ys;
    }
  }

  /** Without clicks the two runs coincide: the correction only touches the
      click handler. */
  lemma {:induction false} RunAsWrittenAgreesOnKeys(b: TextBox, es: seq<Event>)
    requires KeysOnly(es)
    ensures RunAsWritten(b, es) == Run(b, es)
    decreases |es|
  {
    if es != [] {
      assert es[0].Press?;
      assert KeysOnly(es[1..]) by {
        forall i | 0 <= i < |es[1..]| ensures es[1..][i].Press? {
          assert es[1..][i] == es[i + 1];
        }
      }
      match Step(b, es[0])
      case Failure(x) =>
      case Success(b') => RunAsWrittenAgreesOnKeys(b', es[1..]);
    }
  }

  /** Type one printable character more than the width, then press Left
      and Delete. */
  function OverrunKeys(s: string): seq<Event> {
    Typing(s) + [Press(KeyInfo('\0', LeftArrow)), Press(KeyInfo('\0', Delete))]
  }

  /** The keys of `OverrunKeys`, then a click on the last column. */
  function OverrunEvents(s: string): seq<Event> {
    OverrunKeys(s) + [Click(|s| - 1)]
  }

  /** The overrun: in a fresh box of width n >= 2 (see `NullValidIsFresh`),
      type n + 1 characters (say "abc" at width 2), press Left and Delete, and
      click the last column. The click handler as written puts the caret at
      n + 1 in an n-character text, and the next printable key makes
      `Substring` throw. The corrected handler puts the caret at the end of
      the text and keeps the invariant. */
  lemma {:induction false} MouseDownOverrunsText(b0: TextBox, s: string, c: char)
    requires Valid(b0) && b0.text.None? && b0.size >= 2 && |s| == b0.size + 1
    requires Printable(s) && !IsControl(c)
    ensures var r := RunAsWritten(b0, OverrunEvents(s));
      && r.Success?
      && r.value.text == Some(s[..b0.size]) && Caret(r.value) == b0.size + 1
      && !Valid(r.value)
      && StepAsWritten(r.value, Press(KeyInfo(c, OtherKey(0)))).Failure?
    ensures var r := Run(b0, OverrunEvents(s));
      && r.Success?
      && r.value.text == Some(s[..b0.size]) && Caret(r.value) == b0.size
      && Valid(r.value)
  {
    OverrunRunAsWritten(b0, s, c);
    OverrunRunCorrected(b0, s);
  }

  /** The overrun run with the click handler as written. */
  lemma {:induction false} OverrunRunAsWritten(b0: TextBox, s: string, c: char)
    requires Valid(b0) && b0.text.None? && b0.size >= 2 && |s| == b0.size + 1
    requires Printable(s) && !IsControl(c)
    ensures var r := RunAsWritten(b0, OverrunEvents(s));
      && r.Success?
      && r.value.text == Some(s[..b0.size]) && Caret(r.value) == b0.size + 1
      && !Valid(r.value)
      && StepAsWritten(r.value, Press(KeyInfo(c, OtherKey(0)))).Failure?
  {
    var b5 := OverrunKeysFrom(b0, s);
    OverrunKeysAsWritten(b0, s, b5);
    assert OverrunEvents(s) == OverrunKeys(s) + [Click(b0.size)];
    RunAsWrittenAppend(b0, OverrunKeys(s), [Click(b0.size)]);
    assert RunAsWritten(b0, OverrunEvents(s)) == RunAsWritten(b5, [Click(b0.size)]);
    OverrunClickAsWritten(b5, c);
  }

  /** The overrun run with the corrected click handler. */
  lemma {:induction false} OverrunRunCorrected(b0: TextBox, s: string)
    requires Valid(b0) && b0.text.None? && b0.size >= 2 && |s| == b0.size + 1 && Printable(s)
    ensures var r := Run(b0, OverrunEvents(s));
      && r.Success?
      && r.value.text == Some(s[..b0.size]) && Caret(r.value) == b0.size
      && Valid(r.value)
  {
    var b5 := OverrunKeysFrom(b0, s);
    assert OverrunEvents(s) == OverrunKeys(s) + [Click(b0.size)];
    RunAppend(b0, OverrunKeys(s), [Click(b0.size)]);
    assert Run(b0, OverrunEvents(s)) == Run(b5, [Click(b0.size)]);
    OverrunClickCorrected(b5);
  }

  /** The key part of the overrun run. */
  lemma OverrunKeysFrom(b0: TextBox, s: string) returns (b5: TextBox)
    requires Valid(b0) && b0.text.None? && b0.size >= 2 && |s| == b0.size + 1 && Printable(s)
    ensures Run(b0, OverrunKeys(s)) == Success(b5)
    ensures Valid(b5) && b5.size == b0.size && b5.text == Some(s[..b0.size])
    ensures b5.cursorPosition == b0.size - 2 && b5.displayOffset == 2
  {
    var b3 := TypingPastWidth(b0, s);
    b5 := LeftThenDelete(b3);
    RunAppend(b0, Typing(s), [Press(KeyInfo('\0', LeftArrow)), Press(KeyInfo('\0', Delete))]);
  }

  /** One character more than the width, typed into a fresh box, scrolls the
      view by two and leaves the caret in the last column. */
  lemma {:induction false} TypingPastWidth(b0: TextBox, s: string) returns (b3: TextBox)
    requires Valid(b0) && b0.text.None? && |s| == b0.size + 1 && Printable(s)
    ensures Run(b0, Typing(s)) == Success(b3)
    ensures Valid(b3) && b3.size == b0.size && b3.text == Some(s)
    ensures b3.cursorPosition == b0.size - 1 && b3.displayOffset == 2
  {
    TypingFromStart(b0, s);
    b3 := Run(b0, Typing(s)).value;
  }

  /** The overrun keys behave the same with the click handler as written. */
  lemma OverrunKeysAsWritten(b0: TextBox, s: string, b5: TextBox)
    requires Run(b0, OverrunKeys(s)) == Success(b5)
    ensures RunAsWritten(b0, OverrunKeys(s)) == Success(b5)
  {
    var tail := [Press(KeyInfo('\0', LeftArrow)), Press(KeyInfo('\0', Delete))];
    var ks := OverrunKeys(s);
    assert KeysOnly(ks) by {
      forall i | 0 <= i < |ks| ensures ks[i].Press? {
        if i < |s| {
          assert ks[i] == Typing(s)[i];
        } else {
          assert ks[i] == tail[i - |s|];
        }
      }
    }
    RunAsWrittenAgreesOnKeys(b0, ks);
  }

  /** Left then Delete with the caret in the last column of a view scrolled
      by two, in a text one character longer than the width: the last
      character goes. */
  lemma LeftThenDelete(b3: TextBox) returns (b5: TextBox)
    requires Valid(b3) && b3.size >= 2 && b3.text.Some? && |b3.text.value| == b3.size + 1
    requires b3.cursorPosition == b3.size - 1 && b3.displayOffset == 2
    ensures Run(b3, [Press(KeyInfo('\0', LeftArrow)), Press(KeyInfo('\0', Delete))]) == Success(b5)
    ensures Valid(b5) && b5.size == b3.size && b5.text == Some(b3.text.value[..b3.size])
    ensures b5.cursorPosition == b3.size - 2 && b5.displayOffset == 2
  {
    var tail := [Press(KeyInfo('\0', LeftArrow)), Press(KeyInfo('\0', Delete))];
    var b4 := Step(b3, tail[0]).value;
    assert b4 == MoveLeft(b3).box;
    b5 := Step(b4, tail[1]).value;
    assert b5 == DeleteChar(b4).value.box;
    var t, t5, n := b3.text.value, Content(b5), b3.size;
    assert t == t5[..n] + [t[n]] + t5[n..] && |t5| == n;
    assert t5 == t[..n];
    RunStep(b3, tail);
    RunStep(b4, tail[1..]);
  }

  /** The click of the overrun run, as written: a click on the last column
      puts the caret one past the end of the text, and the next printable key
      throws. */
  lemma OverrunClickAsWritten(b5: TextBox, c: char)
    requires Valid(b5) && b5.size >= 2 && b5.text.Some? && |b5.text.value| == b5.size
    requires b5.cursorPosition == b5.size - 2 && b5.displayOffset == 2 && !IsControl(c)
    ensures var r := RunAsWritten(b5, [Click(b5.size)]);
      && r.Success? && r.value.text == b5.text && Caret(r.value) == b5.size + 1
      && StepAsWritten(r.value, Press(KeyInfo(c, OtherKey(0)))).Failure?
  {
    RunAsWrittenStep(b5, [Click(b5.size)]);
  }

  /** The click of the overrun run, corrected: the caret stops at the end of
      the text. */
  lemma OverrunClickCorrected(b5: TextBox)
    requires Valid(b5) && b5.size >= 2 && b5.text.Some? && |b5.text.value| == b5.size
    requires b5.cursorPosition == b5.size - 2 && b5.displayOffset == 2
    ensures var r := Run(b5, [Click(b5.size)]);
      r.Success? && r.value.text == b5.text && Caret(r.value) == b5.size && Valid(r.value)
  {
    RunStep(b5, [Click(b5.size)]);
  }
}
