/** The state of the single-line text box: the text (null until the first
    edit), the caret split into an on-screen column `cursorPosition` and a
    scroll amount `displayOffset`, the configured visible width `size`, and
    the control's visual cursor. Also the two `String.Substring` overloads
    the editor relies on, with their out-of-range exception. */
module TextBoxState {
  import opened Wrappers
  import opened Geometry

  datatype TextBox = TextBox(
    text: Option<string>,
    cursorPosition: int,
    displayOffset: int,
    size: int,
    cursor: Point)

  /** The only exception the editor can raise: `ArgumentOutOfRangeException`
      from `Substring`. */
  datatype Exception = ArgumentOutOfRange

  /** The characters of the text; a null text has none. */
  function Content(b: TextBox): string {
    if b.text.Some? then b.text.value else []
  }

  /** `String.IsNullOrEmpty`: true of a null text and of the empty text,
      that is exactly when the box shows no characters. */
  function IsNullOrEmpty(text: Option<string>): (r: bool)
    ensures r <==> (if text.Some? then |text.value| == 0 else true)
    ensures forall b: TextBox :: b.text == text ==> (r <==> Content(b) == [])
  {
    text.None? || text.value == []
  }

  /** The index in the text at which the next character is inserted. */
  function Caret(b: TextBox): int {
    b.cursorPosition + b.displayOffset
  }

  /** The facts every keyboard transition preserves: the caret column lies in
      the visible window, the window never scrolls past the caret, the caret
      never passes the end of the text, a null text has its caret at 0, and the
      visual cursor sits one column right of `cursorPosition` (column 0 is the
      left arrow). */
  predicate Valid(b: TextBox) {
    && b.size >= 1
    && 0 <= b.cursorPosition < b.size
    && b.displayOffset >= 0
    && Caret(b) <= |Content(b)|
    && (b.text.None? ==> b.cursorPosition == 0 && b.displayOffset == 0)
    && b.cursor == Point(b.cursorPosition + 1, 0)
  }

  /** The freshly constructed text box: null text, caret at the start, visual
      cursor at column 1, and `Size` still at its default of 0. */
  function New(): (r: TextBox)
    ensures r.text.None? && Caret(r) == 0 && r.size == 0
    ensures r.cursorPosition == 0 && r.cursor == Point(1, 0)
  {
    TextBox(None, 0, 0, 0, Point(1, 0))
  }

  /** Assigning the `Size` property. */
  function WithSize(b: TextBox, n: int): (r: TextBox)
    ensures r.size == n
    ensures r.text == b.text && r.cursorPosition == b.cursorPosition
    ensures r.displayOffset == b.displayOffset && r.cursor == b.cursor
  {
    b.(size := n)
  }

  /** Assigning the `Text` property from outside the control: the caret is
      not adjusted. */
  function SetText(b: TextBox, value: Option<string>): (r: TextBox)
    ensures r.text == value && r.size == b.size && r.cursor == b.cursor
    ensures r.cursorPosition == b.cursorPosition && r.displayOffset == b.displayOffset
  {
    b.(text := value)
  }

  /** `s.Substring(start)`: the suffix from `start`, or an exception when
      `start` is negative or past the end. */
  function Substring(s: string, start: int): (r: Result<string, Exception>)
    ensures r.Success? <==> 0 <= start <= |s|
    ensures r.Success? ==> r.value == s[start..]
  {
    if 0 <= start <= |s| then Success(s[start..]) else Failure(ArgumentOutOfRange)
  }

  /** `s.Substring(start, length)`: `length` characters from `start`, or an
      exception when either argument is negative or the range runs past the
      end. */
  function SubstringOfLength(s: string, start: int, length: int): (r: Result<string, Exception>)
    ensures r.Success? <==> 0 <= start && 0 <= length && start + length <= |s|
    ensures r.Success? ==> r.value == s[start..start + length]
  {
    if 0 <= start && 0 <= length && start + length <= |s| then
      Success(s[start..start + length])
    else
      Failure(ArgumentOutOfRange)
  }

  /** Sets `cursorPosition` and moves the visual cursor with it, as every
      transition that changes the column does. */
  function MoveCursor(b: TextBox, column: int): (r: TextBox)
    ensures r.cursorPosition == column && r.cursor == Point(column + 1, 0)
    ensures r.text == b.text && r.displayOffset == b.displayOffset && r.size == b.size
  {
    b.(cursorPosition := column, cursor := Point(column + 1, 0))
  }

  /** A new box becomes valid exactly when its width is set to at least 1;
      the constructor's default width of 0 leaves no column for the caret. */
  lemma NewValidIff(n: int)
    ensures !Valid(New())
    ensures Valid(WithSize(New(), n)) <==> n >= 1
  {
  }

  /** Assigning `Size` to an edited box keeps the invariant exactly when the
      caret column still fits inside the new width. */
  lemma WithSizeValidIff(b: TextBox, n: int)
    requires Valid(b)
    ensures Valid(WithSize(b, n)) <==> b.cursorPosition < n
  {
  }

  /** Assigning `Text` from outside keeps the invariant exactly when the new
      text still reaches the caret. */
  lemma SetTextValidIff(b: TextBox, value: Option<string>)
    requires Valid(b)
    ensures Valid(SetText(b, value)) <==>
      (if value.Some? then Caret(b) <= |value.value| else Caret(b) == 0)
  {
  }

  /** Shrinking the text from outside can break the invariant. */
  lemma SetTextCanBreakValid()
    ensures var b := TextBox(Some("ab"), 1, 1, 2, Point(2, 0));
      Valid(b) && !Valid(SetText(b, Some("a")))
  {
  }

  /** A valid box whose text is still null is exactly a freshly constructed
      box with its width set. */
  lemma NullValidIsFresh(b: TextBox)
    requires Valid(b) && b.text.None?
    ensures b == WithSize(New(), b.size)
  {
    assert b == TextBox(None, 0, 0, b.size, Point(1, 0));
  }
}
