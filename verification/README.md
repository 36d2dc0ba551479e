# TextBox of ConsoleFramework, in Dafny

This project models the single-line `TextBox` control of ConsoleFramework, a
text-mode UI toolkit for the console, together with the mouse event
arguments the control receives.

The editor state is the text (null until the first edit), the caret split
into an on-screen column `cursorPosition` and a scroll amount
`displayOffset`, the visible width `Size` and the control's visual cursor.
Each key press (`TextBox_KeyDown`) and each mouse-down (`OnMouseDown`) is a
pure transition over an immutable state record:

- A non-control character is inserted at the caret.
- Delete, Backspace, Left, Right, Home and End edit or move the caret, or
  beep when they cannot apply. The beep is reported as a flag.
- Every other control key does nothing.
- `String.Substring` is modelled with its `ArgumentOutOfRangeException`, as
  a `Result`.

`Render` is a method that draws one row of cells. Measure and arrange are
functions.

The central invariant is `TextBoxState.Valid`:

- the caret column lies in the visible window;
- the caret index `cursorPosition + displayOffset` never passes the end of
  the text;
- a null text has its caret at 0;
- the visual cursor sits one column right of `cursorPosition`.

Every keyboard transition keeps the invariant, so no `Substring` call on
that path can throw. The mouse-down handler as written does not keep it
(see Findings). The model's event runs (`TextBoxSession.Run`) therefore use
a corrected handler, and `TextBoxSession.RunAsWritten` keeps the original.

Modules, by file:

- `wrappers.dfy`: `Option` and `Result`.
- `geometry.dfy`: `Point` and `Size`.
- `textbox_state.dfy`: the state, the invariant, the constructor, the
  `Size` and `Text` setters, and `Substring`.
- `textbox_keys.dfy`: the key transitions.
- `textbox_mouse.dfy`: the mouse-down handler, as written and corrected.
- `textbox_render.dfy`: measure, arrange and render.
- `textbox_session.dfy`: runs of events and the scenario lemmas.
- `mouse_events.dfy`: `MouseEventArgs`, `MouseButtonEventArgs`,
  `MouseWheelEventArgs` and the `ButtonState` selector.

The view scrolls on the character that fills column `Size - 1`
(`ConsoleFramework/Controls/TextBox.cs:59-64`): an insertion moves the column
only while `cursorPosition + 1 < Size`, and scrolls otherwise. So typing
`Size` characters into a fresh box leaves offset 1 and caret column
`Size - 1`, for example "hello" at width 5 ends at column 4, scrolled by one
(`TextBoxSession.FillingWidthScrollsOnce`).

The scenario lemmas take any valid box with a null text, rather than the
literal `WithSize(New(), n)`. `TextBoxState.NullValidIsFresh` and
`TextBoxState.NewValidIff` show these are the same box.

## Model

| member | source | states |
|---|---|---|
| TextBoxState.New | ConsoleFramework/Controls/TextBox.cs:9-17 | a new box has a null text, caret index 0 and the visual cursor at column 1 |
| TextBoxState.NewValidIff | ConsoleFramework/Controls/TextBox.cs:9-17 | a new box (default `Size` 0) is not valid; it becomes valid exactly when `Size` is set to at least 1 |
| TextBoxState.NullValidIsFresh | ConsoleFramework/Controls/TextBox.cs:9-17 | a valid box whose text is null is exactly a new box with its `Size` set |
| TextBoxState.IsNullOrEmpty | ConsoleFramework/Controls/TextBox.cs:23 | `String.IsNullOrEmpty` is true exactly of a null text and of a text of length 0, that is exactly when the box has no characters |
| TextBoxState.WithSize | ConsoleFramework/Controls/TextBox.cs:166-169 | setting `Size` changes the width and nothing else |
| TextBoxState.WithSizeValidIff | ConsoleFramework/Controls/TextBox.cs:166-169 | from a valid state, setting `Size` keeps the invariant exactly when the caret column is still below the new width |
| TextBoxState.SetText | ConsoleFramework/Controls/TextBox.cs:147-159 | setting `Text` replaces the text and leaves the caret, offset, width and cursor alone |
| TextBoxState.SetTextValidIff | ConsoleFramework/Controls/TextBox.cs:147-159 | from a valid state, setting `Text` keeps the invariant exactly when the new text still reaches the caret index (a null text needs index 0) |
| TextBoxState.SetTextCanBreakValid | ConsoleFramework/Controls/TextBox.cs:147-159 | shrinking the text from outside can leave the caret past its end |
| TextBoxState.Substring | ConsoleFramework/Controls/TextBox.cs:54 | `Substring(start)` succeeds exactly when 0 ≤ start ≤ length and returns the suffix from `start` |
| TextBoxState.SubstringOfLength | ConsoleFramework/Controls/TextBox.cs:53 | `Substring(start, length)` succeeds exactly when the range is non-negative and inside the string, and returns that range |
| TextBoxState.MoveCursor | ConsoleFramework/Controls/TextBox.cs:60-61 | setting the column moves the visual cursor to column+1 and changes nothing else |
| TextBoxKeys.IsControl | ConsoleFramework/Controls/TextBox.cs:50 | `char.IsControl` is true exactly of the C0 block (code points below 32), DEL (127) and the C1 block (128-159); no printable ASCII character and nothing above 159 is a control character |
| TextBoxKeys.Splice | ConsoleFramework/Controls/TextBox.cs:53-55 | the two substrings around the caret with the character between succeed exactly when the index is inside the text, and equal the text with the character inserted at the index |
| TextBoxKeys.InsertChar | ConsoleFramework/Controls/TextBox.cs:50-64 | inserting throws exactly when a non-null text has the caret index outside 0..length. On success the text is non-null. From a valid state it succeeds without a beep, inserts the character at the caret index (length +1), advances the caret index by one, moves the column right while it fits and otherwise scrolls by one, and keeps the invariant |
| TextBoxKeys.DeleteChar | ConsoleFramework/Controls/TextBox.cs:66-75 | Delete throws exactly when a non-empty text has a negative caret index. From a valid state: with a character at the caret it removes that character (the old text is the new one with it put back), leaves the text non-null (an emptied text is the empty string) and leaves the caret alone; otherwise it beeps and changes nothing. The width never changes and the invariant is kept |
| TextBoxKeys.BackspaceChar | ConsoleFramework/Controls/TextBox.cs:76-92 | Backspace throws exactly when a non-empty text with a non-zero column or a non-zero offset does not have the caret index in 1..length. From a valid state: with a character before the caret it removes it, leaves the text non-null (an emptied text is the empty string) and moves the caret index back by one (unscrolling first when scrolled); otherwise it beeps and changes nothing. The width never changes and the invariant is kept |
| TextBoxKeys.MoveLeft | ConsoleFramework/Controls/TextBox.cs:93-107 | From a valid state, Left beeps exactly on an empty text or a caret at the start; otherwise it moves the column left or, at column 0, unscrolls by one. Text and width are unchanged and the invariant is kept |
| TextBoxKeys.MoveRight | ConsoleFramework/Controls/TextBox.cs:108-122 | From a valid state, Right beeps exactly when no character follows the caret; otherwise it moves the column right while it fits and otherwise scrolls by one. Text and width are unchanged and the invariant is kept |
| TextBoxKeys.MoveHome | ConsoleFramework/Controls/TextBox.cs:123-132 | Home beeps exactly when the caret is already at column 0 with no scroll; otherwise both become 0 |
| TextBoxKeys.MoveEnd | ConsoleFramework/Controls/TextBox.cs:133-142 | From a valid state, End beeps exactly when no character follows the caret; otherwise the caret index becomes the text length, the offset max(0, length − Size + 1) and the column min(length, Size − 1) |
| TextBoxKeys.KeyDown | ConsoleFramework/Controls/TextBox.cs:41-145 | a printable character is inserted; for a control character, Delete, Backspace, LeftArrow, RightArrow, Home and End run their own command and any other key does nothing. From a valid state every key succeeds and keeps the invariant. A beep changes nothing, the width never changes, only Delete and Backspace among control keys can throw, and control keys other than those two never change the text |
| TextBoxKeys.FromCode | ConsoleFramework/Controls/TextBox.cs:43 | the cast of a virtual key code to a key gives back that code, and yields `OtherKey` exactly for the codes other than 8, 35, 36, 37, 39 and 46 |
| TextBoxKeys.FromCodeOfCode | ConsoleFramework/Controls/TextBox.cs:43 | decoding a key's code gives the key back when `OtherKey` does not carry a named key's code |
| TextBoxKeys.OtherControlKeyIsIgnored | ConsoleFramework/Controls/TextBox.cs:65-143 | a control character whose key code is none of the six commands leaves the state unchanged without a beep |
| TextBoxKeys.HomeTwiceBeeps | ConsoleFramework/Controls/TextBox.cs:123-132 | a second Home in a row always beeps |
| TextBoxKeys.BackspaceUndoesInsert | ConsoleFramework/Controls/TextBox.cs:50-92 | from a valid state, Backspace right after inserting a printable character succeeds without a beep and restores the characters and the caret index; a null text comes back as the empty string |
| TextBoxKeys.UndoSplice | ConsoleFramework/Controls/TextBox.cs:53-55 | inserting a character at an index and putting one back at the same index give the same text only from the same text |
| TextBoxKeys.SpliceCancel | ConsoleFramework/Controls/TextBox.cs:53-55 | a text split at the same index as prefix, character and suffix splits one way only |
| TextBoxMouse.OnMouseDown | ConsoleFramework/Controls/TextBox.cs:19-33 | a click is handled exactly when 1 ≤ X ≤ Size. On a non-empty text it sets the column to min(X−1, length) and the visual cursor with it; otherwise nothing changes. The offset, text and width never change. From a valid state the result is valid exactly when the caret index stays within the text |
| TextBoxMouse.OnMouseDownClamped | ConsoleFramework/Controls/TextBox.cs:19-33 | the corrected click: handled on the same columns. It puts the caret index on the character under the click, or at the end of the text, and keeps the invariant |
| TextBoxMouse.ClampedAgreesUnlessOverrun | ConsoleFramework/Controls/TextBox.cs:19-33 | from a valid state, the handler as written equals the corrected one exactly when its result is valid; the two always agree when the view is not scrolled |
| TextBoxRender.SetPixel | ConsoleFramework/Controls/TextBox.cs:197-199 | writing a cell changes only that column, and a column outside the row is dropped |
| TextBoxRender.SetChar | ConsoleFramework/Controls/TextBox.cs:191 | writing a character keeps the cell's attribute, changes only that column, and drops a column outside the row |
| TextBoxRender.MeasureOverride | ConsoleFramework/Controls/TextBox.cs:171-173 | the desired size is Size + 2 by 1 |
| TextBoxRender.ArrangeOverride | ConsoleFramework/Controls/TextBox.cs:175-177 | the arranged size is Size + 2 by 1 |
| TextBoxRender.LayoutIgnoresConstraint | ConsoleFramework/Controls/TextBox.cs:171-177 | measure and arrange agree whatever size is offered |
| TextBoxRender.Render | ConsoleFramework/Controls/TextBox.cs:185-200 | the row is as wide as the measured size. Column 1 + j shows text character offset + j in the text colour when it exists, and a blank otherwise. Column 0 shows `<` exactly when scrolled, and column Size + 1 shows `>` exactly when text lies beyond the right edge |
| TextBoxSession.Step | ConsoleFramework/Controls/TextBox.cs:19-145 | one key press or corrected click from a valid state succeeds, keeps the invariant and keeps the width |
| TextBoxSession.StepAsWritten | ConsoleFramework/Controls/TextBox.cs:19-33 | key presses behave as in `Step`; a click as written always succeeds and leaves the text alone |
| TextBoxSession.Typing | ConsoleFramework/Controls/TextBox.cs:50-64 | typing a string is one key press, with key code `OtherKey(0)`, per character, in order |
| TextBoxSession.RunPreservesValid | ConsoleFramework/Controls/TextBox.cs:19-145 | any run of key presses and corrected clicks from a valid state succeeds, keeps the invariant and keeps the width |
| TextBoxSession.KeyRunPreservesValid | ConsoleFramework/Controls/TextBox.cs:41-145 | any run of key presses alone, with the handlers as written, succeeds and keeps the invariant |
| TextBoxSession.RunAsWrittenAgreesOnKeys | ConsoleFramework/Controls/TextBox.cs:19-33 | without clicks, the run as written and the corrected run coincide |
| TextBoxSession.PressInserts | ConsoleFramework/Controls/TextBox.cs:50-64 | from a valid state, a printable key press inserts at the caret, advances the caret index, and moves the column or scrolls |
| TextBoxSession.InsertThenInsert | ConsoleFramework/Controls/TextBox.cs:53-55 | inserting a character and then a string right after it is inserting their concatenation |
| TextBoxSession.TypingInsertsText | ConsoleFramework/Controls/TextBox.cs:50-64 | typing printable characters inserts them, in order, at the caret and leaves the caret index just after them |
| TextBoxSession.TypingColumns | ConsoleFramework/Controls/TextBox.cs:59-64 | typing n characters moves the column right up to the last column and scrolls by one for every character beyond it |
| TextBoxSession.TypingFromStart | ConsoleFramework/Controls/TextBox.cs:50-64 | typing into an empty box sets the text to the typed string (still null when nothing is typed), with the column and offset of `TypingColumns` |
| TextBoxSession.TypingSetsText | ConsoleFramework/Controls/TextBox.cs:56-57 | a non-empty typing run never leaves the text null |
| TextBoxSession.FillingWidthScrollsOnce | ConsoleFramework/Controls/TextBox.cs:59-64 | typing as many characters as the width into a fresh box gives the typed text with the caret in the last column and the view scrolled by one |
| TextBoxSession.RunStep | ConsoleFramework/Controls/TextBox.cs:19-145 | a run is its first successful step followed by the rest |
| TextBoxSession.RunAsWrittenStep | ConsoleFramework/Controls/TextBox.cs:19-145 | the same for the run as written |
| TextBoxSession.RunAppend | ConsoleFramework/Controls/TextBox.cs:19-145 | running two sequences one after the other is running their concatenation, and a failure in the first stops the run |
| TextBoxSession.RunAsWrittenAppend | ConsoleFramework/Controls/TextBox.cs:19-145 | the same for the run as written |
| TextBoxSession.LeftThenDelete | ConsoleFramework/Controls/TextBox.cs:66-75 | with the caret in the last column of a view scrolled by two, in a text one longer than the width, Left then Delete removes the last character and leaves the view scrolled by two |
| TextBoxSession.TypingPastWidth | ConsoleFramework/Controls/TextBox.cs:59-64 | one character more than the width, typed into a fresh box, scrolls the view by two and leaves the caret in the last column |
| TextBoxSession.OverrunKeysFrom | ConsoleFramework/Controls/TextBox.cs:41-145 | the key part of the overrun run leaves the typed text minus its last character, scrolled by two, with the caret two columns left of the edge |
| TextBoxSession.OverrunKeysAsWritten | ConsoleFramework/Controls/TextBox.cs:41-145 | that key part gives the same state with the click handler as written |
| TextBoxSession.OverrunClickAsWritten | ConsoleFramework/Controls/TextBox.cs:19-33 | in that state a click on the last column, as written, puts the caret index one past the end of the text, and the next printable key throws |
| TextBoxSession.OverrunRunAsWritten | ConsoleFramework/Controls/TextBox.cs:19-33 | the whole overrun run with the click as written reaches an invalid state, caret one past the end, from which the next printable key throws |
| TextBoxSession.OverrunRunCorrected | ConsoleFramework/Controls/TextBox.cs:19-33 | the whole overrun run with the corrected click ends valid with the caret at the end of the text |
| TextBoxSession.OverrunClickCorrected | ConsoleFramework/Controls/TextBox.cs:19-33 | in that state the corrected click puts the caret index at the end of the text and keeps the invariant |
| TextBoxSession.MouseDownOverrunsText | ConsoleFramework/Controls/TextBox.cs:19-33 | at every width n ≥ 2, the whole overrun run as written reaches an invalid state from which the next printable key throws; corrected, it stays valid with the caret at the end of the text |
| MouseEvents.NewMouseDefault | ConsoleFramework/Events/MouseEventArgs.cs:85-86 | the constructor without a position leaves the origin and three released buttons |
| MouseEvents.NewMouse | ConsoleFramework/Events/MouseEventArgs.cs:88-103 | the full constructor's position and three states read back exactly as given |
| MouseEvents.NewButtonDefault | ConsoleFramework/Events/MouseEventArgs.cs:43-48 | the button constructor without a position leaves the changed button `Left`, click count 0 and three released buttons |
| MouseEvents.NewButton | ConsoleFramework/Events/MouseEventArgs.cs:50-57 | the full button constructor stores the button and the click count unchanged; an omitted click count is 1 |
| MouseEvents.NewWheel | ConsoleFramework/Events/MouseEventArgs.cs:19-31 | the wheel constructor's delta reads back as given, on top of the full mouse constructor |
| MouseEvents.ButtonState | ConsoleFramework/Events/MouseEventArgs.cs:59-71 | the selector never throws, and returns the state of the button that changed |
| MouseEvents.PressedButtons | ConsoleFramework/Events/MouseEventArgs.cs:114-127 | a button is in the set exactly when its state is `Pressed` |
| MouseEvents.ButtonStatePressedIff | ConsoleFramework/Events/MouseEventArgs.cs:59-71 | the selector reports `Pressed` exactly when the changed button is among the pressed buttons |
| MouseEvents.ButtonStateOfNew | ConsoleFramework/Events/MouseEventArgs.cs:50-71 | built by the full constructor, the selector returns the state given for the named button |
| MouseEvents.DefaultButtonIsReleased | ConsoleFramework/Events/MouseEventArgs.cs:43-48 | the event built without a position reports the changed button as released and no button pressed |

## Left out

- TextBoxRender.SetChar: the rendering buffer is not part of this model. Two
  of its behaviours are assumed: the three-argument `SetPixel` at
  `ConsoleFramework/Controls/TextBox.cs:191` keeps the cell's attribute (so
  the text shows in the colour of the filled rectangle), and a write outside
  the row is dropped. `TextBoxRender.SetPixel` and `TextBoxRender.Render`
  rest on the same assumptions.
- Key decoding: the `ConsoleKeyInfo` built from the raw virtual key code and
  modifier flags is replaced by a character and a key; the key code is
  decoded by `TextBoxKeys.FromCode`. Shift, Alt and Ctrl are not read by the
  control.
- `char.IsControl` is written out for the Unicode Cc category on code
  points. .NET's UTF-16 code units are not distinguished from Dafny's
  Unicode scalar characters.
- `Console.Beep` and `Invalidate` are side effects. The beep is the
  `beeped` flag; the repaint request is dropped.
- Colours: the rendering buffer's attribute words are two symbolic
  attributes. `FillRectangle` over `ActualHeight` rows is drawn as the single
  row the control measures.
- `MouseEventArgs.GetPosition` and `Control.TranslatePoint` are not part of
  this model. A click is given directly as the local column.
- The `source` and `routedEvent` arguments of the event constructors, and the
  `Handled` flag of routed events beyond the handler's result, are not
  modelled. `RoutedEventArgs` is not part of this model.
- `CursorVisible`, `Focusable`, the focus handlers (empty), `MaxLenght` and
  `startSelection` are never read by the modelled code.
- The `Text` setter's `text != value` test only decides whether to call
  `Invalidate`, so `SetText` always assigns.
- TextBoxRender.Render: requires a non-negative width and offset. With a
  negative `displayOffset` the source's `text[i]` would throw
  `IndexOutOfRangeException`, and what the rendering buffer does with a
  negative rectangle is not part of this model; neither error path is
  modelled. A valid state always meets the requirement.
- MouseEvents.NewMouseDefault: the origin `Point(0, 0)` as the default
  position assumes `Point` is a value type whose fields default to 0. The
  `Point` type is not part of this model.
- MouseEvents.ButtonState: `MouseButton` is modelled as a closed
  three-valued type, so the unreachable throw is proved unreachable. A C#
  enum can carry an out-of-range value through a cast, and that case is not
  modelled.
- Integer width: `cursorPosition`, `displayOffset`, `Size` and the text
  length are unbounded integers. The 32-bit overflow of `Size + 2`, or of an
  offset after more than 2^31 key presses, is not modelled.

## Findings

| source | as written | input that shows it | evidently intended | confidence | as-written member | corrected member |
|---|---|---|---|---|---|---|
| ConsoleFramework/Controls/TextBox.cs:24-28 | the click sets `cursorPosition` to min(X−1, text length) and ignores `displayOffset`, so the caret index can pass the end of the text | width 2: type "abc", press Left, press Delete, click column 2. The caret index becomes 3 in "ab", and the next printable key makes `Substring` throw. The same happens at every width n ≥ 2 with n + 1 characters and a click on column n | clamp the column to the text length minus `displayOffset`, so the caret lands on the character under the click or at the end of the text | not executed | TextBoxSession.MouseDownOverrunsText | TextBoxMouse.OnMouseDownClamped |
