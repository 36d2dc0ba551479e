/** The mouse-down handler of the text box (`OnMouseDown`). A click at a
    local column between 1 and the width is handled; on a non-empty text it
    moves the caret column under the click, clamped to the text length. The
    handler does not look at `displayOffset`, so after the view has scrolled
    the caret can land past the end of the text; `OnMouseDownClamped` is the
    corrected handler the rest of the model uses. */
module TextBoxMouse {
  import opened Geometry
  import opened TextBoxState

  /** The state after a click and whether the event was marked handled. */
  datatype Clicked = Clicked(box: TextBox, handled: bool)

  /** The handler as written: the column is clamped to the text length, not
      to the text remaining after the scrolled-off part. `x` is the click's
      column in the box's own coordinates. */
  function OnMouseDown(b: TextBox, x: int): (r: Clicked)
    ensures r.handled <==> 1 <= x <= b.size
    ensures r.box.text == b.text && r.box.displayOffset == b.displayOffset && r.box.size == b.size
    ensures !r.handled || IsNullOrEmpty(b.text) ==> r.box == b
    ensures r.handled && !IsNullOrEmpty(b.text) ==>
      && r.box.cursorPosition == (if x - 1 <= |Content(b)| then x - 1 else |Content(b)|)
      && r.box.cursor == Point(r.box.cursorPosition + 1, 0)
    ensures Valid(b) ==> (Valid(r.box) <==> Caret(r.box) <= |Content(b)|)
  {
    if x > 0 && x - 1 < b.size then
      var column := x - 1;
      if !IsNullOrEmpty(b.text) then
        var n := |b.text.value|;
        Clicked(MoveCursor(b, if column <= n then column else n), true)
      else
        Clicked(b, true)
    else
      Clicked(b, false)
  }

  /** The corrected handler: the caret lands on the character shown under the
      click, or at the end of the text when the click is past it. */
  function OnMouseDownClamped(b: TextBox, x: int): (r: Clicked)
    ensures r.handled <==> 1 <= x <= b.size
    ensures r.box.text == b.text && r.box.displayOffset == b.displayOffset && r.box.size == b.size
    ensures !r.handled || IsNullOrEmpty(b.text) ==> r.box == b
    ensures Valid(b) ==> Valid(r.box)
    ensures Valid(b) && r.handled && !IsNullOrEmpty(b.text) ==>
      Caret(r.box) == (if b.displayOffset + x - 1 <= |Content(b)| then b.displayOffset + x - 1 else |Content(b)|)
  {
    if x > 0 && x - 1 < b.size then
      var column := x - 1;
      if !IsNullOrEmpty(b.text) then
        var room := |b.text.value| - b.displayOffset;
        Clicked(MoveCursor(b, if column <= room then column else room), true)
      else
        Clicked(b, true)
    else
      Clicked(b, false)
  }

  /** From a valid state the two handlers agree exactly when the handler as
      written keeps the invariant; in particular they agree while the view is
      not scrolled. */
  lemma ClampedAgreesUnlessOverrun(b: TextBox, x: int)
    requires Valid(b)
    ensures OnMouseDown(b, x) == OnMouseDownClamped(b, x) <==> Valid(OnMouseDown(b, x).box)
    ensures b.displayOffset == 0 ==> OnMouseDown(b, x) == OnMouseDownClamped(b, x)
  {
    var r, r' := OnMouseDown(b, x), OnMouseDownClamped(b, x);
    if r.handled && !IsNullOrEmpty(b.text) {
      assert r.box == MoveCursor(b, r.box.cursorPosition);
      assert r'.box == MoveCursor(b, r'.box.cursorPosition);
    }
  }
}
