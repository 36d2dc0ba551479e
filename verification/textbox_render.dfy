/** Layout and drawing of the text box. Measure and arrange ask for a fixed
    `size + 2` by 1 cells whatever they are offered; `Render` draws one row:
    the visible window of the text between an optional left arrow in column 0
    and an optional right arrow in column `size + 1`. */
module TextBoxRender {
  import opened Geometry
  import opened TextBoxState

  /** The two colour attributes the box uses: white on dark blue for the text
      and the background, green on dark blue for the scroll arrows. */
  datatype Attr = TextAttr | ArrowAttr

  datatype Cell = Cell(ch: char, attr: Attr)

  const Blank := Cell(' ', TextAttr)

  /** Writes a character and an attribute; a column outside the row is
      silently dropped. */
  function SetPixel(row: seq<Cell>, x: int, c: char, a: Attr): (r: seq<Cell>)
    ensures |r| == |row|
    ensures forall k :: 0 <= k < |row| ==> r[k] == (if k == x then Cell(c, a) else row[k])
  {
    if 0 <= x < |row| then row[x := Cell(c, a)] else row
  }

  /** Writes a character and keeps the cell's attribute; a column outside the
      row is silently dropped. */
  function SetChar(row: seq<Cell>, x: int, c: char): (r: seq<Cell>)
    ensures |r| == |row|
    ensures forall k :: 0 <= k < |row| ==> r[k] == (if k == x then Cell(c, row[k].attr) else row[k])
  {
    if 0 <= x < |row| then row[x := Cell(c, row[x].attr)] else row
  }

  /** `MeasureOverride`: the desired size ignores the available size. */
  function MeasureOverride(b: TextBox, available: Size): (r: Size)
    ensures r.width == b.size + 2 && r.height == 1
  {
    Size(b.size + 2, 1)
  }

  /** `ArrangeOverride`: the arranged size ignores the final size offered. */
  function ArrangeOverride(b: TextBox, finalSize: Size): (r: Size)
    ensures r.width == b.size + 2 && r.height == 1
  {
    Size(b.size + 2, 1)
  }

  /** Measure and arrange agree with each other whatever they are offered. */
  lemma LayoutIgnoresConstraint(b: TextBox, a: Size, a': Size)
    ensures MeasureOverride(b, a) == MeasureOverride(b, a') == ArrangeOverride(b, a) == ArrangeOverride(b, a')
  {
  }

  /** Draws the box into a row as wide as its arranged size: column `1 + j`
      shows the text character `displayOffset + j` when there is one, column 0
      shows `<` exactly when the view is scrolled, column `size + 1` shows `>`
      exactly when text lies beyond the right edge, and every other cell is a
      blank. */
  method Render(b: TextBox) returns (row: seq<Cell>)
    requires b.size >= 0 && b.displayOffset >= 0
    ensures |row| == MeasureOverride(b, Size(0, 0)).width
    ensures forall c :: 1 <= c <= b.size && b.displayOffset + c - 1 < |Content(b)| ==>
      row[c] == Cell(Content(b)[b.displayOffset + c - 1], TextAttr)
    ensures forall c :: 1 <= c <= b.size && b.displayOffset + c - 1 >= |Content(b)| ==>
      row[c] == Blank
    ensures row[0] == if b.displayOffset > 0 then Cell('<', ArrowAttr) else Blank
    ensures row[b.size + 1] ==
      if Content(b) != [] && b.size + b.displayOffset < |Content(b)| then Cell('>', ArrowAttr) else Blank
  {
    var offset := b.displayOffset;
    row := seq(b.size + 2, _ => Blank);
    if b.text.Some? {
      var t := b.text.value;
      var i := offset;
      while i < |t|
        invariant |row| == b.size + 2
        invariant offset <= i && (i <= |t| || i == offset)
        invariant forall c :: 0 <= c < |row| ==>
          row[c] == if 1 <= c <= b.size && c - 1 < i - offset then Cell(t[offset + c - 1], TextAttr) else Blank
      {
        if i - offset < b.size {
          row := SetChar(row, 1 + i - offset, t[i]);
        }
        i := i + 1;
      }
    }
    if offset > 0 {
      row := SetPixel(row, 0, '<', ArrowAttr);
    }
    if !IsNullOrEmpty(b.text) && b.size + offset < |b.text.value| {
      row := SetPixel(row, b.size + 1, '>', ArrowAttr);
    }
  }
}
