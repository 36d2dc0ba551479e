/** The mouse event arguments the text box receives: the raw screen position
    and the three button states of `MouseEventArgs`, the changed button and
    click count of `MouseButtonEventArgs`, and the wheel delta of
    `MouseWheelEventArgs`. Every field is set by a constructor and only read
    afterwards, so each is an immutable datatype built by a constructor
    function. */
module MouseEvents {
  import opened Wrappers
  import opened Geometry

  datatype MouseButtonState = Released | Pressed

  datatype MouseButton = Left | Middle | Right

  /** `InvalidOperationException`, thrown by the button-state selector when
      the changed button is none of the three. */
  datatype InvalidOperation = InvalidOperation

  datatype MouseEventArgs = MouseEventArgs(
    rawPosition: Point,
    leftButton: MouseButtonState,
    middleButton: MouseButtonState,
    rightButton: MouseButtonState)

  datatype MouseButtonEventArgs = MouseButtonEventArgs(
    mouse: MouseEventArgs,
    changedButton: MouseButton,
    clickCount: int)

  datatype MouseWheelEventArgs = MouseWheelEventArgs(mouse: MouseEventArgs, delta: int)

  /** The constructor without a position: every field keeps the default of
      its type, the origin and three released buttons (the first member of
      `MouseButtonState`). */
  function NewMouseDefault(): (r: MouseEventArgs)
    ensures r.rawPosition == Point(0, 0)
    ensures r.leftButton.Released? && r.middleButton.Released? && r.rightButton.Released?
  {
    MouseEventArgs(Point(0, 0), Released, Released, Released)
  }

  /** The full constructor: the position and the three states read back
      exactly as given. */
  function NewMouse(rawPosition: Point, left: MouseButtonState, middle: MouseButtonState,
                    right: MouseButtonState): (r: MouseEventArgs)
    ensures r.rawPosition == rawPosition
    ensures r.leftButton == left && r.middleButton == middle && r.rightButton == right
  {
    MouseEventArgs(rawPosition, left, middle, right)
  }

  /** The button constructor without a position: the changed button is the
      enum's default `Left` and the click count the integer default 0. */
  function NewButtonDefault(): (r: MouseButtonEventArgs)
    ensures r.mouse == NewMouseDefault()
    ensures r.changedButton.Left? && r.clickCount == 0
  {
    MouseButtonEventArgs(NewMouseDefault(), Left, 0)
  }

  /** The full button constructor; an omitted click count (`None`) is 1. */
  function NewButton(rawPosition: Point, left: MouseButtonState, middle: MouseButtonState,
                     right: MouseButtonState, button: MouseButton, clickCount: Option<int>): (r: MouseButtonEventArgs)
    ensures r.mouse == NewMouse(rawPosition, left, middle, right)
    ensures r.changedButton == button
    ensures r.clickCount == if clickCount.Some? then clickCount.value else 1
  {
    var count := if clickCount.Some? then clickCount.value else 1;
    MouseButtonEventArgs(NewMouse(rawPosition, left, middle, right), button, count)
  }

  /** The wheel constructor: the delta reads back as given. */
  function NewWheel(rawPosition: Point, left: MouseButtonState, middle: MouseButtonState,
                    right: MouseButtonState, delta: int): (r: MouseWheelEventArgs)
    ensures r.mouse == NewMouse(rawPosition, left, middle, right)
    ensures r.delta == delta
  {
    MouseWheelEventArgs(NewMouse(rawPosition, left, middle, right), delta)
  }

  /** `ButtonState`: the state of the button that changed. The fall-through
      that throws cannot be reached, since the switch covers every button. */
  function ButtonState(e: MouseButtonEventArgs): (r: Result<MouseButtonState, InvalidOperation>)
    ensures r.Success?
    ensures e.changedButton.Left? ==> r.value == e.mouse.leftButton
    ensures e.changedButton.Middle? ==> r.value == e.mouse.middleButton
    ensures e.changedButton.Right? ==> r.value == e.mouse.rightButton
  {
    if e.changedButton.Left? then Success(e.mouse.leftButton)
    else if e.changedButton.Middle? then Success(e.mouse.middleButton)
    else if e.changedButton.Right? then Success(e.mouse.rightButton)
    else Failure(InvalidOperation)
  }

  /** The buttons held down when the event was raised. */
  function PressedButtons(m: MouseEventArgs): (r: set<MouseButton>)
    ensures Left in r <==> m.leftButton.Pressed?
    ensures Middle in r <==> m.middleButton.Pressed?
    ensures Right in r <==> m.rightButton.Pressed?
  {
    (if m.leftButton.Pressed? then {Left} else {})
    + (if m.middleButton.Pressed? then {Middle} else {})
    + (if m.rightButton.Pressed? then {Right} else {})
  }

  /** The selector reports `Pressed` exactly when the changed button is among
      the buttons held down. */
  lemma ButtonStatePressedIff(e: MouseButtonEventArgs)
    ensures ButtonState(e).value.Pressed? <==> e.changedButton in PressedButtons(e.mouse)
  {
  }

  /** Built by the full constructor, the selector returns the state passed for
      the named button. */
  lemma ButtonStateOfNew(rawPosition: Point, left: MouseButtonState, middle: MouseButtonState,
                         right: MouseButtonState, button: MouseButton, clickCount: Option<int>)
    ensures var s := ButtonState(NewButton(rawPosition, left, middle, right, button, clickCount)).value;
      s == match button
        case Left => left
        case Middle => middle
        case Right => right
  {
  }

  /** Built by the constructor without a position, the event reports the left
      button as released and no button pressed. */
  lemma DefaultButtonIsReleased()
    ensures ButtonState(NewButtonDefault()).value.Released?
    ensures PressedButtons(NewButtonDefault().mouse) == {}
  {
    var e := NewButtonDefault();
    assert Left !in PressedButtons(e.mouse);
    assert Middle !in PressedButtons(e.mouse);
    assert Right !in PressedButtons(e.mouse);
  }
}
