/** The keyboard transitions of the text box (`TextBox_KeyDown`). A key
    whose character is not a control character is inserted at the caret;
    otherwise the key code selects one of six editing commands, and every
    other control key does nothing. A command that cannot apply beeps and
    leaves the state alone; the model reports the beep as a flag. */
module TextBoxKeys {
  import opened Wrappers
  import opened TextBoxState

  /** The six keys the box handles, and any other key by its code. `OtherKey`
      stands for a code outside `NamedKeyCodes`; `FromCode` decodes a virtual
      key code that way. */
  datatype ConsoleKey = Delete | Backspace | LeftArrow | RightArrow | Home | End | OtherKey(code: int)

  /** The `ConsoleKey` codes of Backspace, End, Home, LeftArrow, RightArrow
      and Delete. */
  const NamedKeyCodes: set<int> := {8, 35, 36, 37, 39, 46}

  /** The key code of a key. */
  function Code(k: ConsoleKey): int {
    match k
    case Backspace => 8
    case End => 35
    case Home => 36
    case LeftArrow => 37
    case RightArrow => 39
    case Delete => 46
    case OtherKey(code) => code
  }

  /** The cast of a virtual key code to `ConsoleKey`: a named key for its
      code, `OtherKey` for every other code. */
  function FromCode(code: int): (k: ConsoleKey)
    ensures Code(k) == code
    ensures k.OtherKey? <==> code !in NamedKeyCodes
  {
    if code == 8 then Backspace
    else if code == 35 then End
    else if code == 36 then Home
    else if code == 37 then LeftArrow
    else if code == 39 then RightArrow
    else if code == 46 then Delete
    else OtherKey(code)
  }

  /** Decoding the code of a key gives the key back, as long as `OtherKey`
      does not carry a named key's code. */
  lemma FromCodeOfCode(k: ConsoleKey)
    requires k.OtherKey? ==> k.code !in NamedKeyCodes
    ensures FromCode(Code(k)) == k
  {
  }

  datatype KeyInfo = KeyInfo(keyChar: char, key: ConsoleKey)

  /** The state after a key, and whether the key was rejected with a beep. */
  datatype Stepped = Stepped(box: TextBox, beeped: bool)

  /** `char.IsControl`: the Unicode control characters (general category Cc),
      that is the C0 block, DEL, and the C1 block. No printable ASCII character
      and no character beyond the C1 block is a control character. */
  function IsControl(c: char): (r: bool)
    ensures r <==> (c as int) / 32 == 0 || c as int == 0x7F || (c as int) / 32 == 4
    ensures ' ' <= c <= '~' ==> !r
    ensures c as int > 0x9F ==> !r
  {
    var n := c as int;
    n <= 0x1F || 0x7F <= n <= 0x9F
  }

  function Beep(b: TextBox): Stepped {
    Stepped(b, true)
  }

  /** `text[..at] + c + text[at..]`, through the two `Substring` calls. */
  function Splice(t: string, at: int, c: char): (r: Result<string, Exception>)
    ensures r.Success? <==> 0 <= at <= |t|
    ensures r.Success? ==> r.value == t[..at] + [c] + t[at..]
  {
    match SubstringOfLength(t, 0, at)
    case Failure(e) => Failure(e)
    case Success(left) =>
      match Substring(t, at)
      case Failure(e) => Failure(e)
      case Success(right) => Success(left + [c] + right)
  }

  /** Inserting a printable character. The new text holds `c` at the old
      caret, the caret advances by one, and the column advances unless it is
      already the last one, in which case the view scrolls instead. */
  function InsertChar(b: TextBox, c: char): (r: Result<Stepped, Exception>)
    ensures r.Failure? <==> b.text.Some? && !(0 <= Caret(b) <= |Content(b)|)
    ensures r.Success? ==> !r.value.beeped && r.value.box.size == b.size && r.value.box.text.Some?
    ensures Valid(b) ==> r.Success? && Valid(r.value.box)
    ensures Valid(b) ==>
      var b' := r.value.box;
      && Content(b') == Content(b)[..Caret(b)] + [c] + Content(b)[Caret(b)..]
      && |Content(b')| == |Content(b)| + 1
      && Content(b')[Caret(b)] == c
      && Caret(b') == Caret(b) + 1
      && (b.cursorPosition + 1 < b.size ==>
            b'.cursorPosition == b.cursorPosition + 1 && b'.displayOffset == b.displayOffset)
      && (b.cursorPosition + 1 >= b.size ==>
            b'.cursorPosition == b.cursorPosition && b'.displayOffset == b.displayOffset + 1)
  {
    var newText :- if b.text.Some? then Splice(b.text.value, Caret(b), c) else Success([c]);
    var b1 := b.(text := Some(newText));
    var b2 :=
      if b.cursorPosition + 1 < b.size then MoveCursor(b1, b.cursorPosition + 1)
      else b1.(displayOffset := b.displayOffset + 1);
    Success(Stepped(b2, false))
  }

  /** Delete: removes the character at the caret and keeps the caret where
      it is; beeps when there is no character at the caret. */
  function DeleteChar(b: TextBox): (r: Result<Stepped, Exception>)
    ensures r.Failure? <==> !IsNullOrEmpty(b.text) && Caret(b) < 0
    ensures r.Success? ==> r.value.box.size == b.size
    ensures r.Success? && r.value.beeped ==> r.value.box == b
    ensures Valid(b) ==> r.Success? && Valid(r.value.box)
    ensures Valid(b) ==>
      var b' := r.value.box;
      if Caret(b) < |Content(b)| then
        && !r.value.beeped
        && b'.text.Some?
        && |Content(b')| == |Content(b)| - 1
        && Content(b) == Content(b')[..Caret(b)] + [Content(b)[Caret(b)]] + Content(b')[Caret(b)..]
        && b'.cursorPosition == b.cursorPosition && b'.displayOffset == b.displayOffset
      else
        r.value.beeped
  {
    if !IsNullOrEmpty(b.text) && Caret(b) < |b.text.value| then
      match SubstringOfLength(b.text.value, 0, Caret(b))
      case Failure(e) => Failure(e)
      case Success(left) =>
        match Substring(b.text.value, Caret(b) + 1)
        case Failure(e) => Failure(e)
        case Success(right) => Success(Stepped(b.(text := Some(left + right)), false))
    else
      Success(Beep(b))
  }

  /** Backspace: removes the character before the caret and moves the caret
      back by one, un-scrolling the view in preference to moving the column;
      beeps at the start of the text. */
  function BackspaceChar(b: TextBox): (r: Result<Stepped, Exception>)
    ensures r.Failure? <==>
      !IsNullOrEmpty(b.text) && (b.displayOffset != 0 || b.cursorPosition != 0)
      && !(1 <= Caret(b) <= |Content(b)|)
    ensures r.Success? ==> r.value.box.size == b.size
    ensures r.Success? && r.value.beeped ==> r.value.box == b
    ensures Valid(b) ==> r.Success? && Valid(r.value.box)
    ensures Valid(b) ==>
      var b' := r.value.box;
      if 0 < Caret(b) && Content(b) != [] then
        && !r.value.beeped
        && b'.text.Some?
        && Caret(b') == Caret(b) - 1
        && |Content(b')| == |Content(b)| - 1
        && Content(b) == Content(b')[..Caret(b')] + [Content(b)[Caret(b')]] + Content(b')[Caret(b')..]
        && (b.displayOffset > 0 ==>
              b'.displayOffset == b.displayOffset - 1 && b'.cursorPosition == b.cursorPosition)
        && (b.displayOffset == 0 ==> b'.cursorPosition == b.cursorPosition - 1)
      else
        r.value.beeped
  {
    if !IsNullOrEmpty(b.text) && (b.displayOffset != 0 || b.cursorPosition != 0) then
      match SubstringOfLength(b.text.value, 0, Caret(b) - 1)
      case Failure(e) => Failure(e)
      case Success(left) =>
        match Substring(b.text.value, Caret(b))
        case Failure(e) => Failure(e)
        case Success(right) =>
          var b1 := b.(text := Some(left + right));
          var b2 :=
            if b.displayOffset > 0 then b1.(displayOffset := b.displayOffset - 1)
            else if b.cursorPosition > 0 then MoveCursor(b1, b.cursorPosition - 1)
            else b1;
          Success(Stepped(b2, false))
    else
      Success(Beep(b))
  }

  /** Left arrow: moves the caret back by one, moving the column before
      scrolling the view; beeps at the start of the text. */
  function MoveLeft(b: TextBox): (r: Stepped)
    ensures r.box.text == b.text && r.box.size == b.size
    ensures r.beeped ==> r.box == b
    ensures Valid(b) ==> Valid(r.box)
    ensures Valid(b) ==>
      if 0 < Caret(b) && Content(b) != [] then
        && !r.beeped
        && Caret(r.box) == Caret(b) - 1
        && (b.cursorPosition > 0 ==> r.box.displayOffset == b.displayOffset)
        && (b.cursorPosition == 0 ==> r.box.displayOffset == b.displayOffset - 1)
      else
        r.beeped
  {
    if !IsNullOrEmpty(b.text) && (b.displayOffset != 0 || b.cursorPosition != 0) then
      if b.cursorPosition > 0 then Stepped(MoveCursor(b, b.cursorPosition - 1), false)
      else if b.displayOffset > 0 then Stepped(b.(displayOffset := b.displayOffset - 1), false)
      else Stepped(b, false)
    else
      Beep(b)
  }

  /** Right arrow: moves the caret forward by one, moving the column up to the
      last one and scrolling the view after that; beeps at the end of the
      text. */
  function MoveRight(b: TextBox): (r: Stepped)
    ensures r.box.text == b.text && r.box.size == b.size
    ensures r.beeped ==> r.box == b
    ensures Valid(b) ==> Valid(r.box)
    ensures Valid(b) ==>
      if Caret(b) < |Content(b)| then
        && !r.beeped
        && Caret(r.box) == Caret(b) + 1
        && (b.cursorPosition + 1 < b.size ==> r.box.displayOffset == b.displayOffset)
        && (b.cursorPosition + 1 >= b.size ==> r.box.cursorPosition == b.cursorPosition)
      else
        r.beeped
  {
    if !IsNullOrEmpty(b.text) && Caret(b) < |b.text.value| then
      if b.cursorPosition + 1 < b.size then Stepped(MoveCursor(b, b.cursorPosition + 1), false)
      else if Caret(b) < |b.text.value| then Stepped(b.(displayOffset := b.displayOffset + 1), false)
      else Stepped(b, false)
    else
      Beep(b)
  }

  /** Home: jumps to the start of the text and unscrolls the view; beeps when
      already there. */
  function MoveHome(b: TextBox): (r: Stepped)
    ensures r.box.text == b.text && r.box.size == b.size
    ensures r.beeped <==> b.cursorPosition == 0 && b.displayOffset == 0
    ensures r.beeped ==> r.box == b
    ensures !r.beeped ==> r.box.cursorPosition == 0 && r.box.displayOffset == 0
    ensures Valid(b) ==> Valid(r.box)
  {
    if b.displayOffset != 0 || b.cursorPosition != 0 then
      Stepped(MoveCursor(b.(displayOffset := 0), 0), false)
    else
      Beep(b)
  }

  /** End: jumps to the end of the text, scrolling just far enough that the
      caret sits in the visible window; beeps when already there. */
  function MoveEnd(b: TextBox): (r: Stepped)
    ensures r.box.text == b.text && r.box.size == b.size
    ensures r.beeped ==> r.box == b
    ensures Valid(b) ==> Valid(r.box)
    ensures Valid(b) ==>
      if Caret(b) < |Content(b)| then
        && !r.beeped
        && Caret(r.box) == |Content(b)|
        && r.box.displayOffset == (if |Content(b)| - b.size + 1 > 0 then |Content(b)| - b.size + 1 else 0)
        && r.box.cursorPosition == (if |Content(b)| < b.size - 1 then |Content(b)| else b.size - 1)
      else
        r.beeped
  {
    if !IsNullOrEmpty(b.text) && Caret(b) < |b.text.value| then
      var n := |b.text.value|;
      var offset := if n >= b.size then n - b.size + 1 else 0;
      var column := if n >= b.size then b.size - 1 else n;
      Stepped(MoveCursor(b.(displayOffset := offset), column), false)
    else
      Beep(b)
  }

  /** One key press. The keyboard transitions keep the invariant and never
      throw from a valid state; a rejected key changes nothing; no key changes
      the width. */
  function KeyDown(b: TextBox, k: KeyInfo): (r: Result<Stepped, Exception>)
    ensures Valid(b) ==> r.Success? && Valid(r.value.box)
    ensures r.Success? && r.value.beeped ==> r.value.box == b
    ensures r.Success? ==> r.value.box.size == b.size
    ensures IsControl(k.keyChar) ==> r.Success? || k.key.Delete? || k.key.Backspace?
    ensures IsControl(k.keyChar) && !k.key.Delete? && !k.key.Backspace? ==>
      r.value.box.text == b.text
    ensures !IsControl(k.keyChar) ==> r == InsertChar(b, k.keyChar)
    ensures IsControl(k.keyChar) && k.key.Delete? ==> r == DeleteChar(b)
    ensures IsControl(k.keyChar) && k.key.Backspace? ==> r == BackspaceChar(b)
    ensures IsControl(k.keyChar) && k.key.LeftArrow? ==> r == Success(MoveLeft(b))
    ensures IsControl(k.keyChar) && k.key.RightArrow? ==> r == Success(MoveRight(b))
    ensures IsControl(k.keyChar) && k.key.Home? ==> r == Success(MoveHome(b))
    ensures IsControl(k.keyChar) && k.key.End? ==> r == Success(MoveEnd(b))
    ensures IsControl(k.keyChar) && k.key.OtherKey? ==> r == Success(Stepped(b, false))
  {
    if !IsControl(k.keyChar) then
      InsertChar(b, k.keyChar)
    else
      match k.key
      case Delete => DeleteChar(b)
      case Backspace => BackspaceChar(b)
      case LeftArrow => Success(MoveLeft(b))
      case RightArrow => Success(MoveRight(b))
      case Home => Success(MoveHome(b))
      case End => Success(MoveEnd(b))
      case OtherKey(_) => Success(Stepped(b, false))
  }

  /** Control keys whose code is none of the six commands neither beep nor
      change anything. */
  lemma OtherControlKeyIsIgnored(b: TextBox, c: char, code: int)
    requires IsControl(c) && code !in NamedKeyCodes
    ensures KeyDown(b, KeyInfo(c, FromCode(code))) == Success(Stepped(b, false))
  {
  }

  /** A second Home in a row is always rejected. */
  lemma HomeTwiceBeeps(b: TextBox)
    ensures MoveHome(MoveHome(b).box).beeped
  {
  }

  /** The Backspace key right after inserting a character restores the
      characters and the caret; a null text comes back as the empty text. */
  lemma BackspaceUndoesInsert(b: TextBox, c: char)
    requires Valid(b) && !IsControl(c)
    ensures var r := KeyDown(b, KeyInfo(c, OtherKey(0)));
      var u := KeyDown(r.value.box, KeyInfo('\0', Backspace));
      && u.Success? && !u.value.beeped
      && Content(u.value.box) == Content(b)
      && u.value.box.text == Some(Content(b))
      && Caret(u.value.box) == Caret(b)
  {
    assert KeyDown(b, KeyInfo(c, OtherKey(0))) == InsertChar(b, c);
    var b' := InsertChar(b, c).value.box;
    assert KeyDown(b', KeyInfo('\0', Backspace)) == BackspaceChar(b');
    var t, i := Content(b), Caret(b);
    assert Content(b') == t[..i] + [c] + t[i..] && Caret(b') == i + 1;
    assert Valid(b') && Content(b') != [];
    var q := BackspaceChar(b');
    assert q.Success? && !q.value.beeped && Caret(q.value.box) == i;
    var v := Content(q.value.box);
    assert Content(b') == v[..i] + [Content(b')[i]] + v[i..];
    UndoSplice(t, c, i, v, Content(b')[i]);
    assert q.value.box.text == Some(v);
  }

  /** Inserting a character into `t` at `i` gives the same text as putting
      one back into `v` at `i` only if `v` is `t`. */
  lemma UndoSplice(t: string, c: char, i: int, v: string, x: char)
    requires 0 <= i <= |t| && i <= |v|
    requires t[..i] + [c] + t[i..] == v[..i] + [x] + v[i..]
    ensures v == t
  {
    SpliceCancel(t[..i], c, t[i..], v[..i], x, v[i..]);
    assert t == t[..i] + t[i..];
    assert v == v[..i] + v[i..];
  }

  /** Two splices of equally long prefixes agree only if they agree piecewise. */
  lemma SpliceCancel(x: string, a: char, y: string, x': string, a': char, y': string)
    requires x + [a] + y == x' + [a'] + y' && |x| == |x'|
    ensures x == x' && a == a' && y == y'
  {
    var s := x + [a] + y;
    assert x == s[..|x|] && x' == s[..|x|];
    assert [a] + y == s[|x|..] && [a'] + y' == s[|x|..];
    assert y == ([a] + y)[1..] && y' == ([a'] + y')[1..];
  }
}
