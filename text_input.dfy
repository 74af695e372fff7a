// The two single-line text boxes: ui::TextInput
// (client/input/textInput/TextInput.cpp) and rtype::TextInput
// (client/menu/TextInput.cpp). Both edit a string the same way: backspace
// (code 8) removes the last character, a code in 32..127 is appended, and
// anything else is ignored. Mouse hit-testing and the clock are SFML calls and
// become parameters: whether the pointer is inside the box, and the current
// time in milliseconds.
module TextEditing {

  /** The window events the boxes react to; every other event is `OtherEvent`. */
  datatype MouseButton = Left | Right | Middle
  datatype Event =
    | MouseButtonPressed(button: MouseButton)
    | TextEntered(unicode: nat)
    | KeyReleased
    | OtherEvent

  /** Which text `render` draws in the box. */
  datatype Drawn = Placeholder | Value

  const BACKSPACE: nat := 8

  /** A code the boxes append: ASCII 32..127, that is the printable characters and DEL. */
  predicate IsAppendable(code: nat)
  {
    32 <= code < 128
  }

  /** Every character is one the boxes append (ASCII 32..127). */
  predicate Appendable(s: string)
  {
    forall i | 0 <= i < |s| :: IsAppendable(s[i] as nat)
  }

  /**
   * One accepted TextEntered event on `s`: backspace pops the last character
   * when there is one, an appendable code (32..127) is appended, anything else is ignored.
   * The result only ever differs from `s` in its last character, and a
   * buffer of appendable codes keeps only appendable codes.
   */
  function Edited(s: string, code: nat): (r: string)
    ensures Appendable(s) ==> Appendable(r)
    ensures r == s || (|r| + 1 == |s| && r == s[..|r|]) || (|r| == |s| + 1 && r[..|s|] == s && IsAppendable(r[|s|] as nat))
  {
    if code == BACKSPACE && |s| > 0 then s[..|s| - 1]
    else if IsAppendable(code) then s + [code as char]
    else s
  }

  /** Backspace right after typing an appendable character gives the buffer back. */
  lemma BackspaceUndoesTyping(s: string, code: nat)
    requires IsAppendable(code)
    ensures Edited(Edited(s, code), BACKSPACE) == s
  {
    assert (s + [code as char])[..|s|] == s;
  }

  /** The buffer after a run of accepted TextEntered events. */
  function Typed(s: string, codes: seq<nat>): string
    decreases |codes|
  {
    if |codes| == 0 then s else Typed(Edited(s, codes[0]), codes[1..])
  }

  /** The codes of the characters of `w`, one TextEntered event each. */
  function Codes(w: string): (r: seq<nat>)
    ensures |r| == |w| && forall i | 0 <= i < |w| :: r[i] == w[i] as nat
  {
    seq(|w|, i requires 0 <= i < |w| => w[i] as nat)
  }

  /** Typing a word of appendable codes appends exactly that word. */
  lemma {:induction false} TypingAppends(s: string, w: string)
    requires Appendable(w)
    ensures Typed(s, Codes(w)) == s + w
    decreases |w|
  {
    if |w| > 0 {
      assert Codes(w)[1..] == Codes(w[1..]);
      assert Edited(s, Codes(w)[0]) == s + [w[0]];
      TypingAppends(s + [w[0]], w[1..]);
      assert s + [w[0]] + w[1..] == s + w;
    }
  }

  /** Typing never introduces a code outside 32..127. */
  lemma {:induction false} TypingKeepsAppendable(s: string, codes: seq<nat>)
    requires Appendable(s)
    ensures Appendable(Typed(s, codes))
    decreases |codes|
  {
    if |codes| > 0 {
      TypingKeepsAppendable(Edited(s, codes[0]), codes[1..]);
    }
  }
}

/** ui::TextInput: the box of the login screen. */
module UiTextInput {
  import opened TextEditing

  class TextInput {
    var inputString: string
    var isActive: bool
    /** `onTextChanged` is set. */
    var hasCallback: bool
    /** The argument of every `onTextChanged` call, in order. */
    var notified: seq<string>

    /** The constructor: inactive, empty, no callback. */
    constructor ()
      ensures inputString == [] && !isActive && !hasCallback && notified == []
    {
      inputString := [];
      isActive := false;
      hasCallback := false;
      notified := [];
    }

    /** `setOnTextChanged`. */
    method SetOnTextChanged()
      modifies this`hasCallback
      ensures hasCallback
    {
      hasCallback := true;
    }

    /**
     * `handleEvent`: a left click makes the box active exactly when the
     * pointer is over it. While active, a TextEntered event edits the string
     * and then calls `onTextChanged` with it, whether or not the string
     * changed.
     */
    method HandleEvent(event: Event, mouseOver: bool)
      modifies this`isActive, this`inputString, this`notified
      ensures isActive == if event == MouseButtonPressed(Left) then mouseOver else old(isActive)
      ensures event.TextEntered? && isActive ==>
        inputString == Edited(old(inputString), event.unicode) &&
        notified == old(notified) + if hasCallback then [inputString] else []
      ensures !(event.TextEntered? && isActive) ==> inputString == old(inputString) && notified == old(notified)
    {
      if event.MouseButtonPressed? && event.button == Left {
        isActive := mouseOver;
      }
      if event.TextEntered? && isActive {
        if event.unicode == BACKSPACE && |inputString| > 0 {
          inputString := inputString[..|inputString| - 1];
        } else if event.unicode < 128 && event.unicode > 31 {
          inputString := inputString + [event.unicode as char];
        }
        if hasCallback {
          notified := notified + [inputString];
        }
      }
    }

    /** `getValue`. */
    method GetValue() returns (value: string)
      ensures value == inputString
    {
      value := inputString;
    }

    /** Which text `render` draws: the placeholder only while the box is empty and inactive. */
    method Render() returns (drawn: Drawn)
      ensures drawn == Placeholder <==> inputString == [] && !isActive
    {
      if |inputString| == 0 && !isActive {
        drawn := Placeholder;
      } else {
        drawn := Value;
      }
    }
  }
}

/** rtype::TextInput: the box of the menu, with a key-repeat throttle and a blinking cursor. */
module MenuTextInput {
  import opened TextEditing

  /** `keyRepeatInterval` and `keyRepeatDelay`, in milliseconds. */
  const KEY_REPEAT_INTERVAL_MS: int := 500
  const KEY_REPEAT_DELAY_MS: int := 1000

  /**
   * The throttle `!isKeyPressed || elapsed >= (isKeyPressed ? keyRepeatInterval
   * : keyRepeatDelay)`: the delay arm is only reached when the key is not
   * pressed, where the first disjunct already holds, so only the interval
   * counts.
   */
  predicate Accepts(isKeyPressed: bool, elapsed: int)
    ensures Accepts(isKeyPressed, elapsed) == (!isKeyPressed || elapsed >= KEY_REPEAT_INTERVAL_MS)
  {
    !isKeyPressed || elapsed >= (if isKeyPressed then KEY_REPEAT_INTERVAL_MS else KEY_REPEAT_DELAY_MS)
  }

  class TextInput {
    var text: string
    var isActive: bool
    var isKeyPressed: bool
    /** When `keyRepeatClock` was last restarted. */
    var keyRepeatStart: int
    var cursorBlinkTime: real
    var showCursor: bool

    /** The constructor: inactive, empty, cursor hidden; the clock starts at `now`. */
    constructor (now: int)
      ensures text == [] && !isActive && !isKeyPressed && keyRepeatStart == now
      ensures cursorBlinkTime == 0.0 && !showCursor
    {
      text := [];
      isActive := false;
      isKeyPressed := false;
      keyRepeatStart := now;
      cursorBlinkTime := 0.0;
      showCursor := false;
    }

    /**
     * `handleEvent` at time `now`: any press inside the box activates it and
     * is reported as handled; a press outside deactivates it. While active,
     * an accepted TextEntered event edits the text and restarts the repeat
     * clock, and a KeyReleased clears the pressed flag.
     */
    method HandleEvent(event: Event, inside: bool, now: int) returns (handled: bool)
      modifies this`isActive, this`text, this`isKeyPressed, this`keyRepeatStart
      ensures handled == (event.MouseButtonPressed? && inside)
      ensures isActive == if event.MouseButtonPressed? then inside else old(isActive)
      ensures var typed := event.TextEntered? && isActive && Accepts(old(isKeyPressed), now - old(keyRepeatStart));
        text == (if typed then Edited(old(text), event.unicode) else old(text)) &&
        isKeyPressed == (if typed then true else if event.KeyReleased? && isActive then false else old(isKeyPressed)) &&
        keyRepeatStart == (if typed || (event.KeyReleased? && isActive) then now else old(keyRepeatStart))
    {
      if event.MouseButtonPressed? {
        if inside {
          isActive := true;
          return true;
        } else {
          isActive := false;
        }
      }
      if isActive {
        if event.TextEntered? {
          if !isKeyPressed || now - keyRepeatStart >= (if isKeyPressed then KEY_REPEAT_INTERVAL_MS else KEY_REPEAT_DELAY_MS) {
            if event.unicode == BACKSPACE {
              if |text| > 0 {
                text := text[..|text| - 1];
              }
            } else if event.unicode >= 32 && event.unicode < 128 {
              text := text + [event.unicode as char];
            }
            keyRepeatStart := now;
            isKeyPressed := true;
          }
        } else if event.KeyReleased? {
          isKeyPressed := false;
          keyRepeatStart := now;
        }
      }
      return false;
    }

    /** `setValue`: the whole text is replaced. */
    method SetValue(value: string)
      modifies this`text
      ensures text == value
    {
      text := value;
    }

    /** `getValue`. */
    method GetValue() returns (value: string)
      ensures value == text
    {
      value := text;
    }

    /**
     * `render`: the placeholder is drawn exactly when the text is empty. While
     * active, each call adds 0.1 to the blink timer; on reaching 0.5 the
     * cursor toggles and the timer restarts. The cursor is drawn when shown.
     */
    method Render() returns (drawn: Drawn, cursorDrawn: bool)
      modifies this`cursorBlinkTime, this`showCursor
      ensures drawn == Placeholder <==> text == []
      ensures !isActive ==> cursorBlinkTime == old(cursorBlinkTime) && showCursor == old(showCursor) && !cursorDrawn
      ensures isActive ==>
        var t := old(cursorBlinkTime) + 0.1;
        (t >= 0.5 ==> showCursor == !old(showCursor) && cursorBlinkTime == 0.0) &&
        (t < 0.5 ==> showCursor == old(showCursor) && cursorBlinkTime == t) &&
        cursorDrawn == showCursor
    {
      drawn := if |text| == 0 then Placeholder else Value;
      cursorDrawn := false;
      if isActive {
        cursorBlinkTime := cursorBlinkTime + 0.1;
        if cursorBlinkTime >= 0.5 {
          showCursor := !showCursor;
          cursorBlinkTime := 0.0;
        }
        cursorDrawn := showCursor;
      }
    }
  }
}
