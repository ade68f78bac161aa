/**
 * The keyboard toggle the listener thread drives: Space starts and pauses
 * matching, Esc asks the main loop to stop.
 */
module KeyToggle {
  import opened Wrappers

  /** The special keys the toggle tells apart; every other one is Other. */
  datatype SpecialKey = Space | Esc | Other

  /**
   * A key event: a key that carries a character (which may be absent), or a
   * special key, which has no character at all.
   */
  datatype KeyEvent = CharKey(ch: Option<char>) | SpecialKeyEvent(key: SpecialKey)

  /** The two flags of the toggle. */
  datatype ToggleState = ToggleState(running: bool, stop: bool)

  /** A space, typed as a character or as the special Space key. */
  predicate IsSpace(key: KeyEvent) {
    key == CharKey(Some(' ')) || key == SpecialKeyEvent(Space)
  }

  predicate IsEsc(key: KeyEvent) {
    key == SpecialKeyEvent(Esc)
  }

  /**
   * The state after one key press: a space flips running, Esc sets stop and
   * leaves running alone, and any other key changes nothing.
   */
  function Next(s: ToggleState, key: KeyEvent): (t: ToggleState)
    ensures IsSpace(key) ==> t == s.(running := !s.running)
    ensures IsEsc(key) ==> t == s.(stop := true)
    ensures !IsSpace(key) && !IsEsc(key) ==> t == s
  {
    match key
    case CharKey(ch) => if ch == Some(' ') then s.(running := !s.running) else s
    case SpecialKeyEvent(k) =>
      if k == Space then s.(running := !s.running)
      else if k == Esc then s.(stop := true)
      else s
  }

  /** The state after a sequence of key presses, in order. */
  function Run(s: ToggleState, keys: seq<KeyEvent>): ToggleState
    decreases |keys|
  {
    if keys == [] then s else Run(Next(s, keys[0]), keys[1..])
  }

  /** The number of spaces in a sequence of key presses. */
  function SpaceCount(keys: seq<KeyEvent>): nat {
    if keys == [] then 0 else (if IsSpace(keys[0]) then 1 else 0) + SpaceCount(keys[1..])
  }

  /** stop is set exactly when it was set before or an Esc was pressed; it is never reset. */
  lemma {:induction false} StopMeansEsc(s: ToggleState, keys: seq<KeyEvent>)
    ensures Run(s, keys).stop <==> s.stop || SpecialKeyEvent(Esc) in keys
    decreases |keys|
  {
    if keys != [] {
      StopMeansEsc(Next(s, keys[0]), keys[1..]);
      assert keys == [keys[0]] + keys[1..];
    }
  }

  /** running has flipped once per space pressed: it changed exactly when that count is odd. */
  lemma {:induction false} RunningFollowsSpaces(s: ToggleState, keys: seq<KeyEvent>)
    ensures Run(s, keys).running == (s.running != (SpaceCount(keys) % 2 == 1))
    decreases |keys|
  {
    if keys != [] {
      RunningFollowsSpaces(Next(s, keys[0]), keys[1..]);
    }
  }

  /** The toggle object whose on_press the key listener calls. */
  class Toggle {
    var running: bool
    var stop: bool

    function State(): ToggleState
      reads this
    {
      ToggleState(running, stop)
    }

    constructor ()
      ensures State() == ToggleState(false, false)
    {
      running := false;
      stop := false;
    }

    /**
     * on_press: updates the flags as Next says, and answers whether the
     * listener should stop (the source returns False for Esc only).
     */
    method OnPress(key: KeyEvent) returns (stopListener: bool)
      modifies this
      ensures State() == Next(old(State()), key)
      ensures stopListener <==> IsEsc(key)
    {
      stopListener := false;
      match key {
        case CharKey(ch) =>
          if ch == Some(' ') {
            running := !running;
          }
        case SpecialKeyEvent(k) =>
          if k == Space {
            running := !running;
          } else if k == Esc {
            stop := true;
            stopListener := true;
          }
      }
    }
  }
}
