/**
 * The keyboard state: whether each key is down in the current and in the
 * previous frame, from which key presses and releases are derived.
 */
module Input {

  datatype KeyCode = Escape | Space | W | A | S | D | Q | E | F

  const KeyCount: nat := 9

  /** The key's slot in the state arrays: its position in the enumeration. */
  function ToIndex(key: KeyCode): (i: nat)
    ensures i < KeyCount
  {
    match key
    case Escape => 0
    case Space => 1
    case W => 2
    case A => 3
    case S => 4
    case D => 5
    case Q => 6
    case E => 7
    case F => 8
  }

  /** No two keys share a slot. */
  lemma ToIndexInjective()
    ensures forall a, b :: ToIndex(a) == ToIndex(b) ==> a == b
  {
    assert ToIndex(Escape) == 0 && ToIndex(Space) == 1 && ToIndex(W) == 2;
    assert ToIndex(A) == 3 && ToIndex(S) == 4 && ToIndex(D) == 5;
    assert ToIndex(Q) == 6 && ToIndex(E) == 7 && ToIndex(F) == 8;
  }

  class InputState {
    const current: array<bool>
    const previous: array<bool>

    ghost predicate Valid()
      reads this
    {
      current.Length == KeyCount && previous.Length == KeyCount && current != previous
    }

    /** Every key starts up in both frames. */
    constructor()
      ensures Valid() && fresh(current) && fresh(previous)
      ensures forall i :: 0 <= i < KeyCount ==> !current[i] && !previous[i]
    {
      current := new bool[KeyCount](_ => false);
      previous := new bool[KeyCount](_ => false);
    }

    /** The current frame becomes the previous one; afterwards no key has an edge. */
    method BeginFrame()
      requires Valid()
      modifies previous
      ensures Valid() && previous[..] == current[..]
      ensures forall key :: !WasPressed(key) && !WasReleased(key)
    {
      for i := 0 to KeyCount
        invariant forall j :: 0 <= j < i ==> previous[j] == current[j]
      {
        previous[i] := current[i];
      }
    }

    /** Every key up in both frames. */
    method Reset()
      requires Valid()
      modifies current, previous
      ensures Valid()
      ensures forall i :: 0 <= i < KeyCount ==> !current[i] && !previous[i]
      ensures forall key :: !IsDown(key) && !WasPressed(key) && !WasReleased(key)
    {
      for i := 0 to KeyCount
        invariant forall j :: 0 <= j < i ==> !current[j]
      {
        current[i] := false;
      }
      for i := 0 to KeyCount
        invariant forall j :: 0 <= j < i ==> !previous[j]
        invariant forall j :: 0 <= j < KeyCount ==> !current[j]
      {
        previous[i] := false;
      }
    }

    /** Records the key's state in the current frame and changes nothing else. */
    method SetKey(key: KeyCode, isDown: bool)
      requires Valid()
      modifies current
      ensures Valid() && current[..] == old(current[..])[ToIndex(key) := isDown]
      ensures IsDown(key) == isDown
      ensures forall other :: other != key ==> IsDown(other) == old(IsDown(other))
    {
      current[ToIndex(key)] := isDown;
      ToIndexInjective();
    }

    /** The key's state in the current frame. */
    function IsDown(key: KeyCode): (b: bool)
      reads this, current
      requires Valid()
      ensures b <==> current[ToIndex(key)]
    {
      current[ToIndex(key)]
    }

    /** The key went down since the previous frame: it is down now and was up before. */
    function WasPressed(key: KeyCode): (b: bool)
      reads this, current, previous
      requires Valid()
      ensures b <==> IsDown(key) && !previous[ToIndex(key)]
    {
      current[ToIndex(key)] && !previous[ToIndex(key)]
    }

    /** The key went up since the previous frame: it is up now and was down before, so it was not pressed. */
    function WasReleased(key: KeyCode): (b: bool)
      reads this, current, previous
      requires Valid()
      ensures b <==> !IsDown(key) && previous[ToIndex(key)]
      ensures b ==> !WasPressed(key)
    {
      !current[ToIndex(key)] && previous[ToIndex(key)]
    }

    /**
     * A key has an edge exactly when its state differs between the two
     * frames, and the edge is a press or a release, never both.
     */
    lemma EdgesAreChanges(key: KeyCode)
      requires Valid()
      ensures WasPressed(key) || WasReleased(key) <==> current[ToIndex(key)] != previous[ToIndex(key)]
      ensures !(WasPressed(key) && WasReleased(key))
      ensures WasPressed(key) <==> IsDown(key) && !previous[ToIndex(key)]
    {
    }
  }
}
