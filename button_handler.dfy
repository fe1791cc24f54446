/**
 * Edge detection for one mouse button. Each sample of the button's level
 * (pressed or released) is compared with the previous sample to derive
 * one-shot "initial click", "held" and "initial release" flags, and the
 * position of the last click and of the last release is remembered until the
 * owner clears it.
 */
module ButtonInput {
  import opened Wrappers

  /** `ButtonState`: the level of a button in one sample. */
  datatype ButtonState = Released | Pressed

  /** A cursor position in window pixels. */
  datatype Position = Position(x: real, y: real)

  /** The observable state of a handler: its fields, as one value. */
  datatype HandlerState = HandlerState(
    pastState: Option<ButtonState>,
    isInitialClick: bool,
    isHeld: bool,
    isInitialRelease: bool,
    lastClickPosition: Option<Position>,
    lastReleasePosition: Option<Position>)

  /** A handler that has never been sampled. */
  const Unsampled := HandlerState(None, false, false, false, None, None)

  /** At most one of the three edge flags is raised. */
  predicate AtMostOneFlag(s: HandlerState) {
    (if s.isInitialClick then 1 else 0) + (if s.isHeld then 1 else 0) + (if s.isInitialRelease then 1 else 0) <= 1
  }

  /**
   * The state after `push(newState, at)`. A press after a release or after no
   * sample at all is an initial click and records the click position; a press
   * after a press is a hold; a release after a press, or a first sample that is
   * a release, is an initial release and records the release position; a
   * release after a release raises no flag. Positions not recorded are kept.
   */
  function Pushed(s: HandlerState, newState: ButtonState, at: Position): (t: HandlerState)
    ensures t.pastState == Some(newState)
    ensures AtMostOneFlag(t)
    ensures t.isInitialClick <==> newState == Pressed && s.pastState != Some(Pressed)
    ensures t.isHeld <==> newState == Pressed && s.pastState == Some(Pressed)
    ensures t.isInitialRelease <==> newState == Released && s.pastState != Some(Released)
    ensures t.lastClickPosition == if t.isInitialClick then Some(at) else s.lastClickPosition
    ensures t.lastReleasePosition == if t.isInitialRelease then Some(at) else s.lastReleasePosition
  {
    match s.pastState
    case Some(oldState) =>
      (match newState
       case Pressed =>
         s.(pastState := Some(newState),
            isInitialClick := oldState == Released,
            isHeld := oldState == Pressed,
            isInitialRelease := false,
            lastClickPosition := if oldState == Released then Some(at) else s.lastClickPosition)
       case Released =>
         s.(pastState := Some(newState),
            isInitialClick := false,
            isHeld := false,
            isInitialRelease := oldState == Pressed,
            lastReleasePosition := if oldState == Pressed then Some(at) else s.lastReleasePosition))
    case None =>
      (match newState
       case Pressed =>
         s.(pastState := Some(newState), isInitialClick := true, isHeld := false, isInitialRelease := false,
            lastClickPosition := Some(at))
       case Released =>
         s.(pastState := Some(newState), isInitialClick := false, isHeld := false, isInitialRelease := true,
            lastReleasePosition := Some(at)))
  }

  /**
   * Pressed, Pressed, Released at (5, 5) on a fresh handler: initial click,
   * then held, then initial release, and the release position is (5, 5).
   */
  lemma PressHoldRelease(p: Position, q: Position)
    ensures var s1 := Pushed(Unsampled, Pressed, p);
      var s2 := Pushed(s1, Pressed, q);
      var s3 := Pushed(s2, Released, Position(5.0, 5.0));
      && [s1.isInitialClick, s2.isInitialClick, s3.isInitialClick] == [true, false, false]
      && [s1.isHeld, s2.isHeld, s3.isHeld] == [false, true, false]
      && [s1.isInitialRelease, s2.isInitialRelease, s3.isInitialRelease] == [false, false, true]
      && s3.lastReleasePosition == Some(Position(5.0, 5.0))
      && s3.lastClickPosition == Some(p)
  {
  }

  /** `ButtonHandler`: the fields the source updates in place. */
  class ButtonHandler {
    var pastState: Option<ButtonState>
    var isInitialClick: bool
    var isHeld: bool
    var isInitialRelease: bool
    var lastClickPosition: Option<Position>
    var lastReleasePosition: Option<Position>

    /** The handler's fields as one value. */
    function State(): HandlerState
      reads this
    {
      HandlerState(pastState, isInitialClick, isHeld, isInitialRelease, lastClickPosition, lastReleasePosition)
    }

    /** `ButtonHandler::new`: no sample yet, no flag raised, no position remembered. */
    constructor ()
      ensures State() == Unsampled
    {
      pastState := None;
      isInitialClick := false;
      isHeld := false;
      isInitialRelease := false;
      lastClickPosition := None;
      lastReleasePosition := None;
    }

    /** `push`: record one sample of the button's level at position (x, y). */
    method Push(newState: ButtonState, x: real, y: real)
      modifies this
      ensures State() == Pushed(old(State()), newState, Position(x, y))
    {
      if pastState.Some? {
        var oldState := pastState.value;
        match newState {
          case Pressed =>
            isInitialClick := oldState == Released;
            isHeld := oldState == Pressed;
            isInitialRelease := false;
            if oldState == Released {
              lastClickPosition := Some(Position(x, y));
            }
          case Released =>
            isInitialClick := false;
            isHeld := false;
            isInitialRelease := oldState == Pressed;
            if oldState == Pressed {
              lastReleasePosition := Some(Position(x, y));
            }
        }
      } else {
        match newState {
          case Pressed =>
            isInitialClick := true;
            isHeld := false;
            isInitialRelease := false;
            lastClickPosition := Some(Position(x, y));
          case Released =>
            isInitialClick := false;
            isHeld := false;
            isInitialRelease := true;
            lastReleasePosition := Some(Position(x, y));
        }
      }
      pastState := Some(newState);
    }

    /** `clear_stored_positions`: forget both positions; the level and the flags stay. */
    method ClearStoredPositions()
      modifies this
      ensures State() == old(State()).(lastClickPosition := None, lastReleasePosition := None)
    {
      lastReleasePosition := None;
      lastClickPosition := None;
    }
  }

  /** The same sequence on a handler object: its specification is all a caller needs. */
  method PressHoldReleaseOnHandler()
  {
    var h := new ButtonHandler();
    h.Push(Pressed, 0.0, 0.0);
    assert h.isInitialClick && !h.isHeld && !h.isInitialRelease;
    h.Push(Pressed, 0.0, 0.0);
    assert !h.isInitialClick && h.isHeld && !h.isInitialRelease;
    h.Push(Released, 5.0, 5.0);
    assert !h.isInitialClick && !h.isHeld && h.isInitialRelease;
    assert h.lastReleasePosition == Some(Position(5.0, 5.0));
    h.Push(Released, 7.0, 7.0);
    assert h.lastReleasePosition == Some(Position(5.0, 5.0));
    h.ClearStoredPositions();
    assert h.lastReleasePosition == None && h.lastClickPosition == None;
  }
}
