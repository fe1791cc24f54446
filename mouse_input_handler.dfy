/**
 * The mouse input aggregator: one edge-detecting handler per tracked button
 * (left, right, middle) and the last cursor position. Button events go to the
 * matching handler; a motion event re-samples every handler at its own
 * previous level, so edges settle without inventing new presses.
 */
module MouseInput {
  import opened Wrappers
  import opened ButtonInput

  /** The buttons the windowing layer reports; `Other` carries any further button's code. */
  datatype MouseButton = Left | Right | Middle | Other(code: nat)

  /** The level a motion event re-samples: the handler's previous level, or released if it has none. */
  function MotionLevel(s: HandlerState): ButtonState {
    if s.pastState.Some? then s.pastState.value else Released
  }

  /**
   * A handler's state after a motion event at `at`. On a handler that has a
   * previous level the level and both remembered positions stay, an initial
   * click turns into a hold and a release flag drops. On a handler never
   * sampled the motion is taken as a release: it reports an initial release
   * and records `at` as the release position.
   */
  function Resampled(s: HandlerState, at: Position): (t: HandlerState)
    ensures s.pastState.Some? ==>
      && t.pastState == s.pastState
      && t.lastClickPosition == s.lastClickPosition
      && t.lastReleasePosition == s.lastReleasePosition
      && !t.isInitialClick && !t.isInitialRelease
      && t.isHeld == (s.pastState == Some(Pressed))
    ensures s.pastState.None? ==>
      t == s.(pastState := Some(Released), isInitialClick := false, isHeld := false,
              isInitialRelease := true, lastReleasePosition := Some(at))
  {
    Pushed(s, MotionLevel(s), at)
  }

  /**
   * Motion settles a handler: after one motion event, a second one only drops
   * a pending release flag and changes nothing else, wherever it happens.
   */
  lemma ResampledSettles(s: HandlerState, p: Position, q: Position)
    ensures Resampled(Resampled(s, p), q) == Resampled(s, p).(isInitialRelease := false)
  {
  }

  /** `MouseInputHandler`: three handlers it owns and the last cursor position. */
  class MouseInputHandler {
    const leftButtonHandler: ButtonHandler
    const rightButtonHandler: ButtonHandler
    const middleButtonHandler: ButtonHandler
    var x: real
    var y: real

    /** The three handlers are distinct objects. */
    ghost predicate Valid()
      reads this
    {
      && leftButtonHandler != rightButtonHandler
      && rightButtonHandler != middleButtonHandler
      && leftButtonHandler != middleButtonHandler
    }

    /** `MouseInputHandler::new`: three fresh handlers and the cursor at (0, 0). */
    constructor ()
      ensures Valid()
      ensures fresh(leftButtonHandler) && fresh(rightButtonHandler) && fresh(middleButtonHandler)
      ensures leftButtonHandler.State() == Unsampled
      ensures rightButtonHandler.State() == Unsampled
      ensures middleButtonHandler.State() == Unsampled
      ensures x == 0.0 && y == 0.0
    {
      leftButtonHandler := new ButtonHandler();
      rightButtonHandler := new ButtonHandler();
      middleButtonHandler := new ButtonHandler();
      x, y := 0.0, 0.0;
    }

    /**
     * `record_button_click`: push the button's level to the handler of the
     * button named; an untracked button reaches no handler. The cursor position
     * is overwritten in every case.
     */
    method RecordButtonClick(button: MouseButton, x': real, y': real, isDown: bool)
      requires Valid()
      modifies this, leftButtonHandler, rightButtonHandler, middleButtonHandler
      ensures Valid()
      ensures x == x' && y == y'
      ensures var level := if isDown then Pressed else Released;
        var at := Position(x', y');
        && leftButtonHandler.State()
             == (if button == Left then Pushed(old(leftButtonHandler.State()), level, at)
                 else old(leftButtonHandler.State()))
        && rightButtonHandler.State()
             == (if button == Right then Pushed(old(rightButtonHandler.State()), level, at)
                 else old(rightButtonHandler.State()))
        && middleButtonHandler.State()
             == (if button == Middle then Pushed(old(middleButtonHandler.State()), level, at)
                 else old(middleButtonHandler.State()))
    {
      var buttonState := if isDown then Pressed else Released;
      match button {
        case Left => leftButtonHandler.Push(buttonState, x', y');
        case Right => rightButtonHandler.Push(buttonState, x', y');
        case Middle => middleButtonHandler.Push(buttonState, x', y');
        case Other(_) =>
      }
      x := x';
      y := y';
    }

    /** `record_mouse_motion`: re-sample every handler at its own previous level and move the cursor. */
    method RecordMouseMotion(x': real, y': real)
      requires Valid()
      modifies this, leftButtonHandler, rightButtonHandler, middleButtonHandler
      ensures Valid()
      ensures x == x' && y == y'
      ensures leftButtonHandler.State() == Resampled(old(leftButtonHandler.State()), Position(x', y'))
      ensures rightButtonHandler.State() == Resampled(old(rightButtonHandler.State()), Position(x', y'))
      ensures middleButtonHandler.State() == Resampled(old(middleButtonHandler.State()), Position(x', y'))
    {
      var leftButtonState := if leftButtonHandler.pastState.Some? then leftButtonHandler.pastState.value else Released;
      leftButtonHandler.Push(leftButtonState, x', y');
      var rightButtonState := if rightButtonHandler.pastState.Some? then rightButtonHandler.pastState.value else Released;
      rightButtonHandler.Push(rightButtonState, x', y');
      var middleButtonState := if middleButtonHandler.pastState.Some? then middleButtonHandler.pastState.value else Released;
      middleButtonHandler.Push(middleButtonState, x', y');
      x := x';
      y := y';
    }

    /** `clear_stored_positions`: forget the click and release positions of all three handlers. */
    method ClearStoredPositions()
      requires Valid()
      modifies leftButtonHandler, rightButtonHandler, middleButtonHandler
      ensures leftButtonHandler.State() == old(leftButtonHandler.State()).(lastClickPosition := None, lastReleasePosition := None)
      ensures rightButtonHandler.State() == old(rightButtonHandler.State()).(lastClickPosition := None, lastReleasePosition := None)
      ensures middleButtonHandler.State() == old(middleButtonHandler.State()).(lastClickPosition := None, lastReleasePosition := None)
    {
      leftButtonHandler.ClearStoredPositions();
      rightButtonHandler.ClearStoredPositions();
      middleButtonHandler.ClearStoredPositions();
    }
  }
}
