/**
 * `SweeperScreen` as controller glue: it owns the board, rebuilds it from the
 * stored seed on the panel's Reset and board-change commands, and runs one
 * frame of play in the source's order.
 */
module Controller {
  import opened Wrappers
  import opened Grid
  import opened Markers
  import opened BoardSpec
  import opened Board
  import opened MouseInput

  /** Board size and mine ratio (one mine per `crabRatio` cells on average). */
  datatype Dimensions = Dimensions(width: nat, height: nat, crabRatio: nat)

  /** The panel's button commands: rebuild as is, or rebuild with some settings overridden. */
  datatype Command = Reset | Change(width: Option<nat>, height: Option<nat>, crabRatio: Option<nat>)

  /** The seven panel buttons, top to bottom: Reset, 10x10, 15x10, 15x15, 1:5, 1:8 and the one labelled 1:15. */
  const PanelCommands: seq<Command> := [
    Reset,
    Change(Some(10), Some(10), None), Change(Some(15), Some(10), None), Change(Some(15), Some(15), None),
    Change(None, None, Some(5)), Change(None, None, Some(8)), Change(None, None, Some(10))
  ]

  /** Settings a board can be built with. */
  predicate Playable(d: Dimensions) {
    ValidDimensions(d.width, d.height) && 1 <= d.crabRatio
  }

  /** The settings of the board a command builds from a board with settings `current`. */
  function Target(current: Dimensions, c: Command): (d: Dimensions)
    ensures c.Reset? ==> d == current
    ensures c.Change? ==> d.width == (if c.width.Some? then c.width.value else current.width)
    ensures c.Change? ==> d.height == (if c.height.Some? then c.height.value else current.height)
    ensures c.Change? ==> d.crabRatio == (if c.crabRatio.Some? then c.crabRatio.value else current.crabRatio)
  {
    match c
    case Reset => current
    case Change(w, h, r) =>
      Dimensions(
        if w.Some? then w.value else current.width,
        if h.Some? then h.value else current.height,
        if r.Some? then r.value else current.crabRatio)
  }

  /** Every panel button builds a playable board from a playable one. */
  lemma PanelCommandsKeepPlayable(current: Dimensions, k: nat)
    requires Playable(current) && k < |PanelCommands|
    ensures Playable(Target(current, PanelCommands[k]))
  {
    var c := PanelCommands[k];
    var d := Target(current, c);
    if k == 4 || k == 5 || k == 6 {
      assert d.width == current.width && d.height == current.height;
    }
  }

  /** The 1:15 button sets the same ratio as the default board: 10. */
  lemma FifteenButtonSetsTen()
    ensures Target(Dimensions(15, 15, 5), PanelCommands[6]) == Dimensions(15, 15, 10)
  {
  }

  /**
   * `draw(seed, ratio, n)` stands for `n` draws in [0, ratio) from the
   * generator seeded with `seed`: whatever the generator, it gives `n` values
   * in range.
   */
  ghost predicate DrawsFit(draw: (nat, nat, nat) -> seq<nat>) {
    forall seed, ratio, n :: 1 <= ratio ==>
      |draw(seed, ratio, n)| == n && forall k :: 0 <= k < n ==> draw(seed, ratio, n)[k] < ratio
  }

  /** The board index of a released tile, if it is on the board. */
  function ReleasedIndex(width: nat, height: nat, tile: Option<(nat, nat)>): (r: Option<nat>)
    requires ValidDimensions(width, height)
    ensures r.Some? ==> tile.Some? && r.value < width * height
    ensures r.Some? ==> IndexToCoordinates(width, r.value) == tile.value
  {
    match tile
    case None => None
    case Some((x, y)) => TileIndex(width, height, x, y)
  }

  /** A released tile is acted on exactly when it lies on the board. */
  lemma ReleasedIndexOnBoard(width: nat, height: nat, tile: Option<(nat, nat)>)
    requires ValidDimensions(width, height)
    ensures ReleasedIndex(width, height, tile).Some?
        <==> tile.Some? && tile.value.0 < width && tile.value.1 < height
  {
  }

  class SweeperScreen {
    var gameBoard: GameBoard
    /** The panel's remaining-flags figure. */
    var numFlags: int
    /** The stored generator seed. */
    const seed: nat
    /** The generator: `draw(seed, ratio, n)` is the run of `n` draws it makes from `seed`. */
    const draw: (nat, nat, nat) -> seq<nat>

    ghost predicate Valid()
      reads this, gameBoard
    {
      gameBoard.Valid() && DrawsFit(draw)
    }

    /** A left release on a mine tile: the game is lost. */
    ghost predicate Lost(left: Option<nat>)
      reads this, gameBoard, gameBoard.isCrab
      requires Valid()
    {
      left.Some? && left.value < Capacity && gameBoard.isCrab[left.value]
    }

    /** Settings of the current board. */
    function Current(): Dimensions
      reads this, gameBoard
    {
      Dimensions(gameBoard.width, gameBoard.height, gameBoard.crabRatio)
    }

    /** `SweeperScreen::new`: the default 10 x 10 board dealt from the seed. */
    constructor (seed: nat, draw: (nat, nat, nat) -> seq<nat>)
      requires DrawsFit(draw)
      ensures Valid() && this.seed == seed && this.draw == draw
      ensures Current() == Dimensions(10, 10, 10)
      ensures gameBoard.Dealt(draw(seed, 10, 100)) && !gameBoard.gameOver && !gameBoard.win
      ensures numFlags == 0
    {
      this.seed := seed;
      this.draw := draw;
      gameBoard := new GameBoard.Default(draw(seed, 10, 100));
      numFlags := 0;
    }

    /**
     * `reset` and `change`: build a new board with the command's settings,
     * dealt from the stored seed, so the same settings always deal the same
     * mines.
     */
    method Execute(c: Command)
      requires Valid() && Playable(Target(Current(), c))
      modifies this`gameBoard
      ensures Valid() && fresh(gameBoard)
      ensures Current() == Target(old(Current()), c)
      ensures gameBoard.Dealt(draw(seed, Current().crabRatio, Current().width * Current().height))
      ensures !gameBoard.gameOver && !gameBoard.win
    {
      match c
      case Reset => Reset();
      case Change(w, h, r) => Change(w, h, r);
    }

    /** `reset`: rebuild the board with its own settings. */
    method Reset()
      requires Valid()
      modifies this`gameBoard
      ensures Valid() && fresh(gameBoard)
      ensures Current() == old(Current())
      ensures gameBoard.Dealt(draw(seed, Current().crabRatio, Current().width * Current().height))
      ensures !gameBoard.gameOver && !gameBoard.win
    {
      var d := Current();
      gameBoard := new GameBoard(d.width, d.height, d.crabRatio, draw(seed, d.crabRatio, d.width * d.height));
    }

    /** `change`: rebuild the board, overriding the settings given. */
    method Change(width: Option<nat>, height: Option<nat>, crabRatio: Option<nat>)
      requires Valid() && Playable(Target(Current(), Command.Change(width, height, crabRatio)))
      modifies this`gameBoard
      ensures Valid() && fresh(gameBoard)
      ensures Current() == Target(old(Current()), Command.Change(width, height, crabRatio))
      ensures gameBoard.Dealt(draw(seed, Current().crabRatio, Current().width * Current().height))
      ensures !gameBoard.gameOver && !gameBoard.win
    {
      var effectiveWidth := if width.Some? then width.value else gameBoard.width;
      var effectiveHeight := if height.Some? then height.value else gameBoard.height;
      var effectiveCrabRatio := if crabRatio.Some? then crabRatio.value else gameBoard.crabRatio;
      gameBoard := new GameBoard(effectiveWidth, effectiveHeight, effectiveCrabRatio,
        draw(seed, effectiveCrabRatio, effectiveWidth * effectiveHeight));
    }

    /**
     * The end of a frame: refresh the remaining-flags figure from the board's
     * counters, then run the win test.
     */
    method Settle()
      requires Valid()
      modifies this`numFlags, gameBoard`gameOver, gameBoard`win
      ensures Valid()
      ensures numFlags == RemainingFlags(
        CountOf(gameBoard.isCrab[..], true, Current().width * Current().height),
        CountOf(gameBoard.flagMarker[..], Flagged, Current().width * Current().height))
      ensures var won := Resolved(gameBoard.isUncovered[..], gameBoard.isCrab[..], Current().width * Current().height);
        gameBoard.gameOver == (old(gameBoard.gameOver) || won) && gameBoard.win == (old(gameBoard.win) || won)
    {
      var crabs := gameBoard.NumCrabs();
      var flags := gameBoard.NumFlags();
      numFlags := RemainingFlags(crabs, flags);
      var _ := gameBoard.IsWin();
    }

    /**
     * The board's part of a frame: the released tiles act on the board, then
     * the panel's command rebuilds it, then the remaining-flags figure is
     * refreshed and the win test runs.
     */
    method Play(command: Option<Command>, leftTile: Option<(nat, nat)>, rightTile: Option<(nat, nat)>)
      returns (ghost region: set<nat>)
      requires Valid()
      requires command.Some? ==> Playable(Target(Current(), command.value))
      modifies this`gameBoard, this`numFlags, gameBoard, gameBoard.isUncovered, gameBoard.flagMarker
      ensures Valid()
      ensures command.None? ==> gameBoard == old(gameBoard)
      ensures command.None? ==> forall i :: 0 <= i < Capacity ==>
        gameBoard.isUncovered[i] == (old(gameBoard.isUncovered[i])
          || gameBoard.Released(ReleasedIndex(gameBoard.width, gameBoard.height, leftTile), region, i))
      ensures command.None? ==> forall i :: 0 <= i < Capacity ==>
        gameBoard.flagMarker[i] == if ReleasedIndex(gameBoard.width, gameBoard.height, rightTile) == Some(i)
          then Next(old(gameBoard.flagMarker[i])) else old(gameBoard.flagMarker[i])
      ensures command.None? && Lost(ReleasedIndex(gameBoard.width, gameBoard.height, leftTile))
        ==> gameBoard.gameOver && !gameBoard.win
      ensures command.Some? ==> fresh(gameBoard) && Current() == Target(old(Current()), command.value)
      ensures command.Some? ==> gameBoard.Dealt(draw(seed, Current().crabRatio, Current().width * Current().height))
      ensures numFlags == RemainingFlags(
        CountOf(gameBoard.isCrab[..], true, Current().width * Current().height),
        CountOf(gameBoard.flagMarker[..], Flagged, Current().width * Current().height))
      ensures Resolved(gameBoard.isUncovered[..], gameBoard.isCrab[..], Current().width * Current().height)
        ==> gameBoard.gameOver && gameBoard.win
      ensures var won := Resolved(gameBoard.isUncovered[..], gameBoard.isCrab[..], Current().width * Current().height);
        var lost := Lost(ReleasedIndex(gameBoard.width, gameBoard.height, leftTile));
        command.None? ==> gameBoard.gameOver == (old(gameBoard.gameOver) || lost || won)
      ensures var won := Resolved(gameBoard.isUncovered[..], gameBoard.isCrab[..], Current().width * Current().height);
        var lost := Lost(ReleasedIndex(gameBoard.width, gameBoard.height, leftTile));
        command.None? ==> gameBoard.win == (!lost && (old(gameBoard.win) || won))
      ensures var won := Resolved(gameBoard.isUncovered[..], gameBoard.isCrab[..], Current().width * Current().height);
        command.Some? ==> gameBoard.gameOver == won && gameBoard.win == won
    {
      var left := ReleasedIndex(gameBoard.width, gameBoard.height, leftTile);
      var right := ReleasedIndex(gameBoard.width, gameBoard.height, rightTile);
      region := gameBoard.Update(left, right);
      if command.Some? {
        Execute(command.value);
      }
      Settle();
      if command.None? && left.Some? && gameBoard.isCrab[left.value] {
        UncoveredMineBlocksWin(gameBoard.isUncovered[..], gameBoard.isCrab[..], gameBoard.width * gameBoard.height, left.value);
      }
    }

    /**
     * `update`, one frame: the board handles the releases (tiles are given as
     * column and row, off-board tiles ignored), then the panel's command
     * rebuilds the board, then the remaining-flags figure is refreshed, then
     * the win test runs, then the mouse's stored positions are cleared.
     */
    method Update(mouse: MouseInputHandler, command: Option<Command>,
                  leftTile: Option<(nat, nat)>, rightTile: Option<(nat, nat)>) returns (ghost region: set<nat>)
      requires Valid() && mouse.Valid()
      requires leftTile.Some? || command.Some? ==> mouse.leftButtonHandler.lastReleasePosition.Some?
      requires rightTile.Some? ==> mouse.rightButtonHandler.lastReleasePosition.Some?
      requires command.Some? ==> Playable(Target(Current(), command.value))
      modifies this, gameBoard, gameBoard.isUncovered, gameBoard.flagMarker
      modifies mouse.leftButtonHandler, mouse.rightButtonHandler, mouse.middleButtonHandler
      ensures Valid()
      ensures command.None? ==> gameBoard == old(gameBoard)
      ensures command.None? ==> forall i :: 0 <= i < Capacity ==>
        gameBoard.isUncovered[i] == (old(gameBoard.isUncovered[i])
          || gameBoard.Released(ReleasedIndex(gameBoard.width, gameBoard.height, leftTile), region, i))
      ensures command.None? ==> forall i :: 0 <= i < Capacity ==>
        gameBoard.flagMarker[i] == if ReleasedIndex(gameBoard.width, gameBoard.height, rightTile) == Some(i)
          then Next(old(gameBoard.flagMarker[i])) else old(gameBoard.flagMarker[i])
      ensures command.None? && Lost(ReleasedIndex(gameBoard.width, gameBoard.height, leftTile))
        ==> gameBoard.gameOver && !gameBoard.win
      ensures command.Some? ==> fresh(gameBoard) && Current() == Target(old(Current()), command.value)
      ensures command.Some? ==> gameBoard.Dealt(draw(seed, Current().crabRatio, Current().width * Current().height))
      ensures numFlags == RemainingFlags(
        CountOf(gameBoard.isCrab[..], true, Current().width * Current().height),
        CountOf(gameBoard.flagMarker[..], Flagged, Current().width * Current().height))
      ensures Resolved(gameBoard.isUncovered[..], gameBoard.isCrab[..], Current().width * Current().height)
        ==> gameBoard.gameOver && gameBoard.win
      ensures var won := Resolved(gameBoard.isUncovered[..], gameBoard.isCrab[..], Current().width * Current().height);
        var lost := Lost(ReleasedIndex(gameBoard.width, gameBoard.height, leftTile));
        command.None? ==> gameBoard.gameOver == (old(gameBoard.gameOver) || lost || won)
      ensures var won := Resolved(gameBoard.isUncovered[..], gameBoard.isCrab[..], Current().width * Current().height);
        var lost := Lost(ReleasedIndex(gameBoard.width, gameBoard.height, leftTile));
        command.None? ==> gameBoard.win == (!lost && (old(gameBoard.win) || won))
      ensures var won := Resolved(gameBoard.isUncovered[..], gameBoard.isCrab[..], Current().width * Current().height);
        command.Some? ==> gameBoard.gameOver == won && gameBoard.win == won
      ensures mouse.leftButtonHandler.State()
        == old(mouse.leftButtonHandler.State()).(lastClickPosition := None, lastReleasePosition := None)
      ensures mouse.rightButtonHandler.State()
        == old(mouse.rightButtonHandler.State()).(lastClickPosition := None, lastReleasePosition := None)
      ensures mouse.middleButtonHandler.State()
        == old(mouse.middleButtonHandler.State()).(lastClickPosition := None, lastReleasePosition := None)
    {
      region := Play(command, leftTile, rightTile);
      mouse.ClearStoredPositions();
    }
  }
}
