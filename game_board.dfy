/**
 * `GameBoard`: the board engine. Four parallel arrays of capacity 225,
 * indexed row-major, hold for every cell whether it is uncovered, whether it
 * hides a mine (a crab), how many mines are next to it and its marker.
 */
module Board {
  import opened Wrappers
  import opened Grid
  import opened Markers
  import opened BoardSpec

  /**
   * Two boards dealt with the same size and the same draws are the same
   * board: same mines, same counts, same (empty) play state.
   */
  lemma DealtBoardsAgree(a: GameBoard, b: GameBoard, draws: seq<nat>)
    requires a.Dealt(draws) && b.Dealt(draws) && a.width == b.width && a.height == b.height
    ensures a.Layout() == b.Layout()
    ensures a.isUncovered[..] == b.isUncovered[..] && a.flagMarker[..] == b.flagMarker[..]
  {
    assert a.isCrab[..] == b.isCrab[..];
    forall i | 0 <= i < Capacity
      ensures a.adjacency[i] == b.adjacency[i]
    {
      if i < a.width * a.height {
        assert a.adjacency[i] == Adjacency(a.width, a.height, a.isCrab[..], i);
      }
    }
    assert a.adjacency[..] == b.adjacency[..];
  }

  class GameBoard {
    const width: nat
    const height: nat
    const crabRatio: nat
    var gameOver: bool
    var win: bool
    const isUncovered: array<bool>
    const isCrab: array<bool>
    const adjacency: array<int>
    const flagMarker: array<FlagMarker>

    /** Dimensions fit the arrays, the mine ratio can be drawn from, and the two flag arrays are distinct. */
    ghost predicate Valid()
      reads this
    {
      && ValidDimensions(width, height) && 1 <= crabRatio
      && isUncovered.Length == Capacity && isCrab.Length == Capacity
      && adjacency.Length == Capacity && flagMarker.Length == Capacity
      && isUncovered != isCrab
    }

    /** The mine flags and adjacency counts, which no move changes. */
    function Layout(): Terrain
      reads this, isCrab, adjacency
    {
      Terrain(width, height, isCrab[..], adjacency[..])
    }

    /** Every adjacency count on the board is the number of mines next to its cell. */
    ghost predicate CountsAgree()
      reads this, isCrab, adjacency
      requires Valid()
    {
      forall i :: 0 <= i < width * height ==> adjacency[i] == Adjacency(width, height, isCrab[..], i)
    }

    /**
     * A freshly dealt board: mines placed from `draws`, counts filled in,
     * every cell covered and unmarked.
     */
    ghost predicate Dealt(draws: seq<nat>)
      reads this, isUncovered, isCrab, adjacency, flagMarker
    {
      && Valid() && CountsAgree() && |draws| == width * height
      && isCrab[..] == DrawnLayout(width, height, draws)
      && (forall i :: width * height <= i < Capacity ==> adjacency[i] == 0)
      && (forall i :: 0 <= i < Capacity ==> !isUncovered[i] && flagMarker[i] == Unmarked)
    }

    /**
     * `GameBoard::new`: an all-covered, unmarked board of the given size whose
     * mines come from `draws`, one draw in [0, crabRatio) per cell.
     */
    constructor (width: nat, height: nat, crabRatio: nat, draws: seq<nat>)
      requires ValidDimensions(width, height) && 1 <= crabRatio
      requires |draws| == width * height && forall k :: 0 <= k < |draws| ==> draws[k] < crabRatio
      ensures fresh(isUncovered) && fresh(isCrab) && fresh(adjacency) && fresh(flagMarker)
      ensures this.width == width && this.height == height && this.crabRatio == crabRatio
      ensures Dealt(draws) && !gameOver && !win
    {
      this.width := width;
      this.height := height;
      this.crabRatio := crabRatio;
      gameOver := false;
      win := false;
      isUncovered := new bool[Capacity](_ => false);
      isCrab := new bool[Capacity](_ => false);
      adjacency := new int[Capacity](_ => 0);
      flagMarker := new FlagMarker[Capacity](_ => Unmarked);
      new;
      Init(draws);
    }

    /** `GameBoard::default`: the 10 x 10 board with mine ratio 10 shown at start-up. */
    constructor Default(draws: seq<nat>)
      requires |draws| == 100 && forall k :: 0 <= k < |draws| ==> draws[k] < 10
      ensures fresh(isUncovered) && fresh(isCrab) && fresh(adjacency) && fresh(flagMarker)
      ensures width == 10 && height == 10 && crabRatio == 10
      ensures Dealt(draws) && !gameOver && !win
    {
      width := 10;
      height := 10;
      crabRatio := 10;
      gameOver := false;
      win := false;
      isUncovered := new bool[Capacity](_ => false);
      isCrab := new bool[Capacity](_ => false);
      adjacency := new int[Capacity](_ => 0);
      flagMarker := new FlagMarker[Capacity](_ => Unmarked);
      new;
      Init(draws);
    }

    /**
     * `init`: place the mines, one draw per cell of the board, then fill in
     * every cell's adjacency count. Cells past the board are left as they are.
     */
    method Init(draws: seq<nat>)
      requires Valid()
      requires |draws| == width * height
      modifies isCrab, adjacency
      ensures CountsAgree()
      ensures forall i :: 0 <= i < width * height ==> isCrab[i] == (draws[i] == 0)
      ensures forall i :: width * height <= i < Capacity ==> isCrab[i] == old(isCrab[i]) && adjacency[i] == old(adjacency[i])
    {
      var boardSize := height * width;
      for i := 0 to boardSize
        invariant forall k :: 0 <= k < i ==> isCrab[k] == (draws[k] == 0)
        invariant forall k :: i <= k < Capacity ==> isCrab[k] == old(isCrab[k])
        invariant adjacency[..] == old(adjacency[..])
      {
        var crabInt := draws[i];
        isCrab[i] := crabInt == 0;
      }
      ghost var crab := isCrab[..];
      for i := 0 to boardSize
        invariant isCrab[..] == crab
        invariant forall k :: 0 <= k < i ==> adjacency[k] == Adjacency(width, height, crab, k)
        invariant forall k :: i <= k < Capacity ==> adjacency[k] == old(adjacency[k])
      {
        var count := CountAround(i);
        adjacency[i] := count;
      }
    }

    /**
     * The eight guarded neighbour checks of `init` for cell `i`, NW to W
     * (the order `NeighboursUnrolled` writes out): one more for each
     * neighbour on the board that holds a mine.
     */
    method CountAround(i: nat) returns (count: nat)
      requires Valid() && i < width * height
      ensures count == Adjacency(width, height, isCrab[..], i)
    {
      var ns := Neighbours(width, height, i);
      count := 0;
      for k := 0 to |ns|
        invariant count == CrabCount(isCrab[..], ns[..k])
      {
        assert ns[..k + 1][..k] == ns[..k];
        if isCrab[ns[k]] {
          count := count + 1;
        }
      }
      assert ns[..|ns|] == ns;
    }

    /** `reveal_bombs`: uncover every mine of the board. */
    method RevealBombs()
      requires Valid()
      modifies isUncovered
      ensures forall i :: 0 <= i < Capacity ==>
        isUncovered[i] == (old(isUncovered[i]) || (i < width * height && isCrab[i]))
    {
      var size := height * width;
      for i := 0 to size
        invariant forall k :: 0 <= k < Capacity ==>
          isUncovered[k] == (old(isUncovered[k]) || (k < i && isCrab[k]))
      {
        if isCrab[i] {
          isUncovered[i] := true;
        }
      }
    }

    /**
     * `uncover_tiles`: uncover the clicked cell and, when it is a zero cell,
     * flood its zero region wave by wave. The cells uncovered are the clicked
     * one and every neighbour of its zero region, mines included; nothing else
     * changes.
     */
    method UncoverTiles(clicked: nat) returns (ghost region: set<nat>)
      requires Valid() && clicked < width * height
      modifies isUncovered
      ensures Zero(Layout(), clicked) ==> IsZeroRegion(Layout(), clicked, region)
      ensures !Zero(Layout(), clicked) ==> region == {}
      ensures forall i :: 0 <= i < Capacity ==>
        isUncovered[i] == (old(isUncovered[i]) || i == clicked || Bordering(Layout(), region, i))
      ensures !Zero(Layout(), clicked) ==> forall i :: 0 <= i < Capacity ==>
        isUncovered[i] == (old(isUncovered[i]) || i == clicked)
    {
      ghost var t := Layout();
      ghost var before := isUncovered[..];
      var alreadyExpanded: seq<nat> := [];
      var expandableIndices: seq<nat> := [];
      isUncovered[clicked] := true;
      if !isCrab[clicked] && adjacency[clicked] == 0 {
        expandableIndices := [clicked];
      }
      ghost var start: set<nat> := if Zero(t, clicked) then {clicked} else {};
      FloodStart(t, clicked, before, isUncovered[..]);
      assert Members(alreadyExpanded) == {};

      while expandableIndices != []
        invariant t == Layout()
        invariant start == {} ==> expandableIndices == [] && alreadyExpanded == []
        invariant FloodInvariant(t, clicked, before, isUncovered[..], Members(alreadyExpanded), start, expandableIndices)
        decreases Cells(width * height) - Members(alreadyExpanded), |expandableIndices|
      {
        ghost var seen := alreadyExpanded;
        ghost var uncovered := isUncovered[..];
        var nextExpandableIndices;
        alreadyExpanded, nextExpandableIndices := ExpandWave(expandableIndices, alreadyExpanded);
        WaveStep(t, clicked, before, uncovered, isUncovered[..], seen, start, expandableIndices, nextExpandableIndices);
        WaveShrinksRest(width * height, seen, nextExpandableIndices);
        expandableIndices := nextExpandableIndices;
      }
      region := Members(alreadyExpanded) + start;
      FloodDone(t, clicked, before, isUncovered[..], Members(alreadyExpanded), start);
    }

    /**
     * The body of the loop over the current wave: expand each of its cells in
     * turn, collecting the next wave.
     */
    method ExpandWave(wave: seq<nat>, alreadyExpanded: seq<nat>) returns (expanded: seq<nat>, next: seq<nat>)
      requires Valid() && OnBoard(Layout(), wave)
      modifies isUncovered
      ensures next == WaveZeros(Layout(), wave, alreadyExpanded)
      ensures expanded == alreadyExpanded + next
      ensures forall i :: 0 <= i < Capacity ==>
        isUncovered[i] == (old(isUncovered[i]) || Bordering(Layout(), Members(wave), i))
    {
      ghost var t := Layout();
      ghost var before := isUncovered[..];
      expanded, next := alreadyExpanded, [];
      assert Members(wave[..0]) == {};
      for j := 0 to |wave|
        invariant t == Layout()
        invariant next == WaveZeros(t, wave[..j], alreadyExpanded)
        invariant expanded == alreadyExpanded + next
        invariant UncoveredBy(t, before, isUncovered[..], Members(wave[..j]))
      {
        ghost var mid := isUncovered[..];
        ghost var next0 := next;
        WaveSnoc(t, wave, j, alreadyExpanded);
        expanded, next := ExpandCell(wave[j], expanded, next);
        AppendAssoc(alreadyExpanded, next0, FreshZeros(t, Neighbours(width, height, wave[j]), alreadyExpanded + next0));
        UncoverSnoc(t, wave, j, before, mid, isUncovered[..]);
      }
      assert wave[..|wave|] == wave;
    }

    /**
     * The eight neighbour checks of one expanded cell `e`: uncover each
     * neighbour, and queue each zero neighbour not yet in `alreadyExpanded`.
     */
    method ExpandCell(e: nat, alreadyExpanded: seq<nat>, next: seq<nat>) returns (expanded: seq<nat>, next': seq<nat>)
      requires Valid() && e < width * height
      modifies isUncovered
      ensures expanded == alreadyExpanded + FreshZeros(Layout(), Neighbours(width, height, e), alreadyExpanded)
      ensures next' == next + FreshZeros(Layout(), Neighbours(width, height, e), alreadyExpanded)
      ensures forall i :: 0 <= i < Capacity ==>
        isUncovered[i] == (old(isUncovered[i]) || i in Neighbours(width, height, e))
    {
      ghost var t := Layout();
      var ns := Neighbours(width, height, e);
      assert OnBoard(t, ns);
      expanded, next' := alreadyExpanded, next;
      for k := 0 to |ns|
        invariant t == Layout()
        invariant expanded == alreadyExpanded + FreshZeros(t, ns[..k], alreadyExpanded)
        invariant next' == next + FreshZeros(t, ns[..k], alreadyExpanded)
        invariant forall i :: 0 <= i < Capacity ==> isUncovered[i] == (old(isUncovered[i]) || i in ns[..k])
      {
        assert ns[..k + 1][..k] == ns[..k];
        assert forall x :: x in ns[..k + 1] <==> x in ns[..k] || x == ns[k];
        var n := ns[k];
        isUncovered[n] := true;
        if !isCrab[n] && adjacency[n] == 0 && n !in expanded {
          AppendAssoc(alreadyExpanded, FreshZeros(t, ns[..k], alreadyExpanded), [n]);
          AppendAssoc(next, FreshZeros(t, ns[..k], alreadyExpanded), [n]);
          expanded := expanded + [n];
          next' := next' + [n];
        }
      }
      assert ns[..|ns|] == ns;
    }

    /**
     * `update`: a left release on a tile uncovers it (and its zero region);
     * when that tile is a mine the game is lost and every mine is shown. A
     * right release on a tile cycles its marker by adding `Flagged`. Neither
     * looks at `gameOver` first.
     */
    method Update(leftTile: Option<nat>, rightTile: Option<nat>) returns (ghost region: set<nat>)
      requires Valid()
      requires leftTile.Some? ==> leftTile.value < width * height
      requires rightTile.Some? ==> rightTile.value < width * height
      modifies this`gameOver, this`win, isUncovered, flagMarker
      ensures Valid()
      ensures leftTile.Some? && Zero(Layout(), leftTile.value) ==> IsZeroRegion(Layout(), leftTile.value, region)
      ensures leftTile.None? || !Zero(Layout(), leftTile.value) ==> region == {}
      ensures forall i :: 0 <= i < Capacity ==>
        isUncovered[i] == (old(isUncovered[i]) || Released(leftTile, region, i))
      ensures leftTile.Some? && isCrab[leftTile.value] ==> gameOver && !win
      ensures !(leftTile.Some? && isCrab[leftTile.value]) ==> gameOver == old(gameOver) && win == old(win)
      ensures forall i :: 0 <= i < Capacity ==>
        flagMarker[i] == if rightTile == Some(i) then Next(old(flagMarker[i])) else old(flagMarker[i])
    {
      region := {};
      if leftTile.Some? {
        var i := leftTile.value;
        region := UncoverTiles(i);
        if isCrab[i] {
          gameOver := true;
          win := false;
          RevealBombs();
        }
      }
      if rightTile.Some? {
        var i := rightTile.value;
        AddFlaggedIsNext(flagMarker[i]);
        flagMarker[i] := Add(flagMarker[i], FromByte(1));
      }
    }

    /**
     * What a left release uncovers besides what was open: the tile released on,
     * the neighbours of its zero region and, when it is a mine, every mine.
     */
    ghost predicate Released(leftTile: Option<nat>, region: set<nat>, i: nat)
      reads this, isCrab, adjacency
      requires Valid() && (leftTile.Some? ==> leftTile.value < width * height)
    {
      match leftTile
      case None => false
      case Some(c) =>
        i == c || Bordering(Layout(), region, i) || (isCrab[c] && i < width * height && isCrab[i])
    }

    /** `num_crabs`: the number of mines on the board. */
    method NumCrabs() returns (counter: nat)
      requires Valid()
      ensures counter == CountOf(isCrab[..], true, width * height)
    {
      counter := 0;
      var boardSize := width * height;
      for i := 0 to boardSize
        invariant counter == CountOf(isCrab[..], true, i)
      {
        if isCrab[i] {
          counter := counter + 1;
        }
      }
    }

    /** `num_flags`: the number of cells marked `Flagged`. */
    method NumFlags() returns (counter: nat)
      requires Valid()
      ensures counter == CountOf(flagMarker[..], Flagged, width * height)
    {
      counter := 0;
      var boardSize := width * height;
      for i := 0 to boardSize
        invariant counter == CountOf(flagMarker[..], Flagged, i)
      {
        if flagMarker[i] == Flagged {
          counter := counter + 1;
        }
      }
    }

    /**
     * `is_win`: the board is won when every cell is uncovered exactly when it
     * holds no mine. A win sets `gameOver` and `win`; a non-win clears neither.
     */
    method IsWin() returns (winning: bool)
      requires Valid()
      modifies this`gameOver, this`win
      ensures Valid()
      ensures winning == Resolved(isUncovered[..], isCrab[..], width * height)
      ensures gameOver == (old(gameOver) || winning) && win == (old(win) || winning)
    {
      winning := true;
      var boardSize := width * height;
      var i := 0;
      while i < boardSize && winning
        invariant 0 <= i <= boardSize
        invariant winning == Resolved(isUncovered[..], isCrab[..], i)
        invariant !winning ==> !Resolved(isUncovered[..], isCrab[..], boardSize)
      {
        winning := isUncovered[i] != isCrab[i];
        i := i + 1;
      }
      if winning {
        gameOver := true;
        win := true;
      }
    }
  }
}
