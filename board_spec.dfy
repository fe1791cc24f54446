/**
 * What the board engine computes, stated on values: the mine layout drawn at
 * generation, the adjacency counts, the zero region a reveal floods, and the
 * counts and win test the engine recomputes every frame.
 */
module BoardSpec {
  import opened Grid
  import opened Markers

  /** The part of a board a reveal reads: its dimensions, mine flags and adjacency counts. */
  datatype Terrain = Terrain(width: nat, height: nat, crab: seq<bool>, adjacency: seq<int>)

  predicate WellFormed(t: Terrain) {
    ValidDimensions(t.width, t.height) && |t.crab| == Capacity && |t.adjacency| == Capacity
  }

  /** A zero cell: no mine on it and no mine next to it. Only these spread a reveal. */
  predicate Zero(t: Terrain, i: nat) {
    i < |t.crab| && i < |t.adjacency| && !t.crab[i] && t.adjacency[i] == 0
  }

  // ---------------------------------------------------------------- generation

  /** The mine flags generation draws: cell i of the board is a mine iff its draw is 0; cells past the board stay clear. */
  function DrawnLayout(width: nat, height: nat, draws: seq<nat>): (crab: seq<bool>)
    requires |draws| == width * height <= Capacity
    ensures |crab| == Capacity
  {
    seq(Capacity, i requires 0 <= i < Capacity => i < width * height && draws[i] == 0)
  }

  /** How many of the listed cells hold a mine. */
  function CrabCount(crab: seq<bool>, ns: seq<nat>): (c: nat)
    ensures c <= |ns|
  {
    if ns == [] then 0
    else CrabCount(crab, ns[..|ns| - 1]) + (if ns[|ns| - 1] < |crab| && crab[ns[|ns| - 1]] then 1 else 0)
  }

  /** The adjacency count of cell i: the mines among its neighbours, checked NW, N, NE, E, SE, S, SW, W. */
  function Adjacency(width: nat, height: nat, crab: seq<bool>, i: nat): (a: nat)
    requires ValidDimensions(width, height) && i < width * height
    ensures a <= |Neighbours(width, height, i)|
  {
    CrabCount(crab, Neighbours(width, height, i))
  }

  /** The mined cells a list names. */
  function Mined(crab: seq<bool>, ns: seq<nat>): (m: set<nat>)
    ensures forall n :: n in m <==> n in ns && n < |crab| && crab[n]
  {
    if ns == [] then {}
    else
      var front, last := ns[..|ns| - 1], ns[|ns| - 1];
      assert forall x :: x in ns <==> x in front || x == last by {
        assert ns == front + [last];
      }
      Mined(crab, front) + (if last < |crab| && crab[last] then {last} else {})
  }

  lemma {:induction false} CrabCountIsMined(crab: seq<bool>, ns: seq<nat>)
    requires Distinct(ns)
    ensures CrabCount(crab, ns) == |Mined(crab, ns)|
  {
    if ns != [] {
      var front, last := ns[..|ns| - 1], ns[|ns| - 1];
      CrabCountIsMined(crab, front);
      assert last !in Mined(crab, front) by {
        forall k | 0 <= k < |front|
          ensures front[k] != last
        {
          assert front[k] == ns[k];
        }
      }
    }
  }

  /** Counting the mines along a list without repeats counts the set of mined cells it names. */
  lemma CrabCountIsCardinality(crab: seq<bool>, ns: seq<nat>)
    requires Distinct(ns)
    ensures CrabCount(crab, ns) == |set n | n in ns && n < |crab| && crab[n]|
  {
    CrabCountIsMined(crab, ns);
    assert Mined(crab, ns) == set n | n in ns && n < |crab| && crab[n];
  }

  /**
   * The adjacency count is the number of mines among the Moore neighbours of
   * the cell that lie on the board.
   */
  lemma AdjacencyCountsMooreMines(width: nat, height: nat, crab: seq<bool>, i: nat)
    requires ValidDimensions(width, height) && i < width * height && |crab| >= width * height
    ensures Adjacency(width, height, crab, i)
         == |set n | 0 <= n < width * height && Adjacent(width, i, n) && crab[n]|
  {
    var ns := Neighbours(width, height, i);
    NeighboursDistinct(width, height, i);
    CrabCountIsCardinality(crab, ns);
    var listed := set n | n in ns && n < |crab| && crab[n];
    var moore := set n | 0 <= n < width * height && Adjacent(width, i, n) && crab[n];
    forall n | n in listed ensures n in moore {
      NeighboursSound(width, height, i, n);
    }
    forall n | n in moore ensures n in listed {
      NeighboursComplete(width, height, i, n);
    }
    assert listed == moore;
  }

  /** An adjacency count is at most 8, at most 3 in a corner and at most 5 on an edge. */
  lemma AdjacencyBounds(width: nat, height: nat, crab: seq<bool>, i: nat)
    requires ValidDimensions(width, height) && i < width * height
    ensures var (x, y) := IndexToCoordinates(width, i);
      var a := Adjacency(width, height, crab, i);
      && a <= 8
      && ((x == 0 || x == width - 1) && (y == 0 || y == height - 1) ==> a <= 3)
      && ((x == 0 || x == width - 1 || y == 0 || y == height - 1) ==> a <= 5)
  {
    NeighbourBounds(width, height, i);
  }

  // ---------------------------------------------------------------- reveal

  /** A chain of zero cells from `from` to `to`, each a neighbour of the one before. */
  ghost predicate ZeroPath(t: Terrain, from: nat, to: nat, p: seq<nat>)
    requires WellFormed(t)
  {
    && |p| >= 1 && p[0] == from && p[|p| - 1] == to
    && (forall k :: 0 <= k < |p| ==> p[k] < t.width * t.height && Zero(t, p[k]))
    && (forall k :: 0 <= k < |p| - 1 ==> p[k + 1] in Neighbours(t.width, t.height, p[k]))
  }

  lemma ZeroPathExtend(t: Terrain, from: nat, to: nat, p: seq<nat>, n: nat)
    requires WellFormed(t) && ZeroPath(t, from, to, p)
    requires n in Neighbours(t.width, t.height, to) && Zero(t, n)
    ensures ZeroPath(t, from, n, p + [n])
  {
  }

  /**
   * The zero region of `c`: the zero cells joined to `c` through zero cells.
   * It holds `c`, holds only zero cells of the board, holds every zero
   * neighbour of its cells, and each of its cells is reached from `c` along a
   * chain of zero cells.
   */
  ghost predicate IsZeroRegion(t: Terrain, c: nat, region: set<nat>)
    requires WellFormed(t)
  {
    && c in region
    && (forall r :: r in region ==> r < t.width * t.height && Zero(t, r))
    && (forall r, n :: r in region && n in Neighbours(t.width, t.height, r) && Zero(t, n) ==> n in region)
    && (forall r :: r in region ==> Reached(t, c, r))
  }

  /** `to` is joined to `from` by a chain of zero cells. */
  ghost predicate Reached(t: Terrain, from: nat, to: nat)
    requires WellFormed(t)
  {
    exists p :: ZeroPath(t, from, to, p)
  }

  /** A zero neighbour of a reached cell is reached. */
  lemma ReachedStep(t: Terrain, from: nat, to: nat, n: nat)
    requires WellFormed(t) && Reached(t, from, to)
    requires n in Neighbours(t.width, t.height, to) && Zero(t, n)
    ensures Reached(t, from, n)
  {
    var p :| ZeroPath(t, from, to, p);
    ZeroPathExtend(t, from, to, p, n);
  }

  /** A cell next to some cell of `region`. */
  ghost predicate Bordering(t: Terrain, region: set<nat>, i: nat)
    requires WellFormed(t)
  {
    exists r :: r in region && r < t.width * t.height && i in Neighbours(t.width, t.height, r)
  }

  /** Bordering a larger region is implied by bordering a smaller one. */
  lemma BorderingMonotone(t: Terrain, a: set<nat>, b: set<nat>, i: nat)
    requires WellFormed(t) && a <= b && Bordering(t, a, i)
    ensures Bordering(t, b, i)
  {
    var r :| r in a && r < t.width * t.height && i in Neighbours(t.width, t.height, r);
    assert r in b;
  }

  /** Bordering a region grown by one cell `e` is bordering the old region or being a neighbour of `e`. */
  lemma BorderingAdd(t: Terrain, a: set<nat>, e: nat, i: nat)
    requires WellFormed(t) && e < t.width * t.height
    ensures Bordering(t, a + {e}, i) <==> Bordering(t, a, i) || i in Neighbours(t.width, t.height, e)
  {
    if Bordering(t, a + {e}, i) {
      var r :| r in a + {e} && r < t.width * t.height && i in Neighbours(t.width, t.height, r);
      if r != e {
        assert r in a;
      }
    }
    if i in Neighbours(t.width, t.height, e) {
      assert e in a + {e};
    }
    if Bordering(t, a, i) {
      BorderingMonotone(t, a, a + {e}, i);
    }
  }

  /**
   * What one expanded cell adds to the visited list: its zero neighbours, in
   * visiting order, that are not in `seen` and not already added.
   */
  function FreshZeros(t: Terrain, ns: seq<nat>, seen: seq<nat>): (z: seq<nat>)
    ensures forall x :: x in z <==> x in ns && Zero(t, x) && x !in seen
  {
    if ns == [] then []
    else
      var z0 := FreshZeros(t, ns[..|ns| - 1], seen);
      var n := ns[|ns| - 1];
      assert forall x :: x in ns <==> x in ns[..|ns| - 1] || x == n;
      if Zero(t, n) && n !in seen && n !in z0 then z0 + [n] else z0
  }

  /** Every listed index is a cell of the board. */
  predicate OnBoard(t: Terrain, s: seq<nat>) {
    forall k :: 0 <= k < |s| ==> s[k] < t.width * t.height
  }

  /**
   * What one wave of expansion adds to the visited list: the fresh zero
   * neighbours of each cell of the wave in turn.
   */
  function WaveZeros(t: Terrain, wave: seq<nat>, seen: seq<nat>): (z: seq<nat>)
    requires WellFormed(t) && OnBoard(t, wave)
  {
    if wave == [] then []
    else
      var z0 := WaveZeros(t, wave[..|wave| - 1], seen);
      z0 + FreshZeros(t, Neighbours(t.width, t.height, wave[|wave| - 1]), seen + z0)
  }

  /** Extending a wave by its next cell `wave[j]` adds that cell's fresh zero neighbours. */
  lemma WaveSnoc(t: Terrain, wave: seq<nat>, j: nat, seen: seq<nat>)
    requires WellFormed(t) && OnBoard(t, wave) && j < |wave|
    ensures WaveZeros(t, wave[..j + 1], seen)
         == WaveZeros(t, wave[..j], seen)
          + FreshZeros(t, Neighbours(t.width, t.height, wave[j]), seen + WaveZeros(t, wave[..j], seen))
  {
    assert wave[..j + 1][..j] == wave[..j];
  }

  /** Extending a wave by its next cell `wave[j]` borders that cell's neighbours too. */
  lemma BorderingSnoc(t: Terrain, wave: seq<nat>, j: nat)
    requires WellFormed(t) && OnBoard(t, wave) && j < |wave|
    ensures forall i :: Bordering(t, Members(wave[..j + 1]), i) <==>
      Bordering(t, Members(wave[..j]), i) || i in Neighbours(t.width, t.height, wave[j])
  {
    assert Members(wave[..j + 1]) == Members(wave[..j]) + {wave[j]};
    forall i {
      BorderingAdd(t, Members(wave[..j]), wave[j], i);
    }
  }

  /** Regrouping a concatenation, which the flood fill's bookkeeping needs at every step. */
  lemma AppendAssoc<T>(a: seq<T>, b: seq<T>, c: seq<T>)
    ensures (a + b) + c == a + (b + c)
  {
  }

  /** `now` is `before` with every cell bordering `region` uncovered. */
  ghost predicate UncoveredBy(t: Terrain, before: seq<bool>, now: seq<bool>, region: set<nat>)
    requires WellFormed(t)
  {
    |now| == |before| && forall i :: 0 <= i < |now| ==> now[i] == (before[i] || Bordering(t, region, i))
  }

  /** Uncovering the neighbours of `wave[j]` extends what the prefix `wave[..j]` uncovered. */
  lemma UncoverSnoc(t: Terrain, wave: seq<nat>, j: nat, before: seq<bool>, mid: seq<bool>, after: seq<bool>)
    requires WellFormed(t) && OnBoard(t, wave) && j < |wave|
    requires UncoveredBy(t, before, mid, Members(wave[..j]))
    requires |after| == |mid|
    requires forall i :: 0 <= i < |after| ==> after[i] == (mid[i] || i in Neighbours(t.width, t.height, wave[j]))
    ensures UncoveredBy(t, before, after, Members(wave[..j + 1]))
  {
    BorderingSnoc(t, wave, j);
  }

  /** A wave adds exactly the unseen zero cells next to it. */
  lemma {:induction false} WaveZerosMembers(t: Terrain, wave: seq<nat>, seen: seq<nat>, x: nat)
    requires WellFormed(t) && OnBoard(t, wave)
    ensures x in WaveZeros(t, wave, seen) <==> x !in seen && Zero(t, x) && Bordering(t, Members(wave), x)
  {
    if wave == [] {
      assert Members(wave) == {};
    } else {
      var front, e := wave[..|wave| - 1], wave[|wave| - 1];
      WaveZerosMembers(t, front, seen, x);
      assert Members(wave) == Members(front) + {e};
      BorderingAdd(t, Members(front), e, x);
    }
  }

  /** Every neighbour of `x` is uncovered, and every zero neighbour of `x` is in `seen`. */
  ghost predicate ExpandedAt(t: Terrain, uncovered: seq<bool>, seen: set<nat>, x: nat)
    requires WellFormed(t) && x < t.width * t.height && |uncovered| == Capacity
  {
    forall n :: n in Neighbours(t.width, t.height, x) ==> uncovered[n] && (Zero(t, n) ==> n in seen)
  }

  /**
   * The state of a flood fill from `clicked` between waves. `start` holds
   * `clicked` when it is a zero cell, `seen` the cells already queued, `wave`
   * the cells still to expand. Every queued cell is a zero cell reached from
   * `clicked`; what was uncovered stays uncovered; a newly uncovered cell is
   * `clicked` or borders a queued cell; and every queued cell outside the wave
   * has been expanded.
   */
  ghost predicate FloodInvariant(t: Terrain, clicked: nat, before: seq<bool>, uncovered: seq<bool>,
                                 seen: set<nat>, start: set<nat>, wave: seq<nat>)
    requires WellFormed(t)
  {
    && |before| == Capacity && |uncovered| == Capacity
    && (forall x :: x in start ==> x == clicked)
    && (forall x :: x in seen + start ==> x < t.width * t.height && Zero(t, x) && Reached(t, clicked, x))
    && OnBoard(t, wave)
    && (forall k :: 0 <= k < |wave| ==> wave[k] in seen + start)
    && (forall i :: 0 <= i < Capacity && (before[i] || i == clicked) ==> uncovered[i])
    && (forall i :: 0 <= i < Capacity && uncovered[i] ==>
          before[i] || i == clicked || Bordering(t, seen + start, i))
    && (forall x :: x in seen + start && x !in wave ==> ExpandedAt(t, uncovered, seen, x))
  }

  /** A nonempty wave of cells of the board never queued before shrinks the set of cells not yet queued. */
  lemma WaveShrinksRest(n: nat, seen: seq<nat>, next: seq<nat>)
    requires forall k :: 0 <= k < |next| ==> next[k] < n && next[k] !in seen
    ensures next != [] ==> Cells(n) - Members(seen + next) < Cells(n) - Members(seen)
    ensures next == [] ==> Members(seen + next) == Members(seen)
  {
    if next != [] {
      assert next[0] in Cells(n) - Members(seen);
      assert next[0] in seen + next;
    } else {
      assert seen + next == seen;
    }
  }

  /**
   * The flood fill starts from the invariant: only `clicked` newly uncovered,
   * nothing queued, and `clicked` alone in the first wave when it is a zero cell.
   */
  lemma FloodStart(t: Terrain, clicked: nat, before: seq<bool>, uncovered: seq<bool>)
    requires WellFormed(t) && clicked < t.width * t.height
    requires |before| == Capacity && |uncovered| == Capacity
    requires forall i :: 0 <= i < Capacity ==> uncovered[i] == (before[i] || i == clicked)
    ensures var start := if Zero(t, clicked) then {clicked} else {};
      FloodInvariant(t, clicked, before, uncovered, {}, start, if Zero(t, clicked) then [clicked] else [])
  {
    if Zero(t, clicked) {
      assert ZeroPath(t, clicked, clicked, [clicked]);
    }
  }

  /**
   * One wave keeps the flood-fill invariant: uncovering every neighbour of the
   * wave and queueing the wave's fresh zero neighbours as the next wave.
   */
  lemma WaveStep(t: Terrain, clicked: nat, before: seq<bool>, uncovered: seq<bool>, uncovered': seq<bool>,
                 seen: seq<nat>, start: set<nat>, wave: seq<nat>, next: seq<nat>)
    requires WellFormed(t) && FloodInvariant(t, clicked, before, uncovered, Members(seen), start, wave)
    requires next == WaveZeros(t, wave, seen)
    requires |uncovered'| == Capacity
    requires forall i :: 0 <= i < Capacity ==> uncovered'[i] == (uncovered[i] || Bordering(t, Members(wave), i))
    ensures FloodInvariant(t, clicked, before, uncovered', Members(seen + next), start, next)
    ensures forall k :: 0 <= k < |next| ==> next[k] !in seen
  {
    var s0, s1 := Members(seen), Members(seen + next);
    assert s0 <= s1;
    assert forall x :: x in s1 <==> x in s0 || x in next;
    WaveQueuesReachedZeros(t, clicked, seen, start, wave);
    WaveKeepsJustification(t, clicked, before, uncovered, uncovered', s0, s1, start, wave);
    WaveExpands(t, uncovered, uncovered', seen, start, wave);
    forall k | 0 <= k < |next|
      ensures next[k] < t.width * t.height && next[k] !in seen && next[k] in s1
    {
      assert next[k] in next;
    }
  }

  /** The next wave holds unseen zero cells of the board, each reached from `clicked`. */
  lemma WaveQueuesReachedZeros(t: Terrain, clicked: nat, seen: seq<nat>, start: set<nat>, wave: seq<nat>)
    requires WellFormed(t) && OnBoard(t, wave) && forall k :: 0 <= k < |wave| ==> wave[k] in Members(seen) + start
    requires forall x :: x in Members(seen) + start ==> Reached(t, clicked, x)
    ensures forall x :: x in WaveZeros(t, wave, seen) ==>
      x !in seen && x < t.width * t.height && Zero(t, x) && Reached(t, clicked, x)
  {
    forall x | x in WaveZeros(t, wave, seen)
      ensures x !in seen && x < t.width * t.height && Zero(t, x) && Reached(t, clicked, x)
    {
      WaveZerosMembers(t, wave, seen, x);
      var r :| r in Members(wave) && r < t.width * t.height && x in Neighbours(t.width, t.height, r);
      NeighboursSound(t.width, t.height, r, x);
      ReachedStep(t, clicked, r, x);
    }
  }

  /** Every cell uncovered after a wave is an old one, `clicked`, or borders the grown queue. */
  lemma WaveKeepsJustification(t: Terrain, clicked: nat, before: seq<bool>, uncovered: seq<bool>, uncovered': seq<bool>,
                               s0: set<nat>, s1: set<nat>, start: set<nat>, wave: seq<nat>)
    requires WellFormed(t) && |before| == Capacity && |uncovered| == Capacity && |uncovered'| == Capacity
    requires s0 <= s1 && forall k :: 0 <= k < |wave| ==> wave[k] in s0 + start
    requires forall i :: 0 <= i < Capacity && uncovered[i] ==> before[i] || i == clicked || Bordering(t, s0 + start, i)
    requires forall i :: 0 <= i < Capacity ==> uncovered'[i] == (uncovered[i] || Bordering(t, Members(wave), i))
    ensures forall i :: 0 <= i < Capacity && uncovered'[i] ==> before[i] || i == clicked || Bordering(t, s1 + start, i)
  {
    assert Members(wave) <= s1 + start;
    forall i | 0 <= i < Capacity && uncovered'[i]
      ensures before[i] || i == clicked || Bordering(t, s1 + start, i)
    {
      if uncovered[i] {
        if Bordering(t, s0 + start, i) {
          BorderingMonotone(t, s0 + start, s1 + start, i);
        }
      } else {
        BorderingMonotone(t, Members(wave), s1 + start, i);
      }
    }
  }

  /** After a wave, every queued cell outside the next wave has been expanded. */
  lemma WaveExpands(t: Terrain, uncovered: seq<bool>, uncovered': seq<bool>,
                    seen: seq<nat>, start: set<nat>, wave: seq<nat>)
    requires WellFormed(t) && OnBoard(t, wave) && |uncovered| == Capacity && |uncovered'| == Capacity
    requires forall x :: x in Members(seen) + start ==> x < t.width * t.height
    requires forall x :: x in Members(seen) + start && x !in wave ==> ExpandedAt(t, uncovered, Members(seen), x)
    requires forall i :: 0 <= i < Capacity ==> uncovered'[i] == (uncovered[i] || Bordering(t, Members(wave), i))
    ensures var next := WaveZeros(t, wave, seen);
      forall x :: x in Members(seen + next) + start && x !in next ==> ExpandedAt(t, uncovered', Members(seen + next), x)
  {
    var next := WaveZeros(t, wave, seen);
    var s0, s1 := Members(seen), Members(seen + next);
    assert forall x :: x in s1 <==> x in s0 || x in next;
    forall x | x in s1 + start && x !in next
      ensures ExpandedAt(t, uncovered', s1, x)
    {
      assert x in s0 + start;
      forall n | n in Neighbours(t.width, t.height, x)
        ensures uncovered'[n] && (Zero(t, n) ==> n in s1)
      {
        if x in wave {
          assert Bordering(t, Members(wave), n);
          if Zero(t, n) && n !in s0 {
            WaveZerosMembers(t, wave, seen, n);
          }
        } else {
          assert ExpandedAt(t, uncovered, s0, x);
        }
      }
    }
  }

  /**
   * When no wave is left, the queued cells are the zero region of `clicked`
   * (if it is a zero cell), and the uncovered cells are exactly those
   * uncovered before, `clicked` and the neighbours of that region.
   */
  lemma FloodDone(t: Terrain, clicked: nat, before: seq<bool>, uncovered: seq<bool>, seen: set<nat>, start: set<nat>)
    requires WellFormed(t) && clicked < t.width * t.height
    requires FloodInvariant(t, clicked, before, uncovered, seen, start, [])
    requires Zero(t, clicked) ==> clicked in start
    ensures Zero(t, clicked) ==> IsZeroRegion(t, clicked, seen + start)
    ensures forall i :: 0 <= i < Capacity ==>
      uncovered[i] == (before[i] || i == clicked || Bordering(t, seen + start, i))
  {
    var region := seen + start;
    forall i | 0 <= i < Capacity && Bordering(t, region, i)
      ensures uncovered[i]
    {
      var r :| r in region && r < t.width * t.height && i in Neighbours(t.width, t.height, r);
      assert ExpandedAt(t, uncovered, seen, r);
    }
    if Zero(t, clicked) {
      forall r, n | r in region && n in Neighbours(t.width, t.height, r) && Zero(t, n)
        ensures n in region
      {
        assert ExpandedAt(t, uncovered, seen, r);
      }
    }
  }

  lemma {:induction false} PathStaysInRegion(t: Terrain, c: nat, region: set<nat>, to: nat, p: seq<nat>, k: nat)
    requires WellFormed(t) && IsZeroRegion(t, c, region) && ZeroPath(t, c, to, p) && k < |p|
    ensures p[k] in region
  {
    if k > 0 {
      PathStaysInRegion(t, c, region, to, p, k - 1);
    }
  }

  /** The zero region of a cell is unique, so a reveal's result is determined by the board and the cell. */
  lemma ZeroRegionUnique(t: Terrain, c: nat, r1: set<nat>, r2: set<nat>)
    requires WellFormed(t) && IsZeroRegion(t, c, r1) && IsZeroRegion(t, c, r2)
    ensures r1 == r2
  {
    forall r | r in r1 ensures r in r2 {
      var p :| ZeroPath(t, c, r, p);
      PathStaysInRegion(t, c, r2, r, p, |p| - 1);
    }
    forall r | r in r2 ensures r in r1 {
      var p :| ZeroPath(t, c, r, p);
      PathStaysInRegion(t, c, r1, r, p, |p| - 1);
    }
  }

  // ---------------------------------------------------------------- counters and win

  /** How many of the first `n` entries of `s` equal `v`. */
  function CountOf<T(==)>(s: seq<T>, v: T, n: nat): (c: nat)
    requires n <= |s|
  {
    if n == 0 then 0 else CountOf(s, v, n - 1) + (if s[n - 1] == v then 1 else 0)
  }

  /** The count is the number of positions below `n` that hold `v`; so it is at most `n`. */
  lemma {:induction false} CountOfIsCardinality<T>(s: seq<T>, v: T, n: nat)
    requires n <= |s|
    ensures CountOf(s, v, n) == |set k | 0 <= k < n && s[k] == v|
    ensures CountOf(s, v, n) <= n
  {
    if n > 0 {
      CountOfIsCardinality(s, v, n - 1);
      var before := set k | 0 <= k < n - 1 && s[k] == v;
      var after := set k | 0 <= k < n && s[k] == v;
      if s[n - 1] == v {
        assert after == before + {n - 1};
      } else {
        assert after == before;
      }
    }
  }

  /** Every cell of the board is resolved: uncovered exactly when it holds no mine. */
  predicate Resolved(uncovered: seq<bool>, crab: seq<bool>, n: nat)
    requires n <= |uncovered| && n <= |crab|
  {
    forall k :: 0 <= k < n ==> uncovered[k] != crab[k]
  }

  /** A board is won iff the uncovered cells are exactly the cells without a mine. */
  lemma ResolvedMeansSafeCellsUncovered(uncovered: seq<bool>, crab: seq<bool>, n: nat)
    requires n <= |uncovered| && n <= |crab|
    ensures Resolved(uncovered, crab, n)
        <==> (set k | 0 <= k < n && uncovered[k]) == (set k | 0 <= k < n && !crab[k])
  {
    var open := set k | 0 <= k < n && uncovered[k];
    var safe := set k | 0 <= k < n && !crab[k];
    if open == safe {
      forall k | 0 <= k < n ensures uncovered[k] != crab[k] {
        assert uncovered[k] <==> k in open;
        assert !crab[k] <==> k in safe;
      }
    }
  }

  /** Once a mine is uncovered the board cannot be won. */
  lemma UncoveredMineBlocksWin(uncovered: seq<bool>, crab: seq<bool>, n: nat, i: nat)
    requires n <= |uncovered| && n <= |crab| && i < n && uncovered[i] && crab[i]
    ensures !Resolved(uncovered, crab, n)
  {
  }

  /** The panel's remaining-flags figure: mines minus flags, negative when the player over-flags. */
  function RemainingFlags(crabs: nat, flags: nat): (r: int)
    ensures r + flags == crabs
    ensures r < 0 <==> flags > crabs
  {
    crabs - flags
  }

  /** The same figure as the source computes it: a `u16` subtraction, which wraps when flags exceed mines. */
  function RemainingFlagsU16(crabs: nat, flags: nat): (r: nat)
    requires crabs < 0x1_0000 && flags < 0x1_0000
    ensures r < 0x1_0000
    ensures flags <= crabs ==> r == RemainingFlags(crabs, flags)
    ensures flags > crabs ==> r == 0x1_0000 + RemainingFlags(crabs, flags)
  {
    (crabs - flags) % 0x1_0000
  }

  /** One mine and two flags: the `u16` figure shows 65535 where the intended figure is -1. */
  lemma OverFlaggingWrapsAround()
    ensures RemainingFlagsU16(1, 2) == 65535
    ensures RemainingFlags(1, 2) == -1
  {
  }
}
