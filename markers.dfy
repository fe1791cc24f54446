/**
 * The marker a player puts on a covered tile with the right button. Markers
 * are numbered 0, 1, 2 and adding markers works modulo 3, so adding FLAGGED
 * (1) steps through NONE -> FLAGGED -> QUESTIONED -> NONE.
 */
module Markers {

  /** `FlagMarker::{NONE, FLAGGED, QUESTIONED}`. */
  datatype FlagMarker = Unmarked | Flagged | Questioned

  /** Conversion of a marker to its `u8` discriminant; it never fails. */
  function ToByte(m: FlagMarker): (b: nat)
    ensures b < 3
    ensures b == 0 <==> m == Unmarked
  {
    match m
    case Unmarked => 0
    case Flagged => 1
    case Questioned => 2
  }

  /** Conversion of a `u8` to a marker: the value is first reduced modulo 3, so it never fails. */
  function FromByte(b: nat): (m: FlagMarker)
    requires b < 256
    ensures ToByte(m) == b % 3
  {
    var modded := b % 3;
    if modded == 0 then Unmarked
    else if modded == 1 then Flagged
    else Questioned
  }

  /** Converting a marker to a byte and back gives the marker again. */
  lemma ByteRoundTrip(m: FlagMarker)
    ensures FromByte(ToByte(m)) == m
  {
  }

  /** `m += other`: the sum of the two discriminants (at most 4, so no `u8` overflow) taken modulo 3. */
  function Add(m: FlagMarker, other: FlagMarker): (r: FlagMarker)
    ensures ToByte(r) == (ToByte(m) + ToByte(other)) % 3
  {
    FromByte(ToByte(m) + ToByte(other))
  }

  /** The fixed cycling order NONE -> FLAGGED -> QUESTIONED -> NONE. */
  function Next(m: FlagMarker): FlagMarker {
    match m
    case Unmarked => Flagged
    case Flagged => Questioned
    case Questioned => Unmarked
  }

  /** What one right release does to a tile's marker, `marker += FLAGGED`, is a step in the cycling order. */
  lemma AddFlaggedIsNext(m: FlagMarker)
    ensures Add(m, FromByte(1)) == Next(m)
    ensures ToByte(Next(m)) == (ToByte(m) + 1) % 3
  {
    assert FromByte(1) == Flagged;
    match m
    case Unmarked =>
      assert Add(m, Flagged) == Flagged by { assert ToByte(m) + ToByte(Flagged) == 1; }
    case Flagged =>
      assert Add(m, Flagged) == Questioned by { assert ToByte(m) + ToByte(Flagged) == 2; }
    case Questioned =>
      assert Add(m, Flagged) == Unmarked by { assert ToByte(m) + ToByte(Flagged) == 3; }
  }

  /** The marker after `k` right releases on one tile. */
  function NextTimes(m: FlagMarker, k: nat): FlagMarker
    decreases k
  {
    if k == 0 then m else Next(NextTimes(m, k - 1))
  }

  /** Three right releases on one tile restore its marker. */
  lemma NextThrice(m: FlagMarker)
    ensures NextTimes(m, 3) == m
  {
    assert NextTimes(m, 3) == Next(Next(Next(NextTimes(m, 0))));
  }

  /** Three more right releases on one tile change nothing. */
  lemma {:induction false} NextTimesPeriodic(m: FlagMarker, q: nat, r: nat)
    ensures NextTimes(m, 3 * q + r) == NextTimes(m, r)
  {
    if q > 0 {
      NextTimesPeriodic(m, q - 1, r);
      var k := 3 * q + r;
      var base := NextTimes(m, k - 3);
      assert NextTimes(m, k - 2) == Next(base);
      assert NextTimes(m, k - 1) == Next(Next(base));
      assert NextTimes(m, k) == Next(Next(Next(base)));
      NextThrice(base);
      assert NextTimes(base, 3) == Next(Next(Next(NextTimes(base, 0))));
    }
  }

  /** Only the number of right releases modulo 3 matters. */
  lemma NextTimesModulo(m: FlagMarker, k: nat)
    ensures NextTimes(m, k) == NextTimes(m, k % 3)
  {
    NextTimesPeriodic(m, k / 3, k % 3);
  }
}
