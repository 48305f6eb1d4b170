/**
 The board of the Chasing Bombs game: a flat, row-major sequence of
 ROWS * COLS tile buttons, each with an enabled flag and a background colour,
 together with the one board-wide update the game performs (setTilesStatus)
 and a count of tiles by colour that the game invariant relates to the score.
 */
module Tiles {

  const Rows := 2
  const Cols := 5
  const TileCount := Rows * Cols

  /** The three backgrounds a tile ever shows: red (unclicked), yellow (safe
      tile clicked) and black (bomb clicked). */
  datatype Colour = Red | Yellow | Black

  /** One tile button. A disabled button never fires its click listener. */
  datatype Tile = Tile(enabled: bool, colour: Colour)

  /** A row of `n` disabled red tiles: the board as the constructor builds it. */
  function FreshTiles(n: nat): (r: seq<Tile>)
    ensures |r| == n
    ensures forall i :: 0 <= i < n ==> !r[i].enabled && r[i].colour == Red
  {
    seq(n, _ => Tile(false, Red))
  }

  /** Sets every tile's enabled flag to `enable`; repaints every tile only when
      `colour` is red, otherwise each tile keeps the colour it had. Walks the
      tiles front to back, as the for-each loop does. */
  function SetTilesStatus(tiles: seq<Tile>, enable: bool, colour: Colour): (r: seq<Tile>)
    ensures |r| == |tiles|
    ensures forall i :: 0 <= i < |r| ==> r[i].enabled == enable
    ensures colour == Red ==> forall i :: 0 <= i < |r| ==> r[i].colour == Red
    ensures colour != Red ==> forall i :: 0 <= i < |r| ==> r[i].colour == tiles[i].colour
  {
    if |tiles| == 0 then []
    else
      var head := Tile(enable, if colour == Red then colour else tiles[0].colour);
      [head] + SetTilesStatus(tiles[1..], enable, colour)
  }

  /** True when at least one tile can still be clicked. */
  predicate AnyEnabled(tiles: seq<Tile>) {
    exists i :: 0 <= i < |tiles| && tiles[i].enabled
  }

  /** Number of tiles at index `lo` or later whose background is `c`. */
  function CountFrom(tiles: seq<Tile>, c: Colour, lo: nat): nat
    decreases |tiles| - lo
  {
    if lo >= |tiles| then 0
    else (if tiles[lo].colour == c then 1 else 0) + CountFrom(tiles, c, lo + 1)
  }

  /** Number of tiles whose background is `c`. */
  function Count(tiles: seq<Tile>, c: Colour): nat {
    CountFrom(tiles, c, 0)
  }

  /** A tile count never exceeds the number of tiles looked at. */
  lemma {:induction false} CountFromBounded(tiles: seq<Tile>, c: Colour, lo: nat)
    requires lo <= |tiles|
    ensures CountFrom(tiles, c, lo) <= |tiles| - lo
    decreases |tiles| - lo
  {
    if lo < |tiles| {
      CountFromBounded(tiles, c, lo + 1);
    }
  }

  /** Two boards with the same colours from `lo` on have the same counts. */
  lemma {:induction false} SameColoursSameCount(a: seq<Tile>, b: seq<Tile>, c: Colour, lo: nat)
    requires |a| == |b|
    requires forall j :: lo <= j < |a| ==> a[j].colour == b[j].colour
    ensures CountFrom(a, c, lo) == CountFrom(b, c, lo)
    decreases |a| - lo
  {
    if lo < |a| {
      SameColoursSameCount(a, b, c, lo + 1);
    }
  }

  /** A board with no tile of colour `c` from `lo` on counts zero of them. */
  lemma {:induction false} CountAbsent(tiles: seq<Tile>, c: Colour, lo: nat)
    requires forall j :: lo <= j < |tiles| ==> tiles[j].colour != c
    ensures CountFrom(tiles, c, lo) == 0
    decreases |tiles| - lo
  {
    if lo < |tiles| {
      CountAbsent(tiles, c, lo + 1);
    }
  }

  /** Replacing tile `i` changes a count by what leaves and what arrives. */
  lemma {:induction false} CountUpdate(tiles: seq<Tile>, i: int, t: Tile, c: Colour, lo: nat)
    requires lo <= i < |tiles|
    ensures CountFrom(tiles[i := t], c, lo)
            == CountFrom(tiles, c, lo)
               - (if tiles[i].colour == c then 1 else 0)
               + (if t.colour == c then 1 else 0)
    decreases |tiles| - lo
  {
    if lo < i {
      CountUpdate(tiles, i, t, c, lo + 1);
    } else {
      SameColoursSameCount(tiles[i := t], tiles, c, lo + 1);
    }
  }

  /** If every tile from `lo` on except the one at `skip` has colour `c`,
      at most one tile there is missing from the count. */
  lemma {:induction false} CountAllButOne(tiles: seq<Tile>, c: Colour, skip: int, lo: nat)
    requires lo <= |tiles|
    requires forall j :: lo <= j < |tiles| && j != skip ==> tiles[j].colour == c
    ensures CountFrom(tiles, c, lo) + 1 >= |tiles| - lo
    decreases |tiles| - lo
  {
    if lo < |tiles| {
      CountAllButOne(tiles, c, skip, lo + 1);
      if lo == skip {
        CountAllColour(tiles, c, lo + 1);
      }
    }
  }

  /** If every tile from `lo` on has colour `c`, all of them are counted. */
  lemma {:induction false} CountAllColour(tiles: seq<Tile>, c: Colour, lo: nat)
    requires lo <= |tiles|
    requires forall j :: lo <= j < |tiles| ==> tiles[j].colour == c
    ensures CountFrom(tiles, c, lo) == |tiles| - lo
    decreases |tiles| - lo
  {
    if lo < |tiles| {
      CountAllColour(tiles, c, lo + 1);
    }
  }

  /** A tile from `lo` on that lacks colour `c` keeps the count one short. */
  lemma {:induction false} CountMissingOne(tiles: seq<Tile>, c: Colour, skip: int, lo: nat)
    requires lo <= skip < |tiles| && tiles[skip].colour != c
    ensures CountFrom(tiles, c, lo) <= |tiles| - lo - 1
    decreases |tiles| - lo
  {
    if lo < skip {
      CountMissingOne(tiles, c, skip, lo + 1);
    } else {
      CountFromBounded(tiles, c, lo + 1);
    }
  }
}
