/**
  The value part of `FMinesweeperTile`: its four state fields and its
  position, the two display rules that depend only on them (`IsEnabled`,
  `GetText`), and counts over a whole board of tiles.
*/
module Tiles {
  import opened Geometry

  /**
    One board cell. `minesInArea` is the adjacency count cached when the tile
    is exposed; it is never negative.
  */
  datatype Tile = Tile(position: Point, isMine: bool, isExposed: bool, isFlagged: bool, minesInArea: nat)
  {
    /**
      The tile's button accepts clicks until the tile is exposed; an enabled
      tile never shows a label.
    */
    predicate IsEnabled()
      ensures IsEnabled() ==> GetText() == ""
    {
      !isExposed
    }

    /**
      The label drawn on the tile: the cached count, only on an exposed safe
      tile with at least one neighbouring mine, and empty otherwise.
    */
    function GetText(): (r: string)
      ensures |r| > 0 <==> isExposed && !isMine && minesInArea != 0
      ensures |r| > 0 ==> IsDecimal(r) && DecimalValue(r) == minesInArea
      ensures |r| > 0 ==> r[0] != '0'
    {
      if isMine then ""
      else if isExposed then
        if minesInArea != 0 then DecimalRoundTrip(minesInArea); Decimal(minesInArea) else ""
      else ""
    }
  }

  /** A freshly allocated tile: no mine, hidden, unflagged, count 0. */
  function NewTile(p: Point): Tile {
    Tile(p, false, false, false, 0)
  }

  // ---------------------------------------------------------------------------
  // Decimal rendering of the count (`FString::FormatAsNumber`)
  // ---------------------------------------------------------------------------

  predicate IsDigit(c: char) {
    '0' <= c <= '9'
  }

  predicate IsDecimal(s: string) {
    |s| > 0 && forall i :: 0 <= i < |s| ==> IsDigit(s[i])
  }

  function DigitChar(d: nat): (c: char)
    requires d < 10
    ensures IsDigit(c) && c as int - '0' as int == d
  {
    ('0' as int + d) as char
  }

  /** The decimal digits of `n`, most significant first. */
  function Decimal(n: nat): (r: string)
    ensures IsDecimal(r)
    ensures n > 0 ==> r[0] != '0'
  {
    if n < 10 then [DigitChar(n)] else Decimal(n / 10) + [DigitChar(n % 10)]
  }

  /** The number a string of decimal digits denotes. */
  function DecimalValue(s: string): nat
    requires forall i :: 0 <= i < |s| ==> IsDigit(s[i])
  {
    if s == [] then 0
    else
      assert IsDigit(s[|s| - 1]);
      DecimalValue(s[..|s| - 1]) * 10 + (s[|s| - 1] as int - '0' as int)
  }

  /** Reading back the rendered digits gives the number that was rendered. */
  lemma {:induction false} DecimalRoundTrip(n: nat)
    ensures DecimalValue(Decimal(n)) == n
  {
    if n >= 10 {
      var s := Decimal(n);
      assert s[..|s| - 1] == Decimal(n / 10);
      DecimalRoundTrip(n / 10);
    }
  }

  // ---------------------------------------------------------------------------
  // Counting tiles
  // ---------------------------------------------------------------------------

  /** The three boolean fields of a tile. */
  datatype Attribute = Mined | Exposed | Flagged

  predicate Has(t: Tile, a: Attribute) {
    match a
    case Mined => t.isMine
    case Exposed => t.isExposed
    case Flagged => t.isFlagged
  }

  /** The number of tiles of `s` that have attribute `a`. */
  function Tally(s: seq<Tile>, a: Attribute): (r: nat)
    ensures r <= |s|
  {
    if s == [] then 0
    else Tally(s[..|s| - 1], a) + (if Has(s[|s| - 1], a) then 1 else 0)
  }

  /** A tally is zero exactly when no tile has the attribute. */
  lemma {:induction false} TallyZero(s: seq<Tile>, a: Attribute)
    ensures Tally(s, a) == 0 <==> forall k :: 0 <= k < |s| ==> !Has(s[k], a)
  {
    if s != [] {
      var init := s[..|s| - 1];
      TallyZero(init, a);
      assert forall k :: 0 <= k < |init| ==> init[k] == s[k];
    }
  }

  /** Replacing one tile changes a tally by that tile's contribution only. */
  lemma {:induction false} TallyUpdate(s: seq<Tile>, k: int, t: Tile, a: Attribute)
    requires 0 <= k < |s|
    ensures Tally(s[k := t], a) ==
      Tally(s, a) - (if Has(s[k], a) then 1 else 0) + (if Has(t, a) then 1 else 0)
  {
    var s' := s[k := t];
    if k == |s| - 1 {
      assert s'[..|s'| - 1] == s[..|s| - 1];
    } else {
      assert s'[..|s'| - 1] == s[..|s| - 1][k := t];
      TallyUpdate(s[..|s| - 1], k, t, a);
    }
  }

  /** A tally depends only on which tiles have the attribute. */
  lemma {:induction false} TallySame(s: seq<Tile>, s': seq<Tile>, a: Attribute)
    requires |s| == |s'|
    requires forall k :: 0 <= k < |s| ==> Has(s[k], a) == Has(s'[k], a)
    ensures Tally(s, a) == Tally(s', a)
  {
    if s != [] {
      TallySame(s[..|s| - 1], s'[..|s'| - 1], a);
    }
  }

  predicate NoMineExposed(s: seq<Tile>) {
    forall k :: 0 <= k < |s| ==> s[k].isExposed ==> !s[k].isMine
  }

  predicate AllMinesExposed(s: seq<Tile>) {
    forall k :: 0 <= k < |s| ==> s[k].isMine ==> s[k].isExposed
  }

  predicate AllSafeExposed(s: seq<Tile>) {
    forall k :: 0 <= k < |s| ==> !s[k].isMine ==> s[k].isExposed
  }

  /**
    While no mine is exposed, exposed and mined tiles are disjoint, so together
    they number at most the board size, and exactly the board size when every
    safe tile is exposed.
  */
  lemma {:induction false} SafeTally(s: seq<Tile>)
    requires NoMineExposed(s)
    ensures Tally(s, Exposed) + Tally(s, Mined) <= |s|
    ensures Tally(s, Exposed) + Tally(s, Mined) == |s| <==> AllSafeExposed(s)
  {
    if s != [] {
      var init := s[..|s| - 1];
      assert forall k :: 0 <= k < |init| ==> init[k] == s[k];
      SafeTally(init);
    }
  }

  /** A board with a tile that is not a mine has fewer mines than tiles. */
  lemma SafeTileLeavesRoom(s: seq<Tile>, k: int)
    requires 0 <= k < |s| && !s[k].isMine
    ensures Tally(s, Mined) < |s|
  {
    TallyUpdate(s, k, s[k].(isMine := true), Mined);
  }

  /** Where the mines are, tile by tile: the part of the board that never changes after construction. */
  function MineLayout(s: seq<Tile>): seq<bool>
  {
    seq(|s|, k requires 0 <= k < |s| => s[k].isMine)
  }

  /** Replacing a tile by one with the same mine flag keeps the layout. */
  lemma MineLayoutUpdate(s: seq<Tile>, k: int, t: Tile)
    requires 0 <= k < |s| && t.isMine == s[k].isMine
    ensures MineLayout(s[k := t]) == MineLayout(s)
  {
  }

  /** The lose reveal: every mine exposed, every other tile as it was. */
  function RevealMines(s: seq<Tile>): seq<Tile>
  {
    seq(|s|, k requires 0 <= k < |s| => if s[k].isMine then s[k].(isExposed := true) else s[k])
  }

  /** The reveal exposes every mine and leaves the mine layout and the flags as they were. */
  lemma RevealMinesKeeps(s: seq<Tile>)
    ensures AllMinesExposed(RevealMines(s))
    ensures MineLayout(RevealMines(s)) == MineLayout(s)
    ensures Tally(RevealMines(s), Mined) == Tally(s, Mined)
    ensures Tally(RevealMines(s), Flagged) == Tally(s, Flagged)
  {
    TallySame(RevealMines(s), s, Mined);
    TallySame(RevealMines(s), s, Flagged);
  }
}
