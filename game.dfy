/**
  The Minesweeper rules engine: `FMinesweeperGame` together with the
  rule-bearing methods of `FMinesweeperTile`.

  The board is the flat, row-major `Width * Height` array of tiles the engine
  allocates; a tile's methods, which in the engine reach their game through a
  back-pointer, are here methods of `Game` that take the tile's coordinates.
*/
module Minesweeper {
  import opened Geometry
  import opened Tiles
  import opened Neighbourhood
  import Settings

  /** `EMinesweeperGameState`. */
  datatype GameState = None | Playing | FinishWin | FinishLose

  /** The distinct positions among the first `k` random samples. */
  ghost function Seen(samples: seq<Point>, k: int): set<Point>
    requires 0 <= k <= |samples|
  {
    if k == 0 then {} else Seen(samples, k - 1) + {samples[k - 1]}
  }

  /** `p` comes before `(i, j)` in the order of the engine's nested `i`/`j` loops. */
  predicate Before(p: Point, i: int, j: int) {
    p.x < i || (p.x == i && p.y < j)
  }

  /** `v` starts with `u`: what a call may do to the shared list of checked positions. */
  ghost predicate Prefix<T>(u: seq<T>, v: seq<T>) {
    |u| <= |v| && v[..|u|] == u
  }

  lemma PrefixMembers<T>(u: seq<T>, v: seq<T>)
    requires Prefix(u, v)
    ensures forall q :: q in u ==> q in v
  {
    forall q | q in u
      ensures q in v
    {
      var i :| 0 <= i < |u| && u[i] == q;
      assert v[i] == q;
    }
  }

  lemma PrefixTrans<T>(u: seq<T>, v: seq<T>, w: seq<T>)
    requires Prefix(u, v) && Prefix(v, w)
    ensures Prefix(u, w)
  {
    assert w[..|u|] == w[..|v|][..|u|];
  }

  /**
    From `s0` to `s1` tiles were only exposed (and their counts cached), and
    every newly exposed tile is safe: positions, mines and flags stay put,
    and a tile still hidden is left exactly as it was.
  */
  ghost predicate SafeGrowth(s0: seq<Tile>, s1: seq<Tile>) {
    |s1| == |s0| &&
    forall k :: 0 <= k < |s0| ==>
      && s1[k].position == s0[k].position
      && s1[k].isMine == s0[k].isMine
      && s1[k].isFlagged == s0[k].isFlagged
      && (s0[k].isExposed ==> s1[k] == s0[k])
      && (!s1[k].isExposed ==> s1[k] == s0[k])
      && (s1[k].isExposed && !s0[k].isExposed ==> !s1[k].isMine)
  }

  lemma SafeGrowthTrans(s0: seq<Tile>, s1: seq<Tile>, s2: seq<Tile>)
    requires SafeGrowth(s0, s1) && SafeGrowth(s1, s2)
    ensures SafeGrowth(s0, s2)
  {
  }

  lemma SeenStep(samples: seq<Point>, k: int)
    requires 0 <= k < |samples|
    ensures Seen(samples, k + 1) == Seen(samples, k) + {samples[k]}
    ensures |Seen(samples, k + 1)| == |Seen(samples, k)| + (if samples[k] in Seen(samples, k) then 0 else 1)
  {
  }

  /** Tile `k` of `s` sits at the in-bounds position whose flat index is `k`. */
  ghost predicate OnGrid(s: seq<Tile>, width: int, height: int) {
    |s| == width * height &&
    forall k :: 0 <= k < |s| ==>
      InBounds(width, height, s[k].position) && Index(width, s[k].position) == k
  }

  /**
    Setting the exposed flag first and caching the count afterwards, as
    `Expose` and `OnTileExposed` do, gives the same board as doing both at
    once; and for a mine, the lose reveal does not see the difference.
  */
  lemma ExposeInTwoSteps(s: seq<Tile>, k: int, c: nat)
    requires 0 <= k < |s| && !s[k].isExposed
    ensures var e := s[k].(isExposed := true);
      && s[k := e][k := e.(isExposed := false)] == s
      && s[k := e][k := e.(minesInArea := c)] == s[k := s[k].(isExposed := true, minesInArea := c)]
      && (s[k].isMine ==> RevealMines(s[k := e]) == RevealMines(s))
  {
    var e := s[k].(isExposed := true);
    assert s[k := e][k := e.(isExposed := false)] == s;
    if s[k].isMine {
      assert RevealMines(s[k := e]) == RevealMines(s);
    }
  }

  /** Allocate the board and give every tile its position (the first loop of the constructor). */
  method LayOutTiles(width: int, height: int) returns (board: array<Tile>)
    requires 1 <= width && 1 <= height
    ensures fresh(board) && board.Length == width * height
    ensures forall k :: 0 <= k < board.Length ==> board[k] == NewTile(board[k].position)
    ensures OnGrid(board[..], width, height)
  {
    board := new Tile[width * height](_ => NewTile(Point(-1, -1)));
    forall p | InBounds(width, height, p)
      ensures 0 <= Index(width, p) < board.Length
    {
      IndexInRange(width, height, p);
    }
    var i := 0;
    while i < width
      invariant 0 <= i <= width
      invariant forall k :: 0 <= k < board.Length ==> board[k] == NewTile(board[k].position)
      invariant forall p :: InBounds(width, height, p) && p.x < i ==> board[Index(width, p)].position == p
    {
      var j := 0;
      while j < height
        invariant 0 <= j <= height
        invariant forall k :: 0 <= k < board.Length ==> board[k] == NewTile(board[k].position)
        invariant forall p :: InBounds(width, height, p) && Before(p, i, j) ==> board[Index(width, p)].position == p
      {
        var here := Point(i, j);
        forall p | InBounds(width, height, p) && p != here
          ensures Index(width, p) != Index(width, here)
        {
          if Index(width, p) == Index(width, here) {
            IndexInjective(width, p, here);
          }
        }
        board[Index(width, here)] := NewTile(here);
        j := j + 1;
      }
      i := i + 1;
    }
    forall k | 0 <= k < board.Length
      ensures InBounds(width, height, board[k].position) && Index(width, board[k].position) == k
    {
      PointOfIndex(width, height, k);
    }
  }

  /**
    Rejection sampling of the mine layout (the second loop of the
    constructor). `samples` stands for the successive `FMath::RandRange`
    draws; a draw that lands on a mine is retried without using up quota.
    The source decrements its counter on every draw and restores it on a
    repeat; here the counter drops only when a mine is placed, which leaves
    it with the same value after every draw. Returns how many draws were
    consumed.
  */
  method PlaceMines(board: array<Tile>, width: int, height: int, mineCount: int, samples: seq<Point>)
    returns (ghost used: nat)
    requires 1 <= width && OnGrid(board[..], width, height)
    requires forall k :: 0 <= k < board.Length ==> !board[k].isMine
    requires forall q :: q in samples ==> InBounds(width, height, q)
    requires 0 <= mineCount <= |Seen(samples, |samples|)|
    modifies board
    ensures used <= |samples| && |Seen(samples, used)| == mineCount
    ensures used == 0 || |Seen(samples, used - 1)| < mineCount
    ensures board[..] == Marked(old(board[..]), Seen(samples, used))
    ensures Tally(board[..], Mined) == mineCount
  {
    ghost var orig := board[..];
    var mineCountCopy := mineCount;
    var k := 0;
    ghost var seen: set<Point> := {};
    TallyZero(orig, Mined);
    assert board[..] == Marked(orig, {});
    while mineCountCopy > 0
      invariant 0 <= k <= |samples| && 0 <= mineCountCopy
      invariant seen == Seen(samples, k)
      invariant |seen| + mineCountCopy == mineCount
      invariant board[..] == Marked(orig, seen)
      invariant Tally(board[..], Mined) + mineCountCopy == mineCount
      invariant k == 0 || |Seen(samples, k - 1)| < mineCount
      decreases |samples| - k
    {
      if k == |samples| {
        assert false;
      }
      ghost var s0 := board[..];
      var q := samples[k];
      var at := Index(width, q);
      IndexUnique(width, height, q);
      assert orig[at].position == q;
      DrawStep(orig, width, samples, k, at);
      if !board[at].isMine {
        board[at] := board[at].(isMine := true);
        assert board[..] == s0[at := s0[at].(isMine := true)];
        mineCountCopy := mineCountCopy - 1;
      }
      seen := Seen(samples, k + 1);
      k := k + 1;
    }
    used := k;
  }

  /** `s` with a mine on exactly the tiles whose position is in `mined`. */
  ghost function Marked(s: seq<Tile>, mined: set<Point>): seq<Tile>
  {
    seq(|s|, k requires 0 <= k < |s| => s[k].(isMine := s[k].position in mined))
  }

  /** Tile `k` of a marked board carries a mine exactly when its position is marked. */
  lemma MarkedAt(s: seq<Tile>, mined: set<Point>, k: int)
    requires 0 <= k < |s|
    ensures |Marked(s, mined)| == |s|
    ensures Marked(s, mined)[k].isMine <==> s[k].position in mined
  {
  }

  /** Mining the one tile at position `q` adds `q` to the mined positions and one to the tally. */
  lemma MarkStep(s: seq<Tile>, width: int, mined: set<Point>, q: Point, at: int)
    requires forall k :: 0 <= k < |s| ==> Index(width, s[k].position) == k
    requires 0 <= at < |s| && s[at].position == q && q !in mined
    ensures Marked(s, mined)[at := Marked(s, mined)[at].(isMine := true)] == Marked(s, mined + {q})
    ensures Tally(Marked(s, mined + {q}), Mined) == Tally(Marked(s, mined), Mined) + 1
  {
    var m := Marked(s, mined);
    TallyUpdate(m, at, m[at].(isMine := true), Mined);
    assert m[at := m[at].(isMine := true)] == Marked(s, mined + {q});
  }

  /** One draw: a new cell mines its tile and adds one mine, a repeated cell changes nothing. */
  lemma DrawStep(s: seq<Tile>, width: int, samples: seq<Point>, k: int, at: int)
    requires forall i :: 0 <= i < |s| ==> Index(width, s[i].position) == i
    requires 0 <= k < |samples| && 0 <= at < |s| && s[at].position == samples[k]
    ensures var m := Marked(s, Seen(samples, k));
      && |m| == |s|
      && (m[at].isMine <==> samples[k] in Seen(samples, k))
      && (m[at].isMine ==> Marked(s, Seen(samples, k + 1)) == m && |Seen(samples, k + 1)| == |Seen(samples, k)|)
      && (!m[at].isMine ==>
            && Marked(s, Seen(samples, k + 1)) == m[at := m[at].(isMine := true)]
            && Tally(Marked(s, Seen(samples, k + 1)), Mined) == Tally(m, Mined) + 1
            && |Seen(samples, k + 1)| == |Seen(samples, k)| + 1)
  {
    SeenStep(samples, k);
    MarkedAt(s, Seen(samples, k), at);
    if samples[k] !in Seen(samples, k) {
      MarkStep(s, width, Seen(samples, k), samples[k], at);
    }
  }

  /**
    The mines of `s` are the distinct cells among the first `used` samples,
    and `used` is the shortest prefix holding `mineCount` distinct cells.
  */
  ghost predicate DrawnFrom(s: seq<Tile>, samples: seq<Point>, mineCount: int, used: int) {
    && 0 <= used <= |samples|
    && |Seen(samples, used)| == mineCount
    && (used == 0 || |Seen(samples, used - 1)| < mineCount)
    && forall k :: 0 <= k < |s| ==> (s[k].isMine <==> s[k].position in Seen(samples, used))
  }

  class Game {
    const width: int
    const height: int
    const mineCount: int
    const board: array<Tile>
    /** Where the mines are; fixed once the constructor has placed them. */
    ghost const layout: seq<bool>

    var flagsPlaced: int
    var spacesExposed: int
    var state: GameState

    // -------------------------------------------------------------------------
    // Invariants
    // -------------------------------------------------------------------------

    /** Tile `k` of `s` sits at the position whose flat index is `k`. */
    ghost predicate Positioned(s: seq<Tile>) {
      OnGrid(s, width, height)
    }

    /** The shape of the board, which no operation changes. */
    ghost predicate Wf()
      reads board
    {
      && 1 <= width && 1 <= height
      && 1 <= mineCount <= width * height
      && Positioned(board[..])
      && MineLayout(board[..]) == layout
    }

    /** Every exposed safe tile caches the number of mines around it. */
    ghost predicate CachedCounts(s: seq<Tile>) {
      forall k :: 0 <= k < |s| && s[k].isExposed && !s[k].isMine ==>
        s[k].minesInArea == AreaCount(layout, width, height, s[k].position, 1)
    }

    /**
      What the counters and the state say about the tiles: exactly `mineCount`
      mines, one flag counted per flagged tile, one exposure counted per
      exposed tile until a loss, the outcome the state announces, and, while
      in play, fewer exposures than safe tiles once anything is exposed.
    */
    ghost predicate Consistent(s: seq<Tile>, flags: int, spaces: int, st: GameState) {
      && Tally(s, Mined) == mineCount
      && flags == Tally(s, Flagged)
      && st != None
      && (st != FinishLose ==> spaces == Tally(s, Exposed) && NoMineExposed(s))
      && (st == FinishLose ==> AllMinesExposed(s))
      && (st == FinishWin ==> AllSafeExposed(s))
      && (st == Playing ==> spaces == 0 || spaces < width * height - mineCount)
      && CachedCounts(s)
    }

    ghost predicate Valid()
      reads this, board
    {
      Wf() && Consistent(board[..], flagsPlaced, spacesExposed, state)
    }

    /** The tile at in-bounds position `n` is exposed in `s`. */
    ghost predicate ExposedAt(s: seq<Tile>, n: Point) {
      0 <= Index(width, n) < |s| && s[Index(width, n)].isExposed
    }

    /** No mine lies within distance `d` of `n`. */
    ghost predicate Zero(n: Point, d: int) {
      AreaCount(layout, width, height, n, d) == 0
    }

    /** Every in-bounds neighbour of `q` is exposed. */
    ghost predicate Surrounded(s: seq<Tile>, q: Point) {
      forall n :: InBounds(width, height, n) && Adjacent(q, n, 1) ==> ExposedAt(s, n)
    }

    /**
      The board as a click leaves it: every exposed safe tile with no mine
      around has all of its neighbours exposed too.
    */
    ghost predicate Settled(s: seq<Tile>) {
      forall k :: 0 <= k < |s| && s[k].isExposed && !s[k].isMine && Zero(s[k].position, 1) ==>
        Surrounded(s, s[k].position)
    }

    // -------------------------------------------------------------------------
    // What the flood fill leaves behind
    // -------------------------------------------------------------------------

    /** The in-bounds positions not yet in `visited`: what the flood fill has left to do. */
    ghost function Unvisited(visited: seq<Point>): set<Point> {
      set x, y | 0 <= x < width && 0 <= y < height && Point(x, y) !in visited :: Point(x, y)
    }

    /**
      The neighbours of `q` that the fill's loops have passed by the time they
      reach `(i, j)` are exposed or checked, and those with no mine around are
      checked.
    */
    ghost predicate ClosedBefore(s: seq<Tile>, q: Point, d: int, visited: seq<Point>, i: int, j: int) {
      forall n :: InBounds(width, height, n) && Adjacent(q, n, d) && Before(n, i, j) ==>
        (ExposedAt(s, n) || n in visited) && (Zero(n, d) ==> n in visited)
    }

    /** All neighbours of `q` are exposed or checked, and those with no mine around are checked. */
    ghost predicate Closed(s: seq<Tile>, q: Point, d: int, visited: seq<Point>) {
      ClosedBefore(s, q, d, visited, q.x + d + 1, q.y)
    }

    /** `q` has no mine around, is exposed, and every neighbour was dealt with. */
    ghost predicate Explored(s: seq<Tile>, q: Point, d: int, visited: seq<Point>) {
      InBounds(width, height, q) && Zero(q, d) && ExposedAt(s, q) && Closed(s, q, d, visited)
    }

    /**
      A call on `p` starting from the checked list `start` ended with `visited`:
      the list grew by `p` and then by positions that were fully explored.
    */
    ghost predicate Fill(start: seq<Point>, p: Point, d: int, visited: seq<Point>, s: seq<Tile>) {
      && Prefix(start, visited) && |start| < |visited| && visited[|start|] == p
      && (forall m :: |start| < m < |visited| ==> Explored(s, visited[m], d, visited))
      && Linked(start, visited, d)
    }

    /**
      Every position a call added after its own `p` sits next to an earlier
      one of the same call with no mine around: the fill spreads from `p`
      through zero-count tiles only.
    */
    ghost predicate Linked(start: seq<Point>, visited: seq<Point>, d: int) {
      forall m :: |start| < m < |visited| ==> LinkedAt(start, visited, d, m)
    }

    ghost predicate LinkedAt(start: seq<Point>, visited: seq<Point>, d: int, m: int)
      requires 0 <= m < |visited|
    {
      exists j :: |start| <= j < m && Zero(visited[j], d) && Adjacent(visited[j], visited[m], d)
    }

    /**
      From `s0` to `s1` only safe tiles were exposed, each next to a checked
      position with no mine around, and each one with no mine around itself
      was checked too.
    */
    ghost predicate Step(s0: seq<Tile>, s1: seq<Tile>, d: int, visited: seq<Point>) {
      SafeGrowth(s0, s1) &&
      forall k :: 0 <= k < |s0| && s1[k].isExposed && !s0[k].isExposed ==>
        && (Zero(s1[k].position, d) ==> s1[k].position in visited)
        && exists q :: q in visited && Zero(q, d) && Adjacent(q, s1[k].position, d)
    }

    /** `IsGameComplete`: the game has been won or lost, that is, it was started and is no longer in play. */
    predicate IsGameComplete()
      reads this
      ensures IsGameComplete() <==> state != None && state != Playing
    {
      state == FinishLose || state == FinishWin
    }

    // -------------------------------------------------------------------------
    // Construction
    // -------------------------------------------------------------------------

    /**
      Start a game: the mine count is clamped into `[1, width * height]`, every
      tile gets its position, and mines are placed by rejection sampling from
      `samples`, the stream of random draws (which must eventually hit enough
      distinct cells).
    */
    constructor (inWidth: int, inHeight: int, inMineCount: int, samples: seq<Point>)
      requires 1 <= inWidth && 1 <= inHeight
      requires forall q :: q in samples ==> InBounds(inWidth, inHeight, q)
      requires Settings.Clamp(inMineCount, 1, inWidth * inHeight) <= |Seen(samples, |samples|)|
      ensures Valid() && Settled(board[..]) && fresh(board)
      ensures width == inWidth && height == inHeight
      ensures mineCount == Settings.Clamp(inMineCount, 1, inWidth * inHeight)
      ensures state == Playing && flagsPlaced == 0 && spacesExposed == 0
      ensures forall k :: 0 <= k < board.Length ==>
        !board[k].isExposed && !board[k].isFlagged && board[k].minesInArea == 0
      ensures exists used :: DrawnFrom(board[..], samples, mineCount, used)
    {
      width := inWidth;
      height := inHeight;
      assert 1 <= inWidth * inHeight;
      var count := Settings.Clamp(inMineCount, 1, inWidth * inHeight);
      mineCount := count;
      var tiles := LayOutTiles(inWidth, inHeight);
      ghost var used := PlaceMines(tiles, inWidth, inHeight, count, samples);
      ghost var s := tiles[..];
      assert forall k :: 0 <= k < |s| ==> !s[k].isExposed && !s[k].isFlagged && s[k].minesInArea == 0;
      TallyZero(s, Exposed);
      TallyZero(s, Flagged);
      assert DrawnFrom(s, samples, count, used);
      board := tiles;
      layout := MineLayout(s);
      flagsPlaced := 0;
      spacesExposed := 0;
      state := Playing;
      new;
      assert board[..] == s;
    }

    // -------------------------------------------------------------------------
    // Queries
    // -------------------------------------------------------------------------

    /**
      `GetTile`'s index arithmetic: the tile at `(x, y)` lives at `x + y * width`,
      inside the array, and no other in-bounds position shares that slot.
    */
    function TileIndex(x: int, y: int): (k: int)
      requires InBounds(width, height, Point(x, y))
      ensures 0 <= k < width * height
      ensures forall p :: InBounds(width, height, p) && Index(width, p) == k ==> p == Point(x, y)
    {
      IndexUnique(width, height, Point(x, y));
      Index(width, Point(x, y))
    }

    /** `GetTile` / `GetTilePtr`: the tile at `(x, y)`, which knows its own position. */
    function GetTile(x: int, y: int): (t: Tile)
      reads board
      requires Wf() && InBounds(width, height, Point(x, y))
      ensures t.position == Point(x, y)
      ensures t.isMine == MineAt(layout, width, height, Point(x, y))
    {
      board[TileIndex(x, y)]
    }

    /**
      `GetMineCountInArea`: the mines within Chebyshev distance `d` of `p`,
      the centre excluded and cells off the board ignored. Changes nothing.
    */
    method GetMineCountInArea(p: Point, d: int) returns (count: nat)
      requires Wf()
      ensures count == AreaCount(layout, width, height, p, d)
    {
      count := 0;
      var i := p.x - d;
      while i <= d + p.x
        invariant p.x - d <= i && (i == p.x - d || i <= p.x + d + 1)
        invariant count == AreaSum(layout, width, height, p, p.x - d, i, p.y - d, p.y + d + 1)
      {
        var j := p.y - d;
        while j <= d + p.y
          invariant p.y - d <= j <= p.y + d + 1
          invariant count == AreaSum(layout, width, height, p, p.x - d, i, p.y - d, p.y + d + 1)
                           + RowCount(layout, width, height, p, i, p.y - d, j)
        {
          if i == p.x && j == p.y {
            // the centre is not its own neighbour
          } else if i < 0 || i >= width {
            // off the board: no mine there
          } else if j < 0 || j >= height {
            // off the board: no mine there
          } else {
            var tile := GetTile(i, j);
            if tile.isMine {
              count := count + 1;
            }
          }
          j := j + 1;
        }
        i := i + 1;
      }
    }

    /** In a consistent game that is not lost, the win test holds exactly when every safe tile is exposed. */
    lemma WinTestMeansAllSafeExposed()
      requires Valid() && state != FinishLose
      ensures width * height - mineCount <= spacesExposed <==> AllSafeExposed(board[..])
    {
      SafeTally(board[..]);
    }

    /**
      While a safe tile exists and the game is not lost, it is won exactly
      when every safe tile is exposed: a game still in play always has a safe
      tile left to find.
    */
    lemma WonIffAllSafeExposed()
      requires Valid() && state != FinishLose
      ensures mineCount < width * height ==> (state == FinishWin <==> AllSafeExposed(board[..]))
    {
      SafeTally(board[..]);
    }

    /** A finished game shows its outcome: every mine after a loss, every safe tile after a win. */
    lemma CompleteGameIsDecided()
      requires Valid() && IsGameComplete()
      ensures state == FinishLose ==> AllMinesExposed(board[..])
      ensures state == FinishWin ==> AllSafeExposed(board[..]) && !AllMinesExposed(board[..])
    {
      if state == FinishWin {
        var s := board[..];
        TallyZero(s, Mined);
        var k :| 0 <= k < |s| && s[k].isMine;
        assert !s[k].isExposed;
      }
    }

    // -------------------------------------------------------------------------
    // State changes
    // -------------------------------------------------------------------------

    /** The part of `SetState` that touches the engine: record the state and, on a loss, expose every mine. */
    method SetState(newState: GameState)
      requires Wf()
      modifies this`state, board
      ensures state == newState
      ensures board[..] == if newState == FinishLose then RevealMines(old(board[..])) else old(board[..])
    {
      state := newState;
      if IsGameComplete() {
        if state == FinishLose {
          ghost var s0 := board[..];
          var i := 0;
          while i < width
            invariant 0 <= i <= width
            modifies board
            invariant forall k :: 0 <= k < board.Length ==>
              board[k] == if s0[k].isMine && s0[k].position.x < i then s0[k].(isExposed := true) else s0[k]
          {
            var j := 0;
            while j < height
              invariant 0 <= j <= height
              modifies board
              invariant forall k :: 0 <= k < board.Length ==>
                board[k] == if s0[k].isMine && Before(s0[k].position, i, j) then s0[k].(isExposed := true) else s0[k]
            {
              var k := TileIndex(i, j);
              assert s0[k].position == Point(i, j);
              if board[k].isMine {
                // set the flag directly: the exposure path is not re-entered
                board[k] := board[k].(isExposed := true);
              }
              j := j + 1;
            }
            i := i + 1;
          }
          assert board[..] == RevealMines(s0);
        }
      }
    }

    /**
      Caching the count of the safe tile `k`, whose exposed flag was just set,
      keeps the board's shape, makes the game consistent again with one more
      exposure, and moves the state as the win test says.
    */
    lemma SafeExposureKeeps(s: seq<Tile>, k: int, flags: int, spaces: int, st: GameState)
      requires Positioned(s) && MineLayout(s) == layout && st != FinishLose
      requires 0 <= k < |s| && s[k].isExposed && !s[k].isMine
      requires Consistent(s[k := s[k].(isExposed := false)], flags, spaces, st)
      ensures var s' := s[k := s[k].(minesInArea := AreaCount(layout, width, height, s[k].position, 1))];
        && Positioned(s') && MineLayout(s') == layout
        && Consistent(s', flags, spaces + 1, if width * height - mineCount <= spaces + 1 then FinishWin else st)
    {
      var before := s[k := s[k].(isExposed := false)];
      var s' := s[k := s[k].(minesInArea := AreaCount(layout, width, height, s[k].position, 1))];
      assert s' == before[k := s'[k]];
      MineLayoutUpdate(s, k, s'[k]);
      TallyUpdate(before, k, s'[k], Mined);
      TallyUpdate(before, k, s'[k], Flagged);
      TallyUpdate(before, k, s'[k], Exposed);
      SafeTally(before);
      SafeTally(s');
    }

    /**
      The lose reveal after the mine `k` was exposed keeps the board's shape
      and leaves a consistent lost game.
    */
    lemma MineExposureKeeps(s: seq<Tile>, k: int, flags: int, spaces: int, st: GameState)
      requires Positioned(s) && MineLayout(s) == layout
      requires 0 <= k < |s| && s[k].isExposed && s[k].isMine
      requires Consistent(s[k := s[k].(isExposed := false)], flags, spaces, st)
      ensures Positioned(RevealMines(s)) && MineLayout(RevealMines(s)) == layout
      ensures Consistent(RevealMines(s), flags, spaces + 1, FinishLose)
    {
      var before := s[k := s[k].(isExposed := false)];
      assert RevealMines(before) == RevealMines(s);
      RevealMinesKeeps(before);
      RevealMinesKeeps(s);
    }

    /**
      `OnTileExposed`, called right after a tile's exposed flag was set: count
      the exposure, cache the tile's adjacency count when it is safe, and
      decide the game.
    */
    method OnTileExposed(x: int, y: int)
      requires Wf() && InBounds(width, height, Point(x, y)) && state != FinishLose
      requires board[TileIndex(x, y)].isExposed
      requires Consistent(board[..][TileIndex(x, y) := board[TileIndex(x, y)].(isExposed := false)],
                          flagsPlaced, spacesExposed, state)
      modifies this`spacesExposed, this`state, board
      ensures Valid()
      ensures spacesExposed == old(spacesExposed) + 1
      ensures var k := TileIndex(x, y); var t := old(board[k]);
        if t.isMine then
          state == FinishLose && board[..] == RevealMines(old(board[..]))
        else
          && board[..] == old(board[..])[k := t.(minesInArea := AreaCount(layout, width, height, Point(x, y), 1))]
          && state == if width * height - mineCount <= spacesExposed then FinishWin else old(state)
    {
      spacesExposed := spacesExposed + 1;
      var tile := GetTile(x, y);
      var k := TileIndex(x, y);
      if !tile.isMine {
        var count := GetMineCountInArea(tile.position, 1);
        SafeExposureKeeps(board[..], k, flagsPlaced, old(spacesExposed), state);
        board[k] := tile.(minesInArea := count);
        assert board[..] == old(board[..])[k := tile.(minesInArea := count)];
      }
      if tile.isMine {
        MineExposureKeeps(board[..], k, flagsPlaced, old(spacesExposed), state);
        SetState(FinishLose);
        return;
      }
      if width * height - mineCount <= spacesExposed {
        SetState(FinishWin);
      }
    }

    /** Setting a tile's exposed flag keeps the board's shape. */
    lemma ExposedFlagKeepsShape(s: seq<Tile>, k: int)
      requires Positioned(s) && MineLayout(s) == layout && 0 <= k < |s|
      ensures Positioned(s[k := s[k].(isExposed := true)])
      ensures MineLayout(s[k := s[k].(isExposed := true)]) == layout
    {
      MineLayoutUpdate(s, k, s[k].(isExposed := true));
    }

    /**
      The board after tile `k` is exposed: unchanged if it already was, the
      lose reveal if it is a mine, and otherwise the tile exposed with the
      count of mines around it cached.
    */
    ghost function AfterExpose(s: seq<Tile>, k: int): seq<Tile>
      requires 0 <= k < |s|
    {
      if s[k].isExposed then s
      else if s[k].isMine then RevealMines(s)
      else s[k := s[k].(isExposed := true, minesInArea := AreaCount(layout, width, height, s[k].position, 1))]
    }

    /** Exposing leaves tile `k` exposed, and exposing it again changes nothing. */
    lemma AfterExposeIdempotent(s: seq<Tile>, k: int)
      requires 0 <= k < |s|
      ensures |AfterExpose(s, k)| == |s| && AfterExpose(s, k)[k].isExposed
      ensures AfterExpose(AfterExpose(s, k), k) == AfterExpose(s, k)
    {
    }

    /**
      A win is final: every safe tile is exposed by then, so exposing one of
      them again changes neither the board nor the state.
    */
    lemma WinIsFinal(k: int)
      requires Valid() && state == FinishWin && 0 <= k < board.Length && !board[k].isMine
      ensures AfterExpose(board[..], k) == board[..]
      ensures StateAfterExpose(board[k], spacesExposed, state) == FinishWin
    {
    }

    /** The game state after exposing tile `t` when `spaces` exposures were counted before. */
    function StateAfterExpose(t: Tile, spaces: int, st: GameState): GameState {
      if t.isExposed then st
      else if t.isMine then FinishLose
      else if width * height - mineCount <= spaces + 1 then FinishWin
      else st
    }

    /**
      `FMinesweeperTile::Expose`: a no-op on an exposed tile; otherwise set the
      exposed flag and run `OnTileExposed` once. The flag and the flag counter
      are left alone.
    */
    method Expose(x: int, y: int)
      requires Valid() && InBounds(width, height, Point(x, y)) && state != FinishLose
      modifies this`spacesExposed, this`state, board
      ensures Valid()
      ensures board[..] == AfterExpose(old(board[..]), TileIndex(x, y))
      ensures spacesExposed == old(spacesExposed) + (if old(board[TileIndex(x, y)]).isExposed then 0 else 1)
      ensures state == StateAfterExpose(old(board[TileIndex(x, y)]), old(spacesExposed), old(state))
    {
      var k := TileIndex(x, y);
      if board[k].isExposed {
        return;
      }
      ghost var s0 := board[..];
      ghost var t := board[k];
      assert t.position == Point(x, y);
      ghost var c := AreaCount(layout, width, height, Point(x, y), 1);
      ExposedFlagKeepsShape(s0, k);
      ExposeInTwoSteps(s0, k, c);
      board[k] := board[k].(isExposed := true);
      assert board[..] == s0[k := t.(isExposed := true)];
      OnTileExposed(x, y);
    }

    // -------------------------------------------------------------------------
    // Flood fill
    // -------------------------------------------------------------------------

    lemma UnvisitedShrinks(checked: seq<Point>, current: seq<Point>, p: Point)
      requires InBounds(width, height, p) && p !in checked && p in current
      requires forall q :: q in checked ==> q in current
      ensures Unvisited(current) < Unvisited(checked)
    {
      assert p == Point(p.x, p.y);
      assert p in Unvisited(checked);
    }

    /** A neighbour of a tile with no mine around is not a mine. */
    lemma NoMineNear(s: seq<Tile>, p: Point, d: int, n: Point)
      requires Positioned(s) && MineLayout(s) == layout
      requires Zero(p, d) && Adjacent(p, n, d) && InBounds(width, height, n)
      ensures 0 <= Index(width, n) < |s| && !s[Index(width, n)].isMine
    {
      IndexInRange(width, height, n);
      AreaCountZero(layout, width, height, p, d);
      assert !MineAt(layout, width, height, n);
    }

    lemma ExposedAtGrows(s0: seq<Tile>, s1: seq<Tile>, n: Point)
      requires SafeGrowth(s0, s1) && ExposedAt(s0, n)
      ensures ExposedAt(s1, n)
    {
    }

    lemma ClosedBeforeMono(s0: seq<Tile>, s1: seq<Tile>, q: Point, d: int, v0: seq<Point>, v1: seq<Point>, i: int, j: int)
      requires ClosedBefore(s0, q, d, v0, i, j) && SafeGrowth(s0, s1) && Prefix(v0, v1)
      ensures ClosedBefore(s1, q, d, v1, i, j)
    {
      PrefixMembers(v0, v1);
      forall n | InBounds(width, height, n) && Adjacent(q, n, d) && Before(n, i, j) && ExposedAt(s0, n)
        ensures ExposedAt(s1, n)
      {
        ExposedAtGrows(s0, s1, n);
      }
    }

    lemma ExploredMono(s0: seq<Tile>, s1: seq<Tile>, q: Point, d: int, v0: seq<Point>, v1: seq<Point>)
      requires Explored(s0, q, d, v0) && SafeGrowth(s0, s1) && Prefix(v0, v1)
      ensures Explored(s1, q, d, v1)
    {
      ClosedBeforeMono(s0, s1, q, d, v0, v1, q.x + d + 1, q.y);
      ExposedAtGrows(s0, s1, q);
    }

    /** A fill stays a fill while the board grows and later positions, all explored, join the list. */
    lemma FillExtend(start: seq<Point>, p: Point, d: int, v0: seq<Point>, s0: seq<Tile>, v1: seq<Point>, s1: seq<Tile>)
      requires Fill(start, p, d, v0, s0) && Prefix(v0, v1) && SafeGrowth(s0, s1)
      requires forall m :: |v0| <= m < |v1| ==> Explored(s1, v1[m], d, v1)
      requires Linked(start, v1, d)
      ensures Fill(start, p, d, v1, s1)
    {
      PrefixTrans(start, v0, v1);
      forall m | |start| < m < |v0|
        ensures Explored(s1, v1[m], d, v1)
      {
        assert v1[m] == v0[m];
        ExploredMono(s0, s1, v0[m], d, v0, v1);
      }
    }

    /**
      The positions a recursive call on a neighbour of the caller's zero-count
      `p` added stay linked to `p`.
    */
    lemma LinkedJoin(start: seq<Point>, v0: seq<Point>, v1: seq<Point>, d: int)
      requires Prefix(start, v0) && |start| < |v0| && Prefix(v0, v1)
      requires Linked(start, v0, d) && Linked(v0, v1, d)
      requires |v0| < |v1| ==> Zero(v0[|start|], d) && Adjacent(v0[|start|], v1[|v0|], d)
      ensures Linked(start, v1, d)
    {
      forall m | |start| < m < |v1|
        ensures LinkedAt(start, v1, d, m)
      {
        assert forall i :: 0 <= i < |v0| ==> v1[i] == v0[i] by {
          assert v1[..|v0|] == v0;
        }
        if m < |v0| {
          assert LinkedAt(start, v0, d, m);
          var j :| |start| <= j < m && Zero(v0[j], d) && Adjacent(v0[j], v0[m], d);
          assert Zero(v1[j], d) && Adjacent(v1[j], v1[m], d);
        } else if m == |v0| {
          assert Zero(v1[|start|], d) && Adjacent(v1[|start|], v1[m], d);
        } else {
          assert LinkedAt(v0, v1, d, m);
        }
      }
    }

    /**
      After the recursive call on `n` returned `v` and the caller exposed `n`,
      every position the call added is explored.
    */
    lemma RecursionExplored(start: seq<Point>, n: Point, d: int, v: seq<Point>, s0: seq<Tile>, s1: seq<Tile>)
      requires Fill(start, n, d, v, s0) && InBounds(width, height, n) && Zero(n, d) && Closed(s0, n, d, v)
      requires SafeGrowth(s0, s1) && ExposedAt(s1, n)
      ensures forall m :: |start| <= m < |v| ==> Explored(s1, v[m], d, v)
    {
      forall m | |start| <= m < |v|
        ensures Explored(s1, v[m], d, v)
      {
        if m == |start| {
          ClosedBeforeMono(s0, s1, n, d, v, v, n.x + d + 1, n.y);
        } else {
          ExploredMono(s0, s1, v[m], d, v, v);
        }
      }
    }

    /** The loops have dealt with `(i, j)` too. */
    lemma ClosedStep(s0: seq<Tile>, s1: seq<Tile>, q: Point, d: int, v0: seq<Point>, v1: seq<Point>, i: int, j: int)
      requires ClosedBefore(s0, q, d, v0, i, j) && SafeGrowth(s0, s1) && Prefix(v0, v1)
      requires InBounds(width, height, Point(i, j)) && Adjacent(q, Point(i, j), d) ==>
        (ExposedAt(s1, Point(i, j)) || Point(i, j) in v1) && (Zero(Point(i, j), d) ==> Point(i, j) in v1)
      ensures ClosedBefore(s1, q, d, v1, i, j + 1)
    {
      ClosedBeforeMono(s0, s1, q, d, v0, v1, i, j);
    }

    /** Once a column is done, the loops move to the next one. */
    lemma ClosedNextColumn(s: seq<Tile>, q: Point, d: int, v: seq<Point>, i: int, j: int)
      requires ClosedBefore(s, q, d, v, i, j) && q.y + d < j
      ensures ClosedBefore(s, q, d, v, i + 1, q.y - d)
    {
    }

    lemma StepTrans(s0: seq<Tile>, s1: seq<Tile>, s2: seq<Tile>, d: int, v1: seq<Point>, v2: seq<Point>)
      requires Step(s0, s1, d, v1) && Step(s1, s2, d, v2) && Prefix(v1, v2)
      ensures Step(s0, s2, d, v2)
    {
      PrefixMembers(v1, v2);
      forall k | 0 <= k < |s0| && s2[k].isExposed && !s0[k].isExposed
        ensures (Zero(s2[k].position, d) ==> s2[k].position in v2)
        ensures exists q :: q in v2 && Zero(q, d) && Adjacent(q, s2[k].position, d)
      {
        if s1[k].isExposed {
          var q :| q in v1 && Zero(q, d) && Adjacent(q, s1[k].position, d);
          assert q in v2;
        }
      }
    }

    lemma StepRefl(s: seq<Tile>, d: int, v: seq<Point>)
      ensures Step(s, s, d, v)
    {
    }

    /** Exposing the safe neighbour `n` of the checked position `p`, which has no mine around. */
    lemma ExposeNeighbourStep(s0: seq<Tile>, s1: seq<Tile>, p: Point, n: Point, d: int, v: seq<Point>)
      requires Positioned(s0) && InBounds(width, height, n)
      requires p in v && Zero(p, d) && Adjacent(p, n, d) && (Zero(n, d) ==> n in v)
      requires 0 <= Index(width, n) < |s0| && !s0[Index(width, n)].isMine
      requires s1 == AfterExpose(s0, Index(width, n))
      ensures Step(s0, s1, d, v) && ExposedAt(s1, n)
    {
      var k := Index(width, n);
      assert s0[k].position == n by {
        IndexInjective(width, s0[k].position, n);
      }
    }

    /**
      A fill from `p` that has nothing to do: radius 1, a settled board, and
      `p` already exposed, so every neighbour it would expose already is.
    */
    ghost predicate Quiet(s: seq<Tile>, p: Point, d: int) {
      d == 1 && Settled(s) && ExposedAt(s, p)
    }

    lemma QuietNeighbour(s: seq<Tile>, p: Point, d: int, n: Point)
      requires Positioned(s) && NoMineExposed(s) && Quiet(s, p, d) && Zero(p, d)
      requires InBounds(width, height, p) && InBounds(width, height, n) && Adjacent(p, n, d)
      ensures ExposedAt(s, n)
    {
      var k := Index(width, p);
      IndexInjective(width, s[k].position, p);
      assert Surrounded(s, s[k].position);
    }

    /**
      What the fill's loops keep while they sweep the square around `p`: the
      board grew by justified safe exposures since the call began, the checked
      list is a fill, and the cells passed so far are dealt with.
    */
    ghost predicate Sweeping(entry: seq<Tile>, s: seq<Tile>, p: Point, d: int, checked: seq<Point>, v: seq<Point>, i: int, j: int) {
      Step(entry, s, d, v) && Fill(checked, p, d, v, s) && ClosedBefore(s, p, d, v, i, j)
    }

    /**
      One visit of the neighbour `n` of `p`: `s0`/`v0` before it, `s1`/`v1`
      after the recursive call (if there was one), `s2` after `n` was exposed.
    */
    lemma NeighbourVisited(entry: seq<Tile>, s0: seq<Tile>, s1: seq<Tile>, s2: seq<Tile>,
                           p: Point, n: Point, d: int, checked: seq<Point>, v0: seq<Point>, v1: seq<Point>)
      requires Sweeping(entry, s0, p, d, checked, v0, n.x, n.y)
      requires Zero(p, d) && InBounds(width, height, n) && Adjacent(p, n, d) && n !in v0
      requires Zero(n, d) ==> Fill(v0, n, d, v1, s1) && Closed(s1, n, d, v1) && Step(s0, s1, d, v1)
      requires !Zero(n, d) ==> s1 == s0 && v1 == v0
      requires Positioned(s1) && 0 <= Index(width, n) < |s1| && !s1[Index(width, n)].isMine
      requires s2 == AfterExpose(s1, Index(width, n))
      ensures Sweeping(entry, s2, p, d, checked, v1, n.x, n.y + 1)
    {
      if !Zero(n, d) {
        StepRefl(s0, d, v0);
      }
      assert Prefix(v0, v1);
      assert p in v1 by {
        assert v1[|checked|] == v0[|checked|] == p;
      }
      assert Zero(n, d) ==> n in v1 by {
        if Zero(n, d) {
          assert v1[|v0|] == n;
        }
      }
      ExposeNeighbourStep(s1, s2, p, n, d, v1);
      SafeGrowthTrans(s0, s1, s2);
      StepTrans(s0, s1, s2, d, v1, v1);
      if Zero(n, d) {
        RecursionExplored(v0, n, d, v1, s1, s2);
        LinkedJoin(checked, v0, v1, d);
      }
      FillExtend(checked, p, d, v0, s0, v1, s2);
      StepTrans(entry, s0, s2, d, v0, v1);
      ClosedStep(s0, s2, p, d, v0, v1, n.x, n.y);
    }

    /**
      `UnlockSurroundingTilesIfEmpty`: record `p` as checked; if no mine lies
      within distance `d` of it, visit each in-bounds, unchecked neighbour in
      the order of the two nested loops. Returns the grown checked list.
    */
    method UnlockSurroundingTilesIfEmpty(p: Point, d: int, checked: seq<Point>) returns (checked': seq<Point>)
      requires Valid() && state != FinishLose && InBounds(width, height, p) && p !in checked
      modifies this`spacesExposed, this`state, board
      ensures Valid() && state != FinishLose && (state == old(state) || state == FinishWin)
      ensures spacesExposed >= old(spacesExposed)
      ensures Step(old(board[..]), board[..], d, checked')
      ensures Fill(checked, p, d, checked', board[..])
      ensures !Zero(p, d) ==>
        checked' == checked + [p] && board[..] == old(board[..]) && spacesExposed == old(spacesExposed) && state == old(state)
      ensures Zero(p, d) ==> Closed(board[..], p, d, checked')
      ensures Quiet(old(board[..]), p, d) ==>
        board[..] == old(board[..]) && spacesExposed == old(spacesExposed) && state == old(state)
      ensures mineCount < width * height ==> (state == FinishWin <==> AllSafeExposed(board[..]))
      decreases Unvisited(checked), 2
    {
      checked' := checked + [p];
      assert checked'[..|checked|] == checked;
      var centre := GetMineCountInArea(p, d);
      StepRefl(board[..], d, checked');
      if centre != 0 {
        WonIffAllSafeExposed();
        return;
      }
      var i := p.x - d;
      while i <= d + p.x
        invariant p.x - d <= i
        invariant Valid() && state != FinishLose && (state == old(state) || state == FinishWin)
        invariant spacesExposed >= old(spacesExposed)
        invariant Sweeping(old(board[..]), board[..], p, d, checked, checked', i, p.y - d)
        invariant Quiet(old(board[..]), p, d) ==>
          board[..] == old(board[..]) && spacesExposed == old(spacesExposed) && state == old(state)
      {
        checked' := SweepColumn(p, i, d, old(board[..]), checked, checked');
        ClosedNextColumn(board[..], p, d, checked', i, p.y + d + 1);
        i := i + 1;
      }
      WonIffAllSafeExposed();
    }

    /**
      The fill's inner loop for column `i` of the square around `p`: visit
      each in-bounds, unchecked cell of the column other than `p`.
    */
    method SweepColumn(p: Point, i: int, d: int, ghost entry: seq<Tile>, ghost checked: seq<Point>, visited: seq<Point>)
      returns (visited': seq<Point>)
      requires Valid() && state != FinishLose
      requires InBounds(width, height, p) && p !in checked && Zero(p, d) && p.x - d <= i <= p.x + d
      requires Sweeping(entry, board[..], p, d, checked, visited, i, p.y - d)
      modifies this`spacesExposed, this`state, board
      ensures Valid() && state != FinishLose && (state == old(state) || state == FinishWin)
      ensures spacesExposed >= old(spacesExposed)
      ensures Sweeping(entry, board[..], p, d, checked, visited', i, p.y + d + 1)
      ensures Quiet(old(board[..]), p, d) ==>
        board[..] == old(board[..]) && spacesExposed == old(spacesExposed) && state == old(state)
      decreases Unvisited(checked), 1
    {
      visited' := visited;
      var j := p.y - d;
      while j <= d + p.y
        invariant p.y - d <= j <= p.y + d + 1
        invariant Valid() && state != FinishLose && (state == old(state) || state == FinishWin)
        invariant spacesExposed >= old(spacesExposed)
        invariant Sweeping(entry, board[..], p, d, checked, visited', i, j)
        invariant Quiet(old(board[..]), p, d) ==>
          board[..] == old(board[..]) && spacesExposed == old(spacesExposed) && state == old(state)
      {
        var n := Point(i, j);
        if (i == p.x && j == p.y) || n.x < 0 || n.x >= width || n.y < 0 || n.y >= height || n in visited' {
          // the centre, a cell off the board, or one already checked
          ClosedStep(board[..], board[..], p, d, visited', visited', i, j);
        } else {
          visited' := VisitNeighbour(p, n, d, entry, checked, visited');
        }
        j := j + 1;
      }
    }

    /**
      One pass of the fill's inner loop on an in-bounds, unchecked neighbour
      `n` of `p`: recurse on `n` when no mine lies around it, then expose it.
    */
    method VisitNeighbour(p: Point, n: Point, d: int, ghost entry: seq<Tile>, ghost checked: seq<Point>, visited: seq<Point>)
      returns (visited': seq<Point>)
      requires Valid() && state != FinishLose
      requires InBounds(width, height, p) && p !in checked
      requires Zero(p, d) && InBounds(width, height, n) && Adjacent(p, n, d) && n !in visited
      requires Sweeping(entry, board[..], p, d, checked, visited, n.x, n.y)
      modifies this`spacesExposed, this`state, board
      ensures Valid() && state != FinishLose && (state == old(state) || state == FinishWin)
      ensures spacesExposed >= old(spacesExposed)
      ensures Sweeping(entry, board[..], p, d, checked, visited', n.x, n.y + 1)
      ensures Quiet(old(board[..]), p, d) ==>
        board[..] == old(board[..]) && spacesExposed == old(spacesExposed) && state == old(state)
      decreases Unvisited(checked), 0
    {
      ghost var s0 := board[..];
      NoMineNear(s0, p, d, n);
      if Quiet(s0, p, d) {
        QuietNeighbour(s0, p, d, n);
      }
      visited' := visited;
      var count := GetMineCountInArea(n, d);
      if count == 0 {
        assert visited[|checked|] == p;
        PrefixMembers(checked, visited);
        UnvisitedShrinks(checked, visited, p);
        visited' := UnlockSurroundingTilesIfEmpty(n, d, visited);
      }
      ghost var s1 := board[..];
      assert Positioned(s1) && !s1[Index(width, n)].isMine;
      assert TileIndex(n.x, n.y) == Index(width, n);
      Expose(n.x, n.y);
      NeighbourVisited(entry, s0, s1, board[..], p, n, d, checked, visited, visited');
    }

    // -------------------------------------------------------------------------
    // Clicks
    // -------------------------------------------------------------------------

    /** The lose reveal exposes only mines, so it keeps a settled board settled. */
    lemma RevealKeepsSettled(s: seq<Tile>)
      requires Settled(s)
      ensures Settled(RevealMines(s))
    {
      var r := RevealMines(s);
      forall k | 0 <= k < |r| && r[k].isExposed && !r[k].isMine && Zero(r[k].position, 1)
        ensures Surrounded(r, r[k].position)
      {
        assert r[k] == s[k];
      }
    }

    /** Every position a fill from `p` checked is exposed once `p` is. */
    lemma VisitedExposed(p: Point, d: int, v: seq<Point>, s: seq<Tile>)
      requires Fill([], p, d, v, s) && ExposedAt(s, p)
      ensures forall q :: q in v ==> ExposedAt(s, q)
    {
      forall q | q in v
        ensures ExposedAt(s, q)
      {
        var m :| 0 <= m < |v| && v[m] == q;
        if m > 0 {
          assert Explored(s, v[m], d, v);
        }
      }
    }

    /** Every position a fill from `p` checked that has no mine around is closed. */
    lemma VisitedClosed(p: Point, d: int, v: seq<Point>, s: seq<Tile>)
      requires Fill([], p, d, v, s) && (Zero(p, d) ==> Closed(s, p, d, v))
      ensures forall q :: q in v && Zero(q, d) ==> Closed(s, q, d, v)
    {
      forall q | q in v && Zero(q, d)
        ensures Closed(s, q, d, v)
      {
        var m :| 0 <= m < |v| && v[m] == q;
        if m > 0 {
          assert Explored(s, v[m], d, v);
        }
      }
    }

    /**
      A click on the safe tile at `p` of a settled board leaves it settled:
      the tile is exposed, and the fill from it closes every tile it exposes
      that has no mine around.
    */
    lemma ClickKeepsSettled(s0: seq<Tile>, s1: seq<Tile>, s2: seq<Tile>, p: Point, v: seq<Point>)
      requires Positioned(s0) && Settled(s0) && InBounds(width, height, p)
      requires 0 <= Index(width, p) < |s0| && !s0[Index(width, p)].isMine
      requires s1 == AfterExpose(s0, Index(width, p))
      requires Step(s1, s2, 1, v) && Fill([], p, 1, v, s2) && (Zero(p, 1) ==> Closed(s2, p, 1, v))
      ensures Settled(s2)
    {
      var k0 := Index(width, p);
      assert s0[k0].position == p by {
        IndexInjective(width, s0[k0].position, p);
      }
      assert SafeGrowth(s0, s1);
      SafeGrowthTrans(s0, s1, s2);
      ExposedAtGrows(s1, s2, p);
      VisitedExposed(p, 1, v, s2);
      VisitedClosed(p, 1, v, s2);
      forall k | 0 <= k < |s2| && s2[k].isExposed && !s2[k].isMine && Zero(s2[k].position, 1)
        ensures Surrounded(s2, s2[k].position)
      {
        var q := s2[k].position;
        if s0[k].isExposed {
          forall n | InBounds(width, height, n) && Adjacent(q, n, 1)
            ensures ExposedAt(s2, n)
          {
            ExposedAtGrows(s0, s2, n);
          }
        } else {
          if s1[k].isExposed {
            assert k == k0;
          }
          assert q in v;
          assert Closed(s2, q, 1, v);
          forall n | InBounds(width, height, n) && Adjacent(q, n, 1)
            ensures ExposedAt(s2, n)
          {
            assert Before(n, q.x + 1 + 1, q.y);
          }
        }
      }
    }

    /**
      `FMinesweeperTile::OnClicked`: nothing once the game is over; otherwise
      expose the tile and, when it is safe, flood-fill from it with radius 1.
      `checked` is the fill's list of checked positions.
    */
    method OnClicked(x: int, y: int) returns (ghost checked: seq<Point>)
      requires Valid() && InBounds(width, height, Point(x, y))
      modifies this`spacesExposed, this`state, board
      ensures Valid() && MineLayout(board[..]) == MineLayout(old(board[..]))
      ensures spacesExposed >= old(spacesExposed)
      ensures old(IsGameComplete()) ==>
        board[..] == old(board[..]) && spacesExposed == old(spacesExposed) && state == old(state)
      ensures !old(IsGameComplete()) ==> board[TileIndex(x, y)].isExposed
      ensures !old(IsGameComplete()) && old(board[TileIndex(x, y)]).isMine ==>
        && state == FinishLose && board[..] == RevealMines(old(board[..]))
        && spacesExposed == old(spacesExposed) + 1
      ensures !old(IsGameComplete()) && !old(board[TileIndex(x, y)]).isMine ==>
        && state != FinishLose && SafeGrowth(old(board[..]), board[..])
        && Step(AfterExpose(old(board[..]), TileIndex(x, y)), board[..], 1, checked)
        && Fill([], Point(x, y), 1, checked, board[..])
        && (Zero(Point(x, y), 1) ==> Closed(board[..], Point(x, y), 1, checked))
        && (state == FinishWin <==> AllSafeExposed(board[..]))
      ensures !old(IsGameComplete()) && !old(board[TileIndex(x, y)]).isMine && !Zero(Point(x, y), 1) ==>
        && board[..] == AfterExpose(old(board[..]), TileIndex(x, y))
        && spacesExposed == old(spacesExposed) + (if old(board[TileIndex(x, y)]).isExposed then 0 else 1)
        && state == StateAfterExpose(old(board[TileIndex(x, y)]), old(spacesExposed), old(state))
      ensures Settled(old(board[..])) ==> Settled(board[..])
      ensures Settled(old(board[..])) && old(board[TileIndex(x, y)]).isExposed ==>
        board[..] == old(board[..]) && spacesExposed == old(spacesExposed) && state == old(state)
    {
      checked := [];
      if IsGameComplete() {
        return;
      }
      ghost var s0 := board[..];
      assert TileIndex(x, y) == Index(width, Point(x, y));
      Expose(x, y);
      var tile := GetTile(x, y);
      if !tile.isMine {
        ghost var s1 := board[..];
        assert SafeGrowth(s0, s1);
        checked := UnlockSurroundingTilesIfEmpty(tile.position, 1, []);
        SafeGrowthTrans(s0, s1, board[..]);
        SafeTileLeavesRoom(board[..], TileIndex(x, y));
        WonIffAllSafeExposed();
        if Settled(s0) {
          ClickKeepsSettled(s0, s1, board[..], Point(x, y), checked);
        }
      } else if Settled(s0) {
        RevealKeepsSettled(s0);
      }
    }

    /**
      `FMinesweeperTile::OnRightClicked`: nothing once the game is over or on
      an exposed tile; otherwise toggle the flag and move the flag counter
      with it.
    */
    method OnRightClicked(x: int, y: int)
      requires Valid() && InBounds(width, height, Point(x, y))
      modifies this`flagsPlaced, board
      ensures Valid() && MineLayout(board[..]) == MineLayout(old(board[..]))
      ensures var k := TileIndex(x, y); var t := old(board[k]);
        if old(IsGameComplete()) || t.isExposed then
          board[..] == old(board[..]) && flagsPlaced == old(flagsPlaced)
        else
          && board[..] == old(board[..])[k := t.(isFlagged := !t.isFlagged)]
          && flagsPlaced == old(flagsPlaced) + (if t.isFlagged then -1 else 1)
      ensures Settled(old(board[..])) ==> Settled(board[..])
    {
      if IsGameComplete() {
        return;
      }
      var k := TileIndex(x, y);
      if board[k].isExposed {
        return;
      }
      ghost var s0 := board[..];
      ghost var t := s0[k].(isFlagged := !s0[k].isFlagged);
      FlagKeeps(s0, k, flagsPlaced, spacesExposed, state);
      board[k] := board[k].(isFlagged := !board[k].isFlagged);
      flagsPlaced := flagsPlaced + (if board[k].isFlagged then 1 else -1);
      assert board[..] == s0[k := t];
    }

    /** Toggling the flag of a hidden tile keeps the game consistent once the counter follows. */
    lemma FlagKeeps(s: seq<Tile>, k: int, flags: int, spaces: int, st: GameState)
      requires Positioned(s) && MineLayout(s) == layout && Consistent(s, flags, spaces, st)
      requires 0 <= k < |s| && !s[k].isExposed
      ensures var s' := s[k := s[k].(isFlagged := !s[k].isFlagged)];
        && Positioned(s') && MineLayout(s') == layout
        && Consistent(s', flags + (if s[k].isFlagged then -1 else 1), spaces, st)
        && (Settled(s) ==> Settled(s'))
    {
      var s' := s[k := s[k].(isFlagged := !s[k].isFlagged)];
      MineLayoutUpdate(s, k, s'[k]);
      TallyUpdate(s, k, s'[k], Mined);
      TallyUpdate(s, k, s'[k], Flagged);
      TallyUpdate(s, k, s'[k], Exposed);
      if Settled(s) {
        forall m | 0 <= m < |s'| && s'[m].isExposed && !s'[m].isMine && Zero(s'[m].position, 1)
          ensures Surrounded(s', s'[m].position)
        {
          assert s'[m] == s[m];
        }
      }
    }

    /** A second right click on the same tile undoes the first: the tile and the flag counter are restored. */
    method OnRightClickedTwice(x: int, y: int)
      requires Valid() && InBounds(width, height, Point(x, y))
      modifies this`flagsPlaced, board
      ensures Valid()
      ensures board[..] == old(board[..]) && flagsPlaced == old(flagsPlaced)
    {
      OnRightClicked(x, y);
      OnRightClicked(x, y);
    }

    /**
      On a settled board (every board clicks produce from a new game), a
      second click on the same tile changes nothing the first did not.
    */
    method OnClickedTwice(x: int, y: int) returns (ghost once: seq<Tile>, ghost exposedOnce: int, ghost stateOnce: GameState)
      requires Valid() && Settled(board[..]) && InBounds(width, height, Point(x, y))
      modifies this`spacesExposed, this`state, board
      ensures Valid() && Settled(board[..])
      ensures board[..] == once && spacesExposed == exposedOnce && state == stateOnce
    {
      ghost var checked := OnClicked(x, y);
      once, exposedOnce, stateOnce := board[..], spacesExposed, state;
      checked := OnClicked(x, y);
    }
  }

  /** A 2x1 board with one mine is won as soon as its one safe cell is exposed. */
  method TwoCellWin() returns (g: Game)
    ensures g.Valid() && g.width == 2 && g.height == 1 && g.mineCount == 1
    ensures g.state == FinishWin && g.spacesExposed == 1
  {
    g := new Game(2, 1, 1, [Point(0, 0)]);
    ghost var used :| DrawnFrom(g.board[..], [Point(0, 0)], g.mineCount, used);
    assert used == 1;
    assert g.board[1].position == Point(1, 0);
    g.Expose(1, 0);
  }
}
