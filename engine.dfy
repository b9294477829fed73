/**
 * The running game of main.ts: the global `tiles` grid and the counters kept
 * beside it (`amount_mines`, `amount_flags`, `discovered_tiles`,
 * `first_click_happened`, `game_over`), and the operations that change them.
 */
module Engine {
  import opened Board

  /**
   * The guard `custom_setup` applies to a requested board, as written: at
   * least nine tiles, room for the first click and its neighbours, are left
   * without a mine.
   */
  predicate CustomSetupAccepts(width: int, height: int, amount: int): (ok: bool)
    ensures ok <==> 9 <= width * height - amount
  {
    !(amount + 9 > width * height)
  }

  /**
   * The guard a board needs before `_set_numbers` can run on it and the win
   * check can fire: the source's guard, at least two columns and two rows,
   * and no negative mine count.
   */
  predicate SetupPlayable(width: int, height: int, amount: int) {
    CustomSetupAccepts(width, height, amount) && 2 <= width && 2 <= height && 0 <= amount
  }

  /**
   * The corner step of `_set_numbers` on a w by h board: each corner with the
   * three readers it calls there, in the order of the source.
   */
  function CornerReads(w: int, h: int): seq<(Pos, Direction)> {
    [((0, 0), Bottom), ((0, 0), Right), ((0, 0), BottomRight),
     ((w - 1, 0), Bottom), ((w - 1, 0), Left), ((w - 1, 0), BottomLeft),
     ((0, h - 1), Top), ((0, h - 1), Right), ((0, h - 1), TopRight),
     ((w - 1, h - 1), Top), ((w - 1, h - 1), Left), ((w - 1, h - 1), TopLeft)]
  }

  /** The tile a reader looks at. */
  function Target(read: (Pos, Direction)): Pos {
    (read.0.0 + Step(read.1).0, read.0.1 + Step(read.1).1)
  }

  /**
   * As written, the guard of `custom_setup` accepts a board one column wide,
   * such as 1 by 9 without mines; on it the corner step of `_set_numbers`
   * reads to the right of the top-left tile, outside the grid.
   */
  lemma ThinBoardAccepted(height: int, amount: int)
    ensures CustomSetupAccepts(1, height, amount) <==> amount + 9 <= height
    ensures exists k | 0 <= k < |CornerReads(1, height)| :: !InGrid(1, height, Target(CornerReads(1, height)[k]))
  {
    assert Target(CornerReads(1, height)[1]) == (1, 0);
  }

  /**
   * Every reader of the corner step stays on the board exactly when the board
   * has two columns and two rows, which `SetupPlayable` adds to the guard.
   */
  lemma CornerReadsInGrid(width: int, height: int)
    ensures (forall k | 0 <= k < |CornerReads(width, height)| :: InGrid(width, height, Target(CornerReads(width, height)[k])))
        <==> 2 <= width && 2 <= height
  {
    var cr := CornerReads(width, height);
    if 2 <= width && 2 <= height {
      forall k | 0 <= k < |cr| ensures InGrid(width, height, Target(cr[k])) {
      }
    } else {
      assert !InGrid(width, height, Target(cr[1])) || !InGrid(width, height, Target(cr[0]));
    }
  }

  /**
   * As written, the guard of `custom_setup` also accepts a negative mine
   * count, such as -1 on a 3 by 3 board: `_set_mines` then lays no mine, and
   * the win check of `reveal_tile` waits for more uncovered tiles than the
   * board has (at most width * height, see `Game.DiscoveredBound`).
   */
  lemma NegativeCountAccepted(width: int, height: int, amount: int)
    requires amount < 0 && 9 <= width * height
    ensures CustomSetupAccepts(width, height, amount)
    ensures width * height - amount > width * height
  {
  }

  /**
   * A playable board passes the source's guard, keeps the corner step on the
   * board and has a win target between nine and the number of tiles.
   */
  lemma PlayableSetup(width: int, height: int, amount: int)
    ensures SetupPlayable(width, height, amount) <==>
      && CustomSetupAccepts(width, height, amount)
      && (forall k | 0 <= k < |CornerReads(width, height)| :: InGrid(width, height, Target(CornerReads(width, height)[k])))
      && 0 <= amount
    ensures SetupPlayable(width, height, amount) ==> 9 <= width * height - amount <= width * height
  {
    CornerReadsInGrid(width, height);
  }

  class Game {
    /** `tiles[y][x]`: Length0 is the height, Length1 the width. */
    const tiles: array2<Tile>
    const amountMines: nat
    var amountFlags: int
    var discoveredTiles: int
    var firstClickHappened: bool
    var gameOver: bool
    /** The positions `_set_mines` turned into mines. */
    ghost var mines: set<Pos>
    /** The grid read as a map from each position to its tile. */
    ghost var board: map<Pos, Tile>

    function W(): int { tiles.Length1 }
    function H(): int { tiles.Length0 }

    /** `board` holds exactly the tiles of the grid. */
    ghost predicate Mirrored()
      reads this`board, tiles
    {
      && board.Keys == Cells(W(), H())
      && forall p | p in board :: board[p] == tiles[p.1, p.0]
    }

    /** The tiles showing a flag. */
    ghost function Flags(): set<Pos>
      reads this`board
    {
      FlaggedSet(board)
    }

    /** The uncovered tiles that are not mines: what `discovered_tiles` counts. */
    ghost function Discovered(): set<Pos>
      reads this`board
    {
      DiscoveredSet(board)
    }

    /** The uncovered mines. */
    ghost function Exploded(): set<Pos>
      reads this`board
    {
      ExplodedSet(board)
    }

    /** Every tile as `_create_tiles` makes it: empty and undiscovered. */
    ghost predicate Untouched()
      reads tiles
    {
      forall y, x | 0 <= y < H() && 0 <= x < W() :: tiles[y, x] == Tile(Empty, Hidden)
    }

    /** Every tile holds what `_set_numbers` computes from `mines`. */
    ghost predicate Seeded()
      reads this`board, this`mines
    {
      forall p {:trigger Expected(p)} | p in board :: board[p].content == Expected(p)
    }

    /** What `_set_numbers` writes at (x, y) for the current mines. */
    ghost function Expected(p: Pos): Content
      reads this`mines
    {
      Numbered(mines, W(), H(), p)
    }

    /** The tiles holding "M" are exactly the mines (between `_set_mines` and `_set_numbers`). */
    ghost predicate MinesLaidOut()
      reads this`mines, tiles
    {
      forall y, x | 0 <= y < H() && 0 <= x < W() :: tiles[y, x].content == Mine <==> (x, y) in mines
    }

    /**
     * The grid and the mines: the board is as `_create_tiles` built it
     * before the first click, and numbered from `amountMines` mines after it.
     */
    ghost predicate Shaped()
      reads this`mines, this`board, this`firstClickHappened, tiles
    {
      && 2 <= W() && 2 <= H()
      && amountMines + 9 <= W() * H()
      && mines <= Cells(W(), H())
      && Mirrored()
      && (if firstClickHappened then |mines| == amountMines && Seeded()
          else mines == {} && board == Blank(W(), H()))
    }

    /** `amount_flags` and `discovered_tiles` count the flags and the uncovered safe tiles. */
    ghost predicate Counted()
      reads this`amountFlags, this`discoveredTiles, this`board
    {
      && amountFlags == |Flags()|
      && discoveredTiles == |Discovered()|
    }

    /** The invariant of the globals between any two steps of the game. */
    ghost predicate Valid()
      reads this, tiles
    {
      Shaped() && Counted() && (gameOver ==> firstClickHappened)
    }

    /**
     * What holds after every click: the game is over exactly when a mine
     * was uncovered or every safe tile was, and an uncovered mine leaves no
     * tile undiscovered.
     */
    ghost predicate Settled()
      reads this`gameOver, this`discoveredTiles, this`board
    {
      && (gameOver <==> Exploded() != {} || discoveredTiles == W() * H() - amountMines)
      && (Exploded() != {} ==> NoneHiddenIn(board))
    }

    /**
     * `create_field` / `custom_setup` after its guard: `_clear_field` resets
     * the counters and `_create_tiles` builds a width by height grid of
     * undiscovered empty tiles.
     */
    constructor (width: int, height: int, amount: int)
      requires SetupPlayable(width, height, amount)
      ensures Valid() && Settled()
      ensures fresh(tiles) && W() == width && H() == height && amountMines == amount
      ensures !firstClickHappened && !gameOver && amountFlags == 0 && discoveredTiles == 0
      ensures Untouched()
    {
      tiles := new Tile[height, width]((y, x) => Tile(Empty, Hidden));
      amountMines := amount;
      amountFlags := 0;
      discoveredTiles := 0;
      firstClickHappened := false;
      gameOver := false;
      mines := {};
      board := Blank(width, height);
      new;
      BlankToFresh({}, width, height);
    }

    /**
     * `_set_mines`: picks `amountMines` distinct tiles outside `exclude` and
     * writes "M" into them. The source draws a random tile and draws again
     * when it is already taken; here each draw is any tile not yet taken.
     */
    method SetMines(exclude: seq<Pos>)
      requires Untouched() && mines == {}
      requires forall q | q in exclude :: InGrid(W(), H(), q)
      requires amountMines + |exclude| <= W() * H()
      modifies this`mines, tiles
      ensures |mines| == amountMines && mines <= Cells(W(), H())
      ensures forall q | q in exclude :: q !in mines
      ensures forall y, x | 0 <= y < H() && 0 <= x < W() ::
        tiles[y, x] == Tile(if (x, y) in mines then Mine else Empty, Hidden)
    {
      var chosen := DrawMines(exclude);
      WriteMines(chosen, |exclude|);
      mines := set q | q in chosen[|exclude|..];
    }

    /**
     * The first loop of `_set_mines`: `exclude` followed by `amountMines`
     * further tiles, each on the board, none excluded, no two the same.
     */
    method DrawMines(exclude: seq<Pos>) returns (chosen: seq<Pos>)
      requires forall q | q in exclude :: InGrid(W(), H(), q)
      requires amountMines + |exclude| <= W() * H()
      ensures |chosen| == |exclude| + amountMines && chosen[..|exclude|] == exclude
      ensures forall q | q in chosen[|exclude|..] :: InGrid(W(), H(), q) && q !in exclude
      ensures |set q | q in chosen[|exclude|..]| == amountMines
    {
      var excludeLength := |exclude|;
      chosen := exclude;
      ghost var picked: set<Pos> := {};
      var mine := 0;
      while mine < amountMines
        invariant 0 <= mine <= amountMines
        invariant |chosen| == excludeLength + mine
        invariant chosen[..excludeLength] == exclude
        invariant |picked| == mine && picked <= Cells(W(), H())
        invariant forall q | q in exclude :: q !in picked
        invariant forall q :: q in chosen[excludeLength..] <==> q in picked
      {
        ghost var taken := (set q | q in exclude) + picked;
        assert forall q :: q in chosen <==> q in taken by {
          assert chosen == exclude + chosen[excludeLength..];
        }
        assert exists p :: p in Cells(W(), H()) && p !in chosen by {
          SeqSetSize(exclude);
          CellsSize(W(), H());
          if Cells(W(), H()) <= taken {
            SubsetSize(Cells(W(), H()), taken);
          }
        }
        var newMine :| newMine in Cells(W(), H()) && newMine !in chosen;
        assert (chosen + [newMine])[excludeLength..] == chosen[excludeLength..] + [newMine];
        chosen := chosen + [newMine];
        picked := picked + {newMine};
        mine := mine + 1;
      }
      assert (set q | q in chosen[excludeLength..]) == picked;
    }

    /** The second loop of `_set_mines`: "M" into every tile of `chosen` from index `from` on. */
    method WriteMines(chosen: seq<Pos>, from: nat)
      requires Untouched() && from <= |chosen|
      requires forall q | q in chosen[from..] :: InGrid(W(), H(), q)
      modifies tiles
      ensures forall y, x | 0 <= y < H() && 0 <= x < W() ::
        tiles[y, x] == Tile(if (x, y) in chosen[from..] then Mine else Empty, Hidden)
    {
      var i := from;
      while i < |chosen|
        invariant from <= i <= |chosen|
        invariant forall y, x | 0 <= y < H() && 0 <= x < W() ::
          tiles[y, x] == Tile(if (x, y) in chosen[from..i] then Mine else Empty, Hidden)
      {
        var p := chosen[i];
        assert p in chosen[from..];
        tiles[p.1, p.0] := tiles[p.1, p.0].(content := Mine);
        assert chosen[from..i + 1] == chosen[from..i] + [p];
        i := i + 1;
      }
      assert chosen[from..i] == chosen[from..];
    }

    /**
     * The readers `_top_is_mine`, `_bottom_is_mine`, ... `_bottom_right_is_mine`:
     * 1 when the tile one step in direction d holds "M", else 0.
     */
    function IsMine(d: Direction, x: int, y: int): (r: int)
      reads this, tiles
      requires InGrid(W(), H(), (x + Step(d).0, y + Step(d).1))
      ensures MinesLaidOut() ==> r == MineBit(mines, W(), H(), x, y, Step(d))
    {
      if tiles[y + Step(d).1, x + Step(d).0].content == Mine then 1 else 0
    }

    /** The sums of the four corner blocks of `_set_numbers`. */
    method CornerSum(x: int, y: int) returns (r: int)
      requires 2 <= W() && 2 <= H()
      requires (x == 0 || x == W() - 1) && (y == 0 || y == H() - 1)
      ensures MinesLaidOut() ==> r == AdjacentMines(mines, W(), H(), (x, y))
    {
      CornerBits(mines, W(), H(), x, y);
      if y == 0 && x == 0 {
        r := SumOfThree(x, y, Bottom, Right, BottomRight);
      } else if y == 0 {
        r := SumOfThree(x, y, Bottom, Left, BottomLeft);
      } else if x == 0 {
        r := SumOfThree(x, y, Top, Right, TopRight);
      } else {
        r := SumOfThree(x, y, Top, Left, TopLeft);
      }
    }

    /** The readers of a corner block added up. */
    method SumOfThree(x: int, y: int, a: Direction, b: Direction, c: Direction) returns (r: int)
      requires InGrid(W(), H(), (x + Step(a).0, y + Step(a).1))
      requires InGrid(W(), H(), (x + Step(b).0, y + Step(b).1))
      requires InGrid(W(), H(), (x + Step(c).0, y + Step(c).1))
      ensures MinesLaidOut() ==> (r ==
        MineBit(mines, W(), H(), x, y, Step(a)) + MineBit(mines, W(), H(), x, y, Step(b))
        + MineBit(mines, W(), H(), x, y, Step(c)))
    {
      r := IsMine(a, x, y) + IsMine(b, x, y) + IsMine(c, x, y);
    }

    /** The readers of an edge block added up. */
    method SumOfFive(x: int, y: int, a: Direction, b: Direction, c: Direction, d: Direction, e: Direction)
      returns (r: int)
      requires InGrid(W(), H(), (x + Step(a).0, y + Step(a).1))
      requires InGrid(W(), H(), (x + Step(b).0, y + Step(b).1))
      requires InGrid(W(), H(), (x + Step(c).0, y + Step(c).1))
      requires InGrid(W(), H(), (x + Step(d).0, y + Step(d).1))
      requires InGrid(W(), H(), (x + Step(e).0, y + Step(e).1))
      ensures MinesLaidOut() ==> (r ==
        MineBit(mines, W(), H(), x, y, Step(a)) + MineBit(mines, W(), H(), x, y, Step(b))
        + MineBit(mines, W(), H(), x, y, Step(c)) + MineBit(mines, W(), H(), x, y, Step(d))
        + MineBit(mines, W(), H(), x, y, Step(e)))
    {
      r := IsMine(a, x, y) + IsMine(b, x, y) + IsMine(c, x, y) + IsMine(d, x, y) + IsMine(e, x, y);
    }

    /** The sums of the first-row and last-row loops of `_set_numbers` (corners excluded). */
    method RowEdgeSum(x: int, y: int) returns (r: int)
      requires 2 <= W() && 2 <= H()
      requires 0 < x < W() - 1 && (y == 0 || y == H() - 1)
      ensures MinesLaidOut() ==> r == AdjacentMines(mines, W(), H(), (x, y))
    {
      RowEdgeBits(mines, W(), H(), x, y);
      if y == 0 {
        r := SumOfFive(x, y, Bottom, Left, Right, BottomLeft, BottomRight);
      } else {
        r := SumOfFive(x, y, Top, Left, Right, TopLeft, TopRight);
      }
    }

    /** The sums of the first-column and last-column loops of `_set_numbers` (corners excluded). */
    method ColumnEdgeSum(x: int, y: int) returns (r: int)
      requires 2 <= W() && 2 <= H()
      requires (x == 0 || x == W() - 1) && 0 < y < H() - 1
      ensures MinesLaidOut() ==> r == AdjacentMines(mines, W(), H(), (x, y))
    {
      ColumnEdgeBits(mines, W(), H(), x, y);
      if x == 0 {
        r := SumOfFive(x, y, Top, Bottom, Right, TopRight, BottomRight);
      } else {
        r := SumOfFive(x, y, Top, Bottom, Left, TopLeft, BottomLeft);
      }
    }

    /** The sum of the inner block of `_set_numbers`: all eight readers. */
    method InnerSum(x: int, y: int) returns (r: int)
      requires 0 < x < W() - 1 && 0 < y < H() - 1
      ensures MinesLaidOut() ==> r == AdjacentMines(mines, W(), H(), (x, y))
    {
      AdjacentByDirection(mines, W(), H(), x, y);
      r :=
        IsMine(Top, x, y) + IsMine(Bottom, x, y) + IsMine(Right, x, y) + IsMine(Left, x, y)
        + IsMine(TopLeft, x, y) + IsMine(TopRight, x, y) + IsMine(BottomLeft, x, y)
        + IsMine(BottomRight, x, y);
    }

    /**
     * The block of `_set_numbers` that numbers (x, y): 1 for the corners,
     * 2 and 3 for the first and last row, 4 and 5 for the first and last
     * column, 6 for the inner tiles.
     */
    function Block(x: int, y: int): int {
      var right, bottom := W() - 1, H() - 1;
      if (x == 0 || x == right) && (y == 0 || y == bottom) then 1
      else if y == 0 then 2
      else if y == bottom then 3
      else if x == 0 then 4
      else if x == right then 5
      else 6
    }

    /** Every tile of the blocks up to `block` holds its number. */
    ghost predicate NumberedUpTo(block: int)
      reads this, tiles
    {
      forall y, x | 0 <= y < H() && 0 <= x < W() && Block(x, y) <= block ::
        tiles[y, x].content == Numbered(mines, W(), H(), (x, y))
    }

    ghost predicate AllUndiscovered()
      reads tiles
    {
      forall y, x | 0 <= y < H() && 0 <= x < W() :: tiles[y, x].vis == Hidden
    }

    /** One of the four corner blocks of `_set_numbers`. */
    method NumberCorner(x: int, y: int)
      requires 2 <= W() && 2 <= H()
      requires (x == 0 || x == W() - 1) && (y == 0 || y == H() - 1)
      requires MinesLaidOut() && AllUndiscovered()
      modifies tiles
      ensures MinesLaidOut() && AllUndiscovered()
      ensures tiles[y, x].content == Numbered(mines, W(), H(), (x, y))
      ensures forall j, i | 0 <= j < H() && 0 <= i < W() && (i, j) != (x, y) :: tiles[j, i] == old(tiles[j, i])
    {
      if tiles[y, x].content != Mine {
        var surrounding := CornerSum(x, y);
        tiles[y, x] := tiles[y, x].(content := NumberOf(surrounding));
      }
    }

    /** The four corner blocks of `_set_numbers`: top left, top right, bottom left, bottom right. */
    method NumberCorners()
      requires 2 <= W() && 2 <= H()
      requires MinesLaidOut() && AllUndiscovered()
      modifies tiles
      ensures MinesLaidOut() && AllUndiscovered() && NumberedUpTo(1)
    {
      var right, bottom := W() - 1, H() - 1;
      NumberCorner(0, 0);
      NumberCorner(right, 0);
      NumberCorner(0, bottom);
      NumberCorner(right, bottom);
    }

    /** The loop of `_set_numbers` over the first (y = 0) or last row, corners excluded. */
    method NumberRowEdge(y: int)
      requires 2 <= W() && 2 <= H() && (y == 0 || y == H() - 1)
      requires MinesLaidOut() && AllUndiscovered() && NumberedUpTo(if y == 0 then 1 else 2)
      modifies tiles
      ensures MinesLaidOut() && AllUndiscovered() && NumberedUpTo(if y == 0 then 2 else 3)
    {
      ghost var block := if y == 0 then 2 else 3;
      var x := 1;
      while x < W() - 1
        invariant 1 <= x <= W() - 1
        invariant MinesLaidOut() && AllUndiscovered() && NumberedUpTo(block - 1)
        invariant forall i | 1 <= i < x :: tiles[y, i].content == Numbered(mines, W(), H(), (i, y))
      {
        if tiles[y, x].content != Mine {
          var surrounding := RowEdgeSum(x, y);
          tiles[y, x] := tiles[y, x].(content := NumberOf(surrounding));
        }
        x := x + 1;
      }
    }

    /** The loop of `_set_numbers` over the first (x = 0) or last column, corners excluded. */
    method NumberColumnEdge(x: int)
      requires 2 <= W() && 2 <= H() && (x == 0 || x == W() - 1)
      requires MinesLaidOut() && AllUndiscovered() && NumberedUpTo(if x == 0 then 3 else 4)
      modifies tiles
      ensures MinesLaidOut() && AllUndiscovered() && NumberedUpTo(if x == 0 then 4 else 5)
    {
      ghost var block := if x == 0 then 4 else 5;
      var y := 1;
      while y < H() - 1
        invariant 1 <= y <= H() - 1
        invariant MinesLaidOut() && AllUndiscovered() && NumberedUpTo(block - 1)
        invariant forall j | 1 <= j < y :: tiles[j, x].content == Numbered(mines, W(), H(), (x, j))
      {
        if tiles[y, x].content != Mine {
          var surrounding := ColumnEdgeSum(x, y);
          tiles[y, x] := tiles[y, x].(content := NumberOf(surrounding));
        }
        y := y + 1;
      }
    }

    /** The last loop of `_set_numbers`: every tile off the border. */
    method NumberInner()
      requires 2 <= W() && 2 <= H()
      requires MinesLaidOut() && AllUndiscovered() && NumberedUpTo(5)
      modifies tiles
      ensures MinesLaidOut() && AllUndiscovered() && NumberedUpTo(6)
    {
      var y := 1;
      while y < H() - 1
        invariant 1 <= y <= H() - 1
        invariant MinesLaidOut() && AllUndiscovered() && NumberedUpTo(5)
        invariant forall j, i | 1 <= j < y && 1 <= i < W() - 1 :: tiles[j, i].content == Numbered(mines, W(), H(), (i, j))
      {
        var x := 1;
        while x < W() - 1
          invariant 1 <= x <= W() - 1
          invariant MinesLaidOut() && AllUndiscovered() && NumberedUpTo(5)
          invariant forall j, i | 1 <= j < y && 1 <= i < W() - 1 :: tiles[j, i].content == Numbered(mines, W(), H(), (i, j))
          invariant forall i | 1 <= i < x :: tiles[y, i].content == Numbered(mines, W(), H(), (i, y))
        {
          if tiles[y, x].content != Mine {
            var surrounding := InnerSum(x, y);
            tiles[y, x] := tiles[y, x].(content := NumberOf(surrounding));
          }
          x := x + 1;
        }
        y := y + 1;
      }
    }

    /**
     * `_set_numbers`: the four corners, the first and last row, the first
     * and last column, then the inner tiles, each tile that is not a mine
     * getting the count of its adjacent mines ("" for none).
     */
    method SetNumbers()
      requires 2 <= W() && 2 <= H() && mines <= Cells(W(), H())
      requires MinesLaidOut() && AllUndiscovered()
      modifies this`board, tiles
      ensures Mirrored() && board == Fresh(mines, W(), H())
    {
      NumberCorners();
      NumberRowEdge(0);
      NumberRowEdge(H() - 1);
      NumberColumnEdge(0);
      NumberColumnEdge(W() - 1);
      NumberInner();
      board := Fresh(mines, W(), H());
      forall p | p in board
        ensures board[p] == tiles[p.1, p.0]
      {
        assert Block(p.0, p.1) <= 6;
      }
    }

    /** Before the first click the grid is as `_create_tiles` built it. */
    lemma BlankIsUntouched()
      requires Mirrored() && board == Blank(W(), H())
      ensures Untouched()
    {
      forall y, x | 0 <= y < H() && 0 <= x < W()
        ensures tiles[y, x] == Tile(Empty, Hidden)
      {
        assert board[(x, y)] == tiles[y, x];
      }
    }

    /**
     * The first half of `_first_click`: the clicked tile and the tiles of
     * `_get_surrounding_tiles` are excluded, and `_set_mines` lays the mines.
     */
    method PlaceMines(x: int, y: int)
      requires 2 <= W() && 2 <= H() && amountMines + 9 <= W() * H() && InGrid(W(), H(), (x, y))
      requires Mirrored() && board == Blank(W(), H()) && mines == {}
      modifies this`mines, tiles
      ensures MinesLaidOut() && AllUndiscovered()
      ensures |mines| == amountMines && mines <= Cells(W(), H())
      ensures SafeStart(x, y)
    {
      BlankIsUntouched();
      var surrounding := Neighbours(W(), H(), x, y);
      SetMines([(x, y)] + surrounding);
      forall q | InGrid(W(), H(), q) && Adjacent((x, y), q)
        ensures q !in mines
      {
        assert q in [(x, y)] + surrounding;
      }
      assert (x, y) in [(x, y)] + surrounding;
    }

    /**
     * `_first_click`: on the first click only, mines are laid outside the
     * clicked tile and its neighbours and the board is numbered.
     */
    method FirstClick(x: int, y: int)
      requires Valid() && InGrid(W(), H(), (x, y))
      modifies this, tiles
      ensures Valid() && firstClickHappened
      ensures old(firstClickHappened) ==> unchanged(this) && unchanged(tiles)
      ensures !old(firstClickHappened) ==> SafeStart(x, y) && board[(x, y)].content == Empty
      ensures !old(firstClickHappened) ==> board == Fresh(mines, W(), H())
      ensures gameOver == old(gameOver) && amountFlags == old(amountFlags) && discoveredTiles == old(discoveredTiles)
      ensures SameVisibility(old(board), board)
      ensures Flags() == old(Flags()) && Discovered() == old(Discovered()) && Exploded() == old(Exploded())
    {
      if !firstClickHappened {
        firstClickHappened := true;
        PlaceMines(x, y);
        SetNumbers();
        BlankToFresh(mines, W(), H());
        forall p | p in board
          ensures board[p].content == Expected(p)
        {
        }
        NoMineNear(mines, W(), H(), (x, y));
        NumberedRange(mines, W(), H(), (x, y));
        assert board[(x, y)].content == Expected((x, y));
      }
    }

    /** The clicked tile and every tile adjacent to it are free of mines. */
    ghost predicate SafeStart(x: int, y: int)
      reads this`mines
    {
      && (x, y) !in mines
      && forall q | InGrid(W(), H(), q) && Adjacent((x, y), q) :: q !in mines
    }

    /** The count of uncovered safe tiles never exceeds the board. */
    lemma DiscoveredBound()
      requires Valid()
      ensures 0 <= discoveredTiles <= W() * H()
    {
      CellsSize(W(), H());
      SubsetSize(Discovered(), Cells(W(), H()));
    }

    /**
     * The board a click works on once the mines are laid: b when they were
     * laid already (`dealt`), else the fresh board `_first_click` numbers.
     */
    ghost function Dealt(b: map<Pos, Tile>, dealt: bool): map<Pos, Tile>
      reads this`mines
    {
      if dealt then b else Fresh(mines, W(), H())
    }

    /** Writes t into the tile at (x, y), keeping `board` in step with the grid. */
    method Put(x: int, y: int, t: Tile)
      requires Mirrored() && InGrid(W(), H(), (x, y))
      modifies this`board, tiles
      ensures Mirrored() && board == old(board)[(x, y) := t]
    {
      tiles[y, x] := t;
      board := board[(x, y) := t];
    }

    /** An undiscovered mine becomes "tile mine"; `discovered_tiles` does not count it. */
    method ExposeMine(x: int, y: int)
      requires Valid() && firstClickHappened && InGrid(W(), H(), (x, y))
      requires board[(x, y)] == Tile(Mine, Hidden)
      modifies this`board, tiles
      ensures Valid()
      ensures board == old(board)[(x, y) := Tile(Mine, Revealed)]
      ensures Flags() == old(Flags()) && Exploded() == old(Exploded()) + {(x, y)}
    {
      ExposeMineSets(board, (x, y));
      Put(x, y, Tile(Mine, Revealed));
    }

    /**
     * An undiscovered tile that is not a mine becomes "tile empty" or "tile
     * number_k", and `discovered_tiles` counts it.
     */
    method ExposeSafe(x: int, y: int)
      requires Valid() && firstClickHappened && InGrid(W(), H(), (x, y))
      requires board[(x, y)].vis == Hidden && board[(x, y)].content != Mine
      modifies this`discoveredTiles, this`board, tiles
      ensures Valid()
      ensures board == old(board)[(x, y) := old(board)[(x, y)].(vis := Revealed)]
      ensures discoveredTiles == old(discoveredTiles) + 1
      ensures Flags() == old(Flags()) && Exploded() == old(Exploded())
    {
      ExposeSafeSets(board, (x, y));
      assert board[(x, y)] == tiles[y, x];
      Put(x, y, tiles[y, x].(vis := Revealed));
      discoveredTiles := discoveredTiles + 1;
    }

    /**
     * `_reveal_empty_tiles`: from an uncovered empty tile, uncover every
     * undiscovered neighbour that is not a mine, and continue from each
     * neighbour that is empty.
     */
    method RevealEmptyTiles(x: int, y: int)
      requires Valid() && firstClickHappened && InGrid(W(), H(), (x, y))
      requires board[(x, y)] == Tile(Empty, Revealed)
      modifies this`discoveredTiles, this`board, tiles
      decreases W() * H() - discoveredTiles, 1
      ensures Valid()
      ensures SafelyUncovers(old(board), board) && FloodClosedIn(old(board), board) && ClearedIn(board, (x, y))
      ensures ReachedFrom(old(board), board, (x, y))
      ensures discoveredTiles >= old(discoveredTiles)
      ensures Flags() == old(Flags()) && Exploded() == old(Exploded())
    {
      DiscoveredBound();
      ghost var start := board;
      var surrounding := Neighbours(W(), H(), x, y);
      var i := 0;
      while i < |surrounding|
        invariant 0 <= i <= |surrounding|
        invariant Valid()
        invariant SafelyUncovers(start, board) && FloodClosedIn(start, board)
        invariant ReachedFrom(start, board, (x, y))
        invariant discoveredTiles >= old(discoveredTiles)
        invariant Flags() == old(Flags()) && Exploded() == old(Exploded())
        invariant board[(x, y)] == Tile(Empty, Revealed)
        invariant UncoveredPrefix(board, surrounding, i)
      {
        ghost var before := board;
        RevealNeighbour(x, y, surrounding[i].0, surrounding[i].1);
        SafelyUncoversIsUncovers(start, before);
        SafelyUncoversIsUncovers(before, board);
        FloodTrans(start, before, board);
        ReachedTrans(start, before, board, (x, y));
        SafelyUncoversTrans(start, before, board);
        UncoversKeepsUncovered(before, board, surrounding, i);
        UncoveredPrefixNext(board, surrounding, i);
        i := i + 1;
      }
      UncoveredPrefixCleared(board, surrounding, (x, y));
    }

    /**
     * One pass of `_reveal_empty_tiles`' loop, for the neighbour (nx, ny) of
     * the empty tile (x, y): an undiscovered empty neighbour is uncovered
     * and flooded from, an undiscovered number is uncovered.
     */
    method RevealNeighbour(x: int, y: int, nx: int, ny: int)
      requires Valid() && firstClickHappened && InGrid(W(), H(), (x, y)) && InGrid(W(), H(), (nx, ny))
      requires Adjacent((x, y), (nx, ny)) && board[(x, y)] == Tile(Empty, Revealed)
      modifies this`discoveredTiles, this`board, tiles
      decreases W() * H() - discoveredTiles, 0
      ensures Valid() && board[(x, y)] == Tile(Empty, Revealed)
      ensures SafelyUncovers(old(board), board) && FloodClosedIn(old(board), board)
      ensures ReachedFrom(old(board), board, (x, y))
      ensures board[(nx, ny)].vis != Hidden
      ensures discoveredTiles >= old(discoveredTiles)
      ensures Flags() == old(Flags()) && Exploded() == old(Exploded())
    {
      ghost var before := board;
      assert board[(nx, ny)] == tiles[ny, nx];
      if tiles[ny, nx].vis == Hidden {
        assert board[(x, y)].content == Expected((x, y));
        NumberedRange(mines, W(), H(), (x, y));
        NoAdjacentMine(mines, W(), H(), (x, y), (nx, ny));
        assert board[(nx, ny)].content == Expected((nx, ny));
        var empty := tiles[ny, nx].content == Empty;
        ExposeSafe(nx, ny);
        ghost var exposed := board;
        if empty {
          DiscoveredBound();
          RevealEmptyTiles(nx, ny);
        } else {
          ReachedNothing(board, (nx, ny));
        }
        UncoverThenFlood(before, exposed, board, (nx, ny));
        assert board[(x, y)] == before[(x, y)];
        ReachedThrough(before, board, (x, y), (nx, ny));
      } else {
        ReachedNothing(board, (x, y));
      }
    }

    /** `discovered_tiles` reaches the win target exactly when every tile that is not a mine is uncovered. */
    lemma WinTargetMeansSafeUncovered()
      requires Valid() && firstClickHappened
      ensures discoveredTiles == W() * H() - amountMines <==> SafeAllUncovered(board)
    {
      forall p | p in board
        ensures board[p].content != Mine <==> p !in mines
      {
        assert board[p].content == Expected(p);
      }
      assert SafeSet(board) == Cells(W(), H()) - mines;
      CellsSize(W(), H());
      SubsetSize(mines, Cells(W(), H()));
      SafeAllUncoveredCount(board);
    }

    /**
     * The flag-mode branch of `reveal_tile`: undiscovered to flag
     * (`_add_flag`), flag to questionmark (`_remove_flag`), questionmark
     * back to undiscovered; an uncovered tile is left alone.
     */
    method CycleMark(x: int, y: int)
      requires Valid() && firstClickHappened && InGrid(W(), H(), (x, y))
      modifies this`amountFlags, this`board, tiles
      ensures Valid()
      ensures board == old(board)[(x, y) := old(board)[(x, y)].(vis := NextMark(old(board)[(x, y)].vis))]
      ensures amountFlags == old(amountFlags) + FlagDelta(old(board)[(x, y)].vis)
      ensures Flags() ==
        if old(board)[(x, y)].vis == Hidden then old(Flags()) + {(x, y)}
        else if old(board)[(x, y)].vis == Flagged then old(Flags()) - {(x, y)}
        else old(Flags())
      ensures Discovered() == old(Discovered()) && Exploded() == old(Exploded())
    {
      MarkFlags(board, (x, y));
      MarkKeepsUncovered(board, (x, y));
      var tile := tiles[y, x];
      assert tile == board[(x, y)];
      if tile.vis == Hidden {
        amountFlags := amountFlags + 1;
      } else if tile.vis == Flagged {
        amountFlags := amountFlags - 1;
      }
      Put(x, y, tile.(vis := NextMark(tile.vis)));
    }

    /**
     * The "tile undiscovered" branch of `reveal_tile` in reveal mode: a mine
     * ends the game and uncovers the board, an empty tile is flooded from,
     * a number is uncovered. With `doAnyway` (from
     * `_reveal_all_tile_contents`) only the tile itself is uncovered.
     */
    method RevealUndiscovered(x: int, y: int, doAnyway: bool)
      requires Valid() && firstClickHappened && InGrid(W(), H(), (x, y)) && board[(x, y)].vis == Hidden
      requires doAnyway ==> gameOver && Exploded() != {}
      requires !doAnyway ==> !gameOver && Exploded() == {}
      modifies this, tiles
      decreases if doAnyway then 0 else 3, 1
      ensures Valid() && firstClickHappened && mines == old(mines) && amountFlags == old(amountFlags)
      ensures board[(x, y)].vis == Revealed && board[(x, y)].content == old(board)[(x, y)].content
      ensures Uncovers(old(board), board)
      ensures !doAnyway ==> FloodClosedIn(old(board), board)
      ensures doAnyway ==>
        gameOver && Exploded() != {} && board == old(board)[(x, y) := Uncover(old(board)[(x, y)])]
      ensures !doAnyway && board[(x, y)].content == Mine ==>
        gameOver && Exploded() != {} && UncoversAll(old(board), board) && NoneHiddenIn(board)
      ensures !doAnyway && board[(x, y)].content != Mine ==>
        !gameOver && Exploded() == {} && SafelyUncovers(old(board), board) && FloodClosedIn(old(board), board)
        && ReachedFrom(old(board), board, (x, y))
      ensures !doAnyway && board[(x, y)].content == Empty ==> ClearedIn(board, (x, y))
      ensures board[(x, y)].content.Number? ==> board == old(board)[(x, y) := Uncover(old(board)[(x, y)])]
    {
      assert board[(x, y)] == tiles[y, x];
      if tiles[y, x].content == Mine {
        ghost var start := board;
        RevealMine(x, y, doAnyway);
        if !doAnyway {
          NoneHiddenFloodClosed(start, board);
        }
      } else {
        RevealSafe(x, y, doAnyway);
      }
    }

    /**
     * An undiscovered mine is clicked: it becomes "tile mine", and unless
     * `doAnyway` the game is lost and `_reveal_all_tile_contents` uncovers
     * the whole board.
     */
    method RevealMine(x: int, y: int, doAnyway: bool)
      requires Valid() && firstClickHappened && InGrid(W(), H(), (x, y)) && board[(x, y)] == Tile(Mine, Hidden)
      requires doAnyway ==> gameOver && Exploded() != {}
      requires !doAnyway ==> !gameOver
      modifies this, tiles
      decreases if doAnyway then 0 else 3, 0
      ensures Valid() && firstClickHappened && mines == old(mines) && amountFlags == old(amountFlags)
      ensures gameOver && Exploded() != {} && board[(x, y)] == Tile(Mine, Revealed)
      ensures doAnyway ==> board == old(board)[(x, y) := Tile(Mine, Revealed)]
      ensures !doAnyway ==> UncoversAll(old(board), board) && NoneHiddenIn(board)
    {
      ghost var start := board;
      ExposeMine(x, y);
      if doAnyway {
        return;
      }
      gameOver := true;
      ghost var exposed := board;
      RevealAllTileContents();
      UncoversAllAfterOne(start, exposed, board, (x, y));
      UncoversAllNoneHidden(start, board);
    }

    /**
     * An undiscovered tile that is not a mine is clicked: it is uncovered,
     * and unless `doAnyway` an empty one is flooded from.
     */
    method RevealSafe(x: int, y: int, doAnyway: bool)
      requires Valid() && firstClickHappened && InGrid(W(), H(), (x, y))
      requires board[(x, y)].vis == Hidden && board[(x, y)].content != Mine
      modifies this`discoveredTiles, this`board, tiles
      ensures Valid() && board[(x, y)] == old(board)[(x, y)].(vis := Revealed)
      ensures SafelyUncovers(old(board), board) && ReachedFrom(old(board), board, (x, y))
      ensures Flags() == old(Flags()) && Exploded() == old(Exploded())
      ensures doAnyway || board[(x, y)].content.Number? ==>
        board == old(board)[(x, y) := old(board)[(x, y)].(vis := Revealed)]
      ensures !doAnyway ==> FloodClosedIn(old(board), board)
      ensures !doAnyway && board[(x, y)].content == Empty ==> ClearedIn(board, (x, y))
    {
      ghost var start := board;
      assert board[(x, y)] == tiles[y, x];
      var empty := tiles[y, x].content == Empty;
      ExposeSafe(x, y);
      ghost var exposed := board;
      if doAnyway {
        ReachedNothing(board, (x, y));
        ReachedStart(start, board, board, (x, y));
        return;
      }
      if empty {
        RevealEmptyTiles(x, y);
      } else {
        ReachedNothing(board, (x, y));
      }
      UncoverThenFlood(start, exposed, board, (x, y));
    }

    /**
     * `_reveal_all_tile_contents`: `reveal_tile(x, y, true)` on every tile,
     * row by row, which uncovers every undiscovered tile.
     */
    method RevealAllTileContents()
      requires Valid() && gameOver && Exploded() != {}
      modifies this, tiles
      decreases 2, 0
      ensures Valid() && gameOver && Exploded() != {} && mines == old(mines) && amountFlags == old(amountFlags)
      ensures UncoversAll(old(board), board)
    {
      ghost var start := board;
      UncoveredBeforeStart(start, W(), H());
      var y := 0;
      while y < H()
        invariant 0 <= y <= H()
        invariant Valid() && gameOver && Exploded() != {} && mines == old(mines) && amountFlags == old(amountFlags)
        invariant UncoveredBefore(start, board, 0, y)
      {
        var x := 0;
        while x < W()
          invariant 0 <= x <= W()
          invariant Valid() && gameOver && Exploded() != {} && mines == old(mines) && amountFlags == old(amountFlags)
          invariant UncoveredBefore(start, board, x, y)
        {
          ghost var before := board;
          RevealTile(x, y, false, true);
          UncoveredBeforeNext(start, before, board, x, y);
          x := x + 1;
        }
        UncoveredBeforeRow(start, board, W(), H(), y);
        y := y + 1;
      }
      UncoveredBeforeDone(start, board, W(), H());
    }

    /**
     * The first loop of the chord in `reveal_tile`: count the flags among
     * the surrounding tiles, stopping at the first questionmark.
     */
    method FlagsAround(x: int, y: int) returns (flags: int, questioned: bool)
      requires Mirrored() && InGrid(W(), H(), (x, y))
      ensures questioned <==> QuestionedNear(board, (x, y))
      ensures !questioned ==> flags == FlaggedNear(board, (x, y))
    {
      var surrounding := Neighbours(W(), H(), x, y);
      flags := 0;
      var i := 0;
      while i < |surrounding|
        invariant 0 <= i <= |surrounding|
        invariant flags == CountIn(FlaggedSet(board), surrounding[..i])
        invariant NoQuestionBefore(board, surrounding, i)
      {
        var n := surrounding[i];
        ScanStep(board, W(), H(), x, y, surrounding, i);
        var t := tiles[n.1, n.0];
        assert board[n] == t;
        if t.vis == Flagged {
          flags := flags + 1;
        } else if t.vis == Questioned {
          return flags, true;
        }
        i := i + 1;
      }
      CountInWhole(FlaggedSet(board), surrounding);
      FlaggedNearCount(board, W(), H(), x, y);
      NoQuestionNear(board, W(), H(), x, y);
      questioned := false;
    }

    /**
     * The "tile number_k" branch of `reveal_tile`: count the flags around
     * the tile, giving up at the first questionmark; when the flags match
     * the number, reveal every neighbour still undiscovered.
     */
    method Chord(x: int, y: int) returns (blocked: bool)
      requires Valid() && Settled() && firstClickHappened && !gameOver && InGrid(W(), H(), (x, y))
      requires board[(x, y)].vis == Revealed && board[(x, y)].content.Number?
      modifies this, tiles
      decreases 3, 5
      ensures Valid() && Settled() && mines == old(mines) && amountFlags == old(amountFlags)
      ensures Uncovers(old(board), board) && FloodClosedIn(old(board), board)
      ensures Exploded() == {} ==> SafelyUncovers(old(board), board) && ReachedAround(old(board), board, (x, y))
      ensures blocked <==> QuestionedNear(old(board), (x, y))
      ensures blocked || FlaggedNear(old(board), (x, y)) != old(board)[(x, y)].content.k ==>
        unchanged(this) && unchanged(tiles)
      ensures !blocked && FlaggedNear(old(board), (x, y)) == old(board)[(x, y)].content.k ==>
        ChordedIn(board, (x, y), gameOver && Exploded() == {})
    {
      ghost var start := board;
      ReachedNothing(board, (x, y));
      assert board[(x, y)] == tiles[y, x];
      var num := tiles[y, x].content.k;
      var flags;
      flags, blocked := FlagsAround(x, y);
      if blocked {
        return;
      }
      if flags == num {
        var surrounding := Neighbours(W(), H(), x, y);
        var j := 0;
        while j < |surrounding|
          invariant 0 <= j <= |surrounding|
          invariant Valid() && Settled() && firstClickHappened && mines == old(mines) && amountFlags == old(amountFlags)
          invariant Uncovers(start, board) && FloodClosedIn(start, board)
          invariant Exploded() == {} ==> SafelyUncovers(start, board) && ReachedAround(start, board, (x, y))
          invariant !gameOver ==> UncoveredPrefix(board, surrounding, j)
        {
          var n := surrounding[j];
          assert n in surrounding;
          ghost var before := board;
          assert board[n] == tiles[n.1, n.0];
          if tiles[n.1, n.0].vis == Hidden {
            assert Exploded() == {};
            RevealTile(n.0, n.1, false, false);
            ChordStep(start, before, board, (x, y), n, Exploded() == {});
            if !gameOver {
              UncoversKeepsUncovered(before, board, surrounding, j);
            }
          }
          if !gameOver {
            UncoveredPrefixNext(board, surrounding, j);
          }
          j := j + 1;
        }
        if !gameOver {
          UncoveredPrefixCleared(board, surrounding, (x, y));
        } else if Exploded() == {} {
          WinTargetMeansSafeUncovered();
        }
        ChordedWhen(board, (x, y), gameOver && Exploded() == {});
      }
    }

    /**
     * What holds in the middle of a click, before `reveal_tile`'s final win
     * check: the game is over only when a mine was uncovered or every safe
     * tile was, and an uncovered mine ended it and left no tile undiscovered.
     */
    ghost predicate SettledBeforeWinCheck()
      reads this`gameOver, this`discoveredTiles, this`board
    {
      && (gameOver ==> Exploded() != {} || discoveredTiles == W() * H() - amountMines)
      && (Exploded() != {} ==> gameOver && NoneHiddenIn(board))
    }

    /**
     * The reveal-mode branches of `reveal_tile` after `_first_click`, up to
     * its win check: an undiscovered tile is uncovered, a number is chorded;
     * `stop` is set where the source returns before the win check.
     */
    method RevealClick(x: int, y: int, doAnyway: bool) returns (stop: bool)
      requires Valid() && firstClickHappened && InGrid(W(), H(), (x, y))
      requires doAnyway ==> gameOver && Exploded() != {}
      requires !doAnyway ==> Settled() && !gameOver
      modifies this, tiles
      decreases if doAnyway then 0 else 3, if tiles[y, x].vis == Hidden then 2 else 6
      ensures Valid() && firstClickHappened && mines == old(mines) && amountFlags == old(amountFlags)
      ensures stop <==> (doAnyway ||
        (old(board)[(x, y)].vis == Revealed && old(board)[(x, y)].content.Number? && QuestionedNear(old(board), (x, y))))
      ensures doAnyway ==>
        gameOver && Exploded() != {} && board == old(board)[(x, y) := Uncover(old(board)[(x, y)])]
      ensures !doAnyway ==> Settled() && Uncovers(old(board), board) && FloodClosedIn(old(board), board)
      ensures !doAnyway && Exploded() == {} ==> SafelyUncovers(old(board), board)
      ensures !doAnyway && Exploded() == {} && old(board)[(x, y)].vis == Hidden ==>
        ReachedFrom(old(board), board, (x, y))
      ensures !doAnyway && Exploded() == {} && old(board)[(x, y)].vis != Hidden ==>
        ReachedAround(old(board), board, (x, y))
      ensures !doAnyway && old(board)[(x, y)].vis == Hidden ==>
        && board[(x, y)].vis == Revealed
        && (board[(x, y)].content == Mine ==> gameOver && NoneHiddenIn(board))
        && (board[(x, y)].content != Mine ==> Exploded() == {})
        && (board[(x, y)].content == Empty ==> ClearedIn(board, (x, y)))
        && (board[(x, y)].content.Number? ==> board == old(board)[(x, y) := old(board)[(x, y)].(vis := Revealed)])
      ensures !doAnyway && old(board)[(x, y)].vis == Revealed && old(board)[(x, y)].content.Number? ==>
        && (QuestionedNear(old(board), (x, y)) || FlaggedNear(old(board), (x, y)) != old(board)[(x, y)].content.k ==>
              unchanged(this) && unchanged(tiles))
        && (!QuestionedNear(old(board), (x, y)) && FlaggedNear(old(board), (x, y)) == old(board)[(x, y)].content.k ==>
              ChordedIn(board, (x, y), gameOver && Exploded() == {}))
      ensures !doAnyway && Inert(old(board)[(x, y)]) ==> unchanged(this) && unchanged(tiles)
    {
      ReachedNothing(board, (x, y));
      assert board[(x, y)] == tiles[y, x];
      stop := false;
      if tiles[y, x].vis == Hidden {
        RevealUndiscovered(x, y, doAnyway);
        stop := doAnyway;
      } else if tiles[y, x].vis == Revealed && tiles[y, x].content.Number? {
        if doAnyway {
          return true;
        }
        stop := Chord(x, y);
      } else if doAnyway {
        stop := true;
      }
      if !stop && !doAnyway {
        CheckWin();
      }
    }

    /**
     * `reveal_tile`: a click on (x, y), in reveal mode or (with `flagMode`,
     * the source's `click_mode`) in flag mode. `doAnyway` is set only by
     * `_reveal_all_tile_contents`.
     */
    method RevealTile(x: int, y: int, flagMode: bool, doAnyway: bool)
      requires Valid() && InGrid(W(), H(), (x, y))
      requires doAnyway ==> gameOver && Exploded() != {}
      requires !doAnyway ==> Settled()
      modifies this, tiles
      decreases if doAnyway then 0 else 3, if tiles[y, x].vis == Hidden then 3 else 7
      ensures Valid() && (old(firstClickHappened) ==> mines == old(mines))
      ensures doAnyway ==> gameOver && Exploded() != {}
      ensures !doAnyway ==> Settled()
      // a click on a finished game does nothing
      ensures old(gameOver) && !doAnyway ==> unchanged(this) && unchanged(tiles)
      // the first click lays the mines away from the clicked tile and opens it
      ensures !old(firstClickHappened) ==> SafeStart(x, y)
      ensures !old(firstClickHappened) && !flagMode ==>
        board[(x, y)] == Tile(Empty, Revealed) && ClearedIn(board, (x, y))
      // uncovering every tile after a loss
      ensures doAnyway && !flagMode ==>
        amountFlags == old(amountFlags) && board == old(board)[(x, y) := Uncover(old(board)[(x, y)])]
      ensures doAnyway && flagMode ==> unchanged(this) && unchanged(tiles)
      // reveal mode: tiles are only uncovered, the clicked one included (`RevealClick` has the cases)
      ensures !doAnyway && !old(gameOver) && !flagMode ==>
        amountFlags == old(amountFlags) && (old(firstClickHappened) ==> Uncovers(old(board), board))
      ensures !doAnyway && !old(gameOver) && !flagMode && old(board)[(x, y)].vis == Hidden ==>
        board[(x, y)].vis == Revealed
      // reveal mode, from the board with its mines laid: the flood stays closed and, unless a mine
      // was hit, uncovers only safe tiles reached from the clicked tile (or, for a chord, from its neighbours)
      ensures !old(firstClickHappened) && !flagMode ==> Exploded() == {}
      ensures !doAnyway && !flagMode ==>
        var dealt := Dealt(old(board), old(firstClickHappened));
        && FloodClosedIn(dealt, board)
        && (Exploded() == {} ==> SafelyUncovers(dealt, board))
        && (Exploded() == {} && old(board)[(x, y)].vis == Hidden ==> ReachedFrom(dealt, board, (x, y)))
        && (Exploded() == {} && old(board)[(x, y)].vis != Hidden ==> ReachedAround(dealt, board, (x, y)))
      // flag mode: only the clicked tile's mark changes (on the board with its mines laid)
      ensures !doAnyway && !old(gameOver) && flagMode ==>
        && board[(x, y)].vis == NextMark(old(board)[(x, y)].vis)
        && amountFlags == old(amountFlags) + FlagDelta(old(board)[(x, y)].vis)
        && discoveredTiles == old(discoveredTiles) && !gameOver
        && var dealt := Dealt(old(board), old(firstClickHappened));
           board == dealt[(x, y) := dealt[(x, y)].(vis := NextMark(old(board)[(x, y)].vis))]
    {
      if gameOver && !doAnyway {
        ReachedNothing(board, (x, y));
        return;
      }
      ghost var start := board;
      FirstClick(x, y);
      ghost var seeded := board;
      assert seeded == Dealt(start, old(firstClickHappened));
      assert start[(x, y)].vis == seeded[(x, y)].vis;
      if !flagMode {
        var stop := RevealClick(x, y, doAnyway);
      } else if !doAnyway {
        FlagClick(x, y);
      }
    }

    /** The flag-mode branch of `reveal_tile` and its win check, which never fires. */
    method FlagClick(x: int, y: int)
      requires Valid() && Settled() && firstClickHappened && !gameOver && InGrid(W(), H(), (x, y))
      modifies this, tiles
      ensures Valid() && Settled() && !gameOver && firstClickHappened && mines == old(mines)
      ensures board == old(board)[(x, y) := old(board)[(x, y)].(vis := NextMark(old(board)[(x, y)].vis))]
      ensures amountFlags == old(amountFlags) + FlagDelta(old(board)[(x, y)].vis)
      ensures discoveredTiles == old(discoveredTiles)
    {
      CycleMark(x, y);
      CheckWin();
    }

    /** The end of `reveal_tile`: the game is won once every safe tile is uncovered. */
    method CheckWin()
      requires Valid() && firstClickHappened && SettledBeforeWinCheck()
      modifies this`gameOver
      ensures Valid() && Settled() && board == old(board) && Exploded() == old(Exploded())
      ensures gameOver <==> old(gameOver) || discoveredTiles == W() * H() - amountMines
    {
      if discoveredTiles == W() * H() - amountMines && !gameOver {
        gameOver := true;
      }
    }
  }
}
