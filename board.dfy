/**
 * The pure part of the minesweeper board: positions, the neighbour
 * enumeration of `_get_surrounding_tiles`, the tile record that replaces the
 * DOM button's `textContent` / `className` pair, and the adjacency numbering
 * that `_set_numbers` writes into the tiles.
 */
module Board {

  /** A board position (x, y): column x, row y (the source indexes `tiles[y][x]`). */
  type Pos = (int, int)

  /** What a tile holds: `textContent` "" , "M" or "1".."8". */
  datatype Content = Empty | Mine | Number(k: int)

  /**
   * How a tile is shown: `className` "tile undiscovered", "tile flag",
   * "tile questionmark", or one of the uncovered classes ("tile empty",
   * "tile number_k", "tile mine"), which the content determines.
   */
  datatype Visibility = Hidden | Flagged | Questioned | Revealed

  datatype Tile = Tile(content: Content, vis: Visibility)

  predicate InGrid(w: int, h: int, p: Pos) {
    0 <= p.0 < w && 0 <= p.1 < h
  }

  /** p and q are different and touch horizontally, vertically or diagonally. */
  predicate Adjacent(p: Pos, q: Pos) {
    p != q && -1 <= p.0 - q.0 <= 1 && -1 <= p.1 - q.1 <= 1
  }

  /** All positions of a w by h board. */
  function Cells(w: int, h: int): (r: set<Pos>)
    ensures forall p :: p in r <==> InGrid(w, h, p)
  {
    var r := set x, y | 0 <= x < w && 0 <= y < h :: (x, y);
    assert forall p: Pos :: InGrid(w, h, p) ==> (p.0, p.1) in r;
    r
  }

  /** The positions of row y. */
  function Row(w: int, y: int): (r: set<Pos>)
    ensures forall p :: p in r <==> 0 <= p.0 < w && p.1 == y
  {
    var r := set x | 0 <= x < w :: (x, y);
    assert forall p: Pos :: 0 <= p.0 < w && p.1 == y ==> (p.0, y) in r;
    r
  }

  lemma {:induction false} RowSize(w: nat, y: int)
    ensures |Row(w, y)| == w
  {
    if w > 0 {
      RowSize(w - 1, y);
      assert Row(w, y) == Row(w - 1, y) + {(w - 1, y)};
    }
  }

  /** A w by h board has exactly w * h cells. */
  lemma {:induction false} CellsSize(w: nat, h: nat)
    ensures |Cells(w, h)| == w * h
  {
    if h > 0 {
      CellsSize(w, h - 1);
      RowSize(w, h - 1);
      var above, last := Cells(w, h - 1), Row(w, h - 1);
      assert |Cells(w, h)| == |above| + |last| by {
        assert Cells(w, h) == above + last;
        assert above !! last;
      }
      assert w * (h - 1) + w == w * h by { MulSuccessor(w, h - 1); }
    }
  }

  lemma MulSuccessor(a: int, b: int)
    ensures a * b + a == a * (b + 1)
  {
  }

  /** A subset's complement inside its superset makes up the difference in size. */
  lemma SubsetSize(a: set<Pos>, b: set<Pos>)
    requires a <= b
    ensures |b| == |a| + |b - a|
  {
    assert b == a + (b - a);
  }

  /** A list has at most as many distinct entries as it is long. */
  lemma {:induction false} SeqSetSize(ps: seq<Pos>)
    ensures |set q | q in ps| <= |ps|
  {
    if ps != [] {
      SeqSetSize(ps[1..]);
      var all, tail := set q | q in ps, set q | q in ps[1..];
      assert all <= {ps[0]} + tail by {
        forall q | q in all ensures q == ps[0] || q in tail {
          var i :| 0 <= i < |ps| && ps[i] == q;
          if i > 0 { assert ps[1..][i - 1] == q; }
        }
      }
      SubsetSize(all, {ps[0]} + tail);
    }
  }

  /** The offsets of `_get_surrounding_tiles`' option table, in its order. */
  const Offsets: seq<Pos> :=
    [(-1, 0), (1, 0), (0, -1), (0, 1), (-1, -1), (1, -1), (-1, 1), (1, 1)]

  lemma OffsetIsDirection(d: Pos)
    ensures d in Offsets <==> d != (0, 0) && -1 <= d.0 <= 1 && -1 <= d.1 <= 1
  {
  }

  lemma OffsetsDistinct()
    ensures Distinct(Offsets)
  {
  }

  predicate Distinct(ps: seq<Pos>) {
    forall i, j :: 0 <= i < j < |ps| ==> ps[i] != ps[j]
  }

  /**
   * The positions (x, y) + d for the offsets d in `offsets`, in order, keeping
   * those that lie on the board. For (x, y) on the board this is the guard of
   * each option in the source (`x > x_min`, `y < y_max`, ...).
   */
  function Shifted(w: int, h: int, x: int, y: int, offsets: seq<Pos>): (r: seq<Pos>)
    ensures |r| <= |offsets|
  {
    if offsets == [] then []
    else
      var q := (x + offsets[0].0, y + offsets[0].1);
      (if InGrid(w, h, q) then [q] else []) + Shifted(w, h, x, y, offsets[1..])
  }

  lemma {:induction false} ShiftedMember(w: int, h: int, x: int, y: int, offsets: seq<Pos>, q: Pos)
    ensures q in Shifted(w, h, x, y, offsets) <==> InGrid(w, h, q) && (q.0 - x, q.1 - y) in offsets
  {
    if offsets != [] {
      ShiftedMember(w, h, x, y, offsets[1..], q);
      var d := (q.0 - x, q.1 - y);
      assert d in offsets <==> d == offsets[0] || d in offsets[1..];
      assert q == (x + offsets[0].0, y + offsets[0].1) <==> d == offsets[0];
    }
  }

  lemma {:induction false} ShiftedDistinct(w: int, h: int, x: int, y: int, offsets: seq<Pos>)
    requires Distinct(offsets)
    ensures Distinct(Shifted(w, h, x, y, offsets))
  {
    if offsets != [] {
      ShiftedDistinct(w, h, x, y, offsets[1..]);
      var q := (x + offsets[0].0, y + offsets[0].1);
      var rest := Shifted(w, h, x, y, offsets[1..]);
      ShiftedMember(w, h, x, y, offsets[1..], q);
      assert (q.0 - x, q.1 - y) == offsets[0];
      assert offsets[0] !in offsets[1..];
      assert q !in rest;
    }
  }

  /**
   * `_get_surrounding_tiles`: the neighbours of (x, y) that lie on the board,
   * each once, in the order of the source's option table.
   */
  function Neighbours(w: int, h: int, x: int, y: int): (r: seq<Pos>)
    requires InGrid(w, h, (x, y))
    ensures forall q :: q in r <==> InGrid(w, h, q) && Adjacent((x, y), q)
    ensures Distinct(r)
    ensures |r| <= 8
  {
    var r := Shifted(w, h, x, y, Offsets);
    forall q ensures q in r <==> InGrid(w, h, q) && Adjacent((x, y), q) {
      ShiftedByOffsets(w, h, x, y, q);
    }
    OffsetsDistinct();
    ShiftedDistinct(w, h, x, y, Offsets);
    r
  }

  lemma ShiftedByOffsets(w: int, h: int, x: int, y: int, q: Pos)
    ensures q in Shifted(w, h, x, y, Offsets) <==> InGrid(w, h, q) && Adjacent((x, y), q)
  {
    var d := (q.0 - x, q.1 - y);
    OffsetIsDirection(d);
    ShiftedMember(w, h, x, y, Offsets, q);
    assert d != (0, 0) <==> q != (x, y);
  }

  /** How many entries of ps lie in s. */
  function CountIn(s: set<Pos>, ps: seq<Pos>): (n: nat)
    ensures n <= |ps|
  {
    if ps == [] then 0 else (if ps[0] in s then 1 else 0) + CountIn(s, ps[1..])
  }

  lemma {:induction false} CountInAppend(s: set<Pos>, a: seq<Pos>, b: seq<Pos>)
    ensures CountIn(s, a + b) == CountIn(s, a) + CountIn(s, b)
  {
    if a == [] {
      assert a + b == b;
    } else {
      assert (a + b)[1..] == a[1..] + b;
      CountInAppend(s, a[1..], b);
    }
  }

  /** Counting the entries of a list without repetitions is counting the set they form. */
  lemma {:induction false} CountInDistinct(s: set<Pos>, ps: seq<Pos>)
    requires Distinct(ps)
    ensures CountIn(s, ps) == |set q | q in ps && q in s|
  {
    if ps != [] {
      CountInDistinct(s, ps[1..]);
      var tail := set q | q in ps[1..] && q in s;
      assert ps[0] !in tail;
      if ps[0] in s {
        assert (set q | q in ps && q in s) == {ps[0]} + tail;
      } else {
        assert (set q | q in ps && q in s) == tail;
      }
    }
  }

  /** The number of mines among the on-board neighbours of p. */
  function AdjacentMines(mines: set<Pos>, w: int, h: int, p: Pos): nat {
    |set q | q in mines && InGrid(w, h, q) && Adjacent(p, q)|
  }

  /** Counting along `_get_surrounding_tiles`' list counts exactly the adjacent mines. */
  lemma NeighbourCount(mines: set<Pos>, w: int, h: int, x: int, y: int)
    requires InGrid(w, h, (x, y))
    ensures CountIn(mines, Neighbours(w, h, x, y)) == AdjacentMines(mines, w, h, (x, y))
  {
    var ns := Neighbours(w, h, x, y);
    CountInDistinct(mines, ns);
    assert (set q | q in ns && q in mines) == (set q | q in mines && InGrid(w, h, q) && Adjacent((x, y), q));
  }

  /** 1 when (x + dx, y + dy) is on the board and a mine, else 0. */
  function MineBit(mines: set<Pos>, w: int, h: int, x: int, y: int, d: Pos): int {
    var q := (x + d.0, y + d.1);
    if InGrid(w, h, q) && q in mines then 1 else 0
  }

  function BitSum(mines: set<Pos>, w: int, h: int, x: int, y: int, offsets: seq<Pos>): int {
    if offsets == [] then 0
    else MineBit(mines, w, h, x, y, offsets[0]) + BitSum(mines, w, h, x, y, offsets[1..])
  }

  lemma {:induction false} CountShifted(mines: set<Pos>, w: int, h: int, x: int, y: int, offsets: seq<Pos>)
    ensures CountIn(mines, Shifted(w, h, x, y, offsets)) == BitSum(mines, w, h, x, y, offsets)
  {
    if offsets != [] {
      var q := (x + offsets[0].0, y + offsets[0].1);
      CountInAppend(mines, if InGrid(w, h, q) then [q] else [], Shifted(w, h, x, y, offsets[1..]));
      CountShifted(mines, w, h, x, y, offsets[1..]);
    }
  }

  lemma BitSumOfEight(mines: set<Pos>, w: int, h: int, x: int, y: int, o: seq<Pos>)
    requires |o| == 8
    ensures BitSum(mines, w, h, x, y, o) ==
      MineBit(mines, w, h, x, y, o[0]) + MineBit(mines, w, h, x, y, o[1])
      + MineBit(mines, w, h, x, y, o[2]) + MineBit(mines, w, h, x, y, o[3])
      + MineBit(mines, w, h, x, y, o[4]) + MineBit(mines, w, h, x, y, o[5])
      + MineBit(mines, w, h, x, y, o[6]) + MineBit(mines, w, h, x, y, o[7])
  {
    forall k | 0 <= k < 8
      ensures BitSum(mines, w, h, x, y, o[k..])
        == MineBit(mines, w, h, x, y, o[k]) + BitSum(mines, w, h, x, y, o[k + 1..])
    {
      assert o[k..][1..] == o[k + 1..];
    }
    assert o[0..] == o && o[8..] == [];
  }

  /**
   * The neighbour count written out one direction at a time: the form in
   * which `_set_numbers` adds up the `_*_is_mine` readers.
   */
  lemma NeighbourCountByDirection(mines: set<Pos>, w: int, h: int, x: int, y: int)
    requires InGrid(w, h, (x, y))
    ensures CountIn(mines, Neighbours(w, h, x, y)) ==
      MineBit(mines, w, h, x, y, Step(Left)) + MineBit(mines, w, h, x, y, Step(Right))
      + MineBit(mines, w, h, x, y, Step(Top)) + MineBit(mines, w, h, x, y, Step(Bottom))
      + MineBit(mines, w, h, x, y, Step(TopLeft)) + MineBit(mines, w, h, x, y, Step(TopRight))
      + MineBit(mines, w, h, x, y, Step(BottomLeft)) + MineBit(mines, w, h, x, y, Step(BottomRight))
  {
    CountShifted(mines, w, h, x, y, Offsets);
    BitSumOfEight(mines, w, h, x, y, Offsets);
  }

  /** The number of adjacent mines, one direction at a time. */
  lemma AdjacentByDirection(mines: set<Pos>, w: int, h: int, x: int, y: int)
    requires InGrid(w, h, (x, y))
    ensures AdjacentMines(mines, w, h, (x, y)) ==
      MineBit(mines, w, h, x, y, Step(Left)) + MineBit(mines, w, h, x, y, Step(Right))
      + MineBit(mines, w, h, x, y, Step(Top)) + MineBit(mines, w, h, x, y, Step(Bottom))
      + MineBit(mines, w, h, x, y, Step(TopLeft)) + MineBit(mines, w, h, x, y, Step(TopRight))
      + MineBit(mines, w, h, x, y, Step(BottomLeft)) + MineBit(mines, w, h, x, y, Step(BottomRight))
  {
    NeighbourCountByDirection(mines, w, h, x, y);
    NeighbourCount(mines, w, h, x, y);
  }

  /** In a corner, only the three readers that look into the board count. */
  lemma CornerBits(mines: set<Pos>, w: int, h: int, x: int, y: int)
    requires 2 <= w && 2 <= h && (x == 0 || x == w - 1) && (y == 0 || y == h - 1)
    ensures y == 0 && x == 0 ==> (AdjacentMines(mines, w, h, (x, y)) ==
      MineBit(mines, w, h, x, y, Step(Bottom)) + MineBit(mines, w, h, x, y, Step(Right))
      + MineBit(mines, w, h, x, y, Step(BottomRight)))
    ensures y == 0 && x != 0 ==> (AdjacentMines(mines, w, h, (x, y)) ==
      MineBit(mines, w, h, x, y, Step(Bottom)) + MineBit(mines, w, h, x, y, Step(Left))
      + MineBit(mines, w, h, x, y, Step(BottomLeft)))
    ensures y != 0 && x == 0 ==> (AdjacentMines(mines, w, h, (x, y)) ==
      MineBit(mines, w, h, x, y, Step(Top)) + MineBit(mines, w, h, x, y, Step(Right))
      + MineBit(mines, w, h, x, y, Step(TopRight)))
    ensures y != 0 && x != 0 ==> (AdjacentMines(mines, w, h, (x, y)) ==
      MineBit(mines, w, h, x, y, Step(Top)) + MineBit(mines, w, h, x, y, Step(Left))
      + MineBit(mines, w, h, x, y, Step(TopLeft)))
  {
    AdjacentByDirection(mines, w, h, x, y);
    if y == 0 {
      assert MineBit(mines, w, h, x, y, Step(Top)) == 0;
      assert MineBit(mines, w, h, x, y, Step(TopLeft)) == 0;
      assert MineBit(mines, w, h, x, y, Step(TopRight)) == 0;
    } else {
      assert MineBit(mines, w, h, x, y, Step(Bottom)) == 0;
      assert MineBit(mines, w, h, x, y, Step(BottomLeft)) == 0;
      assert MineBit(mines, w, h, x, y, Step(BottomRight)) == 0;
    }
    if x == 0 {
      assert MineBit(mines, w, h, x, y, Step(Left)) == 0;
      assert MineBit(mines, w, h, x, y, Step(TopLeft)) == 0;
      assert MineBit(mines, w, h, x, y, Step(BottomLeft)) == 0;
    } else {
      assert MineBit(mines, w, h, x, y, Step(Right)) == 0;
      assert MineBit(mines, w, h, x, y, Step(TopRight)) == 0;
      assert MineBit(mines, w, h, x, y, Step(BottomRight)) == 0;
    }
  }

  /** On the first or last row (not a corner), the readers that look off the board count nothing. */
  lemma RowEdgeBits(mines: set<Pos>, w: int, h: int, x: int, y: int)
    requires 2 <= w && 2 <= h && 0 < x < w - 1 && (y == 0 || y == h - 1)
    ensures y == 0 ==> (AdjacentMines(mines, w, h, (x, y)) ==
      MineBit(mines, w, h, x, y, Step(Bottom)) + MineBit(mines, w, h, x, y, Step(Left))
      + MineBit(mines, w, h, x, y, Step(Right)) + MineBit(mines, w, h, x, y, Step(BottomLeft))
      + MineBit(mines, w, h, x, y, Step(BottomRight)))
    ensures y == h - 1 ==> (AdjacentMines(mines, w, h, (x, y)) ==
      MineBit(mines, w, h, x, y, Step(Top)) + MineBit(mines, w, h, x, y, Step(Left))
      + MineBit(mines, w, h, x, y, Step(Right)) + MineBit(mines, w, h, x, y, Step(TopLeft))
      + MineBit(mines, w, h, x, y, Step(TopRight)))
  {
    AdjacentByDirection(mines, w, h, x, y);
    if y == 0 {
      assert MineBit(mines, w, h, x, y, Step(Top)) == 0;
      assert MineBit(mines, w, h, x, y, Step(TopLeft)) == 0;
      assert MineBit(mines, w, h, x, y, Step(TopRight)) == 0;
    }
    if y == h - 1 {
      assert MineBit(mines, w, h, x, y, Step(Bottom)) == 0;
      assert MineBit(mines, w, h, x, y, Step(BottomLeft)) == 0;
      assert MineBit(mines, w, h, x, y, Step(BottomRight)) == 0;
    }
  }

  /** On the first or last column (not a corner), the readers that look off the board count nothing. */
  lemma ColumnEdgeBits(mines: set<Pos>, w: int, h: int, x: int, y: int)
    requires 2 <= w && 2 <= h && (x == 0 || x == w - 1) && 0 < y < h - 1
    ensures x == 0 ==> (AdjacentMines(mines, w, h, (x, y)) ==
      MineBit(mines, w, h, x, y, Step(Top)) + MineBit(mines, w, h, x, y, Step(Bottom))
      + MineBit(mines, w, h, x, y, Step(Right)) + MineBit(mines, w, h, x, y, Step(TopRight))
      + MineBit(mines, w, h, x, y, Step(BottomRight)))
    ensures x == w - 1 ==> (AdjacentMines(mines, w, h, (x, y)) ==
      MineBit(mines, w, h, x, y, Step(Top)) + MineBit(mines, w, h, x, y, Step(Bottom))
      + MineBit(mines, w, h, x, y, Step(Left)) + MineBit(mines, w, h, x, y, Step(TopLeft))
      + MineBit(mines, w, h, x, y, Step(BottomLeft)))
  {
    AdjacentByDirection(mines, w, h, x, y);
    if x == 0 {
      assert MineBit(mines, w, h, x, y, Step(Left)) == 0;
      assert MineBit(mines, w, h, x, y, Step(TopLeft)) == 0;
      assert MineBit(mines, w, h, x, y, Step(BottomLeft)) == 0;
    }
    if x == w - 1 {
      assert MineBit(mines, w, h, x, y, Step(Right)) == 0;
      assert MineBit(mines, w, h, x, y, Step(TopRight)) == 0;
      assert MineBit(mines, w, h, x, y, Step(BottomRight)) == 0;
    }
  }

  /** The eight `_*_is_mine` readers, one per direction. */
  datatype Direction = Top | Bottom | Left | Right | TopLeft | TopRight | BottomLeft | BottomRight

  /** The offset each reader looks at: `_top_is_mine` reads `tiles[y - 1][x]`, and so on. */
  function Step(d: Direction): Pos {
    match d
    case Top => (0, -1)
    case Bottom => (0, 1)
    case Left => (-1, 0)
    case Right => (1, 0)
    case TopLeft => (-1, -1)
    case TopRight => (1, -1)
    case BottomLeft => (-1, 1)
    case BottomRight => (1, 1)
  }

  /** What `_set_numbers` writes for a count: "" for 0, the number otherwise. */
  function NumberOf(count: int): Content {
    if count == 0 then Empty else Number(count)
  }

  /** The content every tile has once mines are seeded and numbered. */
  function Numbered(mines: set<Pos>, w: int, h: int, p: Pos): Content {
    if p in mines then Mine else NumberOf(AdjacentMines(mines, w, h, p))
  }

  /**
   * A numbered tile is a mine, or empty with no adjacent mine, or shows
   * between 1 and 8: the count of adjacent mines.
   */
  lemma NumberedRange(mines: set<Pos>, w: int, h: int, p: Pos)
    requires InGrid(w, h, p)
    ensures Numbered(mines, w, h, p) == Mine <==> p in mines
    ensures Numbered(mines, w, h, p) == Empty <==> p !in mines && AdjacentMines(mines, w, h, p) == 0
    ensures Numbered(mines, w, h, p).Number? ==>
      p !in mines && 1 <= Numbered(mines, w, h, p).k == AdjacentMines(mines, w, h, p) <= 8
  {
    NeighbourCount(mines, w, h, p.0, p.1);
  }

  /** With no adjacent mine counted, no neighbour on the board is a mine. */
  lemma NoAdjacentMine(mines: set<Pos>, w: int, h: int, p: Pos, q: Pos)
    requires AdjacentMines(mines, w, h, p) == 0
    requires InGrid(w, h, q) && Adjacent(p, q)
    ensures q !in mines
  {
    var around := set r | r in mines && InGrid(w, h, r) && Adjacent(p, r);
    assert around == {};
    assert q in mines ==> q in around;
  }

  /**
   * The right-click cycle of `reveal_tile` in flag mode: undiscovered to
   * flag, flag to questionmark, questionmark back to undiscovered; an
   * uncovered tile stays as it is.
   */
  function NextMark(v: Visibility): Visibility {
    match v
    case Hidden => Flagged
    case Flagged => Questioned
    case Questioned => Hidden
    case Revealed => Revealed
  }

  /** The change to `amount_flags` of one right-click: `_add_flag`, `_remove_flag` or none. */
  function FlagDelta(v: Visibility): int {
    match v
    case Hidden => 1
    case Flagged => -1
    case _ => 0
  }

  /** Three right-clicks bring a covered tile back to where it was, with the flag count unchanged. */
  lemma MarkCycle(v: Visibility)
    requires v != Revealed
    ensures NextMark(v) != Revealed
    ensures NextMark(NextMark(NextMark(v))) == v
    ensures FlagDelta(v) + FlagDelta(NextMark(v)) + FlagDelta(NextMark(NextMark(v))) == 0
  {
  }

  /*
   * Relations between two snapshots of the board, a map from each position
   * to its tile, taken before and after a click.
   */

  /**
   * A tile a reveal-mode click leaves alone: one showing a flag or a
   * questionmark, or an uncovered tile that is not a number.
   */
  predicate Inert(t: Tile) {
    t.vis != Hidden && !(t.vis == Revealed && t.content.Number?)
  }

  /** A tile as `_reveal_all_tile_contents` leaves it: undiscovered tiles are uncovered. */
  function Uncover(t: Tile): Tile {
    if t.vis == Hidden then t.(vis := Revealed) else t
  }

  /** From a to b, tiles have only been uncovered. */
  ghost predicate Uncovers(a: map<Pos, Tile>, b: map<Pos, Tile>) {
    && a.Keys == b.Keys
    && forall p | p in a :: b[p] == a[p] || (a[p].vis == Hidden && b[p] == a[p].(vis := Revealed))
  }

  /** From a to b, tiles have only been uncovered, and none of them is a mine. */
  ghost predicate SafelyUncovers(a: map<Pos, Tile>, b: map<Pos, Tile>) {
    && a.Keys == b.Keys
    && forall p | p in a ::
         b[p] == a[p] || (a[p].vis == Hidden && a[p].content != Mine && b[p] == a[p].(vis := Revealed))
  }

  /** From a to b, every undiscovered tile has been uncovered and nothing else changed. */
  ghost predicate UncoversAll(a: map<Pos, Tile>, b: map<Pos, Tile>) {
    && a.Keys == b.Keys
    && forall p | p in a :: b[p] == Uncover(a[p])
  }

  /** In b, no tile adjacent to p is undiscovered. */
  ghost predicate ClearedIn(b: map<Pos, Tile>, p: Pos) {
    forall q | q in b && Adjacent(p, q) :: b[q].vis != Hidden
  }

  /** Every empty tile uncovered from a to b has no undiscovered neighbour in b. */
  ghost predicate FloodClosedIn(a: map<Pos, Tile>, b: map<Pos, Tile>) {
    forall p | p in a && p in b :: a[p].vis == Hidden && b[p] == Tile(Empty, Revealed) ==> ClearedIn(b, p)
  }

  lemma UncoversTrans(a: map<Pos, Tile>, b: map<Pos, Tile>, c: map<Pos, Tile>)
    requires Uncovers(a, b) && Uncovers(b, c)
    ensures Uncovers(a, c)
  {
  }

  lemma SafelyUncoversTrans(a: map<Pos, Tile>, b: map<Pos, Tile>, c: map<Pos, Tile>)
    requires SafelyUncovers(a, b) && SafelyUncovers(b, c)
    ensures SafelyUncovers(a, c)
  {
  }

  lemma SafelyUncoversIsUncovers(a: map<Pos, Tile>, b: map<Pos, Tile>)
    requires SafelyUncovers(a, b)
    ensures Uncovers(a, b)
  {
  }

  /** A cleared tile stays cleared while tiles are only uncovered. */
  lemma ClearedStays(b: map<Pos, Tile>, c: map<Pos, Tile>, p: Pos)
    requires ClearedIn(b, p) && Uncovers(b, c)
    ensures ClearedIn(c, p)
  {
    forall q | q in c && Adjacent(p, q)
      ensures c[q].vis != Hidden
    {
      assert b[q].vis != Hidden;
    }
  }

  /** Flood closure composes: from a to b, then from b to c. */
  lemma {:induction false} FloodTrans(a: map<Pos, Tile>, b: map<Pos, Tile>, c: map<Pos, Tile>)
    requires Uncovers(a, b) && Uncovers(b, c)
    requires FloodClosedIn(a, b) && FloodClosedIn(b, c)
    ensures FloodClosedIn(a, c)
  {
    forall p | p in a && p in c && a[p].vis == Hidden && c[p] == Tile(Empty, Revealed)
      ensures ClearedIn(c, p)
    {
      if b[p].vis != Hidden {
        assert b[p] == Tile(Empty, Revealed);
        ClearedStays(b, c, p);
      }
    }
  }

  /** Uncovering one tile that is not empty keeps the flood closed. */
  lemma {:induction false} FloodUncoverOne(a: map<Pos, Tile>, b: map<Pos, Tile>, p: Pos)
    requires p in a && a[p].vis == Hidden && a[p].content != Empty
    requires b == a[p := a[p].(vis := Revealed)]
    ensures Uncovers(a, b) && FloodClosedIn(a, b)
  {
  }

  /**
   * Uncovering the empty tile p and then flooding from it (b to c) keeps
   * the flood closed from a.
   */
  lemma {:induction false} FloodUncoverEmpty(a: map<Pos, Tile>, b: map<Pos, Tile>, c: map<Pos, Tile>, p: Pos)
    requires p in a && a[p] == Tile(Empty, Hidden)
    requires b == a[p := Tile(Empty, Revealed)]
    requires Uncovers(b, c) && FloodClosedIn(b, c) && ClearedIn(c, p)
    ensures Uncovers(a, c) && FloodClosedIn(a, c)
  {
    assert Uncovers(a, b);
    UncoversTrans(a, b, c);
    forall r | r in a && r in c && a[r].vis == Hidden && c[r] == Tile(Empty, Revealed)
      ensures ClearedIn(c, r)
    {
      if r != p {
        assert b[r] == a[r];
      }
    }
  }

  /** The first n positions of ps are on the board b and uncovered there. */
  ghost predicate UncoveredPrefix(b: map<Pos, Tile>, ps: seq<Pos>, n: int) {
    0 <= n <= |ps| && forall k | 0 <= k < n :: ps[k] in b && b[ps[k]].vis != Hidden
  }

  /** Tiles already uncovered stay uncovered. */
  lemma UncoversKeepsUncovered(a: map<Pos, Tile>, b: map<Pos, Tile>, ps: seq<Pos>, n: int)
    requires Uncovers(a, b) && UncoveredPrefix(a, ps, n)
    ensures UncoveredPrefix(b, ps, n)
  {
  }

  lemma UncoveredPrefixNext(b: map<Pos, Tile>, ps: seq<Pos>, n: int)
    requires UncoveredPrefix(b, ps, n) && n < |ps| && ps[n] in b && b[ps[n]].vis != Hidden
    ensures UncoveredPrefix(b, ps, n + 1)
  {
  }

  /** When all of a tile's neighbours are listed and uncovered, the tile is cleared. */
  lemma UncoveredPrefixCleared(b: map<Pos, Tile>, ps: seq<Pos>, p: Pos)
    requires UncoveredPrefix(b, ps, |ps|)
    requires forall q | q in b && Adjacent(p, q) :: q in ps
    ensures ClearedIn(b, p)
  {
    forall q | q in b && Adjacent(p, q)
      ensures b[q].vis != Hidden
    {
      var k :| 0 <= k < |ps| && ps[k] == q;
    }
  }

  /**
   * From a to b, path goes from tile to adjacent tile, every tile on it but
   * the last is an uncovered empty tile on b, and every tile after the first
   * was still undiscovered on a: the way `_reveal_empty_tiles` spreads, since
   * it only moves on to a neighbour that is undiscovered when it gets there.
   */
  ghost predicate EmptyWalk(a: map<Pos, Tile>, b: map<Pos, Tile>, path: seq<Pos>) {
    && 1 <= |path|
    && (forall i | 0 < i < |path| :: path[i] in a && a[path[i]].vis == Hidden)
    && forall i | 0 <= i < |path| - 1 ::
         path[i] in b && b[path[i]] == Tile(Empty, Revealed) && Adjacent(path[i], path[i + 1])
  }

  /** From a to b, a flood from s arrives at q. */
  ghost predicate Reaches(a: map<Pos, Tile>, b: map<Pos, Tile>, s: Pos, q: Pos) {
    exists path | EmptyWalk(a, b, path) :: path[0] == s && path[|path| - 1] == q
  }

  /** Every tile uncovered from a to b is reached by a flood from s. */
  ghost predicate ReachedFrom(a: map<Pos, Tile>, b: map<Pos, Tile>, s: Pos) {
    forall q | q in a && q in b && a[q].vis == Hidden && b[q].vis != Hidden :: Reaches(a, b, s, q)
  }

  /**
   * Every tile uncovered from a to b is reached by a flood from some
   * neighbour of p that was undiscovered on a.
   */
  ghost predicate ReachedAround(a: map<Pos, Tile>, b: map<Pos, Tile>, p: Pos) {
    forall q | q in a && q in b && a[q].vis == Hidden && b[q].vis != Hidden ::
      exists n | Adjacent(p, n) && n in a && a[n].vis == Hidden :: Reaches(a, b, n, q)
  }

  /** A flood's way stays open while tiles are only uncovered. */
  lemma ReachesStays(a: map<Pos, Tile>, b: map<Pos, Tile>, c: map<Pos, Tile>, s: Pos, q: Pos)
    requires Uncovers(b, c) && Reaches(a, b, s, q)
    ensures Reaches(a, c, s, q)
  {
    var path :| EmptyWalk(a, b, path) && path[0] == s && path[|path| - 1] == q;
    assert EmptyWalk(a, c, path);
  }

  /** A tile still undiscovered on b was undiscovered on a, so a flood counted from b counts from a. */
  lemma ReachesEarlier(a: map<Pos, Tile>, b: map<Pos, Tile>, c: map<Pos, Tile>, s: Pos, q: Pos)
    requires Uncovers(a, b) && Reaches(b, c, s, q)
    ensures Reaches(a, c, s, q)
  {
    var path :| EmptyWalk(b, c, path) && path[0] == s && path[|path| - 1] == q;
    assert EmptyWalk(a, c, path);
  }

  /** A flood arrives at the tile it starts from. */
  lemma ReachesSelf(a: map<Pos, Tile>, b: map<Pos, Tile>, s: Pos)
    ensures Reaches(a, b, s, s)
  {
    assert EmptyWalk(a, b, [s]);
  }

  /** The second tile of a walk was undiscovered on a and is next to the first. */
  lemma WalkSecond(a: map<Pos, Tile>, b: map<Pos, Tile>, path: seq<Pos>)
    requires EmptyWalk(a, b, path)
    ensures 1 < |path| ==> path[1] in a && a[path[1]].vis == Hidden && Adjacent(path[0], path[1])
  {
  }

  /**
   * A flood from a tile with no undiscovered neighbour on a arrives nowhere
   * else: `_reveal_empty_tiles` finds nothing to uncover around it.
   */
  lemma {:induction false} ReachesOnlySelf(a: map<Pos, Tile>, b: map<Pos, Tile>, s: Pos, q: Pos)
    requires ClearedIn(a, s) && Reaches(a, b, s, q)
    ensures q == s
  {
    var path :| EmptyWalk(a, b, path) && path[0] == s && path[|path| - 1] == q;
    WalkSecond(a, b, path);
  }

  /**
   * When s has no undiscovered neighbour on a, a flood from s uncovers at
   * most s itself, even next to empty tiles uncovered earlier.
   */
  lemma {:induction false} ReachedOnlySelf(a: map<Pos, Tile>, b: map<Pos, Tile>, s: Pos)
    requires ClearedIn(a, s) && ReachedFrom(a, b, s)
    ensures forall q | q in a && q in b && a[q].vis == Hidden && b[q].vis != Hidden :: q == s
  {
    forall q | q in a && q in b && a[q].vis == Hidden && b[q].vis != Hidden
      ensures q == s
    {
      ReachesOnlySelf(a, b, s, q);
    }
  }

  /**
   * A flood from the uncovered empty tile s arrives wherever one from its
   * neighbour n, undiscovered on a, does.
   */
  lemma {:induction false} ReachesThrough(a: map<Pos, Tile>, b: map<Pos, Tile>, s: Pos, n: Pos, q: Pos)
    requires s in b && b[s] == Tile(Empty, Revealed) && Adjacent(s, n)
    requires n in a && a[n].vis == Hidden && Reaches(a, b, n, q)
    ensures Reaches(a, b, s, q)
  {
    var path :| EmptyWalk(a, b, path) && path[0] == n && path[|path| - 1] == q;
    var longer := [s] + path;
    forall i | 0 < i < |longer|
      ensures longer[i] in a && a[longer[i]].vis == Hidden
    {
      assert longer[i] == path[i - 1];
    }
    forall i | 0 <= i < |longer| - 1
      ensures longer[i] in b && b[longer[i]] == Tile(Empty, Revealed) && Adjacent(longer[i], longer[i + 1])
    {
      if i > 0 {
        assert longer[i] == path[i - 1] && longer[i + 1] == path[i];
      }
    }
    assert EmptyWalk(a, b, longer) && longer[0] == s && longer[|longer| - 1] == q;
  }

  /**
   * Uncovering the safe tile n (a to b), then flooding from it (b to c) when
   * it is empty: only safe tiles are uncovered, each reached from n, and
   * the flood stays closed.
   */
  lemma {:induction false} UncoverThenFlood(a: map<Pos, Tile>, b: map<Pos, Tile>, c: map<Pos, Tile>, n: Pos)
    requires n in a && a[n].vis == Hidden && a[n].content != Mine && b == a[n := a[n].(vis := Revealed)]
    requires SafelyUncovers(b, c) && ReachedFrom(b, c, n)
    requires a[n].content == Empty ==> FloodClosedIn(b, c) && ClearedIn(c, n)
    requires a[n].content != Empty ==> c == b
    ensures SafelyUncovers(a, c) && FloodClosedIn(a, c) && ReachedFrom(a, c, n)
  {
    assert SafelyUncovers(a, b);
    SafelyUncoversTrans(a, b, c);
    SafelyUncoversIsUncovers(b, c);
    if a[n].content == Empty {
      FloodUncoverEmpty(a, b, c, n);
    } else {
      FloodUncoverOne(a, b, n);
    }
    ReachedStart(a, b, c, n);
  }

  /** Nothing is uncovered from b to b. */
  lemma ReachedNothing(b: map<Pos, Tile>, s: Pos)
    ensures ReachedFrom(b, b, s) && ReachedAround(b, b, s)
  {
  }

  /** Floods from the same tile compose: from a to b, then from b to c. */
  lemma {:induction false} ReachedTrans(a: map<Pos, Tile>, b: map<Pos, Tile>, c: map<Pos, Tile>, s: Pos)
    requires Uncovers(a, b) && Uncovers(b, c)
    requires ReachedFrom(a, b, s) && ReachedFrom(b, c, s)
    ensures ReachedFrom(a, c, s)
  {
    forall q | q in a && q in c && a[q].vis == Hidden && c[q].vis != Hidden
      ensures Reaches(a, c, s, q)
    {
      if b[q].vis != Hidden {
        ReachesStays(a, b, c, s, q);
      } else {
        ReachesEarlier(a, b, c, s, q);
      }
    }
  }

  /** Uncovering s and then flooding from it (b to c) reaches every tile it uncovers from s. */
  lemma {:induction false} ReachedStart(a: map<Pos, Tile>, b: map<Pos, Tile>, c: map<Pos, Tile>, s: Pos)
    requires s in a && a[s].vis == Hidden && b == a[s := a[s].(vis := Revealed)]
    requires Uncovers(b, c) && ReachedFrom(b, c, s)
    ensures ReachedFrom(a, c, s)
  {
    forall q | q in a && q in c && a[q].vis == Hidden && c[q].vis != Hidden
      ensures Reaches(a, c, s, q)
    {
      if q == s {
        ReachesSelf(a, c, s);
      } else {
        assert b[q] == a[q] && Reaches(b, c, s, q);
        ReachesEarlier(a, b, c, s, q);
      }
    }
  }

  /** What a flood from the neighbour n reaches, a flood from the uncovered empty tile s reaches too. */
  lemma {:induction false} ReachedThrough(a: map<Pos, Tile>, c: map<Pos, Tile>, s: Pos, n: Pos)
    requires s in c && c[s] == Tile(Empty, Revealed) && Adjacent(s, n)
    requires n in a && a[n].vis == Hidden && ReachedFrom(a, c, n)
    ensures ReachedFrom(a, c, s)
  {
    forall q | q in a && q in c && a[q].vis == Hidden && c[q].vis != Hidden
      ensures Reaches(a, c, s, q)
    {
      ReachesThrough(a, c, s, n, q);
    }
  }

  /** One step of a chord on p: a flood from its neighbour n (b to c). */
  lemma {:induction false} ReachedAroundNext(a: map<Pos, Tile>, b: map<Pos, Tile>, c: map<Pos, Tile>, p: Pos, n: Pos)
    requires Uncovers(a, b) && Uncovers(b, c) && Adjacent(p, n) && n in b && b[n].vis == Hidden
    requires ReachedAround(a, b, p) && ReachedFrom(b, c, n)
    ensures ReachedAround(a, c, p)
  {
    forall q | q in a && q in c && a[q].vis == Hidden && c[q].vis != Hidden
      ensures exists m | Adjacent(p, m) && m in a && a[m].vis == Hidden :: Reaches(a, c, m, q)
    {
      if b[q].vis != Hidden {
        var m :| Adjacent(p, m) && m in a && a[m].vis == Hidden && Reaches(a, b, m, q);
        ReachesStays(a, b, c, m, q);
      } else {
        ReachesEarlier(a, b, c, n, q);
        assert n in a && a[n].vis == Hidden;
      }
    }
  }

  /**
   * One step of a chord on p (b to c): a click on its neighbour n. The flood
   * stays closed and, unless a mine was uncovered (`safe` false), only safe
   * tiles are uncovered, each reached from n.
   */
  lemma {:induction false} ChordStep(a: map<Pos, Tile>, b: map<Pos, Tile>, c: map<Pos, Tile>, p: Pos, n: Pos, safe: bool)
    requires Uncovers(a, b) && FloodClosedIn(a, b) && Uncovers(b, c) && FloodClosedIn(b, c)
    requires Adjacent(p, n) && n in b && b[n].vis == Hidden
    requires safe ==> SafelyUncovers(a, b) && ReachedAround(a, b, p)
    requires safe ==> SafelyUncovers(b, c) && ReachedFrom(b, c, n)
    ensures Uncovers(a, c) && FloodClosedIn(a, c)
    ensures safe ==> SafelyUncovers(a, c) && ReachedAround(a, c, p)
  {
    UncoversTrans(a, b, c);
    FloodTrans(a, b, c);
    if safe {
      SafelyUncoversTrans(a, b, c);
      ReachedAroundNext(a, b, c, p, n);
    }
  }

  /** No tile of b is undiscovered. */
  ghost predicate NoneHiddenIn(b: map<Pos, Tile>) {
    forall p | p in b :: b[p].vis != Hidden
  }

  lemma UncoversAllNoneHidden(a: map<Pos, Tile>, b: map<Pos, Tile>)
    requires UncoversAll(a, b)
    ensures NoneHiddenIn(b) && Uncovers(a, b)
  {
  }

  /** Uncovering one tile and then everything is uncovering everything. */
  lemma UncoversAllAfterOne(a: map<Pos, Tile>, b: map<Pos, Tile>, c: map<Pos, Tile>, p: Pos)
    requires p in a && b == a[p := Uncover(a[p])] && UncoversAll(b, c)
    ensures UncoversAll(a, c)
  {
    forall q | q in a
      ensures c[q] == Uncover(a[q])
    {
      if q != p {
        assert b[q] == a[q];
      }
    }
  }

  /** With nothing left undiscovered, every uncovered empty tile is cleared. */
  lemma NoneHiddenFloodClosed(a: map<Pos, Tile>, b: map<Pos, Tile>)
    requires NoneHiddenIn(b)
    ensures FloodClosedIn(a, b)
  {
  }

  /** A board with every tile uncovered stays so. */
  lemma NoneHiddenStays(a: map<Pos, Tile>, b: map<Pos, Tile>)
    requires NoneHiddenIn(a) && Uncovers(a, b)
    ensures NoneHiddenIn(b)
  {
  }

  /**
   * The progress of `_reveal_all_tile_contents`' double loop: the tiles on
   * rows above y, and on row y left of x, have been uncovered; the others
   * are as in a.
   */
  ghost predicate UncoveredBefore(a: map<Pos, Tile>, b: map<Pos, Tile>, x: int, y: int) {
    && a.Keys == b.Keys
    && forall p | p in a :: b[p] == (if p.1 < y || (p.1 == y && p.0 < x) then Uncover(a[p]) else a[p])
  }

  lemma UncoveredBeforeStart(a: map<Pos, Tile>, w: int, h: int)
    requires a.Keys == Cells(w, h)
    ensures UncoveredBefore(a, a, 0, 0)
  {
  }

  lemma UncoveredBeforeNext(a: map<Pos, Tile>, b: map<Pos, Tile>, c: map<Pos, Tile>, x: int, y: int)
    requires UncoveredBefore(a, b, x, y) && (x, y) in b
    requires c == b[(x, y) := Uncover(b[(x, y)])]
    ensures UncoveredBefore(a, c, x + 1, y)
  {
  }

  lemma UncoveredBeforeRow(a: map<Pos, Tile>, b: map<Pos, Tile>, w: int, h: int, y: int)
    requires a.Keys == Cells(w, h) && UncoveredBefore(a, b, w, y)
    ensures UncoveredBefore(a, b, 0, y + 1)
  {
  }

  lemma UncoveredBeforeDone(a: map<Pos, Tile>, b: map<Pos, Tile>, w: int, h: int)
    requires a.Keys == Cells(w, h) && UncoveredBefore(a, b, 0, h)
    ensures UncoversAll(a, b)
  {
  }

  /** The tiles of b showing a flag. */
  ghost function FlaggedSet(b: map<Pos, Tile>): set<Pos> {
    set q | q in b && b[q].vis == Flagged
  }

  /** How many neighbours of p show a flag on b: what the chord in `reveal_tile` counts. */
  ghost function FlaggedNear(b: map<Pos, Tile>, p: Pos): nat {
    |set q | q in b && Adjacent(p, q) && b[q].vis == Flagged|
  }

  /** Some neighbour of p shows a questionmark on b: a chord is then refused. */
  ghost predicate QuestionedNear(b: map<Pos, Tile>, p: Pos) {
    exists q | q in b && Adjacent(p, q) :: b[q].vis == Questioned
  }

  /**
   * After a chord on p: every neighbour is uncovered, except mines left
   * covered because the game was won (`won`) before the chord came to them.
   */
  ghost predicate ChordedIn(b: map<Pos, Tile>, p: Pos, won: bool) {
    forall q | q in b && Adjacent(p, q) :: b[q].vis != Hidden || (b[q].content == Mine && won)
  }

  /**
   * A chord is done when p is cleared, when nothing is left undiscovered, or
   * when the game was won with every safe tile uncovered.
   */
  lemma ChordedWhen(b: map<Pos, Tile>, p: Pos, won: bool)
    requires ClearedIn(b, p) || NoneHiddenIn(b) || (won && SafeAllUncovered(b))
    ensures ChordedIn(b, p, won)
  {
  }

  /** Counting along `_get_surrounding_tiles`' list counts the flagged neighbours. */
  lemma FlaggedNearCount(b: map<Pos, Tile>, w: int, h: int, x: int, y: int)
    requires b.Keys == Cells(w, h) && InGrid(w, h, (x, y))
    ensures CountIn(FlaggedSet(b), Neighbours(w, h, x, y)) == FlaggedNear(b, (x, y))
  {
    var ps := Neighbours(w, h, x, y);
    CountInDistinct(FlaggedSet(b), ps);
    assert (set q | q in ps && q in FlaggedSet(b)) == (set q | q in b && Adjacent((x, y), q) && b[q].vis == Flagged);
  }

  lemma CountInNext(s: set<Pos>, ps: seq<Pos>, i: int)
    requires 0 <= i < |ps|
    ensures CountIn(s, ps[..i + 1]) == CountIn(s, ps[..i]) + (if ps[i] in s then 1 else 0)
  {
    assert ps[..i + 1] == ps[..i] + [ps[i]];
    CountInAppend(s, ps[..i], [ps[i]]);
    assert [ps[i]][1..] == [];
  }

  lemma CountInWhole(s: set<Pos>, ps: seq<Pos>)
    ensures CountIn(s, ps[..|ps|]) == CountIn(s, ps)
  {
    assert ps[..|ps|] == ps;
  }

  /** None of the first n positions of ps shows a questionmark on b. */
  ghost predicate NoQuestionBefore(b: map<Pos, Tile>, ps: seq<Pos>, n: int) {
    0 <= n <= |ps| && forall k | 0 <= k < n :: ps[k] in b && b[ps[k]].vis != Questioned
  }

  lemma NoQuestionNext(b: map<Pos, Tile>, ps: seq<Pos>, n: int)
    requires NoQuestionBefore(b, ps, n) && n < |ps| && ps[n] in b && b[ps[n]].vis != Questioned
    ensures NoQuestionBefore(b, ps, n + 1)
  {
  }

  /** One step of the scan `_get_surrounding_tiles` feeds to the chord: the i-th neighbour of (x, y). */
  lemma ScanStep(b: map<Pos, Tile>, w: int, h: int, x: int, y: int, ps: seq<Pos>, i: int)
    requires b.Keys == Cells(w, h) && InGrid(w, h, (x, y))
    requires ps == Neighbours(w, h, x, y) && 0 <= i < |ps|
    ensures ps[i] in b && InGrid(w, h, ps[i])
    ensures CountIn(FlaggedSet(b), ps[..i + 1])
         == CountIn(FlaggedSet(b), ps[..i]) + (if b[ps[i]].vis == Flagged then 1 else 0)
    ensures b[ps[i]].vis == Questioned ==> QuestionedNear(b, (x, y))
    ensures NoQuestionBefore(b, ps, i) && b[ps[i]].vis != Questioned ==> NoQuestionBefore(b, ps, i + 1)
  {
    assert ps[i] in ps;
    CountInNext(FlaggedSet(b), ps, i);
    if NoQuestionBefore(b, ps, i) && b[ps[i]].vis != Questioned {
      NoQuestionNext(b, ps, i);
    }
  }

  lemma NoQuestionNear(b: map<Pos, Tile>, w: int, h: int, x: int, y: int)
    requires b.Keys == Cells(w, h) && InGrid(w, h, (x, y))
    requires NoQuestionBefore(b, Neighbours(w, h, x, y), |Neighbours(w, h, x, y)|)
    ensures !QuestionedNear(b, (x, y))
  {
    var ps := Neighbours(w, h, x, y);
    forall q | q in b && Adjacent((x, y), q)
      ensures b[q].vis != Questioned
    {
      var k :| 0 <= k < |ps| && ps[k] == q;
    }
  }

  /** Every tile of b that is not a mine is uncovered. */
  ghost predicate SafeAllUncovered(b: map<Pos, Tile>) {
    forall p | p in b && b[p].content != Mine :: b[p].vis == Revealed
  }

  /** The tiles of b that are not mines. */
  ghost function SafeSet(b: map<Pos, Tile>): set<Pos> {
    set p | p in b && b[p].content != Mine
  }

  /** The uncovered tiles of b that are not mines. */
  ghost function DiscoveredSet(b: map<Pos, Tile>): set<Pos> {
    set p | p in b && b[p].vis == Revealed && b[p].content != Mine
  }

  /** All safe tiles are uncovered exactly when the uncovered safe tiles are as many as the safe tiles. */
  lemma SafeAllUncoveredCount(b: map<Pos, Tile>)
    ensures DiscoveredSet(b) <= SafeSet(b)
    ensures SafeAllUncovered(b) <==> |DiscoveredSet(b)| == |SafeSet(b)|
  {
    SubsetSize(DiscoveredSet(b), SafeSet(b));
    if |DiscoveredSet(b)| == |SafeSet(b)| {
      forall p | p in b && b[p].content != Mine
        ensures b[p].vis == Revealed
      {
        assert p in SafeSet(b);
        assert SafeSet(b) - DiscoveredSet(b) == {};
      }
    }
    if SafeAllUncovered(b) {
      assert DiscoveredSet(b) == SafeSet(b);
    }
  }

  /** Two boards whose tiles show the same visibility. */
  ghost predicate SameVisibility(a: map<Pos, Tile>, b: map<Pos, Tile>) {
    a.Keys == b.Keys && forall p | p in a :: a[p].vis == b[p].vis
  }

  lemma FloodClosedSameVisibility(a: map<Pos, Tile>, a2: map<Pos, Tile>, b: map<Pos, Tile>)
    requires SameVisibility(a, a2) && FloodClosedIn(a2, b)
    ensures FloodClosedIn(a, b)
  {
  }

  /** With no mine next to p, p counts no adjacent mine. */
  lemma NoMineNear(mines: set<Pos>, w: int, h: int, p: Pos)
    requires forall q | InGrid(w, h, q) && Adjacent(p, q) :: q !in mines
    ensures AdjacentMines(mines, w, h, p) == 0
  {
    assert (set q | q in mines && InGrid(w, h, q) && Adjacent(p, q)) == {};
  }

  /** The uncovered mines of b. */
  ghost function ExplodedSet(b: map<Pos, Tile>): set<Pos> {
    set p | p in b && b[p] == Tile(Mine, Revealed)
  }

  /** How the flagged tiles change when the tile at p becomes t. */
  lemma UpdateFlagged(b: map<Pos, Tile>, p: Pos, t: Tile)
    requires p in b
    ensures FlaggedSet(b[p := t]) == (FlaggedSet(b) - {p}) + (if t.vis == Flagged then {p} else {})
  {
  }

  /** How the discovered tiles change when the tile at p becomes t. */
  lemma UpdateDiscovered(b: map<Pos, Tile>, p: Pos, t: Tile)
    requires p in b
    ensures DiscoveredSet(b[p := t]) ==
      (DiscoveredSet(b) - {p}) + (if t.vis == Revealed && t.content != Mine then {p} else {})
  {
  }

  /** How the uncovered mines change when the tile at p becomes t. */
  lemma UpdateExploded(b: map<Pos, Tile>, p: Pos, t: Tile)
    requires p in b
    ensures ExplodedSet(b[p := t]) == (ExplodedSet(b) - {p}) + (if t == Tile(Mine, Revealed) then {p} else {})
  {
  }

  /** Uncovering an undiscovered mine adds it to the uncovered mines and changes no count. */
  lemma ExposeMineSets(b: map<Pos, Tile>, p: Pos)
    requires p in b && b[p] == Tile(Mine, Hidden)
    ensures FlaggedSet(b[p := Tile(Mine, Revealed)]) == FlaggedSet(b)
    ensures DiscoveredSet(b[p := Tile(Mine, Revealed)]) == DiscoveredSet(b)
    ensures ExplodedSet(b[p := Tile(Mine, Revealed)]) == ExplodedSet(b) + {p}
  {
    UpdateFlagged(b, p, Tile(Mine, Revealed));
    UpdateDiscovered(b, p, Tile(Mine, Revealed));
    UpdateExploded(b, p, Tile(Mine, Revealed));
    assert FlaggedSet(b) - {p} == FlaggedSet(b);
    assert DiscoveredSet(b) - {p} == DiscoveredSet(b);
    assert ExplodedSet(b) - {p} == ExplodedSet(b);
  }

  /** Uncovering an undiscovered safe tile adds exactly that tile to the discovered ones. */
  lemma ExposeSafeSets(b: map<Pos, Tile>, p: Pos)
    requires p in b && b[p].vis == Hidden && b[p].content != Mine
    ensures FlaggedSet(b[p := b[p].(vis := Revealed)]) == FlaggedSet(b)
    ensures DiscoveredSet(b[p := b[p].(vis := Revealed)]) == DiscoveredSet(b) + {p}
    ensures p !in DiscoveredSet(b)
    ensures |DiscoveredSet(b[p := b[p].(vis := Revealed)])| == |DiscoveredSet(b)| + 1
    ensures ExplodedSet(b[p := b[p].(vis := Revealed)]) == ExplodedSet(b)
  {
    UpdateFlagged(b, p, b[p].(vis := Revealed));
    UpdateDiscovered(b, p, b[p].(vis := Revealed));
    UpdateExploded(b, p, b[p].(vis := Revealed));
    assert FlaggedSet(b) - {p} == FlaggedSet(b);
    assert DiscoveredSet(b) - {p} == DiscoveredSet(b);
    assert ExplodedSet(b) - {p} == ExplodedSet(b);
  }

  /**
   * Moving p one step along the flag cycle adds it to the flags (from
   * undiscovered), removes it (from a flag) or leaves the flags alone, so the
   * number of flags moves by `FlagDelta`.
   */
  lemma MarkFlags(b: map<Pos, Tile>, p: Pos)
    requires p in b
    ensures FlaggedSet(b[p := b[p].(vis := NextMark(b[p].vis))]) ==
      if b[p].vis == Hidden then FlaggedSet(b) + {p}
      else if b[p].vis == Flagged then FlaggedSet(b) - {p}
      else FlaggedSet(b)
    ensures |FlaggedSet(b[p := b[p].(vis := NextMark(b[p].vis))])| == |FlaggedSet(b)| + FlagDelta(b[p].vis)
  {
    var t := b[p].(vis := NextMark(b[p].vis));
    if b[p].vis == Revealed {
      assert b[p := t] == b;
    } else {
      UpdateFlagged(b, p, t);
      if b[p].vis == Flagged {
        assert p in FlaggedSet(b);
        assert (FlaggedSet(b) - {p}) + {} == FlaggedSet(b) - {p};
      } else {
        assert FlaggedSet(b) - {p} == FlaggedSet(b);
      }
    }
  }

  /** Moving a tile along the flag cycle uncovers nothing. */
  lemma MarkKeepsUncovered(b: map<Pos, Tile>, p: Pos)
    requires p in b
    ensures DiscoveredSet(b[p := b[p].(vis := NextMark(b[p].vis))]) == DiscoveredSet(b)
    ensures ExplodedSet(b[p := b[p].(vis := NextMark(b[p].vis))]) == ExplodedSet(b)
  {
    var t := b[p].(vis := NextMark(b[p].vis));
    if b[p].vis == Revealed {
      assert b[p := t] == b;
    } else {
      UpdateDiscovered(b, p, t);
      UpdateExploded(b, p, t);
      assert (DiscoveredSet(b) - {p}) + {} == DiscoveredSet(b);
      assert (ExplodedSet(b) - {p}) + {} == ExplodedSet(b);
    }
  }

  /** The board `_create_tiles` builds: every tile empty and undiscovered. */
  ghost function Blank(w: int, h: int): (b: map<Pos, Tile>)
    ensures b.Keys == Cells(w, h)
    ensures forall p | p in b :: b[p] == Tile(Empty, Hidden)
  {
    map p | p in Cells(w, h) :: Tile(Empty, Hidden)
  }

  /** The board `_first_click` leaves: every tile numbered by `_set_numbers` and still undiscovered. */
  ghost function Fresh(mines: set<Pos>, w: int, h: int): (b: map<Pos, Tile>)
    ensures b.Keys == Cells(w, h)
    ensures forall p | p in b :: b[p].vis == Hidden
  {
    map p | p in Cells(w, h) :: Tile(Numbered(mines, w, h, p), Hidden)
  }

  /**
   * Laying the mines changes no tile's visibility: the first click starts
   * from a board with no flag and nothing uncovered, and leaves it so.
   */
  lemma {:induction false} BlankToFresh(mines: set<Pos>, w: int, h: int)
    ensures SameVisibility(Blank(w, h), Fresh(mines, w, h))
    ensures FlaggedSet(Blank(w, h)) == {} && FlaggedSet(Fresh(mines, w, h)) == {}
    ensures DiscoveredSet(Blank(w, h)) == {} && DiscoveredSet(Fresh(mines, w, h)) == {}
    ensures ExplodedSet(Blank(w, h)) == {} && ExplodedSet(Fresh(mines, w, h)) == {}
  {
  }
}
