/**
 * The board of the game and the three queries every other part consults:
 * whether a mark fills a line, whether the board is full, and which cells
 * are still blank, listed in row-major order.
 */
module TicTacToe {

  datatype Option<T> = None | Some(value: T)

  /** One cell: blank (" "), the human's mark "X" or the computer's mark "O". */
  datatype Cell = Empty | X | O

  /** A row or column number of the 3x3 grid. */
  type Index = i: int | 0 <= i < 3

  /** A (row, column) pair naming one cell. */
  datatype Pos = Pos(row: Index, col: Index)

  /** The nine cells in row-major order: cell (r, c) is element 3 * r + c. */
  type Board = b: seq<Cell> | |b| == 9
    witness [Empty, Empty, Empty, Empty, Empty, Empty, Empty, Empty, Empty]

  /** The rank of a cell in row-major order. */
  function Idx(p: Pos): nat {
    3 * p.row + p.col
  }

  /** The cell of rank k in row-major order. */
  function PosAt(k: int): (p: Pos)
    requires 0 <= k < 9
    ensures Idx(p) == k
  {
    Pos(k / 3, k % 3)
  }

  function At(b: Board, p: Pos): Cell {
    b[3 * p.row + p.col]
  }

  /** Writing mark m into cell p. */
  function Place(b: Board, p: Pos, m: Cell): (r: Board)
    ensures At(r, p) == m
  {
    b[Idx(p) := m]
  }

  /** Place changes exactly one cell: p holds m and every other cell is as before. */
  lemma PlaceChangesOneCell(b: Board, p: Pos, m: Cell)
    ensures At(Place(b, p, m), p) == m
    ensures forall q :: q != p ==> At(Place(b, p, m), q) == At(b, q)
  {
  }

  predicate RowFilled(b: Board, r: Index, m: Cell) {
    At(b, Pos(r, 0)) == m && At(b, Pos(r, 1)) == m && At(b, Pos(r, 2)) == m
  }

  predicate ColFilled(b: Board, c: Index, m: Cell) {
    At(b, Pos(0, c)) == m && At(b, Pos(1, c)) == m && At(b, Pos(2, c)) == m
  }

  predicate DiagFilled(b: Board, m: Cell) {
    At(b, Pos(0, 0)) == m && At(b, Pos(1, 1)) == m && At(b, Pos(2, 2)) == m
  }

  predicate AntiDiagFilled(b: Board, m: Cell) {
    At(b, Pos(0, 2)) == m && At(b, Pos(1, 1)) == m && At(b, Pos(2, 0)) == m
  }

  /** check_winner: some row or column i, the main diagonal or the anti-diagonal is all m. */
  predicate Wins(b: Board, m: Cell) {
    (exists i | 0 <= i < 3 :: RowFilled(b, i, m) || ColFilled(b, i, m))
    || DiagFilled(b, m)
    || AntiDiagFilled(b, m)
  }

  /** is_draw: no cell is blank, whoever holds a line. */
  predicate IsDraw(b: Board) {
    forall r, c | 0 <= r < 3 && 0 <= c < 3 :: At(b, Pos(r, c)) != Empty
  }

  /** The eight lines of the grid, written out cell by cell. */
  const Lines: seq<seq<Pos>> := [
    [Pos(0, 0), Pos(0, 1), Pos(0, 2)],
    [Pos(1, 0), Pos(1, 1), Pos(1, 2)],
    [Pos(2, 0), Pos(2, 1), Pos(2, 2)],
    [Pos(0, 0), Pos(1, 0), Pos(2, 0)],
    [Pos(0, 1), Pos(1, 1), Pos(2, 1)],
    [Pos(0, 2), Pos(1, 2), Pos(2, 2)],
    [Pos(0, 0), Pos(1, 1), Pos(2, 2)],
    [Pos(0, 2), Pos(1, 1), Pos(2, 0)]
  ]

  predicate LineFilled(b: Board, line: seq<Pos>, m: Cell) {
    forall j | 0 <= j < |line| :: At(b, line[j]) == m
  }

  /** Each of the eight lines has three cells, and is filled when those three are. */
  lemma LineCells(b: Board, k: int, m: Cell)
    requires 0 <= k < |Lines|
    ensures |Lines[k]| == 3
    ensures LineFilled(b, Lines[k], m) <==>
      At(b, Lines[k][0]) == m && At(b, Lines[k][1]) == m && At(b, Lines[k][2]) == m
  {
  }

  /** Wins holds exactly when one of the eight lines is entirely m. */
  lemma WinsIffSomeLine(b: Board, m: Cell)
    ensures Wins(b, m) <==> exists k | 0 <= k < |Lines| :: LineFilled(b, Lines[k], m)
  {
    if Wins(b, m) {
      var k: int;
      if RowFilled(b, 0, m) {
        k := 0;
      } else if RowFilled(b, 1, m) {
        k := 1;
      } else if RowFilled(b, 2, m) {
        k := 2;
      } else if ColFilled(b, 0, m) {
        k := 3;
      } else if ColFilled(b, 1, m) {
        k := 4;
      } else if ColFilled(b, 2, m) {
        k := 5;
      } else if DiagFilled(b, m) {
        k := 6;
      } else {
        k := 7;
      }
      LineCells(b, k, m);
      assert LineFilled(b, Lines[k], m);
    }
    if exists k | 0 <= k < |Lines| :: LineFilled(b, Lines[k], m) {
      var k :| 0 <= k < |Lines| && LineFilled(b, Lines[k], m);
      LineCells(b, k, m);
      if k < 3 {
        assert RowFilled(b, k, m);
      } else if k < 6 {
        assert ColFilled(b, k - 3, m);
      }
    }
  }

  /** The blank cells of rank k and beyond, in increasing rank. */
  function EmptyFrom(b: Board, k: nat): seq<Pos>
    requires k <= 9
    decreases |b| - k
  {
    if k == 9 then []
    else if b[k] == Empty then [PosAt(k)] + EmptyFrom(b, k + 1)
    else EmptyFrom(b, k + 1)
  }

  /** get_empty_positions: the blank cells in row-major order. */
  function EmptyPositions(b: Board): (r: seq<Pos>)
    ensures forall i | 0 <= i < |r| :: At(b, r[i]) == Empty
  {
    EmptyFromMembers(b, 0);
    EmptyFrom(b, 0)
  }

  /** A cell is determined by its rank. */
  lemma RankDetermines(p: Pos, k: int)
    requires 0 <= k < 9 && Idx(p) == k
    ensures p == PosAt(k)
  {
  }

  lemma {:induction false} EmptyFromMembers(b: Board, k: nat)
    requires k <= 9
    ensures forall p :: p in EmptyFrom(b, k) <==> k <= Idx(p) && At(b, p) == Empty
    decreases |b| - k
  {
    if k < 9 {
      EmptyFromMembers(b, k + 1);
      forall p | Idx(p) == k ensures p == PosAt(k) {
        RankDetermines(p, k);
      }
    }
  }

  lemma {:induction false} EmptyFromAbove(b: Board, k: nat)
    requires k <= 9
    ensures forall i | 0 <= i < |EmptyFrom(b, k)| :: k <= Idx(EmptyFrom(b, k)[i])
    decreases |b| - k
  {
    if k < 9 {
      var rest := EmptyFrom(b, k + 1);
      EmptyFromAbove(b, k + 1);
      if b[k] == Empty {
        var r := [PosAt(k)] + rest;
        assert EmptyFrom(b, k) == r;
        forall i | 0 <= i < |r| ensures k <= Idx(r[i]) {
          if i > 0 {
            assert r[i] == rest[i - 1];
          }
        }
      } else {
        assert EmptyFrom(b, k) == rest;
      }
    }
  }

  /** The cells of r appear in strictly increasing row-major rank. */
  predicate Ascending(r: seq<Pos>) {
    forall i, j | 0 <= i < j < |r| :: Idx(r[i]) < Idx(r[j])
  }

  lemma {:induction false} EmptyFromSorted(b: Board, k: nat)
    requires k <= 9
    ensures Ascending(EmptyFrom(b, k))
    decreases |b| - k
  {
    if k < 9 {
      var rest := EmptyFrom(b, k + 1);
      EmptyFromSorted(b, k + 1);
      if b[k] == Empty {
        EmptyFromAbove(b, k + 1);
        var r := EmptyFrom(b, k);
        assert r[0] == PosAt(k) && r[1..] == rest;
        forall i | 1 <= i < |r| ensures Idx(r[0]) < Idx(r[i]) {
          assert r[i] == rest[i - 1];
        }
        ConsAscending(r);
      } else {
        assert EmptyFrom(b, k) == rest;
      }
    }
  }

  /** A sequence ascends when its tail ascends and its head ranks below every later cell. */
  lemma ConsAscending(r: seq<Pos>)
    requires |r| > 0 && Ascending(r[1..])
    requires forall i | 1 <= i < |r| :: Idx(r[0]) < Idx(r[i])
    ensures Ascending(r)
  {
    var rest := r[1..];
    forall i, j | 0 <= i < j < |r| ensures Idx(r[i]) < Idx(r[j]) {
      if i > 0 {
        assert r[i] == rest[i - 1] && r[j] == rest[j - 1];
      }
    }
  }

  /** get_empty_positions lists exactly the blank cells. */
  lemma EmptyPositionsMembers(b: Board)
    ensures forall p :: p in EmptyPositions(b) <==> At(b, p) == Empty
  {
    EmptyFromMembers(b, 0);
  }

  /** get_empty_positions lists the blank cells in row-major order, hence without repetition. */
  lemma EmptyPositionsAscending(b: Board)
    ensures Ascending(EmptyPositions(b))
  {
    EmptyFromSorted(b, 0);
  }

  /** get_empty_positions lists no cell exactly when the board is full. */
  lemma EmptyPositionsNoneIffFull(b: Board)
    ensures EmptyPositions(b) == [] <==> IsDraw(b)
  {
    EmptyPositionsMembers(b);
    if !IsDraw(b) {
      var r, c :| 0 <= r < 3 && 0 <= c < 3 && At(b, Pos(r, c)) == Empty;
      assert Pos(r, c) in EmptyPositions(b);
    }
    if EmptyPositions(b) != [] {
      var p := EmptyPositions(b)[0];
      assert At(b, Pos(p.row, p.col)) == Empty;
    }
  }

  /** The number of blank cells. */
  function Empties(b: Board): nat {
    |EmptyPositions(b)|
  }

  lemma {:induction false} EmptyFromLength(b: Board, k: nat)
    requires k <= 9
    ensures |EmptyFrom(b, k)| <= 9 - k
    decreases |b| - k
  {
    if k < 9 {
      EmptyFromLength(b, k + 1);
    }
  }

  /** A board has at most nine blank cells. */
  lemma EmptiesAtMostNine(b: Board)
    ensures Empties(b) <= 9
  {
    EmptyFromLength(b, 0);
  }

  lemma {:induction false} PlaceCountFrom(b: Board, p: Pos, m: Cell, k: nat)
    requires k <= 9
    requires At(b, p) == Empty && m != Empty
    ensures |EmptyFrom(Place(b, p, m), k)| == |EmptyFrom(b, k)| - (if k <= Idx(p) then 1 else 0)
    decreases |b| - k
  {
    if k < 9 {
      PlaceCountFrom(b, p, m, k + 1);
      assert Place(b, p, m)[k] == if k == Idx(p) then m else b[k];
    }
  }

  /** Marking a blank cell leaves one blank cell fewer. */
  lemma PlaceOnEmpty(b: Board, p: Pos, m: Cell)
    requires At(b, p) == Empty && m != Empty
    ensures Empties(Place(b, p, m)) == Empties(b) - 1
  {
    PlaceCountFrom(b, p, m, 0);
  }

  /** Marking a cell twice keeps only the second mark. */
  lemma PlaceTwice(b: Board, p: Pos, m: Cell, m': Cell)
    ensures Place(Place(b, p, m), p, m') == Place(b, p, m')
  {
  }

  /** Marking a cell and then blanking it again gives back a board whose cell was blank. */
  lemma PlaceUndo(b: Board, p: Pos, m: Cell)
    requires At(b, p) == Empty
    ensures Place(Place(b, p, m), p, Empty) == b
  {
  }
}
