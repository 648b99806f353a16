/** The tic-tac-toe board as a value: marks, the player to move, the
    line scan that decides the game, and the one-cell update the evaluator
    applies to its private copies. */
module Board {

  datatype Player = X | O

  /** The result of a finished game. */
  datatype GameResult = X | O | Tie

  datatype Option<T> = None | Some(value: T)

  /** A cell holds a player's mark or nothing. */
  type Mark = Option<Player>

  /** A (row, column) coordinate. Every coordinate the program indexes with
      is in range, so out-of-range indexing (a panic) is not modelled. */
  type Pos = p: (int, int) | 0 <= p.0 < 3 && 0 <= p.1 < 3 witness (0, 0)

  /** Three rows of three cells. */
  type Grid = g: seq<seq<Mark>> | |g| == 3 && forall i :: 0 <= i < 3 ==> |g[i]| == 3
    witness [[None, None, None], [None, None, None], [None, None, None]]

  /** The grid and the player whose turn it is. */
  datatype Game = Game(grid: Grid, turn: Player)

  function Opposite(p: Player): (r: Player)
    ensures r != p
  {
    match p
    case X => Player.O
    case O => Player.X
  }

  /** The result that says `p` won. */
  function FromPlayer(p: Player): (r: GameResult)
    ensures r != GameResult.Tie
    ensures r == GameResult.X <==> p == Player.X
  {
    match p
    case X => GameResult.X
    case O => GameResult.O
  }

  /** Place of a coordinate in row-major order. */
  function Index(q: Pos): nat
  {
    3 * q.0 + q.1
  }

  /** Every coordinate, row by row, left to right. */
  const AllPositions: seq<Pos> :=
    [(0, 0), (0, 1), (0, 2), (1, 0), (1, 1), (1, 2), (2, 0), (2, 1), (2, 2)]

  lemma AllPositionsRowMajor()
    ensures |AllPositions| == 9
    ensures forall k :: 0 <= k < 9 ==> Index(AllPositions[k]) == k
    ensures forall q: Pos :: q in AllPositions
  {
    forall q: Pos ensures q in AllPositions {
      assert AllPositions[Index(q)] == q;
    }
  }

  /** Strictly increasing in row-major order (so also free of repeats). */
  ghost predicate Ascending(ps: seq<Pos>)
  {
    forall i, j :: 0 <= i < j < |ps| ==> Index(ps[i]) < Index(ps[j])
  }

  function Cell(g: Game, q: Pos): Mark
  {
    g.grid[q.0][q.1]
  }

  /** The empty board with X to move. */
  function NewGame(): (g: Game)
    ensures g.turn == Player.X
    ensures forall q: Pos :: Cell(g, q) == None
  {
    Game([[None, None, None], [None, None, None], [None, None, None]], Player.X)
  }

  /** A move at `q` is possible when that cell is empty. */
  predicate CanMove(g: Game, q: Pos): (r: bool)
    ensures r <==> q in EmptyCells(g)
  {
    AllPositionsRowMajor();
    Cell(g, q).None?
  }

  /** Unconditional write of the mover's mark at `q`; the turn passes. */
  function Place(g: Game, q: Pos): (r: Game)
    ensures Cell(r, q) == Some(g.turn)
    ensures forall q': Pos :: q' != q ==> Cell(r, q') == Cell(g, q')
    ensures r.turn == Opposite(g.turn)
  {
    Game(g.grid[q.0 := g.grid[q.0][q.1 := Some(g.turn)]], Opposite(g.turn))
  }

  /** Two games with the same cells and the same mover are the same game. */
  lemma GameExt(a: Game, b: Game)
    requires a.turn == b.turn
    requires forall q: Pos :: Cell(a, q) == Cell(b, q)
    ensures a == b
  {
    forall i | 0 <= i < 3 ensures a.grid[i] == b.grid[i] {
      forall j | 0 <= j < 3 ensures a.grid[i][j] == b.grid[i][j] {
        var q: Pos := (i, j);
        assert Cell(a, q) == Cell(b, q);
      }
    }
  }

  /** Three equal marks. */
  predicate Three(a: Mark, b: Mark, c: Mark)
  {
    a.Some? && a == b && a == c
  }

  /** Some cell is still empty. */
  predicate HasEmptyCell(g: Game)
  {
    exists i, j | 0 <= i < 3 && 0 <= j < 3 :: g.grid[i][j].None?
  }

  /** Rows, then columns, then the two diagonals; the first full line wins,
      else a full board is a tie, else the game is undecided (None). */
  function Winner(g: Game): (r: Option<GameResult>)
    ensures r == None ==> HasEmptyCell(g)
    ensures r == Some(GameResult.Tie) ==> !HasEmptyCell(g)
  {
    var c := g.grid;
    if Three(c[0][0], c[0][1], c[0][2]) then Some(FromPlayer(c[0][0].value))
    else if Three(c[1][0], c[1][1], c[1][2]) then Some(FromPlayer(c[1][0].value))
    else if Three(c[2][0], c[2][1], c[2][2]) then Some(FromPlayer(c[2][0].value))
    else if Three(c[0][0], c[1][0], c[2][0]) then Some(FromPlayer(c[0][0].value))
    else if Three(c[0][1], c[1][1], c[2][1]) then Some(FromPlayer(c[0][1].value))
    else if Three(c[0][2], c[1][2], c[2][2]) then Some(FromPlayer(c[0][2].value))
    else if Three(c[0][0], c[1][1], c[2][2]) then Some(FromPlayer(c[0][0].value))
    else if Three(c[0][2], c[1][1], c[2][0]) then Some(FromPlayer(c[0][2].value))
    else if HasEmptyCell(g) then None
    else Some(GameResult.Tie)
  }

  /** The eight winning lines, in the order the scan tries them. */
  const Lines: seq<(Pos, Pos, Pos)> := [
    ((0, 0), (0, 1), (0, 2)), ((1, 0), (1, 1), (1, 2)), ((2, 0), (2, 1), (2, 2)),
    ((0, 0), (1, 0), (2, 0)), ((0, 1), (1, 1), (2, 1)), ((0, 2), (1, 2), (2, 2)),
    ((0, 0), (1, 1), (2, 2)), ((0, 2), (1, 1), (2, 0))]

  /** Line `k` holds three equal marks. */
  ghost predicate Complete(g: Game, k: int)
    requires 0 <= k < 8
  {
    Three(Cell(g, Lines[k].0), Cell(g, Lines[k].1), Cell(g, Lines[k].2))
  }

  ghost predicate NoLine(g: Game)
  {
    forall k :: 0 <= k < 8 ==> !Complete(g, k)
  }

  /** Index of the first complete line at or after `from`, or 8 if none. */
  ghost function FirstComplete(g: Game, from: nat): (k: nat)
    requires from <= 8
    ensures from <= k <= 8
    ensures k < 8 ==> Complete(g, k)
    ensures forall j :: from <= j < k ==> !Complete(g, j)
    decreases 8 - from
  {
    if from == 8 then 8
    else if Complete(g, from) then from
    else FirstComplete(g, from + 1)
  }

  /** The scan, restated line by line: what Winner returns given the first
      complete line, or given that no line is complete. */
  lemma WinnerByLines(g: Game)
    ensures forall k :: 0 <= k < 8 && Complete(g, k) && (forall j :: 0 <= j < k ==> !Complete(g, j)) ==>
      Winner(g) == Some(FromPlayer(Cell(g, Lines[k].0).value))
    ensures NoLine(g) ==> Winner(g) == if HasEmptyCell(g) then None else Some(GameResult.Tie)
  {
    forall k | 0 <= k < 8 && Complete(g, k) && (forall j :: 0 <= j < k ==> !Complete(g, j))
      ensures Winner(g) == Some(FromPlayer(Cell(g, Lines[k].0).value))
    {
      if k == 0 {
      } else if k == 1 {
        assert !Complete(g, 0);
      } else if k == 2 {
        assert !Complete(g, 0) && !Complete(g, 1);
      } else if k == 3 {
        assert !Complete(g, 0) && !Complete(g, 1) && !Complete(g, 2);
      } else if k == 4 {
        assert !Complete(g, 0) && !Complete(g, 1) && !Complete(g, 2) && !Complete(g, 3);
      } else if k == 5 {
        assert !Complete(g, 0) && !Complete(g, 1) && !Complete(g, 2) && !Complete(g, 3);
        assert !Complete(g, 4);
      } else if k == 6 {
        assert !Complete(g, 0) && !Complete(g, 1) && !Complete(g, 2) && !Complete(g, 3);
        assert !Complete(g, 4) && !Complete(g, 5);
      } else {
        assert !Complete(g, 0) && !Complete(g, 1) && !Complete(g, 2) && !Complete(g, 3);
        assert !Complete(g, 4) && !Complete(g, 5) && !Complete(g, 6);
      }
    }
    if NoLine(g) {
      assert !Complete(g, 0) && !Complete(g, 1) && !Complete(g, 2) && !Complete(g, 3);
      assert !Complete(g, 4) && !Complete(g, 5) && !Complete(g, 6) && !Complete(g, 7);
    }
  }

  /** Winner names player `p` exactly when some line holds three marks of
      `p` and no earlier line (in scan order) is complete. */
  lemma WinnerIsPlayer(g: Game, p: Player)
    ensures Winner(g) == Some(FromPlayer(p)) <==>
      exists k :: 0 <= k < 8 && Complete(g, k) && Cell(g, Lines[k].0) == Some(p) &&
        forall j :: 0 <= j < k ==> !Complete(g, j)
  {
    WinnerByLines(g);
    var k := FirstComplete(g, 0);
    if k < 8 {
      var w := Cell(g, Lines[k].0).value;
      assert Winner(g) == Some(FromPlayer(w));
      if Winner(g) == Some(FromPlayer(p)) {
        assert w == p;
      }
    }
  }

  /** Undecided exactly when no line is complete and a cell is empty. */
  lemma WinnerIsNone(g: Game)
    ensures Winner(g) == None <==> NoLine(g) && HasEmptyCell(g)
  {
    WinnerByLines(g);
    var k := FirstComplete(g, 0);
  }

  /** A tie exactly when no line is complete and all nine cells are filled. */
  lemma WinnerIsTie(g: Game)
    ensures Winner(g) == Some(GameResult.Tie) <==> NoLine(g) && !HasEmptyCell(g)
  {
    WinnerByLines(g);
    var k := FirstComplete(g, 0);
  }

  /** The cells among `ps` (in their order) whose content is `c`. */
  function CellsWith(g: Game, c: Mark, ps: seq<Pos>): (r: seq<Pos>)
    ensures |r| <= |ps|
    ensures forall q :: q in r <==> q in ps && Cell(g, q) == c
  {
    if ps == [] then []
    else if Cell(g, ps[0]) == c then [ps[0]] + CellsWith(g, c, ps[1..])
    else CellsWith(g, c, ps[1..])
  }

  /** Selecting cells keeps them in order. */
  lemma {:induction false} CellsWithAscending(g: Game, c: Mark, ps: seq<Pos>)
    requires Ascending(ps)
    ensures Ascending(CellsWith(g, c, ps))
  {
    if ps != [] {
      assert Ascending(ps[1..]);
      CellsWithAscending(g, c, ps[1..]);
      var rest := CellsWith(g, c, ps[1..]);
      forall q | q in rest ensures Index(ps[0]) < Index(q) {
        var m :| 0 <= m < |ps[1..]| && ps[1..][m] == q;
        assert ps[m + 1] == q;
      }
    }
  }

  /** Selecting a content every cell of `ps` has keeps all of `ps`, one
      that none has keeps nothing. */
  lemma {:induction false} CellsWithUniform(g: Game, c: Mark, ps: seq<Pos>)
    ensures (forall q :: q in ps ==> Cell(g, q) == c) ==> CellsWith(g, c, ps) == ps
    ensures (forall q :: q in ps ==> Cell(g, q) != c) ==> CellsWith(g, c, ps) == []
  {
    if ps != [] {
      CellsWithUniform(g, c, ps[1..]);
    }
  }

  /** The empty cells in row-major order. */
  function EmptyCells(g: Game): (r: seq<Pos>)
    ensures forall q: Pos {:trigger q in r} :: q in r <==> Cell(g, q) == None
    ensures Ascending(r)
  {
    AllPositionsRowMajor();
    CellsWithAscending(g, None, AllPositions);
    CellsWith(g, None, AllPositions)
  }

  function EmptyCount(g: Game): nat
  {
    |EmptyCells(g)|
  }

  /** Number of `p`'s marks on the board. */
  function Marks(g: Game, p: Player): nat
  {
    |CellsWith(g, Some(p), AllPositions)|
  }

  /** The empty cells are exactly the coordinates where a move is possible,
      listed in row-major order. */
  lemma EmptyCellsAreMoves(g: Game)
    ensures forall q: Pos :: q in EmptyCells(g) <==> CanMove(g, q)
    ensures Ascending(EmptyCells(g))
  {
    AllPositionsRowMajor();
    CellsWithAscending(g, None, AllPositions);
  }

  /** The scan's fallback test agrees with the count of empty cells. */
  lemma HasEmptyCellIff(g: Game)
    ensures HasEmptyCell(g) <==> EmptyCount(g) > 0
  {
    EmptyCellsAreMoves(g);
    if HasEmptyCell(g) {
      var i, j :| 0 <= i < 3 && 0 <= j < 3 && g.grid[i][j].None?;
      var q: Pos := (i, j);
      assert q in EmptyCells(g);
    }
    if EmptyCount(g) > 0 {
      var q := EmptyCells(g)[0];
      assert q in EmptyCells(g);
      assert 0 <= q.0 < 3 && 0 <= q.1 < 3 && g.grid[q.0][q.1].None?;
    }
  }

  /** A full board is always decided; an undecided board has a move. */
  lemma FullBoardIsDecided(g: Game)
    ensures EmptyCount(g) == 0 ==> Winner(g).Some?
    ensures Winner(g) == None ==> EmptyCount(g) > 0
  {
    HasEmptyCellIff(g);
    WinnerIsNone(g);
  }

  /** Placing at `q` moves `q` from the cells holding its old content to the
      cells holding the mover's mark; nothing else changes class. */
  lemma {:induction false} PlaceCount(g: Game, q: Pos, c: Mark, ps: seq<Pos>)
    requires Ascending(ps)
    ensures |CellsWith(Place(g, q), c, ps)| ==
      |CellsWith(g, c, ps)| - (if q in ps && Cell(g, q) == c then 1 else 0)
                             + (if q in ps && Some(g.turn) == c then 1 else 0)
  {
    if ps != [] {
      assert Ascending(ps[1..]);
      PlaceCount(g, q, c, ps[1..]);
      if q == ps[0] {
        assert q !in ps[1..];
      }
      assert q in ps <==> q == ps[0] || q in ps[1..];
    }
  }

  /** A move on an empty cell fills exactly one cell with the mover's mark. */
  lemma PlaceFillsEmptyCell(g: Game, q: Pos)
    requires CanMove(g, q)
    ensures EmptyCount(Place(g, q)) == EmptyCount(g) - 1
    ensures Marks(Place(g, q), g.turn) == Marks(g, g.turn) + 1
    ensures Marks(Place(g, q), Opposite(g.turn)) == Marks(g, Opposite(g.turn))
  {
    AllPositionsRowMajor();
    EmptyCellsAreMoves(g);
    PlaceCount(g, q, None, AllPositions);
    PlaceCount(g, q, Some(g.turn), AllPositions);
    PlaceCount(g, q, Some(Opposite(g.turn)), AllPositions);
  }

  /** Strict alternation from an empty board with X first: X has as many
      marks as O, plus one when it is O's turn. */
  ghost predicate Alternating(g: Game)
  {
    Marks(g, Player.X) == Marks(g, Player.O) + (if g.turn == Player.O then 1 else 0)
  }

  lemma NewGameAlternates()
    ensures Alternating(NewGame())
    ensures EmptyCount(NewGame()) == 9
    ensures Winner(NewGame()) == None
  {
    var g := NewGame();
    CellsWithUniform(g, None, AllPositions);
    CellsWithUniform(g, Some(Player.X), AllPositions);
    CellsWithUniform(g, Some(Player.O), AllPositions);
    HasEmptyCellIff(g);
    WinnerIsNone(g);
  }

  lemma PlacePreservesAlternating(g: Game, q: Pos)
    requires Alternating(g) && CanMove(g, q)
    ensures Alternating(Place(g, q))
  {
    PlaceFillsEmptyCell(g, q);
  }

  /** The board with every mark and the turn handed to the other player. */
  function SwapMark(c: Mark): Mark
  {
    match c
    case None => None
    case Some(p) => Some(Opposite(p))
  }

  function Swap(g: Game): (r: Game)
    ensures r.turn == Opposite(g.turn)
    ensures forall q: Pos :: Cell(r, q) == SwapMark(Cell(g, q))
  {
    Game(seq(3, i requires 0 <= i < 3 => seq(3, j requires 0 <= j < 3 => SwapMark(g.grid[i][j]))),
         Opposite(g.turn))
  }

  /** The result with the two players' wins exchanged. */
  function SwapResult(w: GameResult): GameResult
  {
    match w
    case X => GameResult.O
    case O => GameResult.X
    case Tie => GameResult.Tie
  }

  lemma OppositeInvolutive(p: Player)
    ensures Opposite(Opposite(p)) == p
    ensures FromPlayer(Opposite(p)) == SwapResult(FromPlayer(p))
  {
  }

  lemma ThreeSwap(a: Mark, b: Mark, c: Mark)
    ensures Three(SwapMark(a), SwapMark(b), SwapMark(c)) == Three(a, b, c)
    ensures a.Some? ==> FromPlayer(SwapMark(a).value) == SwapResult(FromPlayer(a.value))
  {
  }

  /** Swapping the players swaps the winner and keeps a tie or an open game. */
  lemma WinnerSwap(g: Game)
    ensures Winner(Swap(g)) == match Winner(g) case None => None case Some(w) => Some(SwapResult(w))
  {
    var s := Swap(g);
    forall i, j | 0 <= i < 3 && 0 <= j < 3
      ensures s.grid[i][j] == SwapMark(g.grid[i][j])
    {
      var q: Pos := (i, j);
      assert Cell(s, q) == SwapMark(Cell(g, q));
    }
    var c, d := g.grid, s.grid;
    ThreeSwap(c[0][0], c[0][1], c[0][2]);
    ThreeSwap(c[1][0], c[1][1], c[1][2]);
    ThreeSwap(c[2][0], c[2][1], c[2][2]);
    ThreeSwap(c[0][0], c[1][0], c[2][0]);
    ThreeSwap(c[0][1], c[1][1], c[2][1]);
    ThreeSwap(c[0][2], c[1][2], c[2][2]);
    ThreeSwap(c[0][0], c[1][1], c[2][2]);
    ThreeSwap(c[0][2], c[1][1], c[2][0]);
    assert HasEmptyCell(s) == HasEmptyCell(g) by {
      if HasEmptyCell(g) {
        var i, j :| 0 <= i < 3 && 0 <= j < 3 && g.grid[i][j].None?;
        assert s.grid[i][j].None?;
      }
      if HasEmptyCell(s) {
        var i, j :| 0 <= i < 3 && 0 <= j < 3 && s.grid[i][j].None?;
        assert g.grid[i][j].None?;
      }
    }
  }

  /** Moving on the swapped board is swapping the moved board. */
  lemma PlaceSwap(g: Game, q: Pos)
    ensures Place(Swap(g), q) == Swap(Place(g, q))
  {
    GameExt(Place(Swap(g), q), Swap(Place(g, q)));
  }

  /** Swapping the players leaves the same cells empty. */
  lemma {:induction false} SwapKeepsEmpty(g: Game, ps: seq<Pos>)
    ensures CellsWith(Swap(g), None, ps) == CellsWith(g, None, ps)
  {
    if ps != [] {
      SwapKeepsEmpty(g, ps[1..]);
    }
  }
}
