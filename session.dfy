/** The live game the driving loop mutates in place: a 3x3 array of marks
    and the player to move. Its moves are proved against the value-level
    board of module Board, through Snapshot. */
module Session {
  import Board
  import Evaluator

  /** What the input provider returns on a human turn: a coordinate, or a
      request to quit. */
  datatype MoveRequest = Quit | At(pos: Board.Pos)

  class Game {
    const cells: array2<Board.Mark>
    var turn: Board.Player

    ghost predicate Valid()
    {
      cells.Length0 == 3 && cells.Length1 == 3
    }

    /** The current board as a value. */
    function Snapshot(): (g: Board.Game)
      reads this, cells
      requires Valid()
      ensures g.turn == turn
      ensures forall q: Board.Pos :: Board.Cell(g, q) == cells[q.0, q.1]
    {
      Board.Game([[cells[0, 0], cells[0, 1], cells[0, 2]],
                  [cells[1, 0], cells[1, 1], cells[1, 2]],
                  [cells[2, 0], cells[2, 1], cells[2, 2]]], turn)
    }

    /** An empty board with X to move. */
    constructor ()
      ensures Valid() && fresh(cells)
      ensures Snapshot() == Board.NewGame()
    {
      cells := new Board.Mark[3, 3]((i, j) => Board.None);
      turn := Board.Player.X;
      new;
      Board.GameExt(Snapshot(), Board.NewGame());
    }

    /** Whether the cell at `q` is empty. */
    method CanMove(q: Board.Pos) returns (free: bool)
      requires Valid()
      ensures free <==> cells[q.0, q.1] == Board.None
      ensures free <==> q in Board.EmptyCells(Snapshot())
    {
      Board.EmptyCellsAreMoves(Snapshot());
      free := cells[q.0, q.1].None?;
    }

    /** Writes the mover's mark at `q`, whatever was there, and passes the turn. */
    method ForceMove(q: Board.Pos)
      requires Valid()
      modifies this, cells
      ensures Valid()
      ensures Snapshot() == Board.Place(old(Snapshot()), q)
    {
      cells[q.0, q.1] := Board.Some(turn);
      turn := Board.Opposite(turn);
      Board.GameExt(Snapshot(), Board.Place(old(Snapshot()), q));
    }

    /** Moves at `q` only when that cell is empty, and says whether it did.
        A refused move leaves the marks and the turn as they were; an
        accepted one keeps X and O alternating. */
    method TryMove(q: Board.Pos) returns (moved: bool)
      requires Valid()
      modifies this, cells
      ensures Valid()
      ensures moved <==> Board.CanMove(old(Snapshot()), q)
      ensures Snapshot() == if moved then Board.Place(old(Snapshot()), q) else old(Snapshot())
      ensures Board.Alternating(old(Snapshot())) ==> Board.Alternating(Snapshot())
    {
      moved := CanMove(q);
      if moved {
        ghost var before := Snapshot();
        ForceMove(q);
        if Board.Alternating(before) {
          Board.PlacePreservesAlternating(before, q);
        }
      }
    }

    /** One turn of the game loop. An automated side plays optimal_move
        for itself (which needs an empty cell); a human side plays the
        coordinate in `request`, and a quit request ends the game. */
    method Step(xAi: bool, oAi: bool, m: Evaluator.AiMode, request: MoveRequest) returns (continuing: bool)
      requires Valid()
      requires (if turn == Board.Player.X then xAi else oAi) ==> Board.EmptyCount(Snapshot()) > 0
      modifies this, cells
      ensures Valid()
      ensures continuing <==> (if old(turn) == Board.Player.X then xAi else oAi) || request.At?
      ensures (if old(turn) == Board.Player.X then xAi else oAi) ==>
        var best := Evaluator.OptimalMove(old(Snapshot()), old(turn), m).0;
        Board.CanMove(old(Snapshot()), best) && Snapshot() == Board.Place(old(Snapshot()), best)
      ensures !(if old(turn) == Board.Player.X then xAi else oAi) && request.At? ==>
        Snapshot() == if Board.CanMove(old(Snapshot()), request.pos)
                      then Board.Place(old(Snapshot()), request.pos) else old(Snapshot())
      ensures !(if old(turn) == Board.Player.X then xAi else oAi) && request.Quit? ==>
        Snapshot() == old(Snapshot())
    {
      var ai := match turn case X => xAi case O => oAi;
      var space: Board.Pos;
      if ai {
        space := Evaluator.OptimalMove(Snapshot(), turn, m).0;
      } else {
        match request
        case Quit =>
          return false;
        case At(q) =>
          space := q;
      }
      var moved := TryMove(space);
      continuing := true;
    }
  }
}
