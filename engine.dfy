/** The game engine: one game's board, robot position, carry flag and status,
    the generator that lays out a fresh board, and the four actions. */
module Engine {
  import opened Types
  import opened Grid

  /** How many debris cells the generator places: 30% of the board, rounded
      down. Room always remains for the robot, the princess and the flower. */
  function DebrisCount(w: int, h: int): (n: nat)
    requires 3 <= w && 3 <= h
    ensures n + 3 <= w * h
    ensures 10 * n <= 3 * (w * h) < 10 * (n + 1)
  {
    assert 9 <= 3 * h <= w * h;
    w * h * 3 / 10
  }

  class Game {
    const width: int
    const height: int
    var status: Status
    var carriesFlower: bool
    var board: Board
    var robotPos: Pos

    /** The invariant every action keeps: the board has the game's shape; the
        robot's cell is the one robot cell; there is at most one flower and at
        most one princess; and while the game is in progress the robot carries
        the flower exactly when no cell holds it. */
    ghost predicate Valid()
      reads this
    {
      WellFormed(board, width, height)
      && InBounds(robotPos, width, height)
      && At(board, robotPos) == Robot
      && Count(board, Robot) == 1
      && Count(board, Flower) <= 1
      && Count(board, Princess) <= 1
      && (status == InProgress ==> (carriesFlower <==> Count(board, Flower) == 0))
    }

    /** The layout the generator produces: robot at (0, 0), princess at
        (width - 1, height - 1), one flower elsewhere, exactly
        DebrisCount(width, height) debris cells, and every other cell empty. */
    ghost predicate InitialLayout()
      reads this
    {
      3 <= width && 3 <= height
      && WellFormed(board, width, height)
      && robotPos == Pos(0, 0)
      && At(board, Pos(0, 0)) == Robot
      && At(board, Pos(width - 1, height - 1)) == Princess
      && Count(board, Robot) == 1
      && Count(board, Princess) == 1
      && Count(board, Flower) == 1
      && Count(board, Debris) == DebrisCount(width, height)
      && Count(board, Empty) == width * height - 3 - DebrisCount(width, height)
    }

    /** The action ended the game as lost and changed nothing else. */
    twostate predicate BecameLost()
      reads this
    {
      status == Lost && board == old(board) && robotPos == old(robotPos)
      && carriesFlower == old(carriesFlower)
    }

    constructor (w: int, h: int)
      requires 3 <= w <= 50 && 3 <= h <= 50
      ensures width == w && height == h
      ensures status == InProgress && !carriesFlower
      ensures InitialLayout() && Valid()
    {
      width, height := w, h;
      status := InProgress;
      carriesFlower := false;
      board := Blank(w, h);
      robotPos := Pos(0, 0);
      new;
      GenerateBoard();
    }

    /** Lays out a blank board. The flower cell and each debris cell are the
        random draws of the source, taken here as arbitrary choices among the
        cells a draw is accepted for: any cell but the two corners for the
        flower, any still-empty cell for debris. */
    method GenerateBoard()
      requires 3 <= width && 3 <= height
      requires board == Blank(width, height)
      modifies this
      ensures InitialLayout()
      ensures status == old(status) && carriesFlower == old(carriesFlower)
    {
      var w, h := width, height;
      var corner := Pos(w - 1, h - 1);
      CountBlank(w, h, Robot);
      CountBlank(w, h, Princess);
      CountBlank(w, h, Flower);
      CountBlank(w, h, Debris);
      CountBlank(w, h, Empty);

      robotPos := Pos(0, 0);
      CountWrite(board, Pos(0, 0), Robot);
      board := Write(board, Pos(0, 0), Robot);

      CountWrite(board, corner, Princess);
      board := Write(board, corner, Princess);

      assert InBounds(Pos(1, 0), w, h);
      var flower: Pos :| InBounds(flower, w, h) && flower != Pos(0, 0) && flower != corner;
      CountWrite(board, flower, Flower);
      board := Write(board, flower, Flower);

      ScatterDebris();
    }

    /** The debris half of the generator: places DebrisCount(width, height)
        debris cells, each on a cell that is still empty. */
    method ScatterDebris()
      requires 3 <= width && 3 <= height
      requires WellFormed(board, width, height) && robotPos == Pos(0, 0)
      requires At(board, Pos(0, 0)) == Robot && At(board, Pos(width - 1, height - 1)) == Princess
      requires Count(board, Robot) == 1 && Count(board, Princess) == 1
      requires Count(board, Flower) == 1 && Count(board, Debris) == 0
      requires Count(board, Empty) == width * height - 3
      modifies this`board
      ensures InitialLayout()
      ensures forall p :: OnBoard(old(board), p) && At(old(board), p) != Empty
                          ==> OnBoard(board, p) && At(board, p) == At(old(board), p)
      ensures forall p :: OnBoard(board, p) && At(board, p) != Debris
                          ==> OnBoard(old(board), p) && At(board, p) == At(old(board), p)
    {
      var w, h := width, height;
      var corner := Pos(w - 1, h - 1);
      ghost var cells := w * h;
      ghost var b0 := board;
      var numDebris := DebrisCount(w, h);
      var placed := 0;
      while placed < numDebris
        invariant 0 <= placed <= numDebris
        invariant WellFormed(board, w, h)
        invariant At(board, Pos(0, 0)) == Robot && At(board, corner) == Princess
        invariant Count(board, Robot) == 1 && Count(board, Princess) == 1
        invariant Count(board, Flower) == 1
        invariant Count(board, Debris) == placed
        invariant Count(board, Empty) == cells - 3 - placed
        invariant forall p :: OnBoard(b0, p) && At(b0, p) != Empty
                             ==> OnBoard(board, p) && At(board, p) == At(b0, p)
        invariant forall p :: OnBoard(board, p) && At(board, p) != Debris
                             ==> OnBoard(b0, p) && At(board, p) == At(b0, p)
        decreases numDebris - placed
      {
        CountPositive(board, Empty);
        var p: Pos :| OnBoard(board, p) && At(board, p) == Empty;
        CountWrite(board, p, Debris);
        board := Write(board, p, Debris);
        placed := placed + 1;
      }
    }

    /** Empties the robot's old cell and puts the robot on its new one. */
    method UpdateRobotOnBoard(oldPos: Pos, newPos: Pos)
      requires WellFormed(board, width, height)
      requires InBounds(oldPos, width, height) && InBounds(newPos, width, height)
      modifies this`board
      ensures board == Write(Write(old(board), oldPos, Empty), newPos, Robot)
    {
      board := Write(board, oldPos, Empty);
      board := Write(board, newPos, Robot);
    }

    /** Moves the robot one step. Onto an empty cell or the princess the move
        succeeds (and the princess is overwritten); off the board or onto any
        other cell the game is lost. A finished game ignores the call. */
    method MoveRobot(d: Direction) returns (ok: bool)
      requires Valid()
      modifies this
      ensures Valid()
      ensures old(status) != InProgress ==> !ok && unchanged(this)
      ensures old(status) == InProgress ==>
        var t := Target(old(robotPos), d);
        if !InBounds(t, width, height) then !ok && BecameLost()
        else if At(old(board), t) == Empty || At(old(board), t) == Princess then
          ok && robotPos == t
          && board == Write(Write(old(board), old(robotPos), Empty), t, Robot)
          && status == InProgress && carriesFlower == old(carriesFlower)
        else !ok && BecameLost()
      ensures Count(board, Princess) <= old(Count(board, Princess))
      ensures ok && At(old(board), robotPos) == Princess ==> Count(board, Princess) == 0
    {
      if status != InProgress {
        return false;
      }
      var t := Target(robotPos, d);
      if !InBounds(t, width, height) {
        status := Lost;
        return false;
      }
      var cell := At(board, t);
      if cell == Empty || cell == Princess {
        var oldPos := robotPos;
        robotPos := t;
        CountWrite(board, oldPos, Empty);
        CountWrite(Write(board, oldPos, Empty), t, Robot);
        UpdateRobotOnBoard(oldPos, robotPos);
        ok := true;
      } else {
        status := Lost;
        ok := false;
      }
    }

    /** Clears a debris cell next to the robot. Off the board or onto anything
        but debris the game is lost. A finished game, or a robot carrying the
        flower, ignores the call. */
    method CleanDebris(d: Direction) returns (ok: bool)
      requires Valid()
      modifies this
      ensures Valid()
      ensures old(status) != InProgress || old(carriesFlower) ==> !ok && unchanged(this)
      ensures old(status) == InProgress && !old(carriesFlower) ==>
        var t := Target(old(robotPos), d);
        if !InBounds(t, width, height) then !ok && BecameLost()
        else if At(old(board), t) == Debris then
          ok && board == Write(old(board), t, Empty)
          && status == InProgress && robotPos == old(robotPos) && !carriesFlower
        else !ok && BecameLost()
      ensures Count(board, Princess) <= old(Count(board, Princess))
    {
      if status != InProgress || carriesFlower {
        return false;
      }
      var t := Target(robotPos, d);
      if !InBounds(t, width, height) {
        status := Lost;
        return false;
      }
      if At(board, t) == Debris {
        CountWrite(board, t, Empty);
        board := Write(board, t, Empty);
        ok := true;
      } else {
        status := Lost;
        ok := false;
      }
    }

    /** Picks up the flower next to the robot. Off the board or onto anything
        but the flower the game is lost. A finished game, or a robot already
        carrying the flower, ignores the call. */
    method PickUpFlower(d: Direction) returns (ok: bool)
      requires Valid()
      modifies this
      ensures Valid()
      ensures old(status) != InProgress || old(carriesFlower) ==> !ok && unchanged(this)
      ensures old(status) == InProgress && !old(carriesFlower) ==>
        var t := Target(old(robotPos), d);
        if !InBounds(t, width, height) then !ok && BecameLost()
        else if At(old(board), t) == Flower then
          ok && board == Write(old(board), t, Empty) && carriesFlower
          && status == InProgress && robotPos == old(robotPos)
          && Count(board, Flower) == 0
        else !ok && BecameLost()
      ensures Count(board, Princess) <= old(Count(board, Princess))
    {
      if status != InProgress || carriesFlower {
        return false;
      }
      var t := Target(robotPos, d);
      if !InBounds(t, width, height) {
        status := Lost;
        return false;
      }
      if At(board, t) == Flower {
        CountWrite(board, t, Empty);
        board := Write(board, t, Empty);
        carriesFlower := true;
        ok := true;
      } else {
        status := Lost;
        ok := false;
      }
    }

    /** Drops the carried flower next to the robot. Onto the princess the game
        is won and the board is left as it is; onto an empty cell the flower
        is put down there; off the board or onto anything else the game is
        lost. A finished game, or a robot not carrying the flower, ignores the
        call. */
    method DropFlower(d: Direction) returns (ok: bool)
      requires Valid()
      modifies this
      ensures Valid()
      ensures old(status) != InProgress || !old(carriesFlower) ==> !ok && unchanged(this)
      ensures old(status) == InProgress && old(carriesFlower) ==>
        var t := Target(old(robotPos), d);
        if !InBounds(t, width, height) then !ok && BecameLost()
        else if At(old(board), t) == Princess then
          ok && status == Won && !carriesFlower
          && board == old(board) && robotPos == old(robotPos)
        else if At(old(board), t) == Empty then
          ok && board == Write(old(board), t, Flower) && !carriesFlower
          && status == InProgress && robotPos == old(robotPos)
          && Count(board, Flower) == 1
        else !ok && BecameLost()
      ensures Count(board, Princess) <= old(Count(board, Princess))
      ensures status == Won && old(status) != Won ==> old(Count(board, Princess)) == 1
    {
      if status != InProgress || !carriesFlower {
        return false;
      }
      var t := Target(robotPos, d);
      if !InBounds(t, width, height) {
        status := Lost;
        return false;
      }
      var cell := At(board, t);
      if cell == Princess {
        CountPositive(board, Princess);
        carriesFlower := false;
        status := Won;
        ok := true;
      } else if cell == Empty {
        CountWrite(board, t, Flower);
        board := Write(board, t, Flower);
        carriesFlower := false;
        ok := true;
      } else {
        status := Lost;
        ok := false;
      }
    }
  }
}
