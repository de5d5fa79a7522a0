/** Positions, directions and the board itself: a grid of cells stored row by
    row, so that the cell at column x of row y is b[y][x]. */
module Grid {
  import opened Types

  /** An (x, y) position; x counts columns, y counts rows from the top. */
  datatype Pos = Pos(x: int, y: int)

  /** The unit step (dx, dy) of each direction: up and down change the row,
      left and right the column, and each moves by exactly one. */
  function Offset(d: Direction): (delta: (int, int))
    ensures -1 <= delta.0 <= 1 && -1 <= delta.1 <= 1
    ensures (delta.0 == 0) != (delta.1 == 0)
    ensures d == Up || d == Down <==> delta.0 == 0
    ensures d == Down || d == Right <==> delta.0 + delta.1 == 1
  {
    match d
    case Up => (0, -1)
    case Down => (0, 1)
    case Left => (-1, 0)
    case Right => (1, 0)
  }

  /** The two positions are side by side or one above the other. */
  predicate Adjacent(p: Pos, q: Pos)
  {
    (p.x == q.x && (q.y == p.y - 1 || q.y == p.y + 1))
    || (p.y == q.y && (q.x == p.x - 1 || q.x == p.x + 1))
  }

  /** The cell an action aims at: the robot's position moved one step. */
  function Target(p: Pos, d: Direction): (t: Pos)
    ensures Adjacent(p, t)
  {
    var (dx, dy) := Offset(d);
    Pos(p.x + dx, p.y + dy)
  }

  /** Every neighbour of a position is the target of exactly one direction. */
  lemma TargetIsBijective(p: Pos, q: Pos)
    requires Adjacent(p, q)
    ensures exists d :: Target(p, d) == q
    ensures forall d, e :: Target(p, d) == q && Target(p, e) == q ==> d == e
  {
    if q.y == p.y - 1 {
      assert Target(p, Up) == q;
    } else if q.y == p.y + 1 {
      assert Target(p, Down) == q;
    } else if q.x == p.x - 1 {
      assert Target(p, Left) == q;
    } else {
      assert Target(p, Right) == q;
    }
  }

  /** The position lies on a board of the given width and height. */
  predicate InBounds(p: Pos, w: int, h: int)
  {
    0 <= p.x < w && 0 <= p.y < h
  }

  type Board = seq<seq<Cell>>

  /** The board has h rows of w cells each. */
  predicate WellFormed(b: Board, w: int, h: int)
  {
    |b| == h && forall y :: 0 <= y < h ==> |b[y]| == w
  }

  /** The position names a cell of the board. */
  predicate OnBoard(b: Board, p: Pos)
  {
    0 <= p.y < |b| && 0 <= p.x < |b[p.y]|
  }

  /** On a board of w by h, the bounds check accepts exactly the positions
      that name a cell, so every access it guards is within the board. */
  lemma InBoundsIsOnBoard(b: Board, p: Pos, w: int, h: int)
    requires WellFormed(b, w, h)
    ensures InBounds(p, w, h) <==> OnBoard(b, p)
  {
  }

  function At(b: Board, p: Pos): Cell
    requires OnBoard(b, p)
  {
    b[p.y][p.x]
  }

  /** The board after writing v into the cell at p; every other cell, and the
      shape of the board, stay as they were. */
  function Write(b: Board, p: Pos, v: Cell): (r: Board)
    requires OnBoard(b, p)
    ensures |r| == |b| && forall y :: 0 <= y < |b| ==> |r[y]| == |b[y]|
    ensures At(r, p) == v
    ensures forall q :: OnBoard(b, q) && q != p ==> At(r, q) == At(b, q)
  {
    b[p.y := b[p.y][p.x := v]]
  }

  function BlankRow(w: nat): seq<Cell>
  {
    seq(w, _ => Empty)
  }

  /** A board of h rows of w cells, all of them empty. */
  function Blank(w: nat, h: nat): (b: Board)
    ensures WellFormed(b, w, h)
    ensures forall p :: InBounds(p, w, h) ==> OnBoard(b, p) && At(b, p) == Empty
  {
    seq(h, _ => BlankRow(w))
  }

  /** Number of cells holding c in one row. */
  function CountRow(r: seq<Cell>, c: Cell): nat
  {
    if |r| == 0 then 0 else (if r[0] == c then 1 else 0) + CountRow(r[1..], c)
  }

  /** Number of cells holding c on the board. */
  function Count(b: Board, c: Cell): nat
  {
    if |b| == 0 then 0 else CountRow(b[0], c) + Count(b[1..], c)
  }

  lemma {:induction false} CountRowUpdate(r: seq<Cell>, x: nat, v: Cell, c: Cell)
    requires x < |r|
    ensures CountRow(r[x := v], c)
            == CountRow(r, c) - (if r[x] == c then 1 else 0) + (if v == c then 1 else 0)
  {
    if x == 0 {
      assert r[x := v][1..] == r[1..];
    } else {
      assert r[x := v][1..] == r[1..][x - 1 := v];
      CountRowUpdate(r[1..], x - 1, v, c);
    }
  }

  lemma {:induction false} CountRowsUpdate(b: Board, y: nat, row: seq<Cell>, c: Cell)
    requires y < |b|
    ensures Count(b[y := row], c) == Count(b, c) - CountRow(b[y], c) + CountRow(row, c)
  {
    if y == 0 {
      assert b[y := row][1..] == b[1..];
    } else {
      assert b[y := row][1..] == b[1..][y - 1 := row];
      CountRowsUpdate(b[1..], y - 1, row, c);
    }
  }

  /** Writing one cell moves exactly one unit of count, from the kind the cell
      held to the kind written. */
  lemma CountWrite(b: Board, p: Pos, v: Cell)
    requires OnBoard(b, p)
    ensures forall c :: Count(Write(b, p, v), c)
                        == Count(b, c) - (if At(b, p) == c then 1 else 0) + (if v == c then 1 else 0)
  {
    forall c
      ensures Count(Write(b, p, v), c)
              == Count(b, c) - (if At(b, p) == c then 1 else 0) + (if v == c then 1 else 0)
    {
      CountRowUpdate(b[p.y], p.x, v, c);
      CountRowsUpdate(b, p.y, b[p.y][p.x := v], c);
    }
  }

  lemma {:induction false} CountRowPositive(r: seq<Cell>, c: Cell)
    ensures CountRow(r, c) > 0 <==> exists x :: 0 <= x < |r| && r[x] == c
  {
    if |r| > 0 {
      CountRowPositive(r[1..], c);
      if r[0] != c {
        if exists x :: 0 <= x < |r| && r[x] == c {
          var x :| 0 <= x < |r| && r[x] == c;
          assert r[1..][x - 1] == c;
        }
        if exists x :: 0 <= x < |r[1..]| && r[1..][x] == c {
          var x :| 0 <= x < |r[1..]| && r[1..][x] == c;
          assert r[x + 1] == c;
        }
      }
    }
  }

  /** A kind is counted on the board exactly when some cell holds it; read
      negatively, a count of zero means no cell holds it. */
  lemma {:induction false} CountPositive(b: Board, c: Cell)
    ensures Count(b, c) > 0 <==> exists p :: OnBoard(b, p) && At(b, p) == c
  {
    if |b| > 0 {
      CountPositive(b[1..], c);
      CountRowPositive(b[0], c);
      if exists p :: OnBoard(b, p) && At(b, p) == c {
        var p :| OnBoard(b, p) && At(b, p) == c;
        if p.y == 0 {
          assert b[0][p.x] == c;
        } else {
          assert OnBoard(b[1..], Pos(p.x, p.y - 1)) && At(b[1..], Pos(p.x, p.y - 1)) == c;
        }
      }
      if CountRow(b[0], c) > 0 {
        var x :| 0 <= x < |b[0]| && b[0][x] == c;
        assert OnBoard(b, Pos(x, 0)) && At(b, Pos(x, 0)) == c;
      }
      if Count(b[1..], c) > 0 {
        var p :| OnBoard(b[1..], p) && At(b[1..], p) == c;
        assert OnBoard(b, Pos(p.x, p.y + 1)) && At(b, Pos(p.x, p.y + 1)) == c;
      }
    }
  }

  /** Two different cells holding c make the count of c at least two. */
  lemma CountAtLeastTwo(b: Board, c: Cell, p: Pos, q: Pos)
    requires OnBoard(b, p) && At(b, p) == c
    requires OnBoard(b, q) && At(b, q) == c
    ensures p != q ==> Count(b, c) >= 2
  {
    if p != q {
      var other := if c == Empty then Robot else Empty;
      CountWrite(b, p, other);
      var b' := Write(b, p, other);
      assert OnBoard(b', q) && At(b', q) == c;
      CountPositive(b', c);
    }
  }

  /** A kind counted at most once is held by at most one cell. */
  lemma OnlyOne(b: Board, c: Cell, p: Pos, q: Pos)
    requires Count(b, c) <= 1
    requires OnBoard(b, p) && At(b, p) == c
    requires OnBoard(b, q) && At(b, q) == c
    ensures p == q
  {
    CountAtLeastTwo(b, c, p, q);
  }

  lemma {:induction false} CountBlankRow(w: nat, c: Cell)
    ensures CountRow(BlankRow(w), c) == if c == Empty then w else 0
  {
    if w > 0 {
      assert BlankRow(w)[1..] == BlankRow(w - 1);
      CountBlankRow(w - 1, c);
    }
  }

  /** A blank board of w by h holds w * h empty cells and nothing else. */
  lemma {:induction false} CountBlank(w: nat, h: nat, c: Cell)
    ensures Count(Blank(w, h), c) == if c == Empty then w * h else 0
  {
    if h > 0 {
      assert Blank(w, h)[1..] == Blank(w, h - 1);
      CountBlankRow(w, c);
      CountBlank(w, h - 1, c);
      assert w * h == w + w * (h - 1);
    }
  }
}
