/** The text projection of a board: each row becomes the letters of its cells,
    and the rows are joined by newlines (no newline after the last row). */
module Rendering {
  import opened Types
  import opened Grid

  function RowString(r: seq<Cell>): (s: string)
    ensures |s| == |r| && '\n' !in s
  {
    seq(|r|, i requires 0 <= i < |r| => Code(r[i]))
  }

  /** The rows' letters joined by newlines, none after the last row: the text
      holds a newline exactly when there are rows to separate. */
  function Render(b: Board): (text: string)
    ensures '\n' in text <==> 2 <= |b|
  {
    if |b| == 0 then ""
    else if |b| == 1 then RowString(b[0])
    else RowString(b[0]) + "\n" + Render(b[1..])
  }

  /** A board of h >= 1 rows of w cells renders to h lines of w letters and
      h - 1 separating newlines. */
  lemma {:induction false} RenderLength(b: Board, w: int, h: int)
    requires WellFormed(b, w, h) && 1 <= h
    ensures |Render(b)| == h * (w + 1) - 1
  {
    if h > 1 {
      RenderLength(b[1..], w, h - 1);
      assert h * (w + 1) == (w + 1) + (h - 1) * (w + 1);
    }
  }

  /** Character y * (w + 1) + x of the rendering is the letter of the cell in
      row y and column x; character y * (w + 1) + w ends row y with a newline,
      for every row but the last. */
  lemma {:induction false} RenderAt(b: Board, w: int, h: int, y: int, x: int)
    requires WellFormed(b, w, h)
    requires 0 <= y < h && 0 <= x <= w
    requires x == w ==> y < h - 1
    ensures |Render(b)| == h * (w + 1) - 1
    ensures y * (w + 1) + x < |Render(b)|
            && Render(b)[y * (w + 1) + x] == if x < w then Code(b[y][x]) else '\n'
  {
    RenderLength(b, w, h);
    if y == 0 {
      RenderHead(b, x);
    } else {
      var k := (y - 1) * (w + 1) + x;
      RenderAt(b[1..], w, h - 1, y - 1, x);
      RenderTail(b, k);
      assert y * (w + 1) + x == (|b[0]| + 1) + k;
    }
  }

  /** The first row's letters open the rendering, followed by a newline when
      more rows come. */
  lemma RenderHead(b: Board, x: int)
    requires 1 <= |b| && 0 <= x <= |b[0]|
    requires x == |b[0]| ==> 2 <= |b|
    ensures x < |Render(b)|
    ensures Render(b)[x] == if x < |b[0]| then Code(b[0][x]) else '\n'
  {
    if 2 <= |b| {
      assert Render(b) == (RowString(b[0]) + "\n") + Render(b[1..]);
    }
  }

  /** After the first row and its newline, the rendering continues with the
      rendering of the remaining rows. */
  lemma RenderTail(b: Board, j: int)
    requires 2 <= |b| && 0 <= j < |Render(b[1..])|
    ensures |b[0]| + 1 + j < |Render(b)|
    ensures Render(b)[|b[0]| + 1 + j] == Render(b[1..])[j]
  {
    assert Render(b) == (RowString(b[0]) + "\n") + Render(b[1..]);
  }

  /** Two boards of the same shape with the same rendering are the same board:
      the text loses nothing. */
  lemma RenderInjective(a: Board, b: Board, w: int, h: int)
    requires WellFormed(a, w, h) && WellFormed(b, w, h)
    requires Render(a) == Render(b)
    ensures a == b
  {
    forall y | 0 <= y < h
      ensures a[y] == b[y]
    {
      forall x | 0 <= x < w
        ensures a[y][x] == b[y][x]
      {
        RenderAt(a, w, h, y, x);
        RenderAt(b, w, h, y, x);
        CodeInjective(a[y][x], b[y][x]);
      }
    }
  }

  lemma {:induction false} RowStringCount(r: seq<Cell>, c: Cell)
    ensures multiset(RowString(r))[Code(c)] == CountRow(r, c)
  {
    if |r| > 0 {
      assert RowString(r) == [Code(r[0])] + RowString(r[1..]);
      CodeInjective(r[0], c);
      RowStringCount(r[1..], c);
    }
  }

  /** The rendering shows the letter of each cell kind exactly as many times
      as the board holds that kind. */
  lemma {:induction false} RenderCount(b: Board, c: Cell)
    ensures multiset(Render(b))[Code(c)] == Count(b, c)
  {
    if |b| > 0 {
      RowStringCount(b[0], c);
      if |b| == 1 {
        assert b[1..] == [];
      } else {
        RenderCount(b[1..], c);
        assert multiset(Render(b)) == multiset(RowString(b[0])) + multiset("\n") + multiset(Render(b[1..]));
      }
    }
  }

  /** The rendering holds one newline between each two consecutive rows and
      none after the last. */
  lemma {:induction false} RenderNewlines(b: Board)
    ensures multiset(Render(b))['\n'] == if |b| == 0 then 0 else |b| - 1
  {
    if |b| > 1 {
      RenderNewlines(b[1..]);
      assert multiset(Render(b)) == multiset(RowString(b[0])) + multiset("\n") + multiset(Render(b[1..]));
    }
  }
}
