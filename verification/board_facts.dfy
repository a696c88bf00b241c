/** Properties of `Board`: the grid/collection invariant that `add_piece`
    and `remove_piece` keep, undoing an addition, object identity, and the
    printed layout. */
module BoardFacts {
  import opened Outcomes
  import opened Threats
  import opened Pieces
  import opened Boards

  /** A fresh board shows an empty collection on an all-empty grid. */
  lemma NewBoardConsistent(n: int)
    ensures Consistent(NewBoard(n))
  {
  }

  /** Adding a new piece on a square no piece stands on keeps the grid in
      step with the collection. */
  lemma AddPieceKeepsConsistent(b: Board, p: Piece)
    requires Consistent(b) && Valid(p) && OnBoard(b, p.x, p.y)
    requires p.id !in b.pieces && Vacant(b, p.x, p.y)
    ensures Consistent(AddPiece(b, p))
  {
    var r := AddPiece(b, p);
    forall i, j | 0 <= i < |r.grid| && 0 <= j < |r.grid| && Vacant(r, i, j)
      ensures CellText(r.grid[i][j]) == "-"
    {
      assert (p.x, p.y) != (i, j) by { assert r.pieces[p.id] == p; }
      assert Vacant(b, i, j) by {
        forall id | id in b.pieces ensures (b.pieces[id].x, b.pieces[id].y) != (i, j) {
          assert r.pieces[id] == b.pieces[id];
        }
      }
    }
  }

  /** Removing a piece that was added keeps the grid in step with the
      collection. */
  lemma RemovePieceKeepsConsistent(b: Board, p: Piece)
    requires Consistent(b) && OnBoard(b, p.x, p.y)
    requires p.id in b.pieces && b.pieces[p.id] == p
    ensures RemovePiece(b, p).Ok? && Consistent(RemovePiece(b, p).value)
  {
    var r := RemovePiece(b, p).value;
    forall i, j | 0 <= i < |r.grid| && 0 <= j < |r.grid| && Vacant(r, i, j)
      ensures CellText(r.grid[i][j]) == "-"
    {
      if (i, j) != (p.x, p.y) {
        assert Vacant(b, i, j) by {
          forall id | id in b.pieces ensures (b.pieces[id].x, b.pieces[id].y) != (i, j) {
            if id != p.id {
              assert id in r.pieces;
            }
          }
        }
      }
    }
  }

  /** `remove_piece` finds pieces by identity: a different object on the
      same square was never added, so removing it raises `KeyError`. */
  lemma RemoveIsByIdentity(b: Board, p: Piece, q: Piece)
    requires Wf(b) && Valid(p) && OnBoard(b, p.x, p.y)
    requires q.x == p.x && q.y == p.y && q.kind == p.kind && q.id != p.id && q.id !in b.pieces
    ensures RemovePiece(AddPiece(b, p), q) == Raise(KeyError)
  {
  }

  /** `add_piece` does not check occupancy: a second piece on the same
      square is filed beside the first and overwrites its cell, and removing
      the second leaves the first filed under a cell that prints empty. */
  lemma AddDoesNotCheckOccupancy(b: Board, p: Piece, q: Piece)
    requires Wf(b) && Valid(p) && Valid(q) && OnBoard(b, p.x, p.y)
    requires q.x == p.x && q.y == p.y && q.id != p.id && p.kind != NONE
    ensures var both := AddPiece(AddPiece(b, p), q);
            && p.id in both.pieces && q.id in both.pieces
            && CellText(both.grid[p.x][p.y]) == Symbol(q)
            && RemovePiece(both, q).Ok?
            && p.id in RemovePiece(both, q).value.pieces
            && CellText(RemovePiece(both, q).value.grid[p.x][p.y]) == "-"
            && !Consistent(RemovePiece(both, q).value)
  {
    var r := RemovePiece(AddPiece(AddPiece(b, p), q), q).value;
    assert r.pieces[p.id] == p;
    assert CellText(r.grid[p.x][p.y]) != Symbol(p);
  }

  /** Rows whose cells print alike print alike. */
  lemma {:induction false} RowTextDependsOnTexts(a: seq<Cell>, c: seq<Cell>)
    requires |a| == |c| && forall j :: 0 <= j < |a| ==> CellText(a[j]) == CellText(c[j])
    ensures RowText(a) == RowText(c)
    decreases |a|
  {
    if |a| > 0 {
      RowTextDependsOnTexts(a[1..], c[1..]);
    }
  }

  /** Grids whose cells print alike print alike. */
  lemma {:induction false} RowsTextDependsOnTexts(a: seq<seq<Cell>>, c: seq<seq<Cell>>)
    requires |a| == |c|
    requires forall i :: 0 <= i < |a| ==> |a[i]| == |c[i]|
    requires forall i, j :: 0 <= i < |a| && 0 <= j < |a[i]| ==> CellText(a[i][j]) == CellText(c[i][j])
    ensures RowsText(a) == RowsText(c)
    decreases |a|
  {
    if |a| > 0 {
      RowTextDependsOnTexts(a[0], c[0]);
      RowsTextDependsOnTexts(a[1..], c[1..]);
    }
  }

  /** Adding a new piece to a cell that prints empty and removing it again
      gives back the same collection and the same printed board. The cell
      itself may differ: a placeholder comes back as the text "-". */
  lemma AddThenRemoveRestores(b: Board, p: Piece)
    requires Wf(b) && Valid(p) && OnBoard(b, p.x, p.y)
    requires p.id !in b.pieces && CellText(b.grid[p.x][p.y]) == "-"
    ensures RemovePiece(AddPiece(b, p), p).Ok?
    ensures var r := RemovePiece(AddPiece(b, p), p).value;
            r.pieces == b.pieces && r.size == b.size && Render(r) == Render(b)
  {
    var r := RemovePiece(AddPiece(b, p), p).value;
    assert r.pieces == b.pieces;
    RowsTextDependsOnTexts(r.grid, b.grid);
  }

  /** A knight prints as an empty square: adding one to a cell that prints
      empty leaves the printed board as it was. */
  lemma KnightLooksEmpty(b: Board, k: Piece)
    requires Wf(b) && Valid(k) && k.kind == KNIGHT && OnBoard(b, k.x, k.y)
    requires CellText(b.grid[k.x][k.y]) == "-"
    ensures Render(AddPiece(b, k)) == Render(b)
  {
    RowsTextDependsOnTexts(AddPiece(b, k).grid, b.grid);
  }

  /** Every cell prints as a single character. */
  ghost predicate SingleCharCells(rows: seq<seq<Cell>>)
  {
    forall i, j :: 0 <= i < |rows| && 0 <= j < |rows[i]| ==> |CellText(rows[i][j])| == 1
  }

  /** A row of single-character cells prints as symbol, space, symbol, ... */
  lemma {:induction false} RowLayout(row: seq<Cell>)
    requires forall j :: 0 <= j < |row| ==> |CellText(row[j])| == 1
    ensures |RowText(row)| == 2 * |row|
    ensures forall j :: 0 <= j < |row| ==>
              RowText(row)[2 * j] == CellText(row[j])[0] && RowText(row)[2 * j + 1] == ' '
    decreases |row|
  {
    if |row| > 0 {
      RowLayout(row[1..]);
      var t := RowText(row);
      assert t == CellText(row[0]) + " " + RowText(row[1..]);
      forall j | 1 <= j < |row|
        ensures t[2 * j] == CellText(row[j])[0] && t[2 * j + 1] == ' '
      {
        assert t[2 * j] == RowText(row[1..])[2 * (j - 1)];
        assert t[2 * j + 1] == RowText(row[1..])[2 * (j - 1) + 1];
      }
    }
  }

  /** Where line i of a printout of lines `2 * w + 1` characters long starts. */
  function LineStart(w: nat, i: nat): nat
  {
    if i == 0 then 0 else LineStart(w, i - 1) + 2 * w + 1
  }

  lemma {:induction false} LineStartIsProduct(w: nat, i: nat)
    ensures LineStart(w, i) == i * (2 * w + 1)
  {
    if i > 0 {
      LineStartIsProduct(w, i - 1);
    }
  }

  /** Every line ends before the next one starts. */
  lemma {:induction false} LineStartGrows(w: nat, i: nat, k: nat)
    requires i < k
    ensures LineStart(w, i) + 2 * w + 1 <= LineStart(w, k)
    decreases k
  {
    if i < k - 1 {
      LineStartGrows(w, i, k - 1);
    }
  }

  /** Rows of `w` single-character cells print as lines of `2 * w + 1`
      characters, each ended by a newline, with cell j of line i at offset
      `2 * j` into the line. */
  lemma {:induction false} RowsLayout(rows: seq<seq<Cell>>, w: nat)
    requires forall i :: 0 <= i < |rows| ==> |rows[i]| == w
    requires SingleCharCells(rows)
    ensures |RowsText(rows)| == LineStart(w, |rows|)
    ensures forall i :: 0 <= i < |rows| ==> LineStart(w, i) + 2 * w < |RowsText(rows)|
    ensures forall i, j :: 0 <= i < |rows| && 0 <= j < w ==>
              RowsText(rows)[LineStart(w, i) + 2 * j] == CellText(rows[i][j])[0]
    ensures forall i :: 0 <= i < |rows| ==> RowsText(rows)[LineStart(w, i) + 2 * w] == '\n'
    decreases |rows|
  {
    if |rows| > 0 {
      RowLayout(rows[0]);
      RowsLayout(rows[1..], w);
      var t := RowsText(rows);
      var rest := RowsText(rows[1..]);
      forall i | 0 <= i < |rows| ensures LineStart(w, i) + 2 * w < |t| {
        LineStartGrows(w, i, |rows|);
      }
      assert t == RowText(rows[0]) + "\n" + rest;
      forall i, j | 1 <= i < |rows| && 0 <= j < w
        ensures t[LineStart(w, i) + 2 * j] == CellText(rows[i][j])[0]
      {
        assert rows[1..][i - 1] == rows[i];
        assert t[LineStart(w, i) + 2 * j] == rest[LineStart(w, i - 1) + 2 * j];
      }
      forall i | 1 <= i < |rows|
        ensures t[LineStart(w, i) + 2 * w] == '\n'
      {
        assert t[LineStart(w, i) + 2 * w] == rest[LineStart(w, i - 1) + 2 * w];
      }
    }
  }

  /** `str(board)` is a faithful picture of the grid when every cell prints
      as one character: a newline, then n lines of `2n + 1` characters,
      cell (i, j) at offset `1 + i * (2n + 1) + 2j`, each line ended by a
      newline. */
  lemma RenderLayout(b: Board)
    requires Wf(b) && SingleCharCells(b.grid)
    ensures var n := |b.grid|;
            && |Render(b)| == 1 + n * (2 * n + 1)
            && Render(b)[0] == '\n'
            && (forall i :: 0 <= i < n ==> 1 + LineStart(n, i) + 2 * n < |Render(b)|)
            && (forall i, j :: 0 <= i < n && 0 <= j < n ==>
                  Render(b)[1 + LineStart(n, i) + 2 * j] == CellText(b.grid[i][j])[0])
            && (forall i :: 0 <= i < n ==> Render(b)[1 + LineStart(n, i) + 2 * n] == '\n')
            && (forall i :: 0 <= i <= n ==> LineStart(n, i) == i * (2 * n + 1))
  {
    var n := |b.grid|;
    RowsLayout(b.grid, n);
    LineStartIsProduct(n, n);
    forall i | 0 <= i <= n ensures LineStart(n, i) == i * (2 * n + 1) {
      LineStartIsProduct(n, i);
    }
  }
}
