/** `Board` from chess.py: an n-by-n grid of display cells plus the
    collection of placed pieces, keyed by object identity. */
module Boards {
  import opened Outcomes
  import opened Threats
  import opened Pieces

  /** A grid cell: the copied empty placeholder piece a fresh board holds, or
      the symbol string that `add_piece` and `remove_piece` write. */
  datatype Cell = Placeholder | Text(s: string)

  /** `pieces` maps each placed piece's identity to the piece itself. */
  datatype Board = Board(grid: seq<seq<Cell>>, size: int, pieces: map<nat, Piece>)

  /** How a cell prints: the placeholder prints as the empty symbol. */
  function CellText(c: Cell): string
  {
    match c
    case Placeholder => AllRepresentations[NONE]
    case Text(s) => s
  }

  function Side(n: int): nat
  {
    if n < 0 then 0 else n
  }

  /** The shape every board keeps: `Side(size)` rows of `Side(size)` cells,
      and each piece filed under its own identity. */
  ghost predicate Wf(b: Board)
  {
    && |b.grid| == Side(b.size)
    && (forall i :: 0 <= i < |b.grid| ==> |b.grid[i]| == |b.grid|)
    && (forall id :: id in b.pieces ==> b.pieces[id].id == id && Valid(b.pieces[id]))
  }

  predicate OnBoard(b: Board, x: int, y: int)
  {
    0 <= x < b.size && 0 <= y < b.size
  }

  /** `Board(n)`: a negative `n` gives no rows but keeps `size == n`. */
  function NewBoard(n: int): (b: Board)
    ensures Wf(b)
    ensures b.pieces == map[]
    ensures n >= 0 ==> Len(b) == Ok(n)
    ensures n < 0 ==> Len(b) == Raise(ValueError)
    ensures forall i, j :: 0 <= i < |b.grid| && 0 <= j < |b.grid[i]| ==> CellText(b.grid[i][j]) == "-"
  {
    var side := Side(n);
    Board(seq(side, _ => seq(side, _ => Placeholder)), n, map[])
  }

  /** `all_pieces()`. */
  function AllPieces(b: Board): (ps: map<nat, Piece>)
    requires Wf(b)
    ensures ps == b.pieces
    ensures forall id :: id in ps ==> ps[id].id == id
  {
    b.pieces
  }

  /** `len(board)`: Python rejects a negative `__len__` with `ValueError`. */
  function Len(b: Board): (r: Result<nat>)
    ensures r.Raise? <==> b.size < 0
    ensures r.Ok? ==> r.value == b.size
    ensures Wf(b) && r.Ok? ==> r.value == |b.grid| && forall i :: 0 <= i < |b.grid| ==> |b.grid[i]| == r.value
    ensures r.Raise? ==> r.error == ValueError && (Wf(b) ==> |b.grid| == 0)
  {
    if b.size < 0 then Raise(ValueError) else Ok(b.size)
  }

  /** `add_piece(piece)`: files the piece and writes its symbol into its cell,
      without looking at what the cell held. */
  function AddPiece(b: Board, p: Piece): (r: Board)
    requires Wf(b) && Valid(p) && OnBoard(b, p.x, p.y)
    ensures Wf(r) && r.size == b.size
    ensures r.pieces.Keys == b.pieces.Keys + {p.id} && r.pieces[p.id] == p
    ensures forall id :: id in b.pieces && id != p.id ==> r.pieces[id] == b.pieces[id]
    ensures CellText(r.grid[p.x][p.y]) == Symbol(p)
    ensures forall i, j :: 0 <= i < |b.grid| && 0 <= j < |b.grid| && (i, j) != (p.x, p.y) ==>
              r.grid[i][j] == b.grid[i][j]
  {
    Board(b.grid[p.x := b.grid[p.x][p.y := Text(Symbol(p))]], b.size, b.pieces[p.id := p])
  }

  /** `remove_piece(piece)`: `KeyError` unless this very object was added;
      otherwise the piece leaves and its cell shows the empty symbol again. */
  function RemovePiece(b: Board, p: Piece): (r: Result<Board>)
    requires Wf(b) && (p.id in b.pieces ==> OnBoard(b, p.x, p.y))
    ensures r.Raise? <==> p.id !in b.pieces
    ensures r.Raise? ==> r.error == KeyError
    ensures r.Ok? ==> Wf(r.value) && r.value.size == b.size && r.value.pieces == b.pieces - {p.id}
    ensures r.Ok? ==> CellText(r.value.grid[p.x][p.y]) == "-"
    ensures r.Ok? ==> forall i, j :: 0 <= i < |b.grid| && 0 <= j < |b.grid| && (i, j) != (p.x, p.y) ==>
                        r.value.grid[i][j] == b.grid[i][j]
  {
    if p.id !in b.pieces then Raise(KeyError)
    else Ok(Board(b.grid[p.x := b.grid[p.x][p.y := Text(CellText(Placeholder))]], b.size, b.pieces - {p.id}))
  }

  /** One printed row: each cell's text followed by a space. */
  function RowText(row: seq<Cell>): string
  {
    if |row| == 0 then "" else CellText(row[0]) + " " + RowText(row[1..])
  }

  /** The printed rows, each ended by a newline. */
  function RowsText(rows: seq<seq<Cell>>): string
  {
    if |rows| == 0 then "" else RowText(rows[0]) + "\n" + RowsText(rows[1..])
  }

  /** `str(board)`: a leading newline, then the rows. */
  function Render(b: Board): string
  {
    "\n" + RowsText(b.grid)
  }

  /** No piece of the collection stands on (i, j). */
  ghost predicate Vacant(b: Board, i: int, j: int)
  {
    forall id :: id in b.pieces ==> (b.pieces[id].x, b.pieces[id].y) != (i, j)
  }

  /** The grid shows exactly the piece collection: pieces stand on distinct
      squares inside the board, each piece's cell prints its symbol, and
      every other cell prints as empty. */
  ghost predicate Consistent(b: Board)
  {
    && Wf(b)
    && (forall id :: id in b.pieces ==> OnBoard(b, b.pieces[id].x, b.pieces[id].y))
    && (forall id1, id2 :: id1 in b.pieces && id2 in b.pieces && id1 != id2 ==>
          (b.pieces[id1].x, b.pieces[id1].y) != (b.pieces[id2].x, b.pieces[id2].y))
    && (forall id :: id in b.pieces ==> CellText(b.grid[b.pieces[id].x][b.pieces[id].y]) == Symbol(b.pieces[id]))
    && (forall i, j :: 0 <= i < |b.grid| && 0 <= j < |b.grid| && Vacant(b, i, j) ==> CellText(b.grid[i][j]) == "-")
  }
}
