# N-Queens board model: threat geometry, board record, association table

A Dafny model of the two self-contained pieces of logic in the NQueensSolver
repository:

- `chess.py`: the threat test of a single movement pattern (straight,
  diagonal, knight L, none), the piece-kind tables that give each kind its
  patterns and display symbol, `Piece` (construction, `is_threatening`,
  `str`), and `Board` (an n-by-n grid of display cells plus the pieces placed
  on it, changed by `add_piece` and `remove_piece`, printed by `str`).
- `association_table.py`: `AssociationTable`, a dict that on construction
  files every value as a key of its own key and whose `__setitem__` refuses to
  overwrite a key bound to a truthy value.

Files: `outcomes.dfy` (a returned value or a raised Python exception),
`threats.dfy`, `pieces.dfy`, `board.dfy`, `board_facts.dfy` (lemmas about the
board), `association_table.dfy`.

The model reproduces the code's behaviour as written, including its quirks:

- The straight test compares the distance along the coordinate that is
  equal, which is always zero, so its range never restricts it, and a piece's
  own square counts as threatened (`Threats.IsThreatening`).
- The diagonal test divides by `x - starting_x` and raises
  `ZeroDivisionError` on the piece's own column; a bishop or pawn therefore
  raises there, while a queen or king never does because its straight pattern
  answers first (`Pieces.PieceThreatMatchesKind`, `Pieces.QueenThreat`).
- `KNIGHT` and `NONE` are both 3, so in both table literals the empty entry
  replaces the knight entry. A Dafny map display also keeps the later of two
  entries with the same key, so the collision comes from the tables as
  written (`Pieces.KnightIsInert`).
- `Piece` defines `__hash__` but not `__eq__`, so the board's piece
  collection is keyed by object identity. The model gives each piece an `id`
  standing for that identity; two pieces on one square with different ids
  are different entries (`BoardFacts.RemoveIsByIdentity`).
- `add_piece` does not look at what the cell held (`BoardFacts.AddDoesNotCheckOccupancy`).
- A fresh board's cells hold the empty placeholder piece, and `remove_piece`
  writes the string `"-"`. Both print alike, so add-then-remove restores the
  printed board, not the cell values (`BoardFacts.AddThenRemoveRestores`).
- `Board(n)` with a negative `n` builds no rows but keeps `size == n`, and
  `len()` then raises `ValueError` (`Boards.NewBoard`, `Boards.Len`).
- The association table tests truthiness, not membership: a key bound to
  `None`, `0` or `""` is free. Nothing enforces the doc comment's rule that an
  item is never associated with itself (`AssociationTables.SelfAssociationAccepted`).

## Model

| member | source | states |
|---|---|---|
| Threats.IsThreatening | chess.py:21-29 | with any range other than `None`, the straight pattern threatens exactly the squares on the piece's row or column, its own square included, so the range never restricts it; a straight pattern without range raises `TypeError` exactly there; the diagonal pattern raises `ZeroDivisionError` on the piece's own column and elsewhere threatens exactly the squares with equal row and column offsets within range, and without range raises `TypeError` exactly on those squares; the L pattern threatens exactly offsets {1, 2}; the empty pattern threatens nothing; no other exception arises |
| Threats.FirstThreat | chess.py:58-62 | the answer of a pattern list is false when every pattern answers false, and otherwise the answer (threat or exception) of the first pattern that does not answer false |
| Pieces.NewPiece | chess.py:52-56 | constructing a piece succeeds exactly for kind codes 0 to 5 and raises `KeyError` for any other kind |
| Pieces.NewQueen | chess.py:72-74 | a queen is the piece built with the queen kind, and that construction cannot fail |
| Pieces.Symbol | chess.py:64-65 | every valid piece prints as one character, which is `-` exactly for kind code 3 (the knight and the empty kind alike) |
| Pieces.PieceThreatMatchesKind | chess.py:31-62 | for every piece and square, trying the kind's patterns in order equals a geometric description per kind: queen row, column or diagonal; king row, column or adjacent diagonal; rook row or column; bishop and pawn raise on their own column, else diagonal (any distance, adjacent); knight and empty nothing |
| Pieces.QueenThreat | chess.py:21-33 | a queen never raises, threatens exactly the squares on its row, column or diagonals, and threatens its own square |
| Pieces.KnightIsInert | chess.py:31-49 | the knight's pattern list is the empty pattern alone and its symbol is `-`, so it threatens no square |
| Boards.NewBoard | chess.py:77-81 | a fresh board has no pieces, every cell prints as `-`, and `len` gives `n` for `n >= 0` and raises `ValueError` for negative `n` |
| Boards.AllPieces | chess.py:83-84 | the result is the board's own piece collection, which maps each piece's identity to that piece |
| Boards.Len | chess.py:108-109 | raises `ValueError` exactly when the size is negative (and then the board has no rows); otherwise the length is the size, which is the number of rows and of cells in each row |
| Boards.AddPiece | chess.py:86-88 | the piece joins the collection under its identity, its cell prints its symbol, whatever the cell held before, and no other cell or piece changes |
| Boards.RemovePiece | chess.py:90-92 | raises `KeyError` exactly when that piece object is not in the collection, wherever the piece stands; otherwise it leaves the collection, its cell prints `-`, and no other cell changes |
| BoardFacts.NewBoardConsistent | chess.py:77-81 | a fresh board's grid agrees with its (empty) collection |
| BoardFacts.AddPieceKeepsConsistent | chess.py:86-88 | adding a new piece on a square no piece stands on keeps the grid showing exactly the collection: distinct squares, each piece's cell showing its symbol, every other cell empty |
| BoardFacts.RemovePieceKeepsConsistent | chess.py:90-92 | removing a piece that was added succeeds and keeps the grid showing exactly the collection |
| BoardFacts.RemoveIsByIdentity | chess.py:86-92 | after adding a piece, removing a different object of the same kind on the same square raises `KeyError` |
| BoardFacts.AddDoesNotCheckOccupancy | chess.py:86-92 | a second piece added on an occupied square is filed beside the first and overwrites its cell; removing it leaves the first piece filed under a cell that prints `-`, so the grid no longer shows the collection |
| BoardFacts.AddThenRemoveRestores | chess.py:86-92 | adding a new piece to a cell that prints `-` and removing it gives back the same collection, size and printed board |
| BoardFacts.KnightLooksEmpty | chess.py:41-49 | adding a knight to a cell that prints `-` leaves the printed board unchanged |
| BoardFacts.RenderLayout | chess.py:94-100 | when every cell prints as one character, the printout is a newline and then n lines of `2n + 1` characters, each ended by a newline, with cell (i, j) at offset `1 + i(2n + 1) + 2j`, so the grid can be read back from it |
| AssociationTables.Get | association_table.py:11-12 | an absent key gives `None` instead of raising, and a present key gives the value bound to it |
| AssociationTables.Index | association_table.py:14-15 | indexing agrees with `get` and gives `None` for an absent key |
| AssociationTables.SetItem | association_table.py:17-21 | raises `ValueError` exactly when the key is bound to a truthy value; otherwise afterwards the key gives the new value, the keys grow by that key alone, and every other key gives what it gave before |
| AssociationTables.SelfAssociationAccepted | association_table.py:17-21 | a free key accepts itself as its value: self-association is not refused |
| AssociationTables.Construct | association_table.py:6-9 | construction raises only `ValueError`; it raises when an entry with a truthy key or a truthy value has as its value a key bound to a truthy value, or when two truthy keys share any value; on success no entry with a truthy value is overwritten and the value of every truthy key maps back to that key; input whose values are distinct and are not keys is always accepted, and the result is the input plus every entry reversed |

## Left out

- `Board.__getitem__` and `Board.__setitem__` (raw row access) are not modelled: they bypass the piece collection.
- Coordinates outside `0 <= x, y < n`: `add_piece`, and `remove_piece` of a piece that was added, require them in range; Python's negative-index wrap-around and `IndexError` (raised after the collection has already changed) are not modelled.
- Floating point: the diagonal test's float division is modelled as an integer comparison of absolute offsets, exact for coordinates below 2^53; `math.inf` is the `Infinite` distance.
- Python object plumbing: the `deepcopy` of the placeholder piece and the `__hash__` arithmetic; cells are modelled by what they print and pieces by an identity number that the caller keeps distinct for distinct objects.
- Piece kinds are integers: the default argument `type=""` and non-integer kinds (a boolean or float that compares equal to a code) are not modelled; any kind outside the table raises `KeyError` as an integer outside 0 to 5 does.
- `Piece` objects are never mutated in the code; a piece moved after being added is not modelled.
- `AssociationTable` aliases the caller's dict and leaves it partly changed when construction raises; the model returns a fresh table and discards the partial one. Values are `None`, integers and strings; booleans and floats (which compare equal to integers) are not modelled.
- Console output (`print`) and the solver in `solvers.py`, whose loop never runs (the piece collection starts empty) and which calls `add_piece` with the wrong arity.
