/** Piece kinds, their pattern and symbol tables, and `Piece` from chess.py. */
module Pieces {
  import opened Outcomes
  import opened Threats

  /** Piece-kind codes. The knight's code equals the empty pattern's code. */
  const KING: int := 0
  const QUEEN: int := 1
  const ROOK: int := 2
  const KNIGHT: int := 3
  const BISHOP: int := 4
  const PAWN: int := 5
  /** The empty-square kind is keyed by the pattern code of `NoneP`. */
  const NONE: int := Code(NoneP)

  /** The pattern table, entries in source order. A later entry of a map
      display replaces an earlier one with the same key, as in a Python dict
      literal, so the `NONE` entry replaces the `KNIGHT` entry. */
  const AllPatterns: map<int, seq<ThreatPattern>> := map[
    KING := [ThreatPattern(Straight, Finite(1)), ThreatPattern(Diagonal, Finite(1))],
    QUEEN := [ThreatPattern(Straight, Infinite), ThreatPattern(Diagonal, Infinite)],
    ROOK := [ThreatPattern(Straight, Infinite)],
    KNIGHT := [ThreatPattern(L, Unset)],
    BISHOP := [ThreatPattern(Diagonal, Infinite)],
    PAWN := [ThreatPattern(Diagonal, Finite(1))],
    NONE := [ThreatPattern(NoneP, Unset)]
  ]

  /** The display-symbol table, with the same collision on key 3. */
  const AllRepresentations: map<int, string> := map[
    KING := "K",
    QUEEN := "Q",
    ROOK := "R",
    KNIGHT := "K",
    BISHOP := "B",
    PAWN := "P",
    NONE := "-"
  ]

  /** A placed piece. `id` stands for the Python object's identity: two
      pieces on the same square with different ids are different objects. */
  datatype Piece = Piece(id: nat, x: int, y: int, kind: int)

  /** Every constructed piece has a kind the pattern table knows. */
  predicate Valid(p: Piece)
  {
    p.kind in AllPatterns
  }

  /** `Piece(x, y, type)`: looking the kind up in the pattern table raises
      `KeyError` for any integer code other than 0 to 5. */
  function NewPiece(id: nat, x: int, y: int, kind: int): (r: Result<Piece>)
    ensures r.Ok? <==> 0 <= kind <= 5
    ensures r.Raise? ==> r.error == KeyError
    ensures r.Ok? ==> Valid(r.value) && r.value == Piece(id, x, y, kind)
  {
    if kind in AllPatterns then Ok(Piece(id, x, y, kind)) else Raise(KeyError)
  }

  /** `Queen(x, y)`. */
  function NewQueen(id: nat, x: int, y: int): (q: Piece)
    ensures Valid(q) && q.kind == QUEEN
    ensures NewPiece(id, x, y, QUEEN) == Ok(q)
  {
    Piece(id, x, y, QUEEN)
  }

  function Patterns(p: Piece): seq<ThreatPattern>
    requires Valid(p)
  {
    AllPatterns[p.kind]
  }

  /** `Piece.is_threatening`: the piece's patterns tried in order. */
  function PieceIsThreatening(p: Piece, x: int, y: int): Result<bool>
    requires Valid(p)
  {
    FirstThreat(Patterns(p), p.x, p.y, x, y)
  }

  /** `str(piece)`. */
  function Symbol(p: Piece): (s: string)
    requires Valid(p)
    ensures |s| == 1
    ensures s == "-" <==> p.kind == NONE
  {
    AllRepresentations[p.kind]
  }

  /** What each kind threatens, stated from board geometry alone. Kings
      reach a whole row and column, and bishops and pawns raise on their own
      column. */
  function KindThreat(kind: int, sx: int, sy: int, x: int, y: int): Result<bool>
  {
    var dx, dy := Abs(x - sx), Abs(y - sy);
    if kind == QUEEN then Ok(x == sx || y == sy || dx == dy)
    else if kind == KING then Ok(x == sx || y == sy || (dx == 1 && dy == 1))
    else if kind == ROOK then Ok(x == sx || y == sy)
    else if kind == BISHOP then (if x == sx then Raise(ZeroDivisionError) else Ok(dx == dy))
    else if kind == PAWN then (if x == sx then Raise(ZeroDivisionError) else Ok(dx == 1 && dy == 1))
    else Ok(false)
  }

  /** Trying a piece's patterns in order agrees with the geometric
      description of its kind, for every piece and every square. */
  lemma PieceThreatMatchesKind(p: Piece, x: int, y: int)
    requires Valid(p)
    ensures PieceIsThreatening(p, x, y) == KindThreat(p.kind, p.x, p.y, x, y)
  {
  }

  /** A queen never raises: the straight pattern answers first on the own
      column, so the diagonal pattern never divides by zero. */
  lemma QueenThreat(q: Piece, x: int, y: int)
    requires Valid(q) && q.kind == QUEEN
    ensures PieceIsThreatening(q, x, y) == Ok(x == q.x || y == q.y || Abs(x - q.x) == Abs(y - q.y))
    ensures PieceIsThreatening(q, q.x, q.y) == Ok(true)
  {
    PieceThreatMatchesKind(q, x, y);
    PieceThreatMatchesKind(q, q.x, q.y);
  }

  /** The knight's entries are replaced by the empty entries: a knight
      threatens nothing and shows as an empty square. */
  lemma KnightIsInert(k: Piece, x: int, y: int)
    requires Valid(k) && k.kind == KNIGHT
    ensures Patterns(k) == [ThreatPattern(NoneP, Unset)]
    ensures Symbol(k) == "-"
    ensures PieceIsThreatening(k, x, y) == Ok(false)
  {
  }
}
