/** Threat geometry of chess.py: whether one movement rule reaches a square. */
module Threats {
  import opened Outcomes

  /** The four pattern kinds; `NoneP` is the pattern that never threatens. */
  datatype PatternKind = Straight | Diagonal | L | NoneP

  /** The integer code chess.py gives each pattern kind. */
  function Code(k: PatternKind): int
  {
    match k
    case Straight => 0
    case Diagonal => 1
    case L => 2
    case NoneP => 3
  }

  /** The maximum range of a pattern: a whole number, `inf`, or `None` (the
      knight and empty patterns are built without a range). */
  datatype Distance = Finite(n: nat) | Infinite | Unset

  datatype ThreatPattern = ThreatPattern(kind: PatternKind, distance: Distance)

  function Abs(n: int): nat
  {
    if n < 0 then -n else n
  }

  /** `distance >= k` as Python evaluates it: `inf` exceeds every integer,
      and `None` cannot be ordered against an integer. */
  function AtLeast(d: Distance, k: nat): Result<bool>
  {
    match d
    case Finite(n) => Ok(n >= k)
    case Infinite => Ok(true)
    case Unset => Raise(TypeError)
  }

  /** True when a range `d` reaches `k` squares. */
  predicate Within(d: Distance, k: nat)
    requires d != Unset
  {
    d.Infinite? || k <= d.n
  }

  /** Whether a piece at (sx, sy) threatens (x, y) under pattern `p`.
      The straight test compares the distance along the coordinate that is
      equal, which is always zero, so its range never restricts it and the
      own square counts. The diagonal test divides by `x - sx`. */
  function IsThreatening(p: ThreatPattern, sx: int, sy: int, x: int, y: int): (r: Result<bool>)
    ensures p.kind == Straight && p.distance != Unset ==> r == Ok(x == sx || y == sy)
    ensures p.kind == Straight && p.distance == Unset ==>
              (r.Raise? <==> x == sx || y == sy) && r != Ok(true)
    ensures p.kind == Diagonal && x == sx ==> r == Raise(ZeroDivisionError)
    ensures p.kind == Diagonal && x != sx && p.distance != Unset ==>
              r == Ok(Abs(x - sx) == Abs(y - sy) && Within(p.distance, Abs(y - sy)))
    ensures p.kind == Diagonal && x != sx && p.distance == Unset ==>
              (r.Raise? <==> Abs(x - sx) == Abs(y - sy)) && r != Ok(true)
    ensures p.kind == L ==>
              r == Ok({Abs(x - sx), Abs(y - sy)} == {1, 2})
    ensures p.kind == NoneP ==> r == Ok(false)
    ensures r.Raise? ==> r.error == TypeError || (p.kind == Diagonal && r.error == ZeroDivisionError)
  {
    match p.kind
    case Straight =>
      var alongColumn := if sx == x then AtLeast(p.distance, Abs(sx - x)) else Ok(false);
      if alongColumn != Ok(false) then alongColumn
      else if sy == y then AtLeast(p.distance, Abs(sy - y))
      else Ok(false)
    case Diagonal =>
      if x == sx then Raise(ZeroDivisionError)
      else if Abs(y - sy) == Abs(x - sx) then AtLeast(p.distance, Abs(y - sy))
      else Ok(false)
    case L =>
      Ok((Abs(x - sx) == 1 && Abs(y - sy) == 2) || (Abs(x - sx) == 2 && Abs(y - sy) == 1))
    case NoneP =>
      Ok(false)
  }

  /** A list of patterns tried in order: the answer of the first pattern that
      does not answer false (a threat or an exception), or false when none
      does. This is the loop of `Piece.is_threatening`. */
  function FirstThreat(ps: seq<ThreatPattern>, sx: int, sy: int, x: int, y: int): (r: Result<bool>)
    ensures (forall i :: 0 <= i < |ps| ==> IsThreatening(ps[i], sx, sy, x, y) == Ok(false)) ==> r == Ok(false)
    ensures forall i :: 0 <= i < |ps| && IsThreatening(ps[i], sx, sy, x, y) != Ok(false) &&
                        (forall j :: 0 <= j < i ==> IsThreatening(ps[j], sx, sy, x, y) == Ok(false))
                        ==> r == IsThreatening(ps[i], sx, sy, x, y)
    decreases |ps|
  {
    if |ps| == 0 then Ok(false)
    else
      var first := IsThreatening(ps[0], sx, sy, x, y);
      if first != Ok(false) then first
      else FirstThreat(ps[1..], sx, sy, x, y)
  }
}
