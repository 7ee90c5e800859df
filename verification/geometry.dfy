/** Value types shared by the board, the catalog and the players: grid
    points, ship orientations, and the cells a straight ship occupies. */
module Geometry {

  /** A grid coordinate; rows grow downward, columns rightward. */
  datatype Point = Point(r: int, c: int)

  /** The value of a default-constructed point. */
  const Origin := Point(0, 0)

  datatype Direction = Horizontal | Vertical

  /** The cell `i` steps from `p` along `dir` (negative `i` steps backward). */
  function CellAt(p: Point, dir: Direction, i: int): Point {
    match dir
    case Horizontal => Point(p.r, p.c + i)
    case Vertical => Point(p.r + i, p.c)
  }

  /** `q` is one of the `len` cells that start at `p` and extend along `dir`. */
  predicate InSpan(q: Point, p: Point, len: int, dir: Direction) {
    match dir
    case Horizontal => q.r == p.r && p.c <= q.c < p.c + len
    case Vertical => q.c == p.c && p.r <= q.r < p.r + len
  }

  /** How far `q` lies from `p` along `dir`. */
  function Offset(q: Point, p: Point, dir: Direction): int {
    match dir
    case Horizontal => q.c - p.c
    case Vertical => q.r - p.r
  }

  /** A span is exactly the cells reached by stepping from its start. */
  lemma InSpanIsStep(q: Point, p: Point, len: int, dir: Direction)
    ensures InSpan(q, p, len, dir) ==>
      0 <= Offset(q, p, dir) < len && CellAt(p, dir, Offset(q, p, dir)) == q
    ensures forall i :: 0 <= i < len ==> InSpan(CellAt(p, dir, i), p, len, dir)
  {
  }

  /** Row-major order: `p` is scanned strictly before `q`. */
  predicate Before(p: Point, q: Point) {
    p.r < q.r || (p.r == q.r && p.c < q.c)
  }

  predicate InGrid(rows: int, cols: int, p: Point) {
    0 <= p.r < rows && 0 <= p.c < cols
  }
}

/** Failure-aware return values. */
module Results {

  datatype Option<T> = None | Some(value: T)

  datatype Result<T, E> = Success(value: T) | Failure(error: E)
}
