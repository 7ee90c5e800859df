/** The two simple strategies of Player.cpp whose behaviour does not depend
    on randomness: AwfulPlayer's backward row-major sweep and the state
    machine MediocrePlayer keeps between its attacks; and the main build's
    `createPlayer` name dispatch. */
module SimplePlayers {
  import opened Geometry
  import opened Results
  import opened Catalog
  import opened Dispatch

  /** The row-major position of `p` on the game's board. */
  function Index(g: Game, p: Point): int {
    p.r * g.cols + p.c
  }

  /** `AwfulPlayer::recommendAttack`: the cell before the last one attacked
      in row-major order, wrapping from the top-left corner to the
      bottom-right one. The returned cell becomes the new last cell. */
  function AwfulRecommend(g: Game, last: Point): (p: Point)
    ensures 1 <= g.rows && 1 <= g.cols && InGrid(g.rows, g.cols, last) ==> InGrid(g.rows, g.cols, p)
    ensures last == Origin ==> p == Point(g.rows - 1, g.cols - 1)
  {
    if last.c > 0 then Point(last.r, last.c - 1)
    else if last.r > 0 then Point(last.r - 1, g.cols - 1)
    else Point(g.rows - 1, g.cols - 1)
  }

  lemma MulStep(a: int, k: int)
    ensures (a - 1) * k == a * k - k
  {
  }

  lemma MulMono(a: int, b: int, k: int)
    requires a <= b && 0 <= k
    ensures a * k <= b * k
  {
  }

  /** One step of the sweep moves one place back in row-major order, and
      from the top-left corner to the last position of the board. */
  lemma AwfulStepIndex(g: Game, last: Point)
    requires 1 <= g.rows && 1 <= g.cols && InGrid(g.rows, g.cols, last)
    ensures last != Origin ==> Index(g, AwfulRecommend(g, last)) == Index(g, last) - 1
    ensures last == Origin ==> Index(g, AwfulRecommend(g, last)) == g.rows * g.cols - 1
  {
    if last.c == 0 && last.r > 0 {
      MulStep(last.r, g.cols);
    } else if last == Origin {
      MulStep(g.rows, g.cols);
    }
  }

  /** The cell recommended after `n` recommendations starting from `last`. */
  function AwfulAfter(g: Game, last: Point, n: nat): Point {
    if n == 0 then last else AwfulRecommend(g, AwfulAfter(g, last, n - 1))
  }

  /** Stepping `a` then `b` times is stepping `a + b` times. */
  lemma {:induction false} AwfulAfterAdd(g: Game, last: Point, a: nat, b: nat)
    ensures AwfulAfter(g, last, a + b) == AwfulAfter(g, AwfulAfter(g, last, a), b)
    decreases b
  {
    if b > 0 {
      AwfulAfterAdd(g, last, a, b - 1);
    }
  }

  /** From the constructor's (0, 0), the n-th recommendation (1 <= n <=
      rows*cols) is the cell n places before the end in row-major order,
      so the first rows*cols recommendations visit every cell once. */
  lemma {:induction false} AwfulSweep(g: Game, n: nat)
    requires 1 <= g.rows && 1 <= g.cols
    requires n <= g.rows * g.cols
    ensures InGrid(g.rows, g.cols, AwfulAfter(g, Origin, n))
    ensures 1 <= n ==> Index(g, AwfulAfter(g, Origin, n)) == g.rows * g.cols - n
  {
    if n > 0 {
      AwfulSweep(g, n - 1);
      var prev := AwfulAfter(g, Origin, n - 1);
      AwfulStepIndex(g, prev);
      if n > 1 && prev == Origin {
        MulMono(1, g.rows, g.cols);
      }
    }
  }

  /** A cell of the board is determined by its row-major position. */
  lemma IndexInjective(g: Game, p: Point, q: Point)
    requires InGrid(g.rows, g.cols, p) && InGrid(g.rows, g.cols, q)
    requires Index(g, p) == Index(g, q)
    ensures p == q
  {
    if p.r < q.r {
      MulMono(p.r + 1, q.r, g.cols);
      MulStep(p.r + 1, g.cols);
    } else if q.r < p.r {
      MulMono(q.r + 1, p.r, g.cols);
      MulStep(q.r + 1, g.cols);
    }
  }

  /** After rows*cols recommendations the sweep is back at (0, 0), so the
      recommendations repeat with that period. */
  lemma AwfulPeriodic(g: Game, n: nat)
    requires 1 <= g.rows && 1 <= g.cols
    ensures AwfulAfter(g, Origin, n + g.rows * g.cols) == AwfulAfter(g, Origin, n)
  {
    var total := g.rows * g.cols;
    AwfulSweep(g, total);
    IndexInjective(g, AwfulAfter(g, Origin, total), Origin);
    AwfulAfterAdd(g, Origin, total, n);
    assert AwfulAfter(g, Origin, total + n) == AwfulAfter(g, Origin, n);
  }

  /** MediocrePlayer's state between attacks: the move state (1: random
      shots, 2: around `transition`) and the cells already chosen. */
  datatype Mediocre = Mediocre(moveState: int, transition: Point, prevAttacks: seq<Point>)

  /** The constructor: state 1, transition point (5, 5), nothing chosen. */
  function NewMediocre(): (m: Mediocre)
    ensures m.moveState == 1 && m.transition == Point(5, 5) && m.prevAttacks == []
  {
    Mediocre(1, Point(5, 5), [])
  }

  /** `pointNotChosen`: scans the earlier attacks for one at `p`. */
  function PointNotChosen(prevAttacks: seq<Point>, p: Point): (unchosen: bool)
    ensures unchosen <==> p !in prevAttacks
  {
    if |prevAttacks| == 0 then true
    else if prevAttacks[0] == p then false
    else PointNotChosen(prevAttacks[1..], p)
  }

  /** `MediocrePlayer::recordAttackResult`: two tests in sequence, the
      second reading the state the first may have written. */
  function RecordMediocre(m: Mediocre, p: Point, validShot: bool, shotHit: bool, shipDestroyed: bool, shipId: int): (m': Mediocre)
    ensures m'.prevAttacks == m.prevAttacks
    ensures m.moveState == 1 && shotHit && !shipDestroyed ==> m'.moveState == 2 && m'.transition == p
    ensures m.moveState == 2 && shipDestroyed ==> m'.moveState == 1 && m'.transition == m.transition
    ensures !(m.moveState == 1 && shotHit && !shipDestroyed) && !(m.moveState == 2 && shipDestroyed) ==> m' == m
  {
    var m1 := if m.moveState == 1 && shotHit && !shipDestroyed then m.(moveState := 2, transition := p) else m;
    if m1.moveState == 2 && shipDestroyed then m1.(moveState := 1) else m1
  }

  /** The move state stays 1 or 2, and a single result moves it at most one
      step: the first test's switch to 2 never lets the second switch back. */
  lemma MediocreStates(m: Mediocre, p: Point, validShot: bool, shotHit: bool, shipDestroyed: bool, shipId: int)
    requires m.moveState == 1 || m.moveState == 2
    ensures var m' := RecordMediocre(m, p, validShot, shotHit, shipDestroyed, shipId);
      && (m'.moveState == 1 || m'.moveState == 2)
      && (m'.moveState != m.moveState <==>
            (m.moveState == 1 && shotHit && !shipDestroyed) || (m.moveState == 2 && shipDestroyed))
  {
  }

  /** The player kinds the main build can create. */
  datatype Kind = Human | Awful | MediocreKind | Good

  const Types: seq<string> := ["human", "awful", "mediocre", "good"]

  /** `createPlayer` of the main build: the four type names select the four
      kinds, any other name yields no player. */
  function CreatePlayer(t: string): (k: Option<Kind>)
    ensures k == Some(Human) <==> t == "human"
    ensures k == Some(Awful) <==> t == "awful"
    ensures k == Some(MediocreKind) <==> t == "mediocre"
    ensures k == Some(Good) <==> t == "good"
    ensures k == None <==> t !in Types
  {
    match Lookup(Types, t)
    case 0 => Some(Human)
    case 1 => Some(Awful)
    case 2 => Some(MediocreKind)
    case 3 => Some(Good)
    case _ => None
  }
}
