/** The parts of the probabilistic targeting engine that every GoodPlayer
    variant shares (Player.cpp and Competition/CompetePlayer.cpp): the
    engine's belief state, placement legality, placement counting, the hunt
    heat map, the row-major argmax, and the geometric reconstruction of a
    sunk ship. */
module Targeting {
  import opened Geometry
  import opened Catalog

  datatype Mode = Hunt | Target

  /** `missed`: cells known not to be worth firing at (misses and cells of
      sunk ships); `destroyed`: hits whose ship is not yet known sunk;
      `alive`: the ship types still believed afloat. */
  datatype Engine = Engine(missed: seq<Point>, destroyed: seq<Point>, alive: seq<ShipType>, mode: Mode)

  /** The constructor: empty history, the whole catalog alive, hunting. */
  function NewEngine(g: Game): (e: Engine)
    ensures e.missed == [] && e.destroyed == [] && e.alive == g.ships && e.mode == Hunt
  {
    Engine([], [], g.ships, Hunt)
  }

  predicate LengthsPositive(alive: seq<ShipType>) {
    forall i :: 0 <= i < |alive| ==> alive[i].length >= 1
  }

  /** What recording results keeps true: the mode says whether hits are pending. */
  ghost predicate EngineOk(e: Engine) {
    && (e.mode == Target <==> |e.destroyed| > 0)
    && LengthsPositive(e.alive)
  }

  /** `validPoint`: on the board and not already known to be empty. */
  predicate ValidPoint(g: Game, missed: seq<Point>, p: Point) {
    IsValid(g, p) && p !in missed
  }

  /** The first `n` cells from `p` along `dir` are valid points. */
  function RunValid(g: Game, missed: seq<Point>, p: Point, dir: Direction, n: int): (ok: bool)
    ensures ok <==> forall i :: 0 <= i < n ==> ValidPoint(g, missed, CellAt(p, dir, i))
  {
    if n <= 0 then true
    else RunValid(g, missed, p, dir, n - 1) && ValidPoint(g, missed, CellAt(p, dir, n - 1))
  }

  /** `validPlace`: a ship of length `len` could lie from `p` along `dir`. */
  function ValidPlace(g: Game, missed: seq<Point>, p: Point, len: int, dir: Direction): (ok: bool)
    ensures ok <==> ValidPoint(g, missed, p) && forall i :: 0 <= i < len ==> ValidPoint(g, missed, CellAt(p, dir, i))
  {
    ValidPoint(g, missed, p) && RunValid(g, missed, p, dir, len)
  }

  /** How many start offsets a ship's loop over `i` runs through. */
  function Starts(len: int): nat {
    if len > 0 then len else 0
  }

  /** The number of offsets `j` in [0, k) such that a length-`len` ship
      starting `j` cells before `anchor` along `dir` is a legal placement
      that covers `q`. */
  function Covering(g: Game, missed: seq<Point>, anchor: Point, len: int, dir: Direction, q: Point, k: int): (n: nat)
    ensures n <= Starts(k)
  {
    if k <= 0 then 0
    else
      Covering(g, missed, anchor, len, dir, q, k - 1)
        + (if CoversAt(g, missed, anchor, len, dir, q, k - 1) then 1 else 0)
  }

  /** Sum, over every alive ship, of the legal vertical and horizontal
      placements through `anchor` that cover `q`. The hunt map uses
      anchor == q; the target map uses the first pending hit. */
  function CoverSum(g: Game, missed: seq<Point>, alive: seq<ShipType>, anchor: Point, q: Point): (n: nat)
    ensures |alive| == 0 ==> n == 0
    ensures forall k :: 0 <= k < |alive| ==>
      n >= Covering(g, missed, anchor, alive[k].length, Vertical, q, Starts(alive[k].length))
             + Covering(g, missed, anchor, alive[k].length, Horizontal, q, Starts(alive[k].length))
  {
    if |alive| == 0 then 0
    else
      var len := alive[0].length;
      Covering(g, missed, anchor, len, Vertical, q, Starts(len))
        + Covering(g, missed, anchor, len, Horizontal, q, Starts(len))
        + CoverSum(g, missed, alive[1..], anchor, q)
  }

  /** A length-`len` ship starting `j` cells before `anchor` along `dir` is a
      legal placement that covers `q`. */
  predicate CoversAt(g: Game, missed: seq<Point>, anchor: Point, len: int, dir: Direction, q: Point, j: int) {
    ValidPlace(g, missed, CellAt(anchor, dir, -j), len, dir) && InSpan(q, CellAt(anchor, dir, -j), len, dir)
  }

  /** How many offsets in [0, k) satisfy `f`, counted one offset at a time. */
  function CountBelow(f: int -> bool, k: int): (n: nat)
    ensures n == |set j | 0 <= j < k && f(j)|
  {
    if k <= 0 then
      assert (set j | 0 <= j < k && f(j)) == {};
      0
    else
      var sp := set j | 0 <= j < k - 1 && f(j);
      var last := if f(k - 1) then {k - 1} else {};
      assert (set j | 0 <= j < k && f(j)) == sp + last;
      assert sp !! last;
      CountBelow(f, k - 1) + (if f(k - 1) then 1 else 0)
  }

  /** The placement count is the number of covering offsets below `k`,
      independently of the order in which the loop visits them. */
  lemma {:induction false} CoveringCounts(g: Game, missed: seq<Point>, anchor: Point, len: int, dir: Direction, q: Point, k: int)
    ensures Covering(g, missed, anchor, len, dir, q, k) ==
      |set j | 0 <= j < k && CoversAt(g, missed, anchor, len, dir, q, j)|
  {
    var f := j => CoversAt(g, missed, anchor, len, dir, q, j);
    CoveringIsCount(g, missed, anchor, len, dir, q, k);
    assert (set j | 0 <= j < k && f(j)) == (set j | 0 <= j < k && CoversAt(g, missed, anchor, len, dir, q, j));
  }

  lemma {:induction false} CoveringIsCount(g: Game, missed: seq<Point>, anchor: Point, len: int, dir: Direction, q: Point, k: int)
    ensures Covering(g, missed, anchor, len, dir, q, k) ==
      CountBelow(j => CoversAt(g, missed, anchor, len, dir, q, j), k)
  {
    if k > 0 {
      CoveringIsCount(g, missed, anchor, len, dir, q, k - 1);
    }
  }

  /** One legal placement among the first `k` offsets that covers `q` makes
      the count positive. */
  lemma {:induction false} CoveringPositive(g: Game, missed: seq<Point>, anchor: Point, len: int, dir: Direction, q: Point, k: int, j: int)
    requires 0 <= j < k
    requires ValidPlace(g, missed, CellAt(anchor, dir, -j), len, dir) && InSpan(q, CellAt(anchor, dir, -j), len, dir)
    ensures Covering(g, missed, anchor, len, dir, q, k) > 0
  {
    if j < k - 1 {
      CoveringPositive(g, missed, anchor, len, dir, q, k - 1, j);
    }
  }

  /** A cell covered by some legal placement through `anchor` is a valid
      point on the line of that placement. */
  lemma {:induction false} CoveringSupport(g: Game, missed: seq<Point>, anchor: Point, len: int, dir: Direction, q: Point, k: int)
    requires Covering(g, missed, anchor, len, dir, q, k) > 0
    ensures ValidPoint(g, missed, q)
    ensures dir == Vertical ==> q.c == anchor.c
    ensures dir == Horizontal ==> q.r == anchor.r
  {
    var start := CellAt(anchor, dir, -(k - 1));
    if Covering(g, missed, anchor, len, dir, q, k - 1) > 0 {
      CoveringSupport(g, missed, anchor, len, dir, q, k - 1);
    } else {
      assert ValidPlace(g, missed, start, len, dir) && InSpan(q, start, len, dir);
      InSpanIsStep(q, start, len, dir);
    }
  }

  /** Positive placement weight only lands on valid points of the crosshair through `anchor`. */
  lemma {:induction false} CoverSumSupport(g: Game, missed: seq<Point>, alive: seq<ShipType>, anchor: Point, q: Point)
    requires CoverSum(g, missed, alive, anchor, q) > 0
    ensures ValidPoint(g, missed, q)
    ensures q.r == anchor.r || q.c == anchor.c
  {
    var len := alive[0].length;
    if Covering(g, missed, anchor, len, Vertical, q, Starts(len)) > 0 {
      CoveringSupport(g, missed, anchor, len, Vertical, q, Starts(len));
    } else if Covering(g, missed, anchor, len, Horizontal, q, Starts(len)) > 0 {
      CoveringSupport(g, missed, anchor, len, Horizontal, q, Starts(len));
    } else {
      CoverSumSupport(g, missed, alive[1..], anchor, q);
    }
  }

  /** Around its own cell every start offset below the length covers the
      cell, so the hunt count is simply the number of legal starts, as
      `huntProb`'s loops count them. */
  lemma {:induction false} HuntCountsStarts(g: Game, missed: seq<Point>, q: Point, len: int, dir: Direction, k: int)
    requires k <= len
    ensures Covering(g, missed, q, len, dir, q, k) ==
      if k <= 0 then 0
      else Covering(g, missed, q, len, dir, q, k - 1)
             + (if ValidPlace(g, missed, CellAt(q, dir, -(k - 1)), len, dir) then 1 else 0)
    ensures k > 0 ==> InSpan(q, CellAt(q, dir, -(k - 1)), len, dir)
  {
  }

  /** The shortest alive length: start from the first entry, keep any shorter one. */
  function MinLength(alive: seq<ShipType>): (m: int)
    requires |alive| > 0
    ensures exists i :: 0 <= i < |alive| && alive[i].length == m
    ensures forall i :: 0 <= i < |alive| ==> m <= alive[i].length
  {
    if |alive| == 1 then alive[0].length
    else
      var rest := MinLength(alive[1..]);
      if rest < alive[0].length then rest else alive[0].length
  }

  predicate HeatShaped(g: Game, heat: seq<seq<int>>) {
    |heat| == g.rows && forall r :: 0 <= r < |heat| ==> |heat[r]| == g.cols
  }

  /** The hunt weight of one cell: its placement count, kept only on the
      parity class of the shortest alive ship. */
  function HuntCell(g: Game, e: Engine, r: int, c: int): int
    requires |e.alive| > 0 && LengthsPositive(e.alive)
  {
    var m := MinLength(e.alive);
    if r % m != c % m then 0 else CoverSum(g, e.missed, e.alive, Point(r, c), Point(r, c))
  }

  /** `huntProb`. The parity step reads the first alive entry, so the roster must not be empty. */
  function HuntProb(g: Game, e: Engine): (heat: seq<seq<int>>)
    requires 0 <= g.rows && 0 <= g.cols
    requires |e.alive| > 0 && LengthsPositive(e.alive)
    ensures HeatShaped(g, heat)
    ensures forall r, c :: 0 <= r < g.rows && 0 <= c < g.cols ==> heat[r][c] == HuntCell(g, e, r, c)
  {
    seq(g.rows, r => seq(g.cols, c => HuntCell(g, e, r, c)))
  }

  /** One cell of the hunt map: zero off the parity class of the shortest
      alive ship, the placement count on it, never negative, and positive
      only on a valid point (never on a known miss or off the board). */
  lemma HuntCellMeaning(g: Game, e: Engine, r: int, c: int)
    requires |e.alive| > 0 && LengthsPositive(e.alive)
    ensures var v := HuntCell(g, e, r, c); var m := MinLength(e.alive);
      && (r % m != c % m ==> v == 0)
      && (r % m == c % m ==> v == CoverSum(g, e.missed, e.alive, Point(r, c), Point(r, c)))
      && v >= 0
      && (v > 0 ==> ValidPoint(g, e.missed, Point(r, c)))
  {
    if HuntCell(g, e, r, c) > 0 {
      CoverSumSupport(g, e.missed, e.alive, Point(r, c), Point(r, c));
    }
  }

  /** The hunt map as a whole: every cell is described by `HuntCellMeaning`. */
  lemma HuntHeatMeaning(g: Game, e: Engine)
    requires 0 <= g.rows && 0 <= g.cols
    requires |e.alive| > 0 && LengthsPositive(e.alive)
    ensures var heat := HuntProb(g, e); var m := MinLength(e.alive);
      && (forall r, c :: 0 <= r < g.rows && 0 <= c < g.cols && r % m != c % m ==> heat[r][c] == 0)
      && (forall r, c :: 0 <= r < g.rows && 0 <= c < g.cols && r % m == c % m ==>
            heat[r][c] == CoverSum(g, e.missed, e.alive, Point(r, c), Point(r, c)))
      && (forall r, c :: 0 <= r < g.rows && 0 <= c < g.cols ==> heat[r][c] >= 0)
      && (forall r, c :: 0 <= r < g.rows && 0 <= c < g.cols && heat[r][c] > 0 ==> ValidPoint(g, e.missed, Point(r, c)))
  {
    forall r, c | 0 <= r < g.rows && 0 <= c < g.cols {
      HuntCellMeaning(g, e, r, c);
    }
  }

  /** A product of a positive `m` with a non-zero factor is at least `m` in size. */
  lemma {:induction false} ProductAwayFromZero(m: int, z: int)
    requires m > 0 && z != 0
    ensures m * z >= m || m * z <= -m
    decreases if z < 0 then -z else z
  {
    if z > 1 {
      ProductAwayFromZero(m, z - 1);
      assert m * z == m * (z - 1) + m;
    } else if z < -1 {
      ProductAwayFromZero(m, z + 1);
      assert m * z == m * (z + 1) - m;
    }
  }

  /** The Euclidean remainder is the only `d` in [0, m) with `x == m * t + d`. */
  lemma ModUnique(x: int, m: int, t: int, d: int)
    requires m > 0 && 0 <= d < m && x == m * t + d
    ensures x % m == d
  {
    var z := t - x / m;
    assert x == m * (x / m) + x % m;
    assert m * z == m * t - m * (x / m);
    assert m * z == x % m - d;
    if z != 0 {
      ProductAwayFromZero(m, z);
    }
  }

  /** Some step `d` below `m` takes `a` into the residue class of `b`
      (Euclidean remainder): the remainder of `b - a`. */
  lemma ModShift(a: int, b: int, m: int) returns (d: int)
    requires m > 0
    ensures 0 <= d < m
    ensures (a + d) % m == b % m
  {
    d := (b - a) % m;
    var qt := (b - a) / m;
    var bq := b / m;
    assert b - a == m * qt + d;
    assert b == m * bq + b % m;
    assert a + d == m * (bq - qt) + b % m;
    ModUnique(a + d, m, bq - qt, b % m);
  }

  /** Within the first `m` cells from any start there is one whose row and
      column agree modulo `m`. */
  lemma ParityOffset(st: Point, dir: Direction, m: int) returns (i: int)
    requires m > 0
    ensures 0 <= i < m
    ensures CellAt(st, dir, i).r % m == CellAt(st, dir, i).c % m
  {
    if dir == Vertical {
      i := ModShift(st.r, st.c, m);
      assert CellAt(st, dir, i) == Point(st.r + i, st.c);
    } else {
      i := ModShift(st.c, st.r, m);
      assert CellAt(st, dir, i) == Point(st.r, st.c + i);
    }
  }

  /** A legal placement of an alive ship weights each of its own cells. */
  lemma PlacementWeighsItsCells(g: Game, missed: seq<Point>, alive: seq<ShipType>, k: int, st: Point, dir: Direction, i: int)
    requires 0 <= k < |alive| && ValidPlace(g, missed, st, alive[k].length, dir)
    requires 0 <= i < alive[k].length
    ensures CoverSum(g, missed, alive, CellAt(st, dir, i), CellAt(st, dir, i)) > 0
  {
    var len := alive[k].length;
    var q := CellAt(st, dir, i);
    assert CellAt(q, dir, -i) == st;
    CoveringPositive(g, missed, q, len, dir, q, Starts(len), i);
  }

  /** While some alive ship still has a legal placement, the hunt map is not
      all zero: a cell of that placement on the shortest ship's parity class
      carries weight, so `recommendAttack` in HUNT mode returns a valid point. */
  lemma HuntHasTarget(g: Game, e: Engine, k: int, st: Point, dir: Direction)
    requires |e.alive| > 0 && LengthsPositive(e.alive)
    requires 0 <= k < |e.alive| && ValidPlace(g, e.missed, st, e.alive[k].length, dir)
    ensures 0 <= g.rows && 0 <= g.cols
    ensures exists r, c :: 0 <= r < g.rows && 0 <= c < g.cols && HuntProb(g, e)[r][c] > 0
  {
    var m := MinLength(e.alive);
    var i := ParityOffset(st, dir, m);
    var q := CellAt(st, dir, i);
    PlacementWeighsItsCells(g, e.missed, e.alive, k, st, dir, i);
    assert ValidPoint(g, e.missed, q);
    assert HuntCell(g, e, q.r, q.c) > 0;
    assert HuntProb(g, e)[q.r][q.c] > 0;
  }

  /** The heat at `best` is the largest on the board, and no earlier cell in
      row-major order reaches it; when no cell is positive the default point
      is returned. */
  ghost predicate IsFirstMax(g: Game, heat: seq<seq<int>>, best: Point)
    requires HeatShaped(g, heat)
  {
    && ((forall r, c :: 0 <= r < g.rows && 0 <= c < g.cols ==> heat[r][c] <= 0) ==> best == Origin)
    && ((exists r, c :: 0 <= r < g.rows && 0 <= c < g.cols && heat[r][c] > 0) ==>
          && InGrid(g.rows, g.cols, best)
          && heat[best.r][best.c] > 0
          && (forall r, c :: 0 <= r < g.rows && 0 <= c < g.cols ==> heat[r][c] <= heat[best.r][best.c])
          && (forall r, c :: 0 <= r < g.rows && 0 <= c < g.cols && Before(Point(r, c), best) ==>
                heat[r][c] < heat[best.r][best.c]))
  }

  /** The scan state of `recommendAttack` once every cell before `upto` has been visited. */
  ghost predicate Scanned(g: Game, heat: seq<seq<int>>, best: Point, maxProb: int, upto: Point)
    requires HeatShaped(g, heat)
  {
    && 0 <= maxProb
    && (maxProb == 0 ==> best == Origin)
    && (maxProb > 0 ==> InGrid(g.rows, g.cols, best) && Before(best, upto) && heat[best.r][best.c] == maxProb)
    && (forall r, c :: 0 <= r < g.rows && 0 <= c < g.cols && Before(Point(r, c), upto) ==> heat[r][c] <= maxProb)
    && (forall r, c :: 0 <= r < g.rows && 0 <= c < g.cols && Before(Point(r, c), best) ==> heat[r][c] < maxProb)
  }

  /** The argmax loop of `recommendAttack`: row-major, strict `>` against a
      running maximum that starts at 0, so ties keep the first cell. */
  method ArgMax(g: Game, heat: seq<seq<int>>) returns (best: Point)
    requires 0 <= g.rows && 0 <= g.cols && HeatShaped(g, heat)
    ensures IsFirstMax(g, heat, best)
  {
    var maxProb := 0;
    best := Origin;
    var r := 0;
    while r < g.rows
      invariant 0 <= r <= g.rows
      invariant Scanned(g, heat, best, maxProb, Point(r, 0))
    {
      var c := 0;
      while c < g.cols
        invariant 0 <= c <= g.cols
        invariant Scanned(g, heat, best, maxProb, Point(r, c))
      {
        if heat[r][c] > maxProb {
          maxProb := heat[r][c];
          best := Point(r, c);
        }
        c := c + 1;
      }
      r := r + 1;
    }
  }

  /** The cells `recordAttackResult` moves to `missed` after a sink, exactly
      as the source computes them: the span runs from the point that sank
      the ship away from the first pending hit. When the two coincide,
      start and end both stay 0 and no cell is produced. */
  function SunkSpanAsWritten(p: Point, front: Point, len: int): (span: seq<Point>)
    ensures forall i :: 0 <= i < |span| ==> span[i].r == p.r || span[i].c == p.c
  {
    var (start, end) :=
      if p.r < front.r then (p.r, p.r + len)
      else if p.r > front.r then (p.r - len + 1, p.r + 1)
      else if p.c < front.c then (p.c, p.c + len)
      else if p.c > front.c then (p.c - len + 1, p.c + 1)
      else (0, 0);
    seq(if end > start then end - start else 0, i =>
      if p.c == front.c then Point(start + i, p.c) else Point(p.r, start + i))
  }

  /** The reconstruction the engines use: as written, except that a ship
      sunk by its first pending hit (p == front) is taken to run from p,
      so its `len` cells are still produced. */
  function SunkSpan(p: Point, front: Point, len: int): (span: seq<Point>)
    ensures p != front ==> span == SunkSpanAsWritten(p, front, len)
  {
    if p == front then seq(Starts(len), i => Point(p.r + i, p.c))
    else SunkSpanAsWritten(p, front, len)
  }

  /** The direction of the reconstructed span. */
  function SpanDir(p: Point, front: Point): Direction {
    if p.c == front.c then Vertical else Horizontal
  }

  /** When the sinking shot and the first pending hit lie on one line, the
      reconstruction is exactly `len` consecutive cells along that line
      containing the shot; it starts at the shot when the shot precedes the
      first hit and ends at it when it follows. When the two are closer than
      the ship's length, the first hit is among those cells too. */
  lemma SunkSpanCoversShip(p: Point, front: Point, len: int)
    requires len >= 1
    requires p.r == front.r || p.c == front.c
    ensures var span := SunkSpan(p, front, len);
      && |span| == len
      && (forall i :: 0 <= i < len ==> span[i] == CellAt(span[0], SpanDir(p, front), i))
      && p in span
      && (p.r < front.r || p.c < front.c ==> span[0] == p)
      && (p.r > front.r || p.c > front.c ==> span[len - 1] == p)
      && (-len < p.r - front.r < len && -len < p.c - front.c < len ==> front in span)
  {
    var span := SunkSpan(p, front, len);
    if p == front {
      assert span[0] == p;
    } else if p.r < front.r || p.c < front.c {
      assert span[0] == p;
      if -len < p.r - front.r < len && -len < p.c - front.c < len {
        assert span[Offset(front, p, SpanDir(p, front))] == front;
      }
    } else {
      assert span[len - 1] == p;
      if -len < p.r - front.r < len && -len < p.c - front.c < len {
        assert span[len - 1 - Offset(p, front, SpanDir(p, front))] == front;
      }
    }
  }

  /** The source's discrepancy: a ship sunk by the very hit that started
      its pursuit gets an empty reconstruction whatever its length, although
      the ship occupied `len` cells, one of them `p`. */
  lemma FirstHitSinkMovesNothing(p: Point, len: int)
    requires len >= 1
    ensures SunkSpanAsWritten(p, p, len) == []
    ensures |SunkSpan(p, p, len)| == len && SunkSpan(p, p, len)[0] == p
  {
  }

  /** `destroyed` with every cell of `span` erased, the rest in their
      original order, as the erase loop of `recordAttackResult` leaves it:
      the first remaining hit is the first one outside the span. */
  function RemoveCells(destroyed: seq<Point>, span: seq<Point>): (rest: seq<Point>)
    ensures |rest| <= |destroyed|
    ensures forall q :: q in rest <==> q in destroyed && q !in span
    ensures |rest| > 0 ==> exists i ::
      && 0 <= i < |destroyed|
      && destroyed[i] == rest[0]
      && (forall j :: 0 <= j < i ==> destroyed[j] in span)
  {
    if |destroyed| == 0 then []
    else
      var tail := RemoveCells(destroyed[1..], span);
      if destroyed[0] in span then
        assert |tail| > 0 ==> destroyed[1..][0] == destroyed[1] && exists i ::
          && 1 <= i < |destroyed|
          && destroyed[i] == tail[0]
          && (forall j :: 0 <= j < i ==> destroyed[j] in span) by {
          if |tail| > 0 {
            var i :| 0 <= i < |destroyed[1..]| && destroyed[1..][i] == tail[0]
              && (forall j :: 0 <= j < i ==> destroyed[1..][j] in span);
            assert destroyed[i + 1] == tail[0];
            forall j | 0 <= j < i + 1
              ensures destroyed[j] in span
            {
              if j > 0 {
                assert destroyed[j] == destroyed[1..][j - 1];
              }
            }
          }
        }
        tail
      else
        [destroyed[0]] + tail
  }

  /** Erasing distributes over concatenation: what survives of `a + b` is
      what survives of `a` followed by what survives of `b`, so the erase
      keeps the relative order of every surviving hit. */
  lemma {:induction false} RemoveCellsAppend(a: seq<Point>, b: seq<Point>, span: seq<Point>)
    ensures RemoveCells(a + b, span) == RemoveCells(a, span) + RemoveCells(b, span)
  {
    if |a| == 0 {
      assert a + b == b;
    } else {
      assert (a + b)[1..] == a[1..] + b;
      RemoveCellsAppend(a[1..], b, span);
    }
  }

  /** A pending list with no cell in the span is left exactly as it was. */
  lemma {:induction false} RemoveCellsDisjoint(destroyed: seq<Point>, span: seq<Point>)
    requires forall i :: 0 <= i < |destroyed| ==> destroyed[i] !in span
    ensures RemoveCells(destroyed, span) == destroyed
  {
    if |destroyed| > 0 {
      RemoveCellsDisjoint(destroyed[1..], span);
    }
  }

  /** The alive roster without every entry of the given symbol, order kept. */
  function RemoveShip(alive: seq<ShipType>, symbol: char): (rest: seq<ShipType>)
    ensures |rest| <= |alive|
    ensures forall s :: s in rest <==> s in alive && s.symbol != symbol
    ensures |alive| == 1 ==> rest == if alive[0].symbol == symbol then [] else alive
  {
    if |alive| == 0 then []
    else if alive[0].symbol == symbol then RemoveShip(alive[1..], symbol)
    else [alive[0]] + RemoveShip(alive[1..], symbol)
  }

  /** Removal distributes over concatenation, so the entries that stay keep
      their order and their multiplicity. */
  lemma {:induction false} RemoveShipAppend(a: seq<ShipType>, b: seq<ShipType>, symbol: char)
    ensures RemoveShip(a + b, symbol) == RemoveShip(a, symbol) + RemoveShip(b, symbol)
  {
    if |a| == 0 {
      assert a + b == b;
    } else {
      assert (a + b)[1..] == a[1..] + b;
      RemoveShipAppend(a[1..], b, symbol);
    }
  }

  /** In a roster whose symbols are distinct, removing a symbol that is
      present drops exactly one entry. */
  lemma {:induction false} RemoveShipDistinct(alive: seq<ShipType>, symbol: char)
    requires forall i, j :: 0 <= i < j < |alive| ==> alive[i].symbol != alive[j].symbol
    requires exists i :: 0 <= i < |alive| && alive[i].symbol == symbol
    ensures |RemoveShip(alive, symbol)| == |alive| - 1
  {
    if alive[0].symbol == symbol {
      RemoveShipAbsent(alive[1..], symbol);
    } else {
      var i :| 0 <= i < |alive| && alive[i].symbol == symbol;
      assert alive[1..][i - 1].symbol == symbol;
      RemoveShipDistinct(alive[1..], symbol);
    }
  }

  /** Removing a symbol that is absent changes nothing. */
  lemma {:induction false} RemoveShipAbsent(alive: seq<ShipType>, symbol: char)
    requires forall i :: 0 <= i < |alive| ==> alive[i].symbol != symbol
    ensures RemoveShip(alive, symbol) == alive
  {
    if |alive| > 0 {
      RemoveShipAbsent(alive[1..], symbol);
    }
  }

  /** The first step of `recordAttackResult`: a hit is pending and switches
      to TARGET; anything else is a miss and keeps the mode. */
  function NoteShot(e: Engine, p: Point, shotHit: bool): (e': Engine)
    ensures shotHit ==> e' == e.(destroyed := e.destroyed + [p], mode := Target)
    ensures !shotHit ==> e' == e.(missed := e.missed + [p])
  {
    if shotHit then e.(destroyed := e.destroyed + [p], mode := Target)
    else e.(missed := e.missed + [p])
  }

  /** The sink step: the reconstructed span moves from the pending hits to
      `missed`; HUNT resumes exactly when nothing is left pending. */
  function Reconstruct(g: Game, e: Engine, p: Point, shipId: int): (e': Engine)
    requires |e.destroyed| > 0 && 0 <= shipId < |g.ships|
    ensures e'.alive == e.alive
    ensures e'.missed == e.missed + SunkSpan(p, e.destroyed[0], ShipLength(g, shipId))
    ensures forall q :: q in e'.destroyed <==> q in e.destroyed && q !in SunkSpan(p, e.destroyed[0], ShipLength(g, shipId))
    ensures e'.destroyed == RemoveCells(e.destroyed, SunkSpan(p, e.destroyed[0], ShipLength(g, shipId)))
    ensures e'.mode == if |e'.destroyed| == 0 then Hunt else e.mode
  {
    var span := SunkSpan(p, e.destroyed[0], ShipLength(g, shipId));
    var rest := RemoveCells(e.destroyed, span);
    e.(missed := e.missed + span, destroyed := rest, mode := if |rest| == 0 then Hunt else e.mode)
  }

  /** The sink step exactly as the source writes it, with the as-written
      span. */
  function ReconstructAsWritten(g: Game, e: Engine, p: Point, shipId: int): (e': Engine)
    requires |e.destroyed| > 0 && 0 <= shipId < |g.ships|
    ensures e'.alive == e.alive
    ensures e'.missed == e.missed + SunkSpanAsWritten(p, e.destroyed[0], ShipLength(g, shipId))
    ensures forall q :: q in e'.destroyed <==> q in e.destroyed && q !in SunkSpanAsWritten(p, e.destroyed[0], ShipLength(g, shipId))
    ensures e'.destroyed == RemoveCells(e.destroyed, SunkSpanAsWritten(p, e.destroyed[0], ShipLength(g, shipId)))
    ensures e'.mode == if |e'.destroyed| == 0 then Hunt else e.mode
  {
    var span := SunkSpanAsWritten(p, e.destroyed[0], ShipLength(g, shipId));
    var rest := RemoveCells(e.destroyed, span);
    e.(missed := e.missed + span, destroyed := rest, mode := if |rest| == 0 then Hunt else e.mode)
  }

  /** The engine-level effect of the discrepancy: when a HUNT-mode hit sinks
      a ship at once, the as-written sink step leaves the engine in TARGET
      mode with that hit still pending, while the corrected step returns to
      HUNT with nothing pending. */
  lemma FirstHitSinkStaysTarget(g: Game, e: Engine, p: Point, shipId: int)
    requires EngineOk(e) && e.mode == Hunt
    requires 0 <= shipId < |g.ships| && g.ships[shipId].length >= 1
    ensures var e1 := NoteShot(e, p, true);
      && ReconstructAsWritten(g, e1, p, shipId).mode == Target
      && ReconstructAsWritten(g, e1, p, shipId).destroyed == [p]
      && ReconstructAsWritten(g, e1, p, shipId).missed == e.missed
      && Reconstruct(g, e1, p, shipId).mode == Hunt
      && Reconstruct(g, e1, p, shipId).destroyed == []
  {
    var e1 := NoteShot(e, p, true);
    assert e1.destroyed == [p];
    FirstHitSinkMovesNothing(p, g.ships[shipId].length);
    assert RemoveCells([p], []) == [p];
    assert p in SunkSpan(p, p, g.ships[shipId].length);
  }
}
