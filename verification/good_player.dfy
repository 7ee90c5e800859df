/** GoodPlayer of Player.cpp: the target heat map with line amplification
    scaled by distance, attack recommendation with an empty-roster guard,
    and result recording that shrinks the alive roster on a sink. */
module GoodPlayer {
  import opened Geometry
  import opened Catalog
  import opened Targeting

  function Abs(x: int): nat {
    if x < 0 then -x else x
  }

  /** One amplification pass on a cell of the shared line: doubled, then,
      away from the anchor, multiplied by 10 / distance (integer division). */
  function LineScale(v: int, i: int, anchor: int): int {
    if i != anchor then v * 2 * (10 / Abs(i - anchor)) else v * 2
  }

  /** Amplification keeps the sign: it maps 0 to 0 and a non-negative
      weight to a non-negative one. */
  lemma LineScaleSign(v: int, i: int, anchor: int)
    requires v >= 0
    ensures LineScale(v, i, anchor) >= 0
    ensures LineScale(v, i, anchor) != 0 ==> v != 0
  {
    if i != anchor {
      var f := 10 / Abs(i - anchor);
      assert f >= 0;
      assert v * 2 * f == (v * 2) * f;
    }
  }

  /** The first two pending hits share a row. */
  predicate RowLine(e: Engine) {
    |e.destroyed| >= 2 && e.destroyed[0].r == e.destroyed[1].r
  }

  /** The first two pending hits share a column. */
  predicate ColLine(e: Engine) {
    |e.destroyed| >= 2 && e.destroyed[0].c == e.destroyed[1].c
  }

  /** The target weight of one cell: placements through the first pending
      hit that cover it, amplified along a shared row and then a shared
      column, and zero on every pending hit. */
  function TargetCell(g: Game, e: Engine, r: int, c: int): int
    requires |e.destroyed| > 0
  {
    var t := e.destroyed[0];
    var base := CoverSum(g, e.missed, e.alive, t, Point(r, c));
    var v1 := if RowLine(e) && r == t.r then LineScale(base, c, t.c) else base;
    var v2 := if ColLine(e) && c == t.c then LineScale(v1, r, t.r) else v1;
    if Point(r, c) in e.destroyed then 0 else v2
  }

  /** `targetProb`: reads `m_destroyed.front()`, so a hit must be pending. */
  function TargetProb(g: Game, e: Engine): (heat: seq<seq<int>>)
    requires 0 <= g.rows && 0 <= g.cols && |e.destroyed| > 0
    ensures HeatShaped(g, heat)
    ensures forall r, c :: 0 <= r < g.rows && 0 <= c < g.cols ==> heat[r][c] == TargetCell(g, e, r, c)
  {
    seq(g.rows, r => seq(g.cols, c => TargetCell(g, e, r, c)))
  }

  /** One cell of the target map: zero off the crosshair of the first
      pending hit and on every pending hit, positive only on valid points,
      non-zero only where placements cover it, and equal to the plain count
      away from an amplified line. */
  lemma TargetCellMeaning(g: Game, e: Engine, r: int, c: int)
    requires |e.destroyed| > 0
    ensures var v := TargetCell(g, e, r, c); var t := e.destroyed[0];
      var base := CoverSum(g, e.missed, e.alive, t, Point(r, c));
      && v >= 0
      && (r != t.r && c != t.c ==> v == 0)
      && (Point(r, c) in e.destroyed ==> v == 0)
      && (v > 0 ==> ValidPoint(g, e.missed, Point(r, c)) && Point(r, c) !in e.destroyed)
      && (v != 0 ==> base > 0)
      && (Point(r, c) !in e.destroyed && !(RowLine(e) && r == t.r) && !(ColLine(e) && c == t.c) ==> v == base)
  {
    var t := e.destroyed[0];
    var base := CoverSum(g, e.missed, e.alive, t, Point(r, c));
    LineScaleSign(base, c, t.c);
    var v1 := if RowLine(e) && r == t.r then LineScale(base, c, t.c) else base;
    LineScaleSign(v1, r, t.r);
    if base > 0 {
      CoverSumSupport(g, e.missed, e.alive, t, Point(r, c));
    }
  }

  /** The target map as a whole: every cell is described by `TargetCellMeaning`. */
  lemma TargetHeatMeaning(g: Game, e: Engine)
    requires 0 <= g.rows && 0 <= g.cols && |e.destroyed| > 0
    ensures var heat := TargetProb(g, e); var t := e.destroyed[0];
      && (forall r, c :: 0 <= r < g.rows && 0 <= c < g.cols && r != t.r && c != t.c ==> heat[r][c] == 0)
      && (forall r, c :: 0 <= r < g.rows && 0 <= c < g.cols && Point(r, c) in e.destroyed ==> heat[r][c] == 0)
      && (forall r, c :: 0 <= r < g.rows && 0 <= c < g.cols && heat[r][c] > 0 ==>
            ValidPoint(g, e.missed, Point(r, c)) && Point(r, c) !in e.destroyed)
      && (forall r, c :: 0 <= r < g.rows && 0 <= c < g.cols ==> heat[r][c] >= 0)
  {
    forall r, c | 0 <= r < g.rows && 0 <= c < g.cols {
      TargetCellMeaning(g, e, r, c);
    }
  }

  /** The heat map for the current mode. */
  function Heat(g: Game, e: Engine): (heat: seq<seq<int>>)
    requires 0 <= g.rows && 0 <= g.cols
    requires |e.alive| > 0 && LengthsPositive(e.alive)
    requires e.mode == Target ==> |e.destroyed| > 0
    ensures HeatShaped(g, heat)
  {
    if e.mode == Hunt then HuntProb(g, e) else TargetProb(g, e)
  }

  /** `recommendAttack`: the default point when no ship is left; otherwise
      the first row-major cell of strictly maximal weight, which is a valid
      point (and, in TARGET mode, not a pending hit) whenever any weight is
      positive. */
  method RecommendAttack(g: Game, e: Engine) returns (p: Point)
    requires 0 <= g.rows && 0 <= g.cols
    requires LengthsPositive(e.alive)
    requires e.mode == Target ==> |e.destroyed| > 0
    ensures |e.alive| == 0 ==> p == Origin
    ensures |e.alive| > 0 ==> IsFirstMax(g, Heat(g, e), p)
    ensures |e.alive| > 0 && (exists r, c :: 0 <= r < g.rows && 0 <= c < g.cols && Heat(g, e)[r][c] > 0) ==>
      ValidPoint(g, e.missed, p) && (e.mode == Target ==> p !in e.destroyed)
    ensures |e.alive| > 0 && e.mode == Hunt && (exists k, st, dir :: 0 <= k < |e.alive| && ValidPlace(g, e.missed, st, e.alive[k].length, dir)) ==>
      ValidPoint(g, e.missed, p)
  {
    if |e.alive| == 0 {
      return Origin;
    }
    var heat := Heat(g, e);
    p := ArgMax(g, heat);
    if e.mode == Hunt {
      HuntHeatMeaning(g, e);
      if k, st, dir :| 0 <= k < |e.alive| && ValidPlace(g, e.missed, st, e.alive[k].length, dir) {
        HuntHasTarget(g, e, k, st, dir);
      }
    } else {
      TargetHeatMeaning(g, e);
    }
  }

  /** `recordAttackResult`. The turn loop only reports a sink together with
      a hit and a valid ship id; the valid-shot flag is ignored. */
  function RecordAttackResult(g: Game, e: Engine, p: Point, validShot: bool, shotHit: bool, shipDestroyed: bool, shipId: int): (e': Engine)
    requires shipDestroyed ==> shotHit && 0 <= shipId < |g.ships|
    ensures |e.alive| == 0 ==> e' == e
    ensures |e.alive| > 0 && shotHit && !shipDestroyed ==>
      e'.destroyed == e.destroyed + [p] && e'.mode == Target && e'.missed == e.missed && e'.alive == e.alive
    ensures |e.alive| > 0 && !shotHit ==>
      e'.missed == e.missed + [p] && e'.destroyed == e.destroyed && e'.mode == e.mode && e'.alive == e.alive
    ensures |e.alive| > 0 && shipDestroyed ==>
      var span := SunkSpan(p, (e.destroyed + [p])[0], ShipLength(g, shipId));
      && e'.alive == RemoveShip(e.alive, ShipSymbol(g, shipId))
      && (forall s :: s in e'.alive <==> s in e.alive && s.symbol != ShipSymbol(g, shipId))
      && e'.missed == e.missed + span
      && (forall q :: q in e'.destroyed <==> (q in e.destroyed || q == p) && q !in span)
      && e'.destroyed == RemoveCells(e.destroyed, span) + (if p in span then [] else [p])
      && (e'.mode == Hunt <==> |e'.destroyed| == 0)
  {
    if |e.alive| == 0 then e
    else
      var e1 := NoteShot(e, p, shotHit);
      if !shipDestroyed then e1
      else
        RemoveCellsAppend(e.destroyed, [p], SunkSpan(p, e1.destroyed[0], ShipLength(g, shipId)));
        Reconstruct(g, e1.(alive := RemoveShip(e1.alive, ShipSymbol(g, shipId))), p, shipId)
  }

  /** With distinct symbols in the roster, a sink of a ship still in the
      roster removes exactly one entry. */
  lemma SinkRemovesOneEntry(g: Game, e: Engine, p: Point, validShot: bool, shipId: int)
    requires |e.alive| > 0 && 0 <= shipId < |g.ships|
    requires forall i, j :: 0 <= i < j < |e.alive| ==> e.alive[i].symbol != e.alive[j].symbol
    requires exists i :: 0 <= i < |e.alive| && e.alive[i].symbol == ShipSymbol(g, shipId)
    ensures |RecordAttackResult(g, e, p, validShot, true, true, shipId).alive| == |e.alive| - 1
  {
    RemoveShipDistinct(e.alive, ShipSymbol(g, shipId));
  }

  /** Recording a result keeps the mode in step with the pending hits and the
      alive lengths positive. */
  lemma RecordKeepsEngineOk(g: Game, e: Engine, p: Point, validShot: bool, shotHit: bool, shipDestroyed: bool, shipId: int)
    requires EngineOk(e)
    requires shipDestroyed ==> shotHit && 0 <= shipId < |g.ships|
    ensures EngineOk(RecordAttackResult(g, e, p, validShot, shotHit, shipDestroyed, shipId))
  {
    var e' := RecordAttackResult(g, e, p, validShot, shotHit, shipDestroyed, shipId);
    forall i | 0 <= i < |e'.alive|
      ensures e'.alive[i].length >= 1
    {
      assert e'.alive[i] in e.alive;
    }
  }

  /** Mode transitions: HUNT becomes TARGET exactly on a hit that does not
      sink; TARGET becomes HUNT exactly on a sink that leaves nothing pending;
      otherwise the mode is unchanged. */
  lemma ModeTransitions(g: Game, e: Engine, p: Point, validShot: bool, shotHit: bool, shipDestroyed: bool, shipId: int)
    requires EngineOk(e) && |e.alive| > 0 && LengthsPositive(g.ships)
    requires shipDestroyed ==> shotHit && 0 <= shipId < |g.ships|
    ensures var e' := RecordAttackResult(g, e, p, validShot, shotHit, shipDestroyed, shipId);
      && (e.mode == Hunt && e'.mode == Target <==> e.mode == Hunt && shotHit && !shipDestroyed)
      && (e.mode == Target && e'.mode == Hunt <==> e.mode == Target && shipDestroyed && |e'.destroyed| == 0)
  {
    var e' := RecordAttackResult(g, e, p, validShot, shotHit, shipDestroyed, shipId);
    if e.mode == Hunt && shipDestroyed {
      assert e.destroyed == [];
      assert (e.destroyed + [p])[0] == p;
      assert p in SunkSpan(p, p, ShipLength(g, shipId)) by {
        assert SunkSpan(p, p, ShipLength(g, shipId))[0] == p;
      }
      assert forall q :: q !in e'.destroyed;
    }
  }
}
