/** The competition GoodPlayer (`Player1::GoodPlayer`, and `Player2::GoodPlayer`,
    which is the same code under another namespace). It shares validity,
    placement counting, the hunt map, the argmax and the sink reconstruction
    with the main build; it differs in three ways: the line amplification
    only doubles, `recommendAttack` has no empty-roster guard, and
    `recordAttackResult` never shrinks the alive roster. */
module CompetePlayer {
  import opened Geometry
  import opened Results
  import opened Catalog
  import opened Targeting
  import opened Dispatch
  import GoodPlayer

  /** The target weight of one cell: placements through the first pending
      hit that cover it, doubled on a shared row and again on a shared
      column, and zero on every pending hit. */
  function TargetCell(g: Game, e: Engine, r: int, c: int): int
    requires |e.destroyed| > 0
  {
    var t := e.destroyed[0];
    var base := CoverSum(g, e.missed, e.alive, t, Point(r, c));
    var v1 := if GoodPlayer.RowLine(e) && r == t.r then base * 2 else base;
    var v2 := if GoodPlayer.ColLine(e) && c == t.c then v1 * 2 else v1;
    if Point(r, c) in e.destroyed then 0 else v2
  }

  /** `targetProb` of the competition build. */
  function TargetProb(g: Game, e: Engine): (heat: seq<seq<int>>)
    requires 0 <= g.rows && 0 <= g.cols && |e.destroyed| > 0
    ensures HeatShaped(g, heat)
    ensures forall r, c :: 0 <= r < g.rows && 0 <= c < g.cols ==> heat[r][c] == TargetCell(g, e, r, c)
  {
    seq(g.rows, r => seq(g.cols, c => TargetCell(g, e, r, c)))
  }

  /** One cell of the competition target map: zero off the crosshair of the
      first pending hit and on every pending hit, positive only on valid
      points, and otherwise the placement count doubled on the shared row
      and doubled on the shared column through that hit, with no distance
      factor. */
  lemma TargetCellMeaning(g: Game, e: Engine, r: int, c: int)
    requires |e.destroyed| > 0
    ensures var v := TargetCell(g, e, r, c); var t := e.destroyed[0];
      var base := CoverSum(g, e.missed, e.alive, t, Point(r, c));
      && v >= 0
      && (r != t.r && c != t.c ==> v == 0)
      && (Point(r, c) in e.destroyed ==> v == 0)
      && (v > 0 ==> ValidPoint(g, e.missed, Point(r, c)) && Point(r, c) !in e.destroyed)
      && (Point(r, c) !in e.destroyed ==>
            v == base * (if GoodPlayer.RowLine(e) && r == t.r then 2 else 1)
                      * (if GoodPlayer.ColLine(e) && c == t.c then 2 else 1))
  {
    var t := e.destroyed[0];
    var base := CoverSum(g, e.missed, e.alive, t, Point(r, c));
    if base > 0 {
      CoverSumSupport(g, e.missed, e.alive, t, Point(r, c));
    }
  }

  /** The competition target map as a whole. */
  lemma TargetHeatMeaning(g: Game, e: Engine)
    requires 0 <= g.rows && 0 <= g.cols && |e.destroyed| > 0
    ensures var heat := TargetProb(g, e); var t := e.destroyed[0];
      && (forall r, c :: 0 <= r < g.rows && 0 <= c < g.cols && r != t.r && c != t.c ==> heat[r][c] == 0)
      && (forall r, c :: 0 <= r < g.rows && 0 <= c < g.cols && Point(r, c) in e.destroyed ==> heat[r][c] == 0)
      && (forall r, c :: 0 <= r < g.rows && 0 <= c < g.cols && heat[r][c] > 0 ==>
            ValidPoint(g, e.missed, Point(r, c)) && Point(r, c) !in e.destroyed)
      && (forall r, c :: 0 <= r < g.rows && 0 <= c < g.cols && Point(r, c) !in e.destroyed ==>
            var base := CoverSum(g, e.missed, e.alive, t, Point(r, c));
            heat[r][c] == base * (if GoodPlayer.RowLine(e) && r == t.r then 2 else 1)
                               * (if GoodPlayer.ColLine(e) && c == t.c then 2 else 1))
  {
    forall r, c | 0 <= r < g.rows && 0 <= c < g.cols {
      TargetCellMeaning(g, e, r, c);
    }
  }

  /** On a board within the supported maximum, with the first pending hit on
      the board, the main build's distance-scaled amplification never gives
      a cell less weight than the competition's plain doubling, and the two
      agree off the amplified lines. */
  lemma AmplificationDominates(g: Game, e: Engine, r: int, c: int)
    requires g.rows <= MAXROWS && g.cols <= MAXCOLS
    requires |e.destroyed| > 0 && IsValid(g, e.destroyed[0])
    requires 0 <= r < g.rows && 0 <= c < g.cols
    ensures TargetCell(g, e, r, c) <= GoodPlayer.TargetCell(g, e, r, c)
    ensures !(GoodPlayer.RowLine(e) && r == e.destroyed[0].r) && !(GoodPlayer.ColLine(e) && c == e.destroyed[0].c) ==>
      TargetCell(g, e, r, c) == GoodPlayer.TargetCell(g, e, r, c)
  {
    var t := e.destroyed[0];
    var base := CoverSum(g, e.missed, e.alive, t, Point(r, c));
    ScaleAtLeastDouble(base, c, t.c);
    var v1 := if GoodPlayer.RowLine(e) && r == t.r then base * 2 else base;
    var w1 := if GoodPlayer.RowLine(e) && r == t.r then GoodPlayer.LineScale(base, c, t.c) else base;
    assert 0 <= v1 <= w1;
    ScaleAtLeastDouble(w1, r, t.r);
    assert v1 * 2 <= w1 * 2 <= GoodPlayer.LineScale(w1, r, t.r);
  }

  /** While the distance to the anchor is at most 10 the factor
      10 / distance is at least 1, so the main build's scaling is at least a
      doubling; on a line of at most 10 cells this holds everywhere. */
  lemma ScaleAtLeastDouble(v: int, i: int, anchor: int)
    requires v >= 0 && GoodPlayer.Abs(i - anchor) <= 10
    ensures v * 2 <= GoodPlayer.LineScale(v, i, anchor)
  {
    if i != anchor {
      var d := GoodPlayer.Abs(i - anchor);
      assert 1 <= d <= 10;
      assert 10 / d >= 1;
      assert v * 2 * (10 / d) >= v * 2 * 1;
    }
  }

  /** The heat map for the current mode. */
  function Heat(g: Game, e: Engine): (heat: seq<seq<int>>)
    requires 0 <= g.rows && 0 <= g.cols
    requires LengthsPositive(e.alive)
    requires e.mode == Hunt ==> |e.alive| > 0
    requires e.mode == Target ==> |e.destroyed| > 0
    ensures HeatShaped(g, heat)
  {
    if e.mode == Hunt then HuntProb(g, e) else TargetProb(g, e)
  }

  /** `recommendAttack` of the competition build: no empty-roster guard, so
      HUNT mode needs a ship to read the parity length from; the result is
      the first row-major cell of strictly maximal weight, a valid point
      (and in TARGET mode not a pending hit) whenever any weight is positive. */
  method RecommendAttack(g: Game, e: Engine) returns (p: Point)
    requires 0 <= g.rows && 0 <= g.cols
    requires LengthsPositive(e.alive)
    requires e.mode == Hunt ==> |e.alive| > 0
    requires e.mode == Target ==> |e.destroyed| > 0
    ensures IsFirstMax(g, Heat(g, e), p)
    ensures (exists r, c :: 0 <= r < g.rows && 0 <= c < g.cols && Heat(g, e)[r][c] > 0) ==>
      ValidPoint(g, e.missed, p) && (e.mode == Target ==> p !in e.destroyed)
    ensures e.mode == Hunt && (exists k, st, dir :: 0 <= k < |e.alive| && ValidPlace(g, e.missed, st, e.alive[k].length, dir)) ==>
      ValidPoint(g, e.missed, p)
  {
    var heat := Heat(g, e);
    p := ArgMax(g, heat);
    if e.mode == Hunt {
      HuntHeatMeaning(g, e);
      if k, st, dir :| 0 <= k < |e.alive| && ValidPlace(g, e.missed, st, e.alive[k].length, dir) {
        HuntHasTarget(g, e, k, st, dir);
      }
    } else {
      TargetHeatMeaning(g, e);
    }
  }

  /** `recordAttackResult` of the competition build: the same update as the
      main build, without the empty-roster guard and without removing the
      sunk ship from the roster. */
  function RecordAttackResult(g: Game, e: Engine, p: Point, validShot: bool, shotHit: bool, shipDestroyed: bool, shipId: int): (e': Engine)
    requires shipDestroyed ==> shotHit && 0 <= shipId < |g.ships|
    ensures e'.alive == e.alive
    ensures shotHit && !shipDestroyed ==>
      e'.destroyed == e.destroyed + [p] && e'.mode == Target && e'.missed == e.missed
    ensures !shotHit ==>
      e'.missed == e.missed + [p] && e'.destroyed == e.destroyed && e'.mode == e.mode
    ensures shipDestroyed ==>
      var span := SunkSpan(p, (e.destroyed + [p])[0], ShipLength(g, shipId));
      && e'.missed == e.missed + span
      && (forall q :: q in e'.destroyed <==> (q in e.destroyed || q == p) && q !in span)
      && e'.destroyed == RemoveCells(e.destroyed, span) + (if p in span then [] else [p])
      && (e'.mode == Hunt <==> |e'.destroyed| == 0)
  {
    var e1 := NoteShot(e, p, shotHit);
    if !shipDestroyed then e1
    else
      RemoveCellsAppend(e.destroyed, [p], SunkSpan(p, e1.destroyed[0], ShipLength(g, shipId)));
      Reconstruct(g, e1, p, shipId)
  }

  /** One reported attack result, as the turn loop passes it in. */
  datatype Shot = Shot(p: Point, validShot: bool, shotHit: bool, shipDestroyed: bool, shipId: int)

  predicate ShotOk(g: Game, s: Shot) {
    s.shipDestroyed ==> s.shotHit && 0 <= s.shipId < |g.ships|
  }

  /** The engine after recording each result of `shots` in order. */
  function Replay(g: Game, e: Engine, shots: seq<Shot>): (e': Engine)
    requires forall i :: 0 <= i < |shots| ==> ShotOk(g, shots[i])
    decreases |shots|
  {
    if |shots| == 0 then e
    else
      var s := shots[|shots| - 1];
      assert ShotOk(g, s);
      RecordAttackResult(g, Replay(g, e, shots[..|shots| - 1]), s.p, s.validShot, s.shotHit, s.shipDestroyed, s.shipId)
  }

  /** The roster stays as the constructor built it for the whole game, and
      the mode stays in step with the pending hits, so on a non-empty
      catalog of positive lengths `recommendAttack` is always defined. */
  lemma {:induction false} RosterIsCatalog(g: Game, shots: seq<Shot>)
    requires LengthsPositive(g.ships)
    requires forall i :: 0 <= i < |shots| ==> ShotOk(g, shots[i])
    ensures Replay(g, NewEngine(g), shots).alive == g.ships
    ensures EngineOk(Replay(g, NewEngine(g), shots))
    decreases |shots|
  {
    if |shots| > 0 {
      var prefix := shots[..|shots| - 1];
      RosterIsCatalog(g, prefix);
      var s := shots[|shots| - 1];
      var e := Replay(g, NewEngine(g), prefix);
      RecordKeepsEngineOk(g, e, s.p, s.validShot, s.shotHit, s.shipDestroyed, s.shipId);
    }
  }

  /** Recording a result keeps the mode in step with the pending hits. */
  lemma RecordKeepsEngineOk(g: Game, e: Engine, p: Point, validShot: bool, shotHit: bool, shipDestroyed: bool, shipId: int)
    requires EngineOk(e)
    requires shipDestroyed ==> shotHit && 0 <= shipId < |g.ships|
    ensures EngineOk(RecordAttackResult(g, e, p, validShot, shotHit, shipDestroyed, shipId))
  {
  }

  /** Mode transitions: HUNT becomes TARGET exactly on a hit that does not
      sink; TARGET becomes HUNT exactly on a sink that leaves nothing pending. */
  lemma ModeTransitions(g: Game, e: Engine, p: Point, validShot: bool, shotHit: bool, shipDestroyed: bool, shipId: int)
    requires EngineOk(e) && LengthsPositive(g.ships)
    requires shipDestroyed ==> shotHit && 0 <= shipId < |g.ships|
    ensures var e' := RecordAttackResult(g, e, p, validShot, shotHit, shipDestroyed, shipId);
      && (e.mode == Hunt && e'.mode == Target <==> e.mode == Hunt && shotHit && !shipDestroyed)
      && (e.mode == Target && e'.mode == Hunt <==> e.mode == Target && shipDestroyed && |e'.destroyed| == 0)
  {
    var e' := RecordAttackResult(g, e, p, validShot, shotHit, shipDestroyed, shipId);
    if e.mode == Hunt && shipDestroyed {
      assert e.destroyed == [];
      assert (e.destroyed + [p])[0] == p;
      assert p in SunkSpan(p, p, ShipLength(g, shipId)) by {
        assert SunkSpan(p, p, ShipLength(g, shipId))[0] == p;
      }
      assert forall q :: q !in e'.destroyed;
    }
  }

  /** The two player kinds of the competition build; they run the same code. */
  datatype Kind = Player1 | Player2

  const Types: seq<string> := ["good1", "good2"]

  /** `createPlayer`: "good1" and "good2" select the two kinds, any other
      name yields no player. */
  function CreatePlayer(t: string): (k: Option<Kind>)
    ensures k == Some(Player1) <==> t == "good1"
    ensures k == Some(Player2) <==> t == "good2"
    ensures k == None <==> t != "good1" && t != "good2"
  {
    match Lookup(Types, t)
    case 0 => Some(Player1)
    case 1 => Some(Player2)
    case _ => None
  }
}
