/** Properties of the board that relate several operations: the board
    invariant is established and kept, placement is undone by removal,
    resolved cells cannot be attacked again, and symbols have one owner. */
module BoardProofs {
  import opened Geometry
  import opened Catalog
  import opened Boards

  /** Every catalog that `addShip` can build meets the catalog facts the
      board invariant relies on. */
  lemma WellFormedSymbolsOk(g: Game)
    requires WellFormed(g)
    ensures SymbolsOk(g)
  {
  }

  /** A fresh board satisfies the invariant. */
  lemma NewBoardInv(g: Game)
    requires SymbolsOk(g) && 0 <= g.rows && 0 <= g.cols
    ensures Inv(g, NewBoard(g))
  {
  }

  /** Every non-reserved symbol on the grid belongs to exactly one recorded
      instance, and that instance's span covers the cell. */
  lemma OwnerUnique(g: Game, b: Board, p: Point)
    requires Inv(g, b) && IsValid(g, p) && !Reserved(b.grid[p.r][p.c])
    ensures exists k ::
      && 0 <= k < |b.instances|
      && ShipSymbol(g, b.instances[k].shipId) == b.grid[p.r][p.c]
      && InSpan(p, b.instances[k].topOrLeft, LengthOf(g, b.instances[k]), b.instances[k].dir)
      && forall j :: 0 <= j < |b.instances| && ShipSymbol(g, b.instances[j].shipId) == b.grid[p.r][p.c] ==> j == k
  {
    assert Owned(g, b, p.r, p.c);
    var k :| 0 <= k < |b.instances| && ShipSymbol(g, b.instances[k].shipId) == b.grid[p.r][p.c]
      && InSpan(p, b.instances[k].topOrLeft, LengthOf(g, b.instances[k]), b.instances[k].dir);
    forall j | 0 <= j < |b.instances| && ShipSymbol(g, b.instances[j].shipId) == b.grid[p.r][p.c]
      ensures j == k
    {
      assert b.instances[j].shipId == b.instances[k].shipId;
    }
  }

  /** A successful placement keeps the invariant: the new cells are owned by
      the new instance, every other owner is still recorded. */
  lemma PlacePreservesInv(g: Game, b: Board, p: Point, shipId: int, dir: Direction)
    requires Inv(g, b)
    ensures Inv(g, PlaceShip(g, b, p, shipId, dir).board)
  {
    var out := PlaceShip(g, b, p, shipId, dir);
    if out.ok {
      var b' := out.board;
      var n := |b.instances|;
      var inst := ShipInstance(shipId, p, dir);
      assert b'.instances[n] == inst;
      assert SpanOnBoard(g, inst);
      forall r, c | 0 <= r < g.rows && 0 <= c < g.cols
        ensures Owned(g, b', r, c)
      {
        if InSpan(Point(r, c), p, ShipLength(g, shipId), dir) {
          InSpanIsStep(Point(r, c), p, ShipLength(g, shipId), dir);
          assert b'.grid[r][c] == ShipSymbol(g, shipId);
        } else if !Reserved(b'.grid[r][c]) {
          assert Owned(g, b, r, c);
          var k :| 0 <= k < n && ShipSymbol(g, b.instances[k].shipId) == b.grid[r][c]
            && InSpan(Point(r, c), b.instances[k].topOrLeft, LengthOf(g, b.instances[k]), b.instances[k].dir);
          assert b'.instances[k] == b.instances[k];
        }
      }
    }
  }

  /** A cell outside the removed span keeps an owner among the remaining instances. */
  lemma RemovalKeepsOwner(g: Game, b: Board, k: int, b': Board, r: int, c: int)
    requires Inv(g, b) && 0 <= k < |b.instances|
    requires b'.instances == b.instances[..k] + b.instances[k + 1..]
    requires Shaped(g, b'.grid) && 0 <= r < g.rows && 0 <= c < g.cols
    requires !InSpan(Point(r, c), b.instances[k].topOrLeft, LengthOf(g, b.instances[k]), b.instances[k].dir)
    requires b'.grid[r][c] == b.grid[r][c] && !Reserved(b.grid[r][c])
    requires forall j :: 0 <= j < |b'.instances| ==> SpanOnBoard(g, b'.instances[j])
    ensures Owned(g, b', r, c)
  {
    assert Owned(g, b, r, c);
    var j :| 0 <= j < |b.instances| && ShipSymbol(g, b.instances[j].shipId) == b.grid[r][c]
      && InSpan(Point(r, c), b.instances[j].topOrLeft, LengthOf(g, b.instances[j]), b.instances[j].dir);
    if j < k {
      assert b'.instances[j] == b.instances[j];
    } else {
      assert j != k;
      assert b'.instances[j - 1] == b.instances[j];
    }
  }

  /** A successful removal keeps the invariant: the removed ship's symbol
      can only sit inside its own span, which is now open water. */
  lemma UnplacePreservesInv(g: Game, b: Board, p: Point, shipId: int, dir: Direction)
    requires Inv(g, b)
    ensures Inv(g, UnplaceShip(g, b, p, shipId, dir).board)
  {
    var out := UnplaceShip(g, b, p, shipId, dir);
    var k := FindInstance(b.instances, ShipInstance(shipId, p, dir));
    if out.ok {
      var b' := out.board;
      assert b'.instances == b.instances[..k] + b.instances[k + 1..];
      assert forall j :: 0 <= j < |b'.instances| ==> b'.instances[j] in b.instances;
      forall r, c | 0 <= r < g.rows && 0 <= c < g.cols && !Reserved(b'.grid[r][c])
        ensures Owned(g, b', r, c)
      {
        RemovalKeepsOwner(g, b, k, b', r, c);
      }
    }
  }

  /** An attack only turns one cell into 'o' or 'X', so it keeps the invariant. */
  lemma AttackPreservesInv(g: Game, b: Board, p: Point)
    requires Inv(g, b)
    ensures Inv(g, Attack(g, b, p).board)
  {
    var b' := Attack(g, b, p).board;
    forall r, c | 0 <= r < g.rows && 0 <= c < g.cols
      ensures Owned(g, b', r, c)
    {
      assert Owned(g, b, r, c);
    }
  }

  /** `unblock` and `clear` only write open water, so they keep the invariant. */
  lemma UnblockAndClearPreserveInv(g: Game, b: Board)
    requires Inv(g, b)
    ensures Inv(g, Unblock(g, b)) && Inv(g, Clear(g, b))
  {
    var u := Unblock(g, b);
    forall r, c | 0 <= r < g.rows && 0 <= c < g.cols
      ensures Owned(g, u, r, c)
    {
      assert Owned(g, b, r, c);
    }
  }

  /** Removing a ship right after placing it with the same arguments succeeds
      and restores the grid and the instance list exactly. */
  lemma PlaceUnplaceRoundTrip(g: Game, b: Board, p: Point, shipId: int, dir: Direction)
    requires Inv(g, b)
    requires PlaceShip(g, b, p, shipId, dir).ok
    ensures Consistent(g, PlaceShip(g, b, p, shipId, dir).board)
    ensures UnplaceShip(g, PlaceShip(g, b, p, shipId, dir).board, p, shipId, dir) == Outcome(true, b)
  {
    PlacePreservesInv(g, b, p, shipId, dir);
    RoundTripInstances(g, b, p, shipId, dir);
    RoundTripGrid(g, b, p, shipId, dir);
  }

  /** The instance half of the round trip: the appended instance is the first
      match, so removing it leaves the old list. */
  lemma RoundTripInstances(g: Game, b: Board, p: Point, shipId: int, dir: Direction)
    requires Inv(g, b)
    requires PlaceShip(g, b, p, shipId, dir).ok
    requires Consistent(g, PlaceShip(g, b, p, shipId, dir).board)
    ensures UnplaceShip(g, PlaceShip(g, b, p, shipId, dir).board, p, shipId, dir).ok
    ensures UnplaceShip(g, PlaceShip(g, b, p, shipId, dir).board, p, shipId, dir).board.instances == b.instances
  {
    var placed := PlaceShip(g, b, p, shipId, dir).board;
    var inst := ShipInstance(shipId, p, dir);
    var n := |b.instances|;
    assert placed.instances == b.instances + [inst];
    assert forall j :: 0 <= j < n ==> placed.instances[j].shipId != shipId;
    assert placed.instances[n] == inst;
    var out := UnplaceShip(g, placed, p, shipId, dir);
    assert out.ok;
    assert placed.instances[..n] == b.instances;
  }

  /** The grid half of the round trip: the span was open water before the
      placement, and removal writes open water back onto exactly the span. */
  lemma RoundTripGrid(g: Game, b: Board, p: Point, shipId: int, dir: Direction)
    requires Inv(g, b)
    requires PlaceShip(g, b, p, shipId, dir).ok
    requires Consistent(g, PlaceShip(g, b, p, shipId, dir).board)
    requires UnplaceShip(g, PlaceShip(g, b, p, shipId, dir).board, p, shipId, dir).ok
    ensures UnplaceShip(g, PlaceShip(g, b, p, shipId, dir).board, p, shipId, dir).board.grid == b.grid
  {
    var placed := PlaceShip(g, b, p, shipId, dir).board;
    var out := UnplaceShip(g, placed, p, shipId, dir);
    forall r | 0 <= r < g.rows
      ensures out.board.grid[r] == b.grid[r]
    {
      forall c | 0 <= c < g.cols
        ensures out.board.grid[r][c] == b.grid[r][c]
      {
        if InSpan(Point(r, c), p, ShipLength(g, shipId), dir) {
          InSpanIsStep(Point(r, c), p, ShipLength(g, shipId), dir);
        }
      }
    }
  }

  /** Once an attack has been accepted, the same cell holds 'o' or 'X', so
      attacking it again is refused and changes nothing. */
  lemma RepeatAttackInvalid(g: Game, b: Board, p: Point)
    requires Inv(g, b)
    requires Attack(g, b, p).valid
    ensures Inv(g, Attack(g, b, p).board)
    ensures Attack(g, Attack(g, b, p).board, p) == AttackResult(false, false, false, -1, Attack(g, b, p).board)
  {
    AttackPreservesInv(g, b, p);
  }
}
