/** One player's grid (Board.cpp): ship placement and removal, attacks, and
    fleet-status queries. The grid holds the program's own characters:
    '.' open water, 'o' a miss, 'X' a hit (or a temporary block), and a
    ship's catalog symbol for each cell that ship occupies. */
module Boards {
  import opened Geometry
  import opened Catalog

  const Empty: char := '.'
  const Miss: char := 'o'
  const Hit: char := 'X'

  datatype ShipInstance = ShipInstance(shipId: int, topOrLeft: Point, dir: Direction)

  datatype Board = Board(grid: seq<seq<char>>, instances: seq<ShipInstance>)

  /** The outcome of `placeShip` / `unplaceShip`: the returned flag and the board afterwards. */
  datatype Outcome = Outcome(ok: bool, board: Board)

  /** The four results of `attack` (its return value and out-parameters) and the board afterwards. */
  datatype AttackResult = AttackResult(valid: bool, shotHit: bool, shipDestroyed: bool, shipId: int, board: Board)

  /** The grid has the game's dimensions. */
  predicate Shaped(g: Game, grid: seq<seq<char>>) {
    0 <= g.cols && |grid| == g.rows && forall r :: 0 <= r < |grid| ==> |grid[r]| == g.cols
  }

  function At(grid: seq<seq<char>>, p: Point): char
    requires 0 <= p.r < |grid| && 0 <= p.c < |grid[p.r]|
  {
    grid[p.r][p.c]
  }

  function SetCell(grid: seq<seq<char>>, p: Point, ch: char): (grid': seq<seq<char>>)
    requires 0 <= p.r < |grid| && 0 <= p.c < |grid[p.r]|
    ensures |grid'| == |grid| && forall r :: 0 <= r < |grid| ==> |grid'[r]| == |grid[r]|
    ensures forall r, c :: 0 <= r < |grid| && 0 <= c < |grid[r]| ==>
      grid'[r][c] == if Point(r, c) == p then ch else grid[r][c]
  {
    grid[p.r := grid[p.r][p.c := ch]]
  }

  /** Writes `ch` into every cell of a span, leaving the rest of the grid alone. */
  function Paint(grid: seq<seq<char>>, p: Point, len: int, dir: Direction, ch: char): (grid': seq<seq<char>>)
    ensures |grid'| == |grid| && forall r :: 0 <= r < |grid| ==> |grid'[r]| == |grid[r]|
    ensures forall r, c :: 0 <= r < |grid| && 0 <= c < |grid[r]| ==>
      grid'[r][c] == if InSpan(Point(r, c), p, len, dir) then ch else grid[r][c]
  {
    seq(|grid|, r requires 0 <= r < |grid| =>
      seq(|grid[r]|, c requires 0 <= c < |grid[r]| =>
        if InSpan(Point(r, c), p, len, dir) then ch else grid[r][c]))
  }

  /** The length of the instance's ship type. */
  function LengthOf(g: Game, inst: ShipInstance): int
    requires 0 <= inst.shipId < |g.ships|
  {
    ShipLength(g, inst.shipId)
  }

  /** Every cell of the instance's span lies on the board. */
  ghost predicate SpanOnBoard(g: Game, inst: ShipInstance) {
    && 0 <= inst.shipId < |g.ships|
    && forall i :: 0 <= i < LengthOf(g, inst) ==> IsValid(g, CellAt(inst.topOrLeft, inst.dir, i))
  }

  /** The grid is sized and every recorded instance names a real ship whose span is on the board. */
  ghost predicate Consistent(g: Game, b: Board) {
    && Shaped(g, b.grid)
    && forall k :: 0 <= k < |b.instances| ==> SpanOnBoard(g, b.instances[k])
  }

  /** The catalog facts the board relies on: positive lengths, unreserved
      and pairwise distinct symbols (guaranteed by `Catalog.AddShip`). */
  ghost predicate SymbolsOk(g: Game) {
    && (forall i :: 0 <= i < |g.ships| ==> 1 <= g.ships[i].length && !Reserved(g.ships[i].symbol))
    && (forall i, j :: 0 <= i < j < |g.ships| ==> g.ships[i].symbol != g.ships[j].symbol)
  }

  /** A cell holding a non-reserved symbol lies in the span of a recorded instance of that symbol. */
  ghost predicate Owned(g: Game, b: Board, r: int, c: int)
    requires Consistent(g, b) && 0 <= r < g.rows && 0 <= c < g.cols
  {
    || Reserved(b.grid[r][c])
    || exists k ::
         && 0 <= k < |b.instances|
         && ShipSymbol(g, b.instances[k].shipId) == b.grid[r][c]
         && InSpan(Point(r, c), b.instances[k].topOrLeft, LengthOf(g, b.instances[k]), b.instances[k].dir)
  }

  /** The board invariant: every operation below preserves it (see BoardProofs). */
  ghost predicate Inv(g: Game, b: Board) {
    && SymbolsOk(g)
    && Consistent(g, b)
    && (forall j, k :: 0 <= j < k < |b.instances| ==> b.instances[j].shipId != b.instances[k].shipId)
    && forall r, c :: 0 <= r < g.rows && 0 <= c < g.cols ==> Owned(g, b, r, c)
  }

  /** A fresh board: all open water, no ships. */
  function NewBoard(g: Game): (b: Board)
    requires 0 <= g.rows && 0 <= g.cols
    ensures Shaped(g, b.grid) && b.instances == []
    ensures forall r, c :: 0 <= r < g.rows && 0 <= c < g.cols ==> b.grid[r][c] == Empty
  {
    Board(seq(g.rows, _ => seq(g.cols, _ => Empty)), [])
  }

  /** `clear`: resets every cell to open water; the instance list is not touched. */
  function Clear(g: Game, b: Board): (b': Board)
    requires Shaped(g, b.grid)
    ensures Shaped(g, b'.grid) && b'.instances == b.instances
    ensures forall r, c :: 0 <= r < g.rows && 0 <= c < g.cols ==> b'.grid[r][c] == Empty
  {
    b.(grid := NewBoard(g).grid)
  }

  /** `unblock`: every 'X' becomes '.', every other cell and the instance list are unchanged. */
  function Unblock(g: Game, b: Board): (b': Board)
    requires Shaped(g, b.grid)
    ensures Shaped(g, b'.grid) && b'.instances == b.instances
    ensures forall r, c :: 0 <= r < g.rows && 0 <= c < g.cols ==>
      (b.grid[r][c] == Hit ==> b'.grid[r][c] == Empty) && (b.grid[r][c] != Hit ==> b'.grid[r][c] == b.grid[r][c])
    ensures forall r, c :: 0 <= r < g.rows && 0 <= c < g.cols ==> b'.grid[r][c] != Hit
  {
    b.(grid := seq(g.rows, r requires 0 <= r < g.rows =>
                 seq(g.cols, c requires 0 <= c < g.cols =>
                   if b.grid[r][c] == Hit then Empty else b.grid[r][c])))
  }

  /** The first `len` cells from `p` along `dir` are on the board and open
      water; the validation loop of `placeShip`. */
  function SpanFree(g: Game, grid: seq<seq<char>>, p: Point, len: int, dir: Direction): (free: bool)
    requires Shaped(g, grid)
    ensures free <==> forall i :: 0 <= i < len ==>
      IsValid(g, CellAt(p, dir, i)) && grid[CellAt(p, dir, i).r][CellAt(p, dir, i).c] == Empty
  {
    if len <= 0 then true
    else
      var q := CellAt(p, dir, len - 1);
      SpanFree(g, grid, p, len - 1, dir) && IsValid(g, q) && grid[q.r][q.c] == Empty
  }

  /** Some recorded instance has ship id `shipId`. */
  function HasShip(instances: seq<ShipInstance>, shipId: int): (found: bool)
    ensures found <==> exists k :: 0 <= k < |instances| && instances[k].shipId == shipId
  {
    if |instances| == 0 then false
    else instances[0].shipId == shipId || HasShip(instances[1..], shipId)
  }

  /** `placeShip`: every check runs before the first write, so a refusal
      leaves the board exactly as it was. */
  function PlaceShip(g: Game, b: Board, p: Point, shipId: int, dir: Direction): (r: Outcome)
    requires Shaped(g, b.grid)
    ensures !(0 <= shipId < |g.ships|) ==> r == Outcome(false, b)
    ensures (exists k :: 0 <= k < |b.instances| && b.instances[k].shipId == shipId) ==> r == Outcome(false, b)
    ensures 0 <= shipId < |g.ships| &&
            (exists i :: 0 <= i < ShipLength(g, shipId) &&
               (!IsValid(g, CellAt(p, dir, i)) || b.grid[CellAt(p, dir, i).r][CellAt(p, dir, i).c] != Empty))
            ==> r == Outcome(false, b)
    ensures r.ok <==>
      && 0 <= shipId < |g.ships|
      && (forall k :: 0 <= k < |b.instances| ==> b.instances[k].shipId != shipId)
      && (forall i :: 0 <= i < ShipLength(g, shipId) ==>
            IsValid(g, CellAt(p, dir, i)) && b.grid[CellAt(p, dir, i).r][CellAt(p, dir, i).c] == Empty)
    ensures !r.ok ==> r.board == b
    ensures r.ok ==> Shaped(g, r.board.grid)
    ensures r.ok ==> r.board.instances == b.instances + [ShipInstance(shipId, p, dir)]
    ensures r.ok ==> forall i :: 0 <= i < ShipLength(g, shipId) ==>
      r.board.grid[CellAt(p, dir, i).r][CellAt(p, dir, i).c] == ShipSymbol(g, shipId)
    ensures r.ok ==> forall row, col ::
      (0 <= row < g.rows && 0 <= col < g.cols && !InSpan(Point(row, col), p, ShipLength(g, shipId), dir))
      ==> r.board.grid[row][col] == b.grid[row][col]
  {
    if shipId < 0 || shipId >= NShips(g) then Outcome(false, b)
    else if HasShip(b.instances, shipId) then Outcome(false, b)
    else if !SpanFree(g, b.grid, p, ShipLength(g, shipId), dir) then Outcome(false, b)
    else
      assert forall i :: 0 <= i < ShipLength(g, shipId) ==> InSpan(CellAt(p, dir, i), p, ShipLength(g, shipId), dir);
      Outcome(true, Board(Paint(b.grid, p, ShipLength(g, shipId), dir, ShipSymbol(g, shipId)),
                          b.instances + [ShipInstance(shipId, p, dir)]))
  }

  /** Index of the first instance equal to `inst`, or |instances| if none. */
  function FindInstance(instances: seq<ShipInstance>, inst: ShipInstance): (k: int)
    ensures 0 <= k <= |instances|
    ensures k < |instances| ==> instances[k] == inst
    ensures forall j :: 0 <= j < k ==> instances[j] != inst
  {
    if |instances| == 0 then 0
    else if instances[0] == inst then 0
    else 1 + FindInstance(instances[1..], inst)
  }

  /** `unplaceShip`: succeeds only when an instance matches the triple
      exactly; then that span becomes open water and only that instance is
      forgotten. */
  function UnplaceShip(g: Game, b: Board, p: Point, shipId: int, dir: Direction): (r: Outcome)
    requires Consistent(g, b)
    ensures r.ok <==> exists k :: 0 <= k < |b.instances| && b.instances[k] == ShipInstance(shipId, p, dir)
    ensures !r.ok ==> r.board == b
    ensures r.ok ==> Shaped(g, r.board.grid)
    ensures r.ok ==> exists k ::
      && 0 <= k < |b.instances|
      && b.instances[k] == ShipInstance(shipId, p, dir)
      && (forall j :: 0 <= j < k ==> b.instances[j] != ShipInstance(shipId, p, dir))
      && r.board.instances == b.instances[..k] + b.instances[k + 1..]
    ensures r.ok ==> forall row, col :: 0 <= row < g.rows && 0 <= col < g.cols ==>
      r.board.grid[row][col] ==
        if InSpan(Point(row, col), p, ShipLength(g, shipId), dir) then Empty else b.grid[row][col]
  {
    var inst := ShipInstance(shipId, p, dir);
    var k := FindInstance(b.instances, inst);
    if k == |b.instances| then Outcome(false, b)
    else
      Outcome(true, Board(Paint(b.grid, p, ShipLength(g, shipId), dir, Empty),
                          b.instances[..k] + b.instances[k + 1..]))
  }

  /** No cell of the instance's span still holds its ship's symbol. */
  ghost predicate Sunk(g: Game, grid: seq<seq<char>>, inst: ShipInstance)
    requires Shaped(g, grid) && SpanOnBoard(g, inst)
  {
    forall i :: 0 <= i < LengthOf(g, inst) ==>
      grid[CellAt(inst.topOrLeft, inst.dir, i).r][CellAt(inst.topOrLeft, inst.dir, i).c] != ShipSymbol(g, inst.shipId)
  }

  /** The first `n` cells of the instance's span are free of its symbol. */
  function ClearedPrefix(g: Game, grid: seq<seq<char>>, inst: ShipInstance, n: int): (cleared: bool)
    requires Shaped(g, grid) && SpanOnBoard(g, inst) && n <= LengthOf(g, inst)
    ensures cleared <==> forall i :: 0 <= i < n ==>
      grid[CellAt(inst.topOrLeft, inst.dir, i).r][CellAt(inst.topOrLeft, inst.dir, i).c] != ShipSymbol(g, inst.shipId)
  {
    if n <= 0 then true
    else
      var q := CellAt(inst.topOrLeft, inst.dir, n - 1);
      ClearedPrefix(g, grid, inst, n - 1) && grid[q.r][q.c] != ShipSymbol(g, inst.shipId)
  }

  /** `shipInstanceDestroyed`: scans the span for the ship's symbol. */
  function ShipInstanceDestroyed(g: Game, grid: seq<seq<char>>, inst: ShipInstance): (d: bool)
    requires Shaped(g, grid) && SpanOnBoard(g, inst)
    ensures d <==> Sunk(g, grid, inst)
  {
    ClearedPrefix(g, grid, inst, LengthOf(g, inst))
  }

  /** `allShipsDestroyed` over a list of instances. */
  function AllDestroyed(g: Game, grid: seq<seq<char>>, instances: seq<ShipInstance>): (all: bool)
    requires Shaped(g, grid) && forall k :: 0 <= k < |instances| ==> SpanOnBoard(g, instances[k])
    ensures all <==> forall k :: 0 <= k < |instances| ==> Sunk(g, grid, instances[k])
  {
    if |instances| == 0 then true
    else ShipInstanceDestroyed(g, grid, instances[0]) && AllDestroyed(g, grid, instances[1..])
  }

  /** `allShipsDestroyed`: every recorded instance is sunk (vacuously true with none). */
  function AllShipsDestroyed(g: Game, b: Board): (all: bool)
    requires Consistent(g, b)
    ensures all <==> forall k :: 0 <= k < |b.instances| ==> Sunk(g, b.grid, b.instances[k])
    ensures |b.instances| == 0 ==> all
  {
    AllDestroyed(g, b.grid, b.instances)
  }

  /** Index of the first instance whose ship symbol is `ch`, or |instances| if none. */
  function FindBySymbol(g: Game, instances: seq<ShipInstance>, ch: char): (k: int)
    requires forall k :: 0 <= k < |instances| ==> 0 <= instances[k].shipId < |g.ships|
    ensures 0 <= k <= |instances|
    ensures k < |instances| ==> ShipSymbol(g, instances[k].shipId) == ch
    ensures forall j :: 0 <= j < k ==> ShipSymbol(g, instances[j].shipId) != ch
  {
    if |instances| == 0 then 0
    else if ShipSymbol(g, instances[0].shipId) == ch then 0
    else 1 + FindBySymbol(g, instances[1..], ch)
  }

  /** The instance `attack` matches by symbol exists and its span covers
      the attacked cell: it is the cell's unique owner. */
  lemma MatchedInstanceOwnsCell(g: Game, b: Board, p: Point)
    requires Inv(g, b) && IsValid(g, p) && !Reserved(b.grid[p.r][p.c])
    ensures var k := FindBySymbol(g, b.instances, b.grid[p.r][p.c]);
      k < |b.instances| && InSpan(p, b.instances[k].topOrLeft, LengthOf(g, b.instances[k]), b.instances[k].dir)
  {
    var k := FindBySymbol(g, b.instances, b.grid[p.r][p.c]);
    assert Owned(g, b, p.r, p.c);
    var owner :| 0 <= owner < |b.instances| && ShipSymbol(g, b.instances[owner].shipId) == b.grid[p.r][p.c]
      && InSpan(p, b.instances[owner].topOrLeft, LengthOf(g, b.instances[owner]), b.instances[owner].dir);
    assert k <= owner;
  }

  /** `attack`. Matching the hit symbol to an instance relies on the board
      invariant: the source dereferences the end iterator when no instance
      matches. */
  function Attack(g: Game, b: Board, p: Point): (r: AttackResult)
    requires Inv(g, b)
    ensures !r.valid <==> !IsValid(g, p) || b.grid[p.r][p.c] == Hit || b.grid[p.r][p.c] == Miss
    ensures !r.valid ==> r == AttackResult(false, false, false, -1, b)
    ensures r.valid ==> Shaped(g, r.board.grid) && r.board.instances == b.instances
    ensures r.valid ==> forall row, col :: 0 <= row < g.rows && 0 <= col < g.cols && Point(row, col) != p ==>
      r.board.grid[row][col] == b.grid[row][col]
    ensures r.valid && b.grid[p.r][p.c] == Empty ==>
      r.board.grid[p.r][p.c] == Miss && !r.shotHit && !r.shipDestroyed && r.shipId == -1
    ensures r.valid && b.grid[p.r][p.c] != Empty ==> r.board.grid[p.r][p.c] == Hit && r.shotHit
    ensures r.shotHit ==> r.valid && b.grid[p.r][p.c] != Empty
    ensures r.shotHit ==> 0 <= r.shipId < |g.ships| && ShipSymbol(g, r.shipId) == b.grid[p.r][p.c]
    ensures r.shotHit ==> exists k ::
      && 0 <= k < |b.instances|
      && b.instances[k].shipId == r.shipId
      && InSpan(p, b.instances[k].topOrLeft, LengthOf(g, b.instances[k]), b.instances[k].dir)
      && (r.shipDestroyed <==> Sunk(g, r.board.grid, b.instances[k]))
  {
    if !IsValid(g, p) || b.grid[p.r][p.c] == Hit || b.grid[p.r][p.c] == Miss then
      AttackResult(false, false, false, -1, b)
    else if b.grid[p.r][p.c] == Empty then
      AttackResult(true, false, false, -1, b.(grid := SetCell(b.grid, p, Miss)))
    else
      var k := FindBySymbol(g, b.instances, b.grid[p.r][p.c]);
      MatchedInstanceOwnsCell(g, b, p);
      var grid' := SetCell(b.grid, p, Hit);
      var inst := b.instances[k];
      AttackResult(true, true, ShipInstanceDestroyed(g, grid', inst), inst.shipId, b.(grid := grid'))
  }
}
