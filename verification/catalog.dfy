/** The game's ship catalog and board dimensions (Game.cpp): construction
    bounds, ship registration with its validation, and the by-id accessors. */
module Catalog {
  import opened Geometry
  import opened Results

  /** Largest board the program supports (from globals.h, not part of this model). */
  const MAXROWS := 10
  const MAXCOLS := 10

  datatype ShipType = ShipType(length: int, symbol: char, name: string)

  /** A game's dimensions and its ordered ship catalog; a ship's id is its index. */
  datatype Game = Game(rows: int, cols: int, ships: seq<ShipType>)

  /** Why `AddShip` refused a ship, in the order the checks run. */
  datatype AddError =
    | LengthBelowOne
    | LengthTooLong
    | Unprintable
    | ReservedSymbol
    | DuplicateSymbol
    | BoardTooSmall
    | DuplicateName
    | LengthOverMax

  /** The three symbols the board itself writes: open water, miss, hit/block. */
  predicate Reserved(ch: char) {
    ch == '.' || ch == 'o' || ch == 'X'
  }

  /** `isascii(ch) && isprint(ch)` in the C locale. */
  predicate Printable(ch: char) {
    ' ' <= ch <= '~'
  }

  /** `isValid`: the point lies on the game's board. */
  function IsValid(g: Game, p: Point): (ok: bool)
    ensures ok <==> 0 <= p.r < g.rows && 0 <= p.c < g.cols
  {
    InGrid(g.rows, g.cols, p)
  }

  /** `nShips`: the number of registered ships; in a well-formed catalog
      every ship takes at least one cell, so there are at most rows*cols. */
  function NShips(g: Game): (n: int)
    ensures n == |g.ships|
    ensures WellFormed(g) ==> n <= g.rows * g.cols
  {
    TotalAtLeastCount(g.ships);
    |g.ships|
  }

  /** `shipLength`: the registered length; positive and fitting one board
      dimension in a well-formed catalog. */
  function ShipLength(g: Game, shipId: int): (len: int)
    requires 0 <= shipId < |g.ships|
    ensures len == g.ships[shipId].length
    ensures WellFormed(g) ==> 1 <= len && (len <= g.rows || len <= g.cols)
  {
    g.ships[shipId].length
  }

  /** `shipSymbol`: the registered symbol; in a well-formed catalog it is
      printable, never one the board writes itself, and no other id has it. */
  function ShipSymbol(g: Game, shipId: int): (sym: char)
    requires 0 <= shipId < |g.ships|
    ensures sym == g.ships[shipId].symbol
    ensures WellFormed(g) ==> Printable(sym) && !Reserved(sym)
    ensures WellFormed(g) ==> forall j :: 0 <= j < |g.ships| && j != shipId ==> g.ships[j].symbol != sym
  {
    g.ships[shipId].symbol
  }

  /** The `Game` constructor: the program exits on bad dimensions, modelled as `None`. */
  function NewGame(nRows: int, nCols: int): (r: Option<Game>)
    ensures r.Some? <==> 1 <= nRows <= MAXROWS && 1 <= nCols <= MAXCOLS
    ensures r.Some? ==> r.value.rows == nRows && r.value.cols == nCols && r.value.ships == []
  {
    if nRows < 1 || nRows > MAXROWS then None
    else if nCols < 1 || nCols > MAXCOLS then None
    else Some(Game(nRows, nCols, []))
  }

  /** Sum of the lengths of `ships`, accumulated front to back. */
  function TotalLength(ships: seq<ShipType>): int {
    if |ships| == 0 then 0 else TotalLength(ships[..|ships| - 1]) + ships[|ships| - 1].length
  }

  /** Scan for a ship already using `symbol`. */
  function SymbolTaken(ships: seq<ShipType>, symbol: char): (taken: bool)
    ensures taken <==> exists i :: 0 <= i < |ships| && ships[i].symbol == symbol
  {
    if |ships| == 0 then false
    else ships[0].symbol == symbol || SymbolTaken(ships[1..], symbol)
  }

  /** Scan for a ship already using `name`. */
  function NameTaken(ships: seq<ShipType>, name: string): (taken: bool)
    ensures taken <==> exists i :: 0 <= i < |ships| && ships[i].name == name
  {
    if |ships| == 0 then false
    else ships[0].name == name || NameTaken(ships[1..], name)
  }

  /** The checks `Game::addShip` makes before delegating, in source order;
      `None` means the ship passed them all. */
  function ShipChecks(g: Game, length: int, symbol: char): (err: Option<AddError>)
    ensures length < 1 ==> err == Some(LengthBelowOne)
    ensures length >= 1 && length > g.rows && length > g.cols ==> err == Some(LengthTooLong)
    ensures err.None? <==>
      && 1 <= length
      && (length <= g.rows || length <= g.cols)
      && Printable(symbol)
      && !Reserved(symbol)
      && (forall i :: 0 <= i < |g.ships| ==> g.ships[i].symbol != symbol)
      && TotalLength(g.ships) + length <= g.rows * g.cols
    ensures err == Some(DuplicateSymbol) ==> exists i :: 0 <= i < |g.ships| && g.ships[i].symbol == symbol
  {
    if length < 1 then Some(LengthBelowOne)
    else if length > g.rows && length > g.cols then Some(LengthTooLong)
    else if !Printable(symbol) then Some(Unprintable)
    else if Reserved(symbol) then Some(ReservedSymbol)
    else if SymbolTaken(g.ships, symbol) then Some(DuplicateSymbol)
    else if TotalLength(g.ships) + length > g.rows * g.cols then Some(BoardTooSmall)
    else None
  }

  /** `GameImpl::addShip`: refuses a repeated name, otherwise appends. */
  function ImplAddShip(g: Game, length: int, symbol: char, name: string): (r: Result<Game, AddError>)
    ensures r.Failure? <==> exists i :: 0 <= i < |g.ships| && g.ships[i].name == name
    ensures r.Failure? ==> r.error == DuplicateName
    ensures r.Success? ==> r.value.rows == g.rows && r.value.cols == g.cols
    ensures r.Success? ==> |r.value.ships| == |g.ships| + 1
    ensures r.Success? ==> r.value.ships[..|g.ships|] == g.ships
    ensures r.Success? ==> r.value.ships[|g.ships|] == ShipType(length, symbol, name)
  {
    if NameTaken(g.ships, name) then Failure(DuplicateName)
    else Success(g.(ships := g.ships + [ShipType(length, symbol, name)]))
  }

  /** `Game::addShip`: every refusal returns before the catalog is touched,
      so a `Failure` leaves the caller's game as it was. */
  function AddShip(g: Game, length: int, symbol: char, name: string): (r: Result<Game, AddError>)
    ensures ShipChecks(g, length, symbol).Some? ==> r == Failure(ShipChecks(g, length, symbol).value)
    ensures r.Success? <==>
      && 1 <= length
      && (length <= g.rows || length <= g.cols)
      && Printable(symbol)
      && !Reserved(symbol)
      && (forall i :: 0 <= i < |g.ships| ==> g.ships[i].symbol != symbol)
      && TotalLength(g.ships) + length <= g.rows * g.cols
      && (forall i :: 0 <= i < |g.ships| ==> g.ships[i].name != name)
    ensures r.Success? ==> r.value.rows == g.rows && r.value.cols == g.cols
    ensures r.Success? ==> r.value.ships == g.ships + [ShipType(length, symbol, name)]
  {
    match ShipChecks(g, length, symbol)
    case Some(e) => Failure(e)
    case None => ImplAddShip(g, length, symbol, name)
  }

  /** What a catalog built only through `NewGame` and `AddShip` satisfies. */
  ghost predicate WellFormed(g: Game) {
    && 1 <= g.rows <= MAXROWS
    && 1 <= g.cols <= MAXCOLS
    && (forall i :: 0 <= i < |g.ships| ==>
          && 1 <= g.ships[i].length
          && (g.ships[i].length <= g.rows || g.ships[i].length <= g.cols)
          && Printable(g.ships[i].symbol)
          && !Reserved(g.ships[i].symbol))
    && (forall i, j :: 0 <= i < j < |g.ships| ==> g.ships[i].symbol != g.ships[j].symbol)
    && (forall i, j :: 0 <= i < j < |g.ships| ==> g.ships[i].name != g.ships[j].name)
    && TotalLength(g.ships) <= g.rows * g.cols
  }

  /** With every length at least 1, the total length is at least the number of ships. */
  lemma {:induction false} TotalAtLeastCount(ships: seq<ShipType>)
    ensures (forall i :: 0 <= i < |ships| ==> ships[i].length >= 1) ==> TotalLength(ships) >= |ships|
    decreases |ships|
  {
    if |ships| > 0 {
      TotalAtLeastCount(ships[..|ships| - 1]);
    }
  }

  lemma {:induction false} TotalLengthAppend(ships: seq<ShipType>, s: ShipType)
    ensures TotalLength(ships + [s]) == TotalLength(ships) + s.length
  {
    assert (ships + [s])[..|ships|] == ships;
  }

  lemma NewGameWellFormed(nRows: int, nCols: int)
    requires NewGame(nRows, nCols).Some?
    ensures WellFormed(NewGame(nRows, nCols).value)
  {
  }

  /** Registration keeps the catalog well formed: symbols stay distinct and
      unreserved, names stay distinct, and the total ship area still fits. */
  lemma {:induction false} AddShipPreservesWellFormed(g: Game, length: int, symbol: char, name: string)
    requires WellFormed(g)
    requires AddShip(g, length, symbol, name).Success?
    ensures WellFormed(AddShip(g, length, symbol, name).value)
  {
    var s := ShipType(length, symbol, name);
    var g' := AddShip(g, length, symbol, name).value;
    TotalLengthAppend(g.ships, s);
    assert g'.ships == g.ships + [s];
    forall i, j | 0 <= i < j < |g'.ships|
      ensures g'.ships[i].symbol != g'.ships[j].symbol && g'.ships[i].name != g'.ships[j].name
    {
      if j == |g.ships| {
        assert g'.ships[i] == g.ships[i];
      }
    }
  }

  /** After an accepted add the new ship has the last id and the accessors
      report what was registered; earlier ids are untouched. */
  lemma AddShipAccessors(g: Game, length: int, symbol: char, name: string)
    requires AddShip(g, length, symbol, name).Success?
    ensures var g' := AddShip(g, length, symbol, name).value;
      && NShips(g') == NShips(g) + 1
      && ShipLength(g', NShips(g') - 1) == length
      && ShipSymbol(g', NShips(g') - 1) == symbol
      && (forall id :: 0 <= id < NShips(g) ==>
            ShipLength(g', id) == ShipLength(g, id) && ShipSymbol(g', id) == ShipSymbol(g, id))
  {
  }
}
