/** The competition build's catalog (Competition/CompeteGame.cpp). Its
    `Game::addShip` runs the same checks as the main build; only
    `GameImpl::addShip` differs, by also bounding the length by the largest
    board dimensions. */
module CompeteCatalog {
  import opened Results
  import opened Catalog

  /** `GameImpl::addShip` of the competition build. */
  function ImplAddShip(g: Game, length: int, symbol: char, name: string): (r: Result<Game, AddError>)
    ensures (length < 1 || length > MAXROWS || length > MAXCOLS) ==> r == Failure(LengthOverMax)
    ensures r.Success? <==>
      && 1 <= length <= MAXROWS
      && length <= MAXCOLS
      && (forall i :: 0 <= i < |g.ships| ==> g.ships[i].name != name)
    ensures r.Success? ==> r.value == g.(ships := g.ships + [ShipType(length, symbol, name)])
  {
    if length < 1 || length > MAXROWS || length > MAXCOLS then Failure(LengthOverMax)
    else if NameTaken(g.ships, name) then Failure(DuplicateName)
    else Success(g.(ships := g.ships + [ShipType(length, symbol, name)]))
  }

  /** `Game::addShip` of the competition build. */
  function AddShip(g: Game, length: int, symbol: char, name: string): (r: Result<Game, AddError>)
    ensures ShipChecks(g, length, symbol).Some? ==> r == Failure(ShipChecks(g, length, symbol).value)
    ensures ShipChecks(g, length, symbol).None? ==>
      (r.Success? <==> length <= MAXROWS && length <= MAXCOLS && forall i :: 0 <= i < |g.ships| ==> g.ships[i].name != name)
    ensures ShipChecks(g, length, symbol).None? && (length > MAXROWS || length > MAXCOLS) ==>
      r == Failure(LengthOverMax)
    ensures ShipChecks(g, length, symbol).None? && length <= MAXROWS && length <= MAXCOLS && NameTaken(g.ships, name) ==>
      r == Failure(DuplicateName)
    ensures r.Success? ==> r.value == g.(ships := g.ships + [ShipType(length, symbol, name)])
    ensures r.Success? ==> |r.value.ships| == |g.ships| + 1
    ensures r.Success? ==> ShipLength(r.value, |g.ships|) == length && ShipSymbol(r.value, |g.ships|) == symbol
    ensures r.Success? ==> forall id :: 0 <= id < |g.ships| ==> r.value.ships[id] == g.ships[id]
  {
    match ShipChecks(g, length, symbol)
    case Some(e) => Failure(e)
    case None => ImplAddShip(g, length, symbol, name)
  }

  /** On a board within the supported maximum, a length that passed the
      front checks never exceeds MAXROWS or MAXCOLS, so both builds accept
      and refuse exactly the same ships. */
  lemma SameAsMainBuild(g: Game, length: int, symbol: char, name: string)
    requires g.rows <= MAXROWS && g.cols <= MAXCOLS
    ensures AddShip(g, length, symbol, name) == Catalog.AddShip(g, length, symbol, name)
  {
  }
}
