/**
 The game session: total score, board, inventory and rack, and the
 transitions the player triggers: submitting the word, restarting, clearing
 the board, and moving a tile from the rack to the board, from the board back
 to the rack, or from one square to another.
 */
module Session {
  import opened Board
  import opened Scoring
  import opened Placement
  import opened Inventory

  /** Tiles a full rack holds; a submit refills the rack up to this many. */
  const RackCapacity: nat := 7

  datatype Game = Game(totalScore: int, board: Board, stock: Stock, rack: seq<Tile>)

  /** What a submit reports: nothing on the board, a word scoring 0, or the points added. */
  datatype Outcome = Ignored | Rejected | Accepted(points: nat)

  /** A tile carries its letter's catalog value. */
  predicate FromCatalog(t: Tile, catalog: Catalog)
  {
    t.letter in catalog && t.value == catalog[t.letter].value
  }

  /** The letters of all tiles in play, on the rack and on the board. */
  function InPlay(g: Game): multiset<char>
  {
    multiset(LettersOf(g.rack)) + BoardLetters(g.board)
  }

  /**
   The session invariant: the total is never negative, at most a rack's worth
   of tiles is in play, every tile in play carries its catalog value, and for
   every letter the tiles left plus the tiles in play never exceed the
   original distribution.
   */
  predicate Valid(g: Game, catalog: Catalog, order: seq<char>)
  {
    && Enumerates(order, catalog.Keys)
    && WithinCatalog(g.stock, catalog)
    && g.totalScore >= 0
    && |g.rack| + OccupiedCount(g.board) <= RackCapacity
    && TilesFromCatalog(g, catalog)
    && Conserved(g.stock, InPlay(g), catalog)
  }

  /** Every tile in play, on the rack or on the board, carries its catalog value. */
  predicate TilesFromCatalog(g: Game, catalog: Catalog)
  {
    && (forall t :: t in g.rack ==> FromCatalog(t, catalog))
    && (forall i :: 0 <= i < BoardSize && g.board[i].Occupied? ==> FromCatalog(g.board[i].tile, catalog))
  }

  /** For every letter, the tiles left plus the tiles in play never exceed the original distribution. */
  predicate Conserved(stock: Stock, inPlay: multiset<char>, catalog: Catalog)
    requires stock.Keys == catalog.Keys
  {
    forall l :: l in catalog ==> stock[l] + inPlay[l] <= catalog[l].count
  }

  /** The random indices cover refilling a rack of `rackSize` tiles from `stock`. */
  predicate CanRefill(stock: Stock, order: seq<char>, rackSize: int, picks: seq<nat>)
    requires forall l :: l in order ==> l in stock
  {
    PicksInRange(picks, Total(stock, order), DrawCount(RackCapacity - rackSize, Total(stock, order)))
  }

  /** `clearBoard`: every slot emptied; score, inventory and rack untouched. */
  function ClearBoard(g: Game): (g': Game)
    ensures IsEmpty(g'.board) && WordScore(g'.board) == 0
    ensures g'.totalScore == g.totalScore && g'.stock == g.stock && g'.rack == g.rack
  {
    assert IsEmpty(EmptyBoard);
    g.(board := EmptyBoard)
  }

  /**
   `submitWord`: nothing happens on an empty board; a word scoring 0 is
   rejected and leaves the game as it was; otherwise its score is added to the
   total, the board is cleared and the rack is refilled towards seven tiles.
   */
  function Submit(g: Game, catalog: Catalog, order: seq<char>, picks: seq<nat>): (r: (Game, Outcome))
    requires Enumerates(order, g.stock.Keys) && g.stock.Keys <= catalog.Keys
    requires CanRefill(g.stock, order, |g.rack|, picks)
    ensures IsEmpty(g.board) ==> r == (g, Ignored)
    ensures !IsEmpty(g.board) && WordScore(g.board) == 0 ==> r == (g, Rejected)
    ensures r.1.Accepted? <==> WordScore(g.board) > 0
    ensures r.1.Accepted? ==>
      && r.1.points == WordScore(g.board)
      && r.0.totalScore == g.totalScore + WordScore(g.board)
      && IsEmpty(r.0.board)
      && |r.0.rack| == |g.rack| + DrawCount(RackCapacity - |g.rack|, Total(g.stock, order))
      && r.0.rack[..|g.rack|] == g.rack
      && r.0.stock.Keys == g.stock.Keys
      && (forall l :: l in g.stock ==> r.0.stock[l] + multiset(LettersOf(r.0.rack[|g.rack|..]))[l] == g.stock[l])
      && (forall t :: t in r.0.rack[|g.rack|..] ==> FromCatalog(t, catalog))
    ensures r.0.totalScore >= g.totalScore
  {
    var wordScore := WordScore(g.board);
    if OccupiedCount(g.board) == 0 then (g, Ignored)
    else if wordScore == 0 then (g, Rejected)
    else (Bank(g, catalog, order, picks, wordScore), Accepted(wordScore))
  }

  /**
   The accepting branch of `submitWord`: the points go on the total, the board
   is cleared and the rack is dealt up to seven tiles from the inventory.
   */
  function Bank(g: Game, catalog: Catalog, order: seq<char>, picks: seq<nat>, points: nat): (g': Game)
    requires Enumerates(order, g.stock.Keys) && g.stock.Keys <= catalog.Keys
    requires CanRefill(g.stock, order, |g.rack|, picks)
    ensures g'.totalScore == g.totalScore + points
    ensures IsEmpty(g'.board)
    ensures |g'.rack| == |g.rack| + DrawCount(RackCapacity - |g.rack|, Total(g.stock, order))
    ensures g'.rack[..|g.rack|] == g.rack
    ensures g'.stock.Keys == g.stock.Keys
    ensures forall l :: l in g.stock ==> g'.stock[l] + multiset(LettersOf(g'.rack[|g.rack|..]))[l] == g.stock[l]
    ensures forall t :: t in g'.rack[|g.rack|..] ==> FromCatalog(t, catalog)
  {
    var scored := g.(totalScore := g.totalScore + points);
    var cleared := ClearBoard(scored);
    var tilesToDeal := RackCapacity - |cleared.rack|;
    var d := Deal(catalog, cleared.stock, order, tilesToDeal, picks);
    var rack := cleared.rack + d.tiles;
    assert rack[..|g.rack|] == g.rack && rack[|g.rack|..] == d.tiles;
    cleared.(stock := d.stock, rack := rack)
  }

  /**
   `restart`: total back to 0, inventory back to the original distribution,
   rack and board emptied, then seven tiles dealt. The page's start-up runs
   the same steps.
   */
  function Restart(catalog: Catalog, order: seq<char>, picks: seq<nat>): (g: Game)
    requires Enumerates(order, catalog.Keys)
    requires CanRefill(Reset(catalog), order, 0, picks)
    ensures g.totalScore == 0
    ensures IsEmpty(g.board)
    ensures |g.rack| == DrawCount(RackCapacity, Total(Reset(catalog), order))
    ensures g.stock.Keys == catalog.Keys
    ensures forall l :: l in catalog ==> g.stock[l] + multiset(LettersOf(g.rack))[l] == catalog[l].count
    ensures forall t :: t in g.rack ==> FromCatalog(t, catalog)
  {
    var stock := Reset(catalog);
    var emptied := Game(0, EmptyBoard, stock, []);
    var d := Deal(catalog, emptied.stock, order, RackCapacity, picks);
    emptied.(stock := d.stock, rack := d.tiles)
  }

  /**
   A tile dropped from the rack onto square `index`: refused when the square
   is taken or the placement rule says no, in which case nothing changes;
   otherwise the tile leaves the rack and occupies the square.
   */
  function PlaceFromRack(g: Game, k: int, index: int): (r: (Game, bool))
    requires 0 <= k < |g.rack| && 0 <= index < BoardSize
    ensures r.1 <==> g.board[index].Empty? && IsPlacementValid(g.board, index)
    ensures !r.1 ==> r.0 == g
    ensures r.1 ==> r.0.board == g.board[index := Occupied(g.rack[k])]
    ensures r.1 ==> r.0.rack == g.rack[..k] + g.rack[k + 1..]
    ensures r.0.totalScore == g.totalScore && r.0.stock == g.stock
  {
    match Drop(g.board, index, g.rack[k])
    case None => (g, false)
    case Some(b) => (g.(board := b, rack := g.rack[..k] + g.rack[k + 1..]), true)
  }

  /** A tile dragged off square `index` back onto the rack: the slot empties and the tile joins the rack. */
  function MoveToRack(g: Game, index: int): (g': Game)
    requires 0 <= index < BoardSize && g.board[index].Occupied?
    ensures g'.board == g.board[index := Empty]
    ensures g'.rack == g.rack + [g.board[index].tile]
    ensures g'.totalScore == g.totalScore && g'.stock == g.stock
  {
    var lifted: Board := g.board[index := Empty];
    g.(board := lifted, rack := g.rack + [g.board[index].tile])
  }

  /**
   A tile dragged from square `from` to square `to`: its slot empties when the
   drag starts; the drop then applies the placement rule to the board without
   it. A refused drop puts the tile back where it was.
   */
  function MoveOnBoard(g: Game, from: int, to: int): (r: (Game, bool))
    requires 0 <= from < BoardSize && 0 <= to < BoardSize && g.board[from].Occupied?
    ensures var lifted := g.board[from := Empty];
      r.1 <==> lifted[to].Empty? && IsPlacementValid(lifted, to)
    ensures !r.1 ==> r.0 == g
    ensures r.1 ==> r.0.board == g.board[from := Empty][to := g.board[from]]
    ensures r.0.rack == g.rack && r.0.totalScore == g.totalScore && r.0.stock == g.stock
  {
    var tile := g.board[from].tile;
    var lifted: Board := g.board[from := Empty];
    match Drop(lifted, to, tile)
    case None => (g, false)
    case Some(b) => (g.(board := b), true)
  }

  lemma {:induction false} LettersOfAppend(ts: seq<Tile>, us: seq<Tile>)
    ensures multiset(LettersOf(ts + us)) == multiset(LettersOf(ts)) + multiset(LettersOf(us))
  {
    assert LettersOf(ts + us) == LettersOf(ts) + LettersOf(us);
  }

  lemma {:induction false} LettersOfRemove(ts: seq<Tile>, k: int)
    requires 0 <= k < |ts|
    ensures multiset(LettersOf(ts[..k] + ts[k + 1..])) + multiset{ts[k].letter} == multiset(LettersOf(ts))
  {
    var all := LettersOf(ts);
    assert LettersOf(ts[..k] + ts[k + 1..]) == all[..k] + all[k + 1..];
    assert all == all[..k] + [all[k]] + all[k + 1..];
  }

  /** A restart starts a session that satisfies the invariant. */
  lemma {:induction false} RestartIsValid(catalog: Catalog, order: seq<char>, picks: seq<nat>)
    requires Enumerates(order, catalog.Keys)
    requires CanRefill(Reset(catalog), order, 0, picks)
    ensures Valid(Restart(catalog, order, picks), catalog, order)
  {
    var g := Restart(catalog, order, picks);
    LettersOfEmpty(g.board);
    assert InPlay(g) == multiset(LettersOf(g.rack));
    assert WithinCatalog(g.stock, catalog) by {
      forall l | l in g.stock
        ensures g.stock[l] <= catalog[l].count
      {
        assert g.stock[l] + multiset(LettersOf(g.rack))[l] == catalog[l].count;
      }
    }
  }

  /**
   A move that keeps the inventory, the total, the number of tiles in play and
   their letters, and puts only catalog tiles in play, keeps the invariant.
   */
  lemma {:induction false} SameTilesKeepValid(g: Game, g': Game, catalog: Catalog, order: seq<char>)
    requires Valid(g, catalog, order)
    requires g'.stock == g.stock && g'.totalScore == g.totalScore
    requires |g'.rack| + OccupiedCount(g'.board) == |g.rack| + OccupiedCount(g.board)
    requires InPlay(g') == InPlay(g)
    requires TilesFromCatalog(g', catalog)
    ensures Valid(g', catalog, order)
  {
  }

  /**
   Scoring a word, clearing the board and refilling the rack from the
   inventory keeps the invariant, as long as the rack stays within capacity.
   */
  lemma {:induction false} RefillKeepsValid(g: Game, g': Game, catalog: Catalog, order: seq<char>)
    requires Valid(g, catalog, order)
    requires g'.totalScore >= g.totalScore && IsEmpty(g'.board)
    requires |g.rack| <= |g'.rack| <= RackCapacity && g'.rack[..|g.rack|] == g.rack
    requires g'.stock.Keys == g.stock.Keys
    requires forall l :: l in g.stock ==> g'.stock[l] + multiset(LettersOf(g'.rack[|g.rack|..]))[l] == g.stock[l]
    requires forall t :: t in g'.rack[|g.rack|..] ==> FromCatalog(t, catalog)
    ensures Valid(g', catalog, order)
  {
    var dealt := g'.rack[|g.rack|..];
    assert g'.rack == g.rack + dealt;
    RackOnlyInPlay(g');
    LettersOfAppend(g.rack, dealt);
    RefillConserves(g, g', catalog, dealt);
    RefillFromCatalog(g, g', catalog, dealt);
  }

  lemma {:induction false} RefillConserves(g: Game, g': Game, catalog: Catalog, dealt: seq<Tile>)
    requires WithinCatalog(g.stock, catalog) && Conserved(g.stock, InPlay(g), catalog)
    requires g'.stock.Keys == g.stock.Keys
    requires InPlay(g') == multiset(LettersOf(g.rack)) + multiset(LettersOf(dealt))
    requires forall l :: l in g.stock ==> g'.stock[l] + multiset(LettersOf(dealt))[l] == g.stock[l]
    ensures WithinCatalog(g'.stock, catalog) && Conserved(g'.stock, InPlay(g'), catalog)
  {
    forall l | l in catalog
      ensures g'.stock[l] <= catalog[l].count
      ensures g'.stock[l] + InPlay(g')[l] <= catalog[l].count
    {
      assert g'.stock[l] + multiset(LettersOf(dealt))[l] == g.stock[l];
      assert InPlay(g)[l] >= multiset(LettersOf(g.rack))[l];
    }
  }

  lemma {:induction false} RefillFromCatalog(g: Game, g': Game, catalog: Catalog, dealt: seq<Tile>)
    requires TilesFromCatalog(g, catalog) && IsEmpty(g'.board)
    requires g'.rack == g.rack + dealt
    requires forall t :: t in dealt ==> FromCatalog(t, catalog)
    ensures TilesFromCatalog(g', catalog)
  {
    forall t | t in g'.rack
      ensures FromCatalog(t, catalog)
    {
      if t !in g.rack {
        assert t in dealt;
      }
    }
  }

  /**
   Clearing the board on its own keeps the invariant: the tiles on the board
   leave play and go back neither to the rack nor to the inventory.
   */
  lemma {:induction false} ClearBoardKeepsValid(g: Game, catalog: Catalog, order: seq<char>)
    requires Valid(g, catalog, order)
    ensures Valid(ClearBoard(g), catalog, order)
    ensures InPlay(ClearBoard(g)) == multiset(LettersOf(g.rack))
  {
    var g' := ClearBoard(g);
    RackOnlyInPlay(g');
    RackTilesKeepValid(g, g', catalog, order);
  }

  /** With the board empty, the tiles in play are the rack's. */
  lemma {:induction false} RackOnlyInPlay(g: Game)
    requires IsEmpty(g.board)
    ensures InPlay(g) == multiset(LettersOf(g.rack))
    ensures OccupiedCount(g.board) == 0
  {
    LettersOfEmpty(g.board);
  }

  /**
   Emptying the board, keeping the rack, inventory and total, keeps the
   invariant.
   */
  lemma {:induction false} RackTilesKeepValid(g: Game, g': Game, catalog: Catalog, order: seq<char>)
    requires Valid(g, catalog, order)
    requires g'.stock == g.stock && g'.rack == g.rack && g'.totalScore == g.totalScore
    requires InPlay(g') == multiset(LettersOf(g.rack)) && OccupiedCount(g'.board) == 0
    ensures Valid(g', catalog, order)
  {
    assert Conserved(g'.stock, InPlay(g'), catalog) by {
      forall l | l in catalog
        ensures g'.stock[l] + InPlay(g')[l] <= catalog[l].count
      {
        assert InPlay(g)[l] >= multiset(LettersOf(g.rack))[l];
      }
    }
  }

  /** Submitting keeps the session invariant. */
  lemma {:induction false} SubmitKeepsValid(g: Game, catalog: Catalog, order: seq<char>, picks: seq<nat>)
    requires Valid(g, catalog, order)
    requires CanRefill(g.stock, order, |g.rack|, picks)
    ensures Valid(Submit(g, catalog, order, picks).0, catalog, order)
  {
    var r := Submit(g, catalog, order, picks);
    if r.1.Accepted? {
      RefillKeepsValid(g, r.0, catalog, order);
    }
  }

  /** Moving rack tile `k` onto the empty square `index` keeps the invariant. */
  lemma {:induction false} RackToSquareKeepsValid(g: Game, g': Game, catalog: Catalog, order: seq<char>, k: int, index: int)
    requires Valid(g, catalog, order)
    requires 0 <= k < |g.rack| && 0 <= index < BoardSize && g.board[index].Empty?
    requires g'.board == g.board[index := Occupied(g.rack[k])]
    requires g'.rack == g.rack[..k] + g.rack[k + 1..]
    requires g'.stock == g.stock && g'.totalScore == g.totalScore
    ensures Valid(g', catalog, order)
  {
    CountAfterPlace(g.board, index, g.rack[k]);
    RackToSquareSameLetters(g, g', k, index);
    RackToSquareFromCatalog(g, g', catalog, k, index);
    SameTilesKeepValid(g, g', catalog, order);
  }

  lemma {:induction false} RackToSquareSameLetters(g: Game, g': Game, k: int, index: int)
    requires 0 <= k < |g.rack| && 0 <= index < BoardSize && g.board[index].Empty?
    requires g'.board == g.board[index := Occupied(g.rack[k])]
    requires g'.rack == g.rack[..k] + g.rack[k + 1..]
    ensures InPlay(g') == InPlay(g)
  {
    LettersAfterPlace(g.board, index, g.rack[k]);
    LettersOfRemove(g.rack, k);
  }

  lemma {:induction false} RackToSquareFromCatalog(g: Game, g': Game, catalog: Catalog, k: int, index: int)
    requires TilesFromCatalog(g, catalog)
    requires 0 <= k < |g.rack| && 0 <= index < BoardSize
    requires g'.board == g.board[index := Occupied(g.rack[k])]
    requires g'.rack == g.rack[..k] + g.rack[k + 1..]
    ensures TilesFromCatalog(g', catalog)
  {
    assert g.rack[k] in g.rack;
    forall u | u in g'.rack
      ensures FromCatalog(u, catalog)
    {
      assert u in g.rack;
    }
  }

  /** Placing a tile from the rack keeps the session invariant. */
  lemma {:induction false} PlaceKeepsValid(g: Game, catalog: Catalog, order: seq<char>, k: int, index: int)
    requires Valid(g, catalog, order)
    requires 0 <= k < |g.rack| && 0 <= index < BoardSize
    ensures Valid(PlaceFromRack(g, k, index).0, catalog, order)
  {
    var r := PlaceFromRack(g, k, index);
    if r.1 {
      RackToSquareKeepsValid(g, r.0, catalog, order, k, index);
    }
  }

  /** Moving a tile from the board back to the rack keeps the session invariant. */
  lemma {:induction false} MoveToRackKeepsValid(g: Game, catalog: Catalog, order: seq<char>, index: int)
    requires Valid(g, catalog, order)
    requires 0 <= index < BoardSize && g.board[index].Occupied?
    ensures Valid(MoveToRack(g, index), catalog, order)
  {
    SquareToRackKeepsValid(g, MoveToRack(g, index), catalog, order, index);
  }

  /** Moving the tile on square `index` to the end of the rack keeps the invariant. */
  lemma {:induction false} SquareToRackKeepsValid(g: Game, g': Game, catalog: Catalog, order: seq<char>, index: int)
    requires Valid(g, catalog, order)
    requires 0 <= index < BoardSize && g.board[index].Occupied?
    requires g'.board == g.board[index := Empty] && g'.rack == g.rack + [g.board[index].tile]
    requires g'.stock == g.stock && g'.totalScore == g.totalScore
    ensures Valid(g', catalog, order)
  {
    CountAfterLift(g.board, index);
    SquareToRackSameLetters(g, g', index);
    SquareToRackFromCatalog(g, g', catalog, index);
    SameTilesKeepValid(g, g', catalog, order);
  }

  lemma {:induction false} SquareToRackSameLetters(g: Game, g': Game, index: int)
    requires 0 <= index < BoardSize && g.board[index].Occupied?
    requires g'.board == g.board[index := Empty] && g'.rack == g.rack + [g.board[index].tile]
    ensures InPlay(g') == InPlay(g)
  {
    var t := g.board[index].tile;
    LettersAfterLift(g.board, index);
    LettersOfAppend(g.rack, [t]);
    assert LettersOf([t]) == [t.letter];
  }

  lemma {:induction false} SquareToRackFromCatalog(g: Game, g': Game, catalog: Catalog, index: int)
    requires TilesFromCatalog(g, catalog)
    requires 0 <= index < BoardSize && g.board[index].Occupied?
    requires g'.board == g.board[index := Empty] && g'.rack == g.rack + [g.board[index].tile]
    ensures TilesFromCatalog(g', catalog)
  {
    var t := g.board[index].tile;
    assert FromCatalog(t, catalog);
    forall u | u in g'.rack
      ensures FromCatalog(u, catalog)
    {
      if u != t {
        assert u in g.rack;
      }
    }
  }

  /** Moving the tile on square `from` to the empty square `to` keeps the invariant. */
  lemma {:induction false} SquareToSquareKeepsValid(g: Game, g': Game, catalog: Catalog, order: seq<char>, from: int, to: int)
    requires Valid(g, catalog, order)
    requires 0 <= from < BoardSize && 0 <= to < BoardSize && g.board[from].Occupied?
    requires g.board[from := Empty][to].Empty?
    requires g'.board == g.board[from := Empty][to := g.board[from]]
    requires g'.stock == g.stock && g'.totalScore == g.totalScore && g'.rack == g.rack
    ensures Valid(g', catalog, order)
  {
    var lifted := g.board[from := Empty];
    CountAfterLift(g.board, from);
    CountAfterPlace(lifted, to, g.board[from].tile);
    SquareToSquareSameLetters(g, g', from, to);
    SquareToSquareFromCatalog(g, g', catalog, from, to);
    SameTilesKeepValid(g, g', catalog, order);
  }

  lemma {:induction false} SquareToSquareSameLetters(g: Game, g': Game, from: int, to: int)
    requires 0 <= from < BoardSize && 0 <= to < BoardSize && g.board[from].Occupied?
    requires g.board[from := Empty][to].Empty?
    requires g'.board == g.board[from := Empty][to := g.board[from]] && g'.rack == g.rack
    ensures InPlay(g') == InPlay(g)
  {
    var lifted := g.board[from := Empty];
    LettersAfterLift(g.board, from);
    LettersAfterPlace(lifted, to, g.board[from].tile);
  }

  lemma {:induction false} SquareToSquareFromCatalog(g: Game, g': Game, catalog: Catalog, from: int, to: int)
    requires TilesFromCatalog(g, catalog)
    requires 0 <= from < BoardSize && 0 <= to < BoardSize && g.board[from].Occupied?
    requires g'.board == g.board[from := Empty][to := g.board[from]] && g'.rack == g.rack
    ensures TilesFromCatalog(g', catalog)
  {
    forall i | 0 <= i < BoardSize && g'.board[i].Occupied?
      ensures FromCatalog(g'.board[i].tile, catalog)
    {
      if i != to {
        assert g'.board[i] == g.board[i];
      }
    }
  }

  /** Moving a tile between squares keeps the session invariant. */
  lemma {:induction false} MoveOnBoardKeepsValid(g: Game, catalog: Catalog, order: seq<char>, from: int, to: int)
    requires Valid(g, catalog, order)
    requires 0 <= from < BoardSize && 0 <= to < BoardSize && g.board[from].Occupied?
    ensures Valid(MoveOnBoard(g, from, to).0, catalog, order)
  {
    var r := MoveOnBoard(g, from, to);
    if r.1 {
      SquareToSquareKeepsValid(g, r.0, catalog, order, from, to);
    }
  }

  /**
   When every tile is worth at least a point, a submit is accepted exactly
   when the tiles form one unbroken run, and rejected exactly when they do not.
   */
  lemma {:induction false} SubmitAcceptsExactlyUnbrokenWords(g: Game, catalog: Catalog, order: seq<char>, picks: seq<nat>)
    requires Enumerates(order, g.stock.Keys) && g.stock.Keys <= catalog.Keys
    requires CanRefill(g.stock, order, |g.rack|, picks)
    requires forall i :: 0 <= i < BoardSize && g.board[i].Occupied? ==> g.board[i].tile.value > 0
    ensures var r := Submit(g, catalog, order, picks);
      && (r.1.Accepted? <==> !IsEmpty(g.board) && Contiguous(g.board))
      && (r.1 == Rejected <==> !Contiguous(g.board))
  {
    PositiveScoreIffContiguous(g.board);
    if !Contiguous(g.board) {
      assert !IsEmpty(g.board);
    }
  }

  /**
   A submit rejects any word scoring 0, not only broken ones: a single blank
   tile (worth 0) is one unbroken run and is still rejected.
   */
  lemma {:induction false} ZeroPointWordRejected(g: Game, catalog: Catalog, order: seq<char>, picks: seq<nat>)
    requires Enumerates(order, g.stock.Keys) && g.stock.Keys <= catalog.Keys
    requires CanRefill(g.stock, order, |g.rack|, picks)
    requires g.board == EmptyBoard[0 := Occupied(Tile('_', 0))]
    ensures Contiguous(g.board)
    ensures Submit(g, catalog, order, picks) == (g, Rejected)
  {
    assert g.board[0].Occupied?;
    assert forall i :: 1 <= i < BoardSize ==> g.board[i].Empty?;
    SingleTileFacts(g.board);
  }

  lemma {:induction false} SingleTileFacts(b: Board)
    requires b == EmptyBoard[0 := Occupied(Tile('_', 0))]
    ensures !IsEmpty(b) && Contiguous(b) && WordScore(b) == 0
  {
    assert b[0].Occupied?;
    assert FirstOccupied(b) == 0;
    assert forall i :: 1 <= i < BoardSize ==> b[i].Empty?;
    assert LastOccupied(b) == 0;
    assert LetterSum(b, 0, 1) == 0;
  }

  /**
   Worked example: on an empty board, A (1 point) goes on the double-word
   square 2 and scores 2; B (3 points) then goes on square 1 next to it, the
   word scores (3 + 1) * 2 = 8, and submitting adds 8 to the total and clears
   the board.
   */
  lemma {:induction false} ExampleWord(g: Game, catalog: Catalog, order: seq<char>, picks: seq<nat>)
    requires IsEmpty(g.board) && g.rack == [Tile('A', 1), Tile('B', 3)]
    requires Enumerates(order, g.stock.Keys) && g.stock.Keys <= catalog.Keys
    requires CanRefill(g.stock, order, 0, picks)
    ensures var (g1, ok1) := PlaceFromRack(g, 0, 2);
      && ok1 && WordScore(g1.board) == 2
      && var (g2, ok2) := PlaceFromRack(g1, 0, 1);
      && ok2 && WordScore(g2.board) == 8 && g2.rack == []
      && var (g3, out) := Submit(g2, catalog, order, picks);
      && out == Accepted(8) && g3.totalScore == g.totalScore + 8 && IsEmpty(g3.board)
  {
    var (g1, ok1) := PlaceFromRack(g, 0, 2);
    assert ok1 && g1.board == g.board[2 := Occupied(Tile('A', 1))] && g1.rack == [Tile('B', 3)];
    ExampleOneTile(g.board, g1.board);
    var (g2, ok2) := PlaceFromRack(g1, 0, 1);
    assert OccupiedAt(g1.board, 2);
    assert ok2 && g2.board == g1.board[1 := Occupied(Tile('B', 3))] && g2.rack == [];
    ExampleTwoTiles(g.board, g2.board);
  }

  lemma {:induction false} ExampleOneTile(e: Board, b: Board)
    requires IsEmpty(e) && b == e[2 := Occupied(Tile('A', 1))]
    ensures WordScore(b) == 2
  {
    assert b[2].Occupied? && b[0].Empty? && b[1].Empty?;
    assert forall i :: 2 < i < BoardSize ==> b[i].Empty?;
    assert FirstOccupied(b) == 2 && LastOccupied(b) == 2;
    SpanScore(b, 2, 2, 1, 1);
  }

  lemma {:induction false} ExampleTwoTiles(e: Board, b: Board)
    requires IsEmpty(e) && b == e[2 := Occupied(Tile('A', 1))][1 := Occupied(Tile('B', 3))]
    ensures WordScore(b) == 8
  {
    assert b[1].Occupied? && b[2].Occupied? && b[0].Empty?;
    assert forall i :: 2 < i < BoardSize ==> b[i].Empty?;
    assert FirstOccupied(b) == 1 && LastOccupied(b) == 2;
    SpanScore(b, 1, 2, 4, 1);
  }

  /** The score of a gapless span `s..e` with weighted sum `sum` and `dw` double-word squares. */
  lemma {:induction false} SpanScore(b: Board, s: int, e: int, sum: nat, dw: nat)
    requires 0 <= s <= e < BoardSize && FirstOccupied(b) == s && LastOccupied(b) == e
    requires Gapless(b, s, e + 1) && LetterSum(b, s, e + 1) == sum && DoubleWords(s, e + 1) == dw
    ensures WordScore(b) == sum * Pow2(dw)
  {
    GaplessSpanScore(b);
  }

  /**
   Worked example of the gap rule: with tiles on squares 1 and 3 and square 2
   empty, the word scores 0 and a submit is rejected, leaving the game as it
   was.
   */
  lemma {:induction false} ExampleGap(g: Game, catalog: Catalog, order: seq<char>, picks: seq<nat>, t1: Tile, t3: Tile)
    requires Enumerates(order, g.stock.Keys) && g.stock.Keys <= catalog.Keys
    requires CanRefill(g.stock, order, |g.rack|, picks)
    requires g.board[1] == Occupied(t1) && g.board[2].Empty? && g.board[3] == Occupied(t3)
    ensures WordScore(g.board) == 0
    ensures Submit(g, catalog, order, picks) == (g, Rejected)
  {
    assert !Contiguous(g.board) by {
      assert g.board[1].Occupied? && g.board[2].Empty? && g.board[3].Occupied?;
    }
    NotContiguousScoresZero(g.board);
    assert !IsEmpty(g.board) by {
      assert g.board[1].Occupied?;
    }
  }

  /** With at least seven tiles in the original distribution, a restart always deals a full rack. */
  lemma {:induction false} RestartDealsFullRack(catalog: Catalog, order: seq<char>, picks: seq<nat>)
    requires Enumerates(order, catalog.Keys)
    requires Total(Reset(catalog), order) >= RackCapacity
    requires CanRefill(Reset(catalog), order, 0, picks)
    ensures |Restart(catalog, order, picks).rack| == RackCapacity
  {
  }
}
