/**
 The placement rule and the board write of a drop. A tile may go anywhere on
 an empty board; otherwise it must touch an occupied neighbour. The rule is
 local: it does not look at the target slot itself and does not check that
 the whole word stays unbroken, which is left to the scorer.
 */
module Placement {
  import opened Board

  /** `isPlacementValid`: may a tile be placed at `index`? */
  function IsPlacementValid(b: Board, index: int): (valid: bool)
    requires 0 <= index < BoardSize
    ensures IsEmpty(b) ==> valid
    ensures !IsEmpty(b) ==> (valid <==> OccupiedAt(b, index - 1) || OccupiedAt(b, index + 1))
  {
    if OccupiedCount(b) == 0 then true
    else
      var isAdjacentLeft := index > 0 && b[index - 1].Occupied?;
      var isAdjacentRight := index < BoardSize - 1 && b[index + 1].Occupied?;
      var startIndex := FirstOccupied(b);
      var endIndex := LastOccupied(b);
      if index < startIndex || index > endIndex then isAdjacentLeft || isAdjacentRight
      else isAdjacentLeft || isAdjacentRight
  }

  /**
   The board write of `handleTileDrop`: refused (None) when the target square
   already holds a tile or the placement rule rejects it; otherwise the tile
   is written into the slot.
   */
  function Drop(b: Board, index: int, t: Tile): (r: Option<Board>)
    requires 0 <= index < BoardSize
    ensures r.Some? <==> b[index].Empty? && (IsEmpty(b) || OccupiedAt(b, index - 1) || OccupiedAt(b, index + 1))
    ensures r.Some? ==> r.value[index] == Occupied(t)
    ensures r.Some? ==> forall i :: 0 <= i < BoardSize && i != index ==> r.value[i] == b[i]
  {
    if b[index].Occupied? then None
    else if !IsPlacementValid(b, index) then None
    else
      var placed: Board := b[index := Occupied(t)];
      Some(placed)
  }

  /**
   Apart from the empty-board test, the rule never looks at the target slot:
   with another tile on the board, its verdict does not depend on that slot.
   */
  lemma {:induction false} PlacementIgnoresTarget(b: Board, index: int, s: Slot)
    requires 0 <= index < BoardSize
    requires exists i :: 0 <= i < BoardSize && i != index && b[i].Occupied?
    ensures IsPlacementValid(b[index := s], index) == IsPlacementValid(b, index)
  {
    var i :| 0 <= i < BoardSize && i != index && b[i].Occupied?;
    assert b[index := s][i].Occupied?;
  }

  /**
   The empty-board test does count the target slot: when the only tile on the
   board lies on the target itself, the board is not empty and the target has
   no occupied neighbour, so the rule refuses it.
   */
  lemma {:induction false} TargetCountsOnEmptyTest(e: Board, index: int, t: Tile)
    requires IsEmpty(e) && 0 <= index < BoardSize
    ensures IsPlacementValid(e, index)
    ensures !IsPlacementValid(e[index := Occupied(t)], index)
  {
    var b := e[index := Occupied(t)];
    assert b[index].Occupied?;
    assert !OccupiedAt(b, index - 1) && !OccupiedAt(b, index + 1);
  }

  /** Any drop onto an empty board is accepted. */
  lemma {:induction false} FirstDropAccepted(index: int, t: Tile)
    requires 0 <= index < BoardSize
    ensures Drop(EmptyBoard, index, t).Some?
    ensures Drop(EmptyBoard, index, t).value == EmptyBoard[index := Occupied(t)]
  {
    assert IsEmpty(EmptyBoard);
  }

  /** An accepted drop adds exactly one tile to the board. */
  lemma {:induction false} DropAddsOneTile(b: Board, index: int, t: Tile)
    requires 0 <= index < BoardSize
    requires Drop(b, index, t).Some?
    ensures OccupiedCount(Drop(b, index, t).value) == OccupiedCount(b) + 1
  {
    CountAfterPlace(b, index, t);
  }

  /**
   Drops alone keep the tiles in one unbroken run: a placement touching an
   unbroken run extends it at one end.
   */
  lemma {:induction false} DropKeepsContiguous(b: Board, index: int, t: Tile)
    requires 0 <= index < BoardSize
    requires Contiguous(b)
    requires Drop(b, index, t).Some?
    ensures Contiguous(Drop(b, index, t).value)
  {
    var b' := b[index := Occupied(t)];
    if IsEmpty(b) {
      assert forall m :: 0 <= m < |b'| && m != index ==> b'[m].Empty?;
    } else {
      forall i, k, j | 0 <= i < k < j < |b'| && b'[i].Occupied? && b'[j].Occupied?
        ensures b'[k].Occupied?
      {
        if k != index {
          if i != index && j != index {
            assert b[i].Occupied? && b[j].Occupied?;
          } else if i == index {
            // The run lies to the right of the new tile, so the tile touches it there.
            assert b[j].Occupied?;
            assert b[index].Empty? && !OccupiedAt(b, index - 1);
            assert b[index + 1].Occupied?;
            assert k > index + 1 ==> b[index + 1].Occupied? && b[j].Occupied?;
          } else {
            // The run lies to the left of the new tile, so the tile touches it there.
            assert b[i].Occupied?;
            assert b[index].Empty? && !OccupiedAt(b, index + 1);
            assert b[index - 1].Occupied?;
            assert k < index - 1 ==> b[i].Occupied? && b[index - 1].Occupied?;
          }
        }
      }
    }
  }

  /**
   The rule is local: on a board that already has a gap, a tile touching one
   of the pieces is still accepted although the word stays broken.
   */
  lemma {:induction false} AdjacentDropKeepsGap()
    ensures var b := EmptyBoard[1 := Occupied(Tile('A', 1))][3 := Occupied(Tile('B', 3))];
      && !Contiguous(b)
      && Drop(b, 4, Tile('C', 3)).Some?
      && !Contiguous(Drop(b, 4, Tile('C', 3)).value)
  {
    var b := EmptyBoard[1 := Occupied(Tile('A', 1))][3 := Occupied(Tile('B', 3))];
    assert b[1].Occupied? && b[2].Empty? && b[3].Occupied? && b[4].Empty?;
    var b' := b[4 := Occupied(Tile('C', 3))];
    assert b'[1].Occupied? && b'[2].Empty? && b'[3].Occupied?;
  }
}
