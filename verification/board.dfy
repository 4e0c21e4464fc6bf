/**
 The one-line board of the game: fifteen slots in a row, each either empty or
 holding one placed tile, together with the searches the scorer and the
 placement rule run over it (`findIndex`, `findLastIndex`, and the count of
 occupied slots).
 */
module Board {

  /** Number of squares on the board. */
  const BoardSize: nat := 15

  datatype Option<T> = None | Some(value: T)

  /** A tile: its letter and the point value copied from the catalog when it was dealt. */
  datatype Tile = Tile(letter: char, value: nat)

  /** A board slot; `Empty` is JavaScript's `null`. */
  datatype Slot = Empty | Occupied(tile: Tile)

  type Board = b: seq<Slot> | |b| == BoardSize
    witness [Empty, Empty, Empty, Empty, Empty, Empty, Empty, Empty, Empty, Empty, Empty, Empty, Empty, Empty, Empty]

  /** The board after `new Array(BOARD_SIZE).fill(null)`. */
  const EmptyBoard: Board :=
    [Empty, Empty, Empty, Empty, Empty, Empty, Empty, Empty, Empty, Empty, Empty, Empty, Empty, Empty, Empty]

  /** No slot holds a tile. */
  predicate IsEmpty(b: seq<Slot>)
  {
    forall i :: 0 <= i < |b| ==> b[i].Empty?
  }

  /** Slot `i` exists and holds a tile; an index off either end counts as unoccupied. */
  predicate OccupiedAt(b: seq<Slot>, i: int)
  {
    0 <= i < |b| && b[i].Occupied?
  }

  /** Every slot strictly between two occupied slots is occupied as well. */
  predicate Contiguous(b: seq<Slot>)
  {
    forall i, k, j :: 0 <= i < k < j < |b| && b[i].Occupied? && b[j].Occupied? ==> b[k].Occupied?
  }

  /** Every slot of `lo..hi-1` is occupied. */
  predicate Gapless(b: seq<Slot>, lo: int, hi: int)
    requires 0 <= lo <= hi <= |b|
  {
    forall k :: lo <= k < hi ==> b[k].Occupied?
  }

  /** `boardState.findIndex(tile => tile !== null)`: the first occupied slot, or -1. */
  function FirstOccupied(b: seq<Slot>): (r: int)
    ensures r == -1 <==> IsEmpty(b)
    ensures r != -1 ==> 0 <= r < |b| && b[r].Occupied?
    ensures r != -1 ==> forall i :: 0 <= i < r ==> b[i].Empty?
  {
    if |b| == 0 then -1
    else if b[0].Occupied? then 0
    else
      var k := FirstOccupied(b[1..]);
      if k == -1 then -1 else k + 1
  }

  /** `boardState.findLastIndex(tile => tile !== null)`: the last occupied slot, or -1. */
  function LastOccupied(b: seq<Slot>): (r: int)
    ensures r == -1 <==> IsEmpty(b)
    ensures r != -1 ==> 0 <= r < |b| && b[r].Occupied?
    ensures r != -1 ==> forall i :: r < i < |b| ==> b[i].Empty?
  {
    if |b| == 0 then -1
    else if b[|b| - 1].Occupied? then |b| - 1
    else LastOccupied(b[..|b| - 1])
  }

  /** `boardState.filter(tile => tile !== null).length`. */
  function OccupiedCount(b: seq<Slot>): (n: nat)
    ensures n <= |b|
    ensures n == 0 <==> IsEmpty(b)
  {
    if |b| == 0 then 0
    else OccupiedCount(b[..|b| - 1]) + (if b[|b| - 1].Occupied? then 1 else 0)
  }

  /** The occupied span of a non-empty board lies inside the board, first before last. */
  lemma {:induction false} SpanBounds(b: seq<Slot>)
    requires !IsEmpty(b)
    ensures 0 <= FirstOccupied(b) <= LastOccupied(b) < |b|
  {
    var s := FirstOccupied(b);
    var e := LastOccupied(b);
    assert b[s].Occupied?;
  }

  /** Writing a tile into an empty slot adds exactly one to the occupied count. */
  lemma {:induction false} CountAfterPlace(b: seq<Slot>, i: int, t: Tile)
    requires 0 <= i < |b| && b[i].Empty?
    ensures OccupiedCount(b[i := Occupied(t)]) == OccupiedCount(b) + 1
    decreases |b|
  {
    var b' := b[i := Occupied(t)];
    var prefix, prefix' := b[..|b| - 1], b'[..|b'| - 1];
    if i == |b| - 1 {
      assert prefix' == prefix;
    } else {
      assert prefix' == prefix[i := Occupied(t)];
      assert b'[|b'| - 1] == b[|b| - 1];
      CountAfterPlace(prefix, i, t);
    }
  }

  /** Emptying an occupied slot removes exactly one from the occupied count. */
  lemma {:induction false} CountAfterLift(b: seq<Slot>, i: int)
    requires 0 <= i < |b| && b[i].Occupied?
    ensures OccupiedCount(b[i := Empty]) + 1 == OccupiedCount(b)
  {
    var b' := b[i := Empty];
    assert b'[i := Occupied(b[i].tile)] == b;
    CountAfterPlace(b', i, b[i].tile);
  }

  /** The letters of the tiles on the board. */
  function BoardLetters(b: seq<Slot>): (m: multiset<char>)
  {
    if |b| == 0 then multiset{}
    else BoardLetters(b[..|b| - 1]) + SlotLetter(b[|b| - 1])
  }

  /** The letter a slot holds, if any. */
  function SlotLetter(s: Slot): (m: multiset<char>)
    ensures |m| == if s.Occupied? then 1 else 0
  {
    if s.Occupied? then multiset{s.tile.letter} else multiset{}
  }

  /** The board holds one letter per occupied slot. */
  lemma {:induction false} LettersMatchCount(b: seq<Slot>)
    ensures |BoardLetters(b)| == OccupiedCount(b)
  {
    if |b| > 0 {
      LettersMatchCount(b[..|b| - 1]);
    }
  }

  /** An empty board holds no letters. */
  lemma {:induction false} LettersOfEmpty(b: seq<Slot>)
    requires IsEmpty(b)
    ensures BoardLetters(b) == multiset{}
  {
    LettersMatchCount(b);
  }

  /** Writing a tile into an empty slot adds exactly its letter to the board's letters. */
  lemma {:induction false} LettersAfterPlace(b: seq<Slot>, i: int, t: Tile)
    requires 0 <= i < |b| && b[i].Empty?
    ensures BoardLetters(b[i := Occupied(t)]) == BoardLetters(b) + multiset{t.letter}
    decreases |b|
  {
    var b' := b[i := Occupied(t)];
    var prefix, prefix' := b[..|b| - 1], b'[..|b'| - 1];
    assert BoardLetters(b) == BoardLetters(prefix) + SlotLetter(b[|b| - 1]);
    assert BoardLetters(b') == BoardLetters(prefix') + SlotLetter(b'[|b'| - 1]);
    if i == |b| - 1 {
      assert prefix' == prefix;
      assert SlotLetter(b[|b| - 1]) == multiset{};
      assert SlotLetter(b'[|b'| - 1]) == multiset{t.letter};
    } else {
      assert prefix' == prefix[i := Occupied(t)];
      assert b'[|b'| - 1] == b[|b| - 1];
      LettersAfterPlace(prefix, i, t);
    }
  }

  /** Emptying an occupied slot removes exactly its letter from the board's letters. */
  lemma {:induction false} LettersAfterLift(b: seq<Slot>, i: int)
    requires 0 <= i < |b| && b[i].Occupied?
    ensures BoardLetters(b[i := Empty]) + multiset{b[i].tile.letter} == BoardLetters(b)
  {
    var b' := b[i := Empty];
    assert b'[i := Occupied(b[i].tile)] == b;
    LettersAfterPlace(b', i, b[i].tile);
  }
}
