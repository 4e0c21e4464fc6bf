/**
 The word scorer. The special squares are a fixed table (double word at 2 and
 12, double letter at 6 and 8). `WordScore` is the scoring rule stated
 directly: zero for an empty board or a span with a gap, otherwise the sum of
 tile values (doubled on a double-letter square) times two for every
 double-word square in the span. `UpdateScore` is the scan of `updateScore` over
 the span and is proved to compute exactly that.
 */
module Scoring {
  import opened Board

  datatype Square = Plain | DoubleWord | DoubleLetter

  /** One entry of the special-square table. */
  datatype Special = Special(index: nat, kind: Square)

  const SpecialTiles: seq<Special> :=
    [Special(2, DoubleWord), Special(6, DoubleLetter), Special(8, DoubleLetter), Special(12, DoubleWord)]

  /** `specials.find(b => b.index === i)`: the kind of the first entry at `i`, `Plain` when none. */
  function FindSpecial(specials: seq<Special>, i: int): Square
  {
    if |specials| == 0 then Plain
    else if specials[0].index == i then specials[0].kind
    else FindSpecial(specials[1..], i)
  }

  /** The kind of square at board index `i`. */
  function SquareAt(i: int): (sq: Square)
    ensures sq == DoubleWord <==> i == 2 || i == 12
    ensures sq == DoubleLetter <==> i == 6 || i == 8
  {
    var t := SpecialTiles;
    var t1, t2, t3 := t[1..], t[1..][1..], t[1..][1..][1..];
    assert t1 == [Special(6, DoubleLetter), Special(8, DoubleLetter), Special(12, DoubleWord)];
    assert t2 == [Special(8, DoubleLetter), Special(12, DoubleWord)];
    assert t3 == [Special(12, DoubleWord)];
    assert FindSpecial(t3, i) == if i == 12 then DoubleWord else Plain;
    assert FindSpecial(t2, i) == if i == 8 then DoubleLetter else FindSpecial(t3, i);
    assert FindSpecial(t1, i) == if i == 6 then DoubleLetter else FindSpecial(t2, i);
    assert FindSpecial(t, i) == if i == 2 then DoubleWord else FindSpecial(t1, i);
    FindSpecial(t, i)
  }

  /** Multiplier a square applies to its own tile. */
  function LetterBonus(i: int): nat
  {
    if SquareAt(i) == DoubleLetter then 2 else 1
  }

  function SlotValue(s: Slot): nat
  {
    if s.Occupied? then s.tile.value else 0
  }

  /** Sum of tile value times letter bonus over slots `lo..hi-1`; empty slots add nothing. */
  function LetterSum(b: seq<Slot>, lo: int, hi: int): nat
    requires 0 <= lo <= hi <= |b|
    decreases hi - lo
  {
    if lo == hi then 0
    else LetterSum(b, lo, hi - 1) + SlotValue(b[hi - 1]) * LetterBonus(hi - 1)
  }

  /** Number of double-word squares among indices `lo..hi-1`. */
  function DoubleWords(lo: int, hi: int): nat
    requires lo <= hi
    decreases hi - lo
  {
    if lo == hi then 0
    else DoubleWords(lo, hi - 1) + (if SquareAt(hi - 1) == DoubleWord then 1 else 0)
  }

  function Pow2(n: nat): nat
  {
    if n == 0 then 1 else 2 * Pow2(n - 1)
  }

  /** The score of the word on the board, as the scoring rule states it. */
  function WordScore(b: Board): nat
  {
    var s := FirstOccupied(b);
    if s == -1 then 0
    else
      var e := LastOccupied(b);
      SpanBounds(b);
      if !Gapless(b, s, e + 1) then 0
      else
        var sum, multiplier := LetterSum(b, s, e + 1), Pow2(DoubleWords(s, e + 1));
        ProductNonNegative(sum, multiplier);
        sum * multiplier
  }

  /**
   The scan of `updateScore`: from the first to the last occupied slot, add
   each tile's value (doubled on a double-letter square), double the word
   multiplier on each double-word square, and give 0 at the first empty slot.
   */
  method UpdateScore(b: Board) returns (score: int)
    ensures score == WordScore(b)
    ensures IsEmpty(b) ==> score == 0
  {
    var startIndex := FirstOccupied(b);
    var endIndex := LastOccupied(b);
    if startIndex == -1 {
      return 0;
    }
    SpanBounds(b);
    var currentWordScore, wordMultiplier := ScanSpan(b, startIndex, endIndex);
    if Gapless(b, startIndex, endIndex + 1) {
      GaplessSpanScore(b);
    } else {
      ProductNonNegative(0, 1);
    }
    score := currentWordScore * wordMultiplier;
  }

  /**
   The loop of `updateScore` over `startIndex..endIndex`: the weighted sum and
   the word multiplier of the span, or 0 and 1 once it meets an empty slot.
   */
  method ScanSpan(b: Board, startIndex: int, endIndex: int) returns (currentWordScore: int, wordMultiplier: int)
    requires 0 <= startIndex <= endIndex < |b|
    ensures Gapless(b, startIndex, endIndex + 1) ==>
      currentWordScore == LetterSum(b, startIndex, endIndex + 1) && wordMultiplier == Pow2(DoubleWords(startIndex, endIndex + 1))
    ensures !Gapless(b, startIndex, endIndex + 1) ==> currentWordScore == 0 && wordMultiplier == 1
  {
    currentWordScore := 0;
    wordMultiplier := 1;
    var i := startIndex;
    while i <= endIndex
      invariant startIndex <= i <= endIndex + 1
      invariant Gapless(b, startIndex, i)
      invariant currentWordScore == LetterSum(b, startIndex, i)
      invariant wordMultiplier == Pow2(DoubleWords(startIndex, i))
    {
      if b[i].Empty? {
        return 0, 1;
      }
      var letterScore := b[i].tile.value;
      var squareBonus := 1;
      var bonus := SquareAt(i);
      if bonus == DoubleLetter {
        squareBonus := squareBonus * 2;
      } else if bonus == DoubleWord {
        wordMultiplier := wordMultiplier * 2;
      }
      ScanStep(b, startIndex, i);
      GaplessExtend(b, startIndex, i);
      currentWordScore := currentWordScore + letterScore * squareBonus;
      i := i + 1;
    }
  }

  /** One step of the scan: slot `i` adds its weighted value and, on a double-word square, doubles the multiplier. */
  lemma {:induction false} ScanStep(b: seq<Slot>, lo: int, i: int)
    requires 0 <= lo <= i < |b|
    ensures LetterSum(b, lo, i + 1) == LetterSum(b, lo, i) + SlotValue(b[i]) * LetterBonus(i)
    ensures Pow2(DoubleWords(lo, i + 1)) == Pow2(DoubleWords(lo, i)) * (if SquareAt(i) == DoubleWord then 2 else 1)
  {
  }

  lemma {:induction false} GaplessExtend(b: seq<Slot>, lo: int, hi: int)
    requires 0 <= lo <= hi < |b| && Gapless(b, lo, hi) && b[hi].Occupied?
    ensures Gapless(b, lo, hi + 1)
  {
  }

  /** An empty slot anywhere between the first and last occupied slots makes the score 0. */
  lemma {:induction false} EmptyInSpanScoresZero(b: Board, k: int)
    requires 0 <= k < |b| && b[k].Empty?
    requires FirstOccupied(b) <= k <= LastOccupied(b)
    ensures WordScore(b) == 0
  {
    var s := FirstOccupied(b);
    if s != -1 {
      SpanBounds(b);
      assert !Gapless(b, s, LastOccupied(b) + 1);
    }
  }

  /** With no gap in the span, the score is the bonus-weighted sum times 2 per double-word square. */
  lemma {:induction false} GaplessSpanScore(b: Board)
    requires !IsEmpty(b)
    requires Gapless(b, FirstOccupied(b), LastOccupied(b) + 1)
    ensures WordScore(b) == LetterSum(b, FirstOccupied(b), LastOccupied(b) + 1) * Pow2(DoubleWords(FirstOccupied(b), LastOccupied(b) + 1))
  {
    SpanBounds(b);
  }

  /** Slots that are both occupied in `b` and `b'` or both empty. */
  predicate SameOccupancy(b: seq<Slot>, b': seq<Slot>)
  {
    |b| == |b'| && forall i :: 0 <= i < |b| ==> b[i].Occupied? == b'[i].Occupied?
  }

  /** The occupied span depends only on which slots are occupied, not on the tiles. */
  lemma {:induction false} SpanOfSameOccupancy(b: seq<Slot>, b': seq<Slot>)
    requires SameOccupancy(b, b')
    ensures FirstOccupied(b) == FirstOccupied(b') && LastOccupied(b) == LastOccupied(b')
  {
    var s, s' := FirstOccupied(b), FirstOccupied(b');
    var e, e' := LastOccupied(b), LastOccupied(b');
    if s != -1 && s' != -1 {
      assert b[s'].Occupied? && b'[s].Occupied?;
    }
    if e != -1 && e' != -1 {
      assert b[e'].Occupied? && b'[e].Occupied?;
    }
  }

  lemma {:induction false} LetterSumSplit(b: seq<Slot>, lo: int, mid: int, hi: int)
    requires 0 <= lo <= mid <= hi <= |b|
    ensures LetterSum(b, lo, hi) == LetterSum(b, lo, mid) + LetterSum(b, mid, hi)
    decreases hi - mid
  {
    if hi > mid {
      LetterSumSplit(b, lo, mid, hi - 1);
    }
  }

  /** Empty slots contribute nothing to the weighted sum. */
  lemma {:induction false} LetterSumOfEmpty(b: seq<Slot>, lo: int, hi: int)
    requires 0 <= lo <= hi <= |b|
    requires forall k :: lo <= k < hi ==> b[k].Empty?
    ensures LetterSum(b, lo, hi) == 0
    decreases hi - lo
  {
    if hi > lo {
      LetterSumOfEmpty(b, lo, hi - 1);
    }
  }

  /** A non-empty run of tiles of positive value has a positive weighted sum. */
  lemma {:induction false} LetterSumPositive(b: seq<Slot>, lo: int, hi: int)
    requires 0 <= lo < hi <= |b| && Gapless(b, lo, hi)
    requires forall k :: 0 <= k < |b| && b[k].Occupied? ==> b[k].tile.value > 0
    ensures LetterSum(b, lo, hi) > 0
    decreases hi - lo
  {
    assert b[hi - 1].Occupied?;
    if hi - 1 > lo {
      LetterSumPositive(b, lo, hi - 1);
    }
  }

  /** Replacing the tile at `k` trades that slot's weighted value for the new tile's. */
  lemma {:induction false} LetterSumUpdate(b: seq<Slot>, lo: int, hi: int, k: int, t: Tile)
    requires 0 <= lo <= k < hi <= |b|
    ensures LetterSum(b[k := Occupied(t)], lo, hi) + SlotValue(b[k]) * LetterBonus(k)
         == LetterSum(b, lo, hi) + t.value * LetterBonus(k)
    decreases hi - lo
  {
    var b' := b[k := Occupied(t)];
    if hi - 1 == k {
      if lo < k {
        assert LetterSum(b', lo, k) == LetterSum(b, lo, k) by {
          LetterSumAgree(b, b', lo, k);
        }
      }
    } else {
      LetterSumUpdate(b, lo, hi - 1, k, t);
    }
  }

  lemma {:induction false} LetterSumAgree(b: seq<Slot>, b': seq<Slot>, lo: int, hi: int)
    requires 0 <= lo <= hi <= |b| && hi <= |b'|
    requires forall k :: lo <= k < hi ==> b[k] == b'[k]
    ensures LetterSum(b, lo, hi) == LetterSum(b', lo, hi)
    decreases hi - lo
  {
    if hi > lo {
      LetterSumAgree(b, b', lo, hi - 1);
    }
  }

  /** The double-word squares in `lo..hi-1` are exactly those of 2 and 12 that the range covers. */
  lemma {:induction false} DoubleWordsInRange(lo: int, hi: int)
    requires lo <= hi
    ensures DoubleWords(lo, hi) == (if lo <= 2 < hi then 1 else 0) + (if lo <= 12 < hi then 1 else 0)
    decreases hi - lo
  {
    if hi > lo {
      DoubleWordsInRange(lo, hi - 1);
    }
  }

  /** A board whose tiles form one unbroken run has no gap in its span. */
  lemma {:induction false} ContiguousSpanGapless(b: Board)
    requires !IsEmpty(b) && Contiguous(b)
    ensures Gapless(b, FirstOccupied(b), LastOccupied(b) + 1)
  {
    SpanBounds(b);
    var s, e := FirstOccupied(b), LastOccupied(b);
    forall k | s <= k < e + 1
      ensures b[k].Occupied?
    {
      if s < k < e {
        assert b[s].Occupied? && b[e].Occupied?;
      }
    }
  }

  /**
   Score formula: for one unbroken run of tiles, the score is the sum over the
   board of value times letter bonus (a double-letter square doubles only its
   own tile), doubled once for each double-word square the run covers, so the
   two double-word squares compound to a factor of four.
   */
  lemma {:induction false} ScoreFormula(b: Board)
    requires !IsEmpty(b) && Contiguous(b)
    ensures var s, e := FirstOccupied(b), LastOccupied(b);
      WordScore(b) == LetterSum(b, 0, |b|) * (if s <= 2 <= e then 2 else 1) * (if s <= 12 <= e then 2 else 1)
  {
    ContiguousSpanGapless(b);
    GaplessScoreFormula(b);
  }

  lemma {:induction false} GaplessScoreFormula(b: Board)
    requires !IsEmpty(b) && Gapless(b, FirstOccupied(b), LastOccupied(b) + 1)
    ensures var s, e := FirstOccupied(b), LastOccupied(b);
      WordScore(b) == LetterSum(b, 0, |b|) * (if s <= 2 <= e then 2 else 1) * (if s <= 12 <= e then 2 else 1)
  {
    SpanBounds(b);
    var s, e := FirstOccupied(b), LastOccupied(b);
    GaplessSpanScore(b);
    LetterSumSplit(b, 0, s, e + 1);
    LetterSumSplit(b, 0, e + 1, |b|);
    LetterSumOfEmpty(b, 0, s);
    LetterSumOfEmpty(b, e + 1, |b|);
    DoubleWordsInRange(s, e + 1);
    var a, c := if s <= 2 <= e then 2 else 1, if s <= 12 <= e then 2 else 1;
    Pow2OfTwoFlags(if s <= 2 <= e then 1 else 0, if s <= 12 <= e then 1 else 0);
    var span, whole, m := LetterSum(b, s, e + 1), LetterSum(b, 0, |b|), Pow2(DoubleWords(s, e + 1));
    assert whole == span && m == a * c;
    Rescale(WordScore(b), span, whole, m, a, c);
  }

  lemma {:induction false} Rescale(w: int, x: int, x': int, m: int, a: int, c: int)
    requires w == x * m && x' == x && m == a * c
    ensures w == x' * a * c
  {
  }

  lemma {:induction false} Pow2OfTwoFlags(x: nat, y: nat)
    requires x <= 1 && y <= 1
    ensures Pow2(x + y) == (if x == 1 then 2 else 1) * (if y == 1 then 2 else 1)
  {
  }

  /**
   A lone tile scores its value, doubled on a double-letter square and
   doubled on a double-word square; on a plain square it scores its value.
   */
  lemma {:induction false} SingleTileScore(b: Board, k: int)
    requires 0 <= k < |b| && b[k].Occupied?
    requires forall i :: 0 <= i < |b| && i != k ==> b[i].Empty?
    ensures WordScore(b) == b[k].tile.value * LetterBonus(k) * (if SquareAt(k) == DoubleWord then 2 else 1)
    ensures SquareAt(k) == Plain ==> WordScore(b) == b[k].tile.value
  {
    assert FirstOccupied(b) == k && LastOccupied(b) == k;
    assert LetterSum(b, k, k + 1) == b[k].tile.value * LetterBonus(k);
    assert Pow2(DoubleWords(k, k + 1)) == if SquareAt(k) == DoubleWord then 2 else 1;
    GaplessSpanScore(b);
  }

  /** Gap rule: tiles that do not form one unbroken run score 0, whatever their values. */
  lemma {:induction false} NotContiguousScoresZero(b: Board)
    requires !Contiguous(b)
    ensures WordScore(b) == 0
  {
    var i, k, j :| 0 <= i < k < j < |b| && b[i].Occupied? && b[j].Occupied? && b[k].Empty?;
    assert FirstOccupied(b) <= i && j <= LastOccupied(b);
    EmptyInSpanScoresZero(b, k);
  }

  /**
   When every tile is worth at least one point, the score is positive exactly
   when the board holds one unbroken run of tiles.
   */
  lemma {:induction false} PositiveScoreIffContiguous(b: Board)
    requires forall k :: 0 <= k < |b| && b[k].Occupied? ==> b[k].tile.value > 0
    ensures WordScore(b) > 0 <==> !IsEmpty(b) && Contiguous(b)
  {
    if !IsEmpty(b) && Contiguous(b) {
      SpanBounds(b);
      ContiguousSpanGapless(b);
      GaplessSpanScore(b);
      var s, e := FirstOccupied(b), LastOccupied(b);
      LetterSumPositive(b, s, e + 1);
      Pow2Positive(DoubleWords(s, e + 1));
      ProductPositive(LetterSum(b, s, e + 1), Pow2(DoubleWords(s, e + 1)));
    } else if !Contiguous(b) {
      NotContiguousScoresZero(b);
    }
  }

  lemma {:induction false} Pow2Positive(n: nat)
    ensures Pow2(n) >= 1
  {
    if n > 0 {
      Pow2Positive(n - 1);
    }
  }

  lemma {:induction false} ProductNonNegative(x: int, y: int)
    requires x >= 0 && y >= 0
    ensures x * y >= 0
  {
  }

  lemma {:induction false} ProductPositive(x: int, y: int)
    requires x > 0 && y > 0
    ensures x * y > 0
  {
  }

  /**
   Replacing one tile of an unbroken run changes the score by the value
   difference times that square's letter bonus times the word multiplier: a
   double-letter square doubles its own tile only.
   */
  lemma {:induction false} TileContribution(b: Board, k: int, t: Tile)
    requires !IsEmpty(b) && Contiguous(b)
    requires 0 <= k < |b| && b[k].Occupied?
    ensures var m := Pow2(DoubleWords(FirstOccupied(b), LastOccupied(b) + 1));
      WordScore(b[k := Occupied(t)]) + b[k].tile.value * LetterBonus(k) * m
        == WordScore(b) + t.value * LetterBonus(k) * m
  {
    ContiguousSpanGapless(b);
    GaplessTileContribution(b, k, t);
  }

  lemma {:induction false} GaplessTileContribution(b: Board, k: int, t: Tile)
    requires !IsEmpty(b) && Gapless(b, FirstOccupied(b), LastOccupied(b) + 1)
    requires 0 <= k < |b| && b[k].Occupied?
    ensures var m := Pow2(DoubleWords(FirstOccupied(b), LastOccupied(b) + 1));
      WordScore(b[k := Occupied(t)]) + b[k].tile.value * LetterBonus(k) * m
        == WordScore(b) + t.value * LetterBonus(k) * m
  {
    var b' := b[k := Occupied(t)];
    var s, e := FirstOccupied(b), LastOccupied(b);
    RetileKeepsSpan(b, k, t);
    GaplessSpanScore(b);
    GaplessSpanScore(b');
    LetterSumUpdate(b, s, e + 1, k, t);
    SpanContribution(b, b', k, t, s, e);
  }

  /** The score identity of a retiled span, from the weighted sums of the span before and after. */
  lemma {:induction false} SpanContribution(b: Board, b': Board, k: int, t: Tile, s: int, e: int)
    requires 0 <= s <= k <= e < |b| && b[k].Occupied?
    requires WordScore(b) == LetterSum(b, s, e + 1) * Pow2(DoubleWords(s, e + 1))
    requires WordScore(b') == LetterSum(b', s, e + 1) * Pow2(DoubleWords(s, e + 1))
    requires LetterSum(b', s, e + 1) + SlotValue(b[k]) * LetterBonus(k) == LetterSum(b, s, e + 1) + t.value * LetterBonus(k)
    ensures WordScore(b') + b[k].tile.value * LetterBonus(k) * Pow2(DoubleWords(s, e + 1))
         == WordScore(b) + t.value * LetterBonus(k) * Pow2(DoubleWords(s, e + 1))
  {
    Rebalance(LetterSum(b', s, e + 1), LetterSum(b, s, e + 1), b[k].tile.value, t.value, LetterBonus(k), Pow2(DoubleWords(s, e + 1)));
  }

  /** If x' + o * c == x + n * c then x' * m + o * c * m == x * m + n * c * m. */
  lemma {:induction false} Rebalance(x': int, x: int, o: int, n: int, c: int, m: int)
    requires x' + o * c == x + n * c
    ensures x' * m + o * c * m == x * m + n * c * m
  {
    calc {
      x' * m + o * c * m;
      (x' + o * c) * m;
      (x + n * c) * m;
      x * m + n * c * m;
    }
  }

  /** Replacing a tile of a gapless span keeps the span and its gaplessness, and the tile lies inside it. */
  lemma {:induction false} RetileKeepsSpan(b: Board, k: int, t: Tile)
    requires !IsEmpty(b) && Gapless(b, FirstOccupied(b), LastOccupied(b) + 1)
    requires 0 <= k < |b| && b[k].Occupied?
    ensures var b' := b[k := Occupied(t)];
      && !IsEmpty(b')
      && FirstOccupied(b') == FirstOccupied(b) <= k <= LastOccupied(b) == LastOccupied(b')
      && Gapless(b', FirstOccupied(b), LastOccupied(b) + 1)
  {
    var b' := b[k := Occupied(t)];
    assert SameOccupancy(b, b');
    SpanOfSameOccupancy(b, b');
    SpanBounds(b);
    assert b'[k].Occupied?;
  }
}
