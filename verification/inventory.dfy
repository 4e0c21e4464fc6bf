/**
 The tile inventory and the dealer. The catalog gives every letter (the blank
 included) its point value and its count in the original distribution; the
 inventory maps every letter to the number of tiles of it still undealt.
 Dealing lays the remaining tiles out as one list, letter by letter in the
 inventory's enumeration order, and draws from that list without
 replacement, taking one letter off the inventory per draw.

 The random index of each draw is a parameter: `picks[i]` is the index the
 i-th draw takes, in range for the list as it stands at that draw.
 */
module Inventory {
  import opened Board

  /** A catalog entry: the letter's point value and its count in the original distribution. */
  datatype Entry = Entry(value: nat, count: nat)

  type Catalog = map<char, Entry>

  /** Remaining tiles per letter. */
  type Stock = map<char, nat>

  /** The result of a deal: the inventory afterwards and the tiles handed out, in draw order. */
  datatype Dealt = Dealt(stock: Stock, tiles: seq<Tile>)

  /** `order` lists every key of `keys` exactly once: the enumeration order of the inventory's letters. */
  predicate Enumerates(order: seq<char>, keys: set<char>)
  {
    && (forall i, j :: 0 <= i < j < |order| ==> order[i] != order[j])
    && (forall l :: l in keys <==> l in order)
  }

  /** No letter has more tiles left than the original distribution holds. */
  predicate WithinCatalog(stock: Stock, catalog: Catalog)
  {
    stock.Keys == catalog.Keys && forall l :: l in stock ==> stock[l] <= catalog[l].count
  }

  /** `resetTileInventory`: every letter of the catalog back at its original count. */
  function Reset(catalog: Catalog): (stock: Stock)
    ensures stock.Keys == catalog.Keys
    ensures forall l :: l in stock ==> stock[l] == catalog[l].count
  {
    map l | l in catalog :: catalog[l].count
  }

  /** Number of tiles left, summed over the letters of `order`. */
  function Total(stock: Stock, order: seq<char>): nat
    requires forall l :: l in order ==> l in stock
  {
    if |order| == 0 then 0 else stock[order[0]] + Total(stock, order[1..])
  }

  /** `n` copies of `c`: the inner loop that pushes one entry per remaining tile. */
  function Repeat(c: char, n: nat): (r: seq<char>)
    ensures |r| == n
    ensures forall l :: multiset(r)[l] == if l == c then n else 0
  {
    if n == 0 then [] else [c] + Repeat(c, n - 1)
  }

  /** `availableLetters`: one entry per remaining tile, letters grouped in enumeration order. */
  function Available(stock: Stock, order: seq<char>): (avail: seq<char>)
    requires forall l :: l in order ==> l in stock
    requires forall i, j :: 0 <= i < j < |order| ==> order[i] != order[j]
    ensures |avail| == Total(stock, order)
    ensures forall l :: multiset(avail)[l] == if l in order then stock[l] else 0
  {
    if |order| == 0 then []
    else
      var rest := Available(stock, order[1..]);
      assert order[0] !in order[1..] by {
        forall j | 0 <= j < |order[1..]|
          ensures order[1..][j] != order[0]
        {
          assert order[1..][j] == order[j + 1];
        }
      }
      Repeat(order[0], stock[order[0]]) + rest
  }

  /** Every entry of the list stands for one tile left in the inventory, and every tile left has one entry. */
  predicate Backs(avail: seq<char>, stock: Stock)
  {
    && (forall l :: l in avail ==> l in stock)
    && (forall l :: l in stock ==> multiset(avail)[l] == stock[l])
  }

  /** Each of the first `n` draws takes an index inside the list as it stands at that draw. */
  predicate PicksInRange(picks: seq<nat>, size: nat, n: nat)
  {
    n <= |picks| && forall i :: 0 <= i < n ==> picks[i] < size - i
  }

  function Min(a: int, b: int): int
  {
    if a <= b then a else b
  }

  /** How many tiles `dealNewTiles(count)` takes from `size` remaining: `min(count, size)`, none when that is not positive. */
  function DrawCount(count: int, size: nat): (n: nat)
    ensures n <= size
    ensures count <= 0 ==> n == 0
    ensures 0 <= count <= size ==> n == count
    ensures count >= size ==> n == size
  {
    var tilesToDraw := Min(count, size);
    if tilesToDraw <= 0 then 0 else tilesToDraw
  }

  /**
   The draw loop: `n` times, take the entry at the next random index out of
   the list (`splice`) and decrement that letter's count.
   */
  function Draw(stock: Stock, avail: seq<char>, picks: seq<nat>, n: nat): (r: (Stock, seq<char>))
    requires Backs(avail, stock)
    requires n <= |avail| && PicksInRange(picks, |avail|, n)
    ensures |r.1| == n
    ensures r.0.Keys == stock.Keys
    ensures forall l :: l in stock ==> r.0[l] + multiset(r.1)[l] == stock[l]
    ensures forall l :: l in r.1 ==> l in stock
    decreases n
  {
    if n == 0 then (stock, [])
    else
      var randomIndex := picks[0];
      var letter := avail[randomIndex];
      var remaining := avail[..randomIndex] + avail[randomIndex + 1..];
      SpliceLetters(avail, randomIndex);
      var stock' := stock[letter := stock[letter] - 1];
      PicksAfterFirst(picks, |avail|, n);
      var rest := Draw(stock', remaining, picks[1..], n - 1);
      assert multiset([letter] + rest.1) == multiset{letter} + multiset(rest.1);
      (rest.0, [letter] + rest.1)
  }

  /** Taking the entry at `i` out of the list removes exactly that one letter. */
  lemma {:induction false} SpliceLetters(avail: seq<char>, i: int)
    requires 0 <= i < |avail|
    ensures multiset(avail) == multiset(avail[..i] + avail[i + 1..]) + multiset{avail[i]}
  {
    assert avail == avail[..i] + [avail[i]] + avail[i + 1..];
  }

  /** After the first draw, the remaining indices are in range for the list one entry shorter. */
  lemma {:induction false} PicksAfterFirst(picks: seq<nat>, size: nat, n: nat)
    requires n > 0 && PicksInRange(picks, size, n)
    ensures size > 0 && PicksInRange(picks[1..], size - 1, n - 1)
  {
    assert picks[0] < size;
    forall i | 0 <= i < n - 1
      ensures picks[1..][i] < size - 1 - i
    {
      assert picks[1..][i] == picks[i + 1];
    }
  }

  /** The tile of each drawn letter, with the letter's catalog value. */
  function MakeTiles(catalog: Catalog, letters: seq<char>): (ts: seq<Tile>)
    requires forall l :: l in letters ==> l in catalog
    ensures |ts| == |letters|
    ensures forall i :: 0 <= i < |ts| ==> ts[i] == Tile(letters[i], catalog[letters[i]].value)
  {
    seq(|letters|, i requires 0 <= i < |letters| => Tile(letters[i], catalog[letters[i]].value))
  }

  function LettersOf(ts: seq<Tile>): (letters: seq<char>)
    ensures |letters| == |ts|
    ensures forall i :: 0 <= i < |ts| ==> letters[i] == ts[i].letter
  {
    seq(|ts|, i requires 0 <= i < |ts| => ts[i].letter)
  }

  /**
   `dealNewTiles(count)`: draws `min(count, remaining)` tiles (none when that
   is not positive), each taking exactly one tile of its letter off the
   inventory.
   */
  function Deal(catalog: Catalog, stock: Stock, order: seq<char>, count: int, picks: seq<nat>): (d: Dealt)
    requires Enumerates(order, stock.Keys) && stock.Keys <= catalog.Keys
    requires PicksInRange(picks, Total(stock, order), DrawCount(count, Total(stock, order)))
    ensures |d.tiles| == DrawCount(count, Total(stock, order))
    ensures d.stock.Keys == stock.Keys
    ensures forall l :: l in stock ==> d.stock[l] + multiset(LettersOf(d.tiles))[l] == stock[l]
    ensures forall t :: t in d.tiles ==> t.letter in catalog && t.value == catalog[t.letter].value
    ensures Total(d.stock, order) + |d.tiles| == Total(stock, order)
  {
    var availableLetters := Available(stock, order);
    var tilesToDraw := Min(count, |availableLetters|);
    if tilesToDraw <= 0 then Dealt(stock, [])
    else
      var drawn := Draw(stock, availableLetters, picks, tilesToDraw);
      HandOut(catalog, stock, order, drawn.0, drawn.1)
  }

  /** The drawn letters become tiles valued from the catalog, next to the inventory left after the draw. */
  function HandOut(catalog: Catalog, stock: Stock, order: seq<char>, stock': Stock, letters: seq<char>): (d: Dealt)
    requires Enumerates(order, stock.Keys) && stock.Keys <= catalog.Keys && stock'.Keys == stock.Keys
    requires forall l :: l in stock ==> stock'[l] + multiset(letters)[l] == stock[l]
    requires forall l :: l in letters ==> l in stock
    ensures |d.tiles| == |letters| && d.stock == stock'
    ensures forall l :: l in stock ==> d.stock[l] + multiset(LettersOf(d.tiles))[l] == stock[l]
    ensures forall t :: t in d.tiles ==> t.letter in catalog && t.value == catalog[t.letter].value
    ensures Total(d.stock, order) + |d.tiles| == Total(stock, order)
  {
    var tiles := MakeTiles(catalog, letters);
    assert LettersOf(tiles) == letters;
    TotalAfterDraw(stock, stock', order, letters);
    Dealt(stock', tiles)
  }

  /** Taking `letters` off the inventory lowers the total by exactly their number. */
  lemma {:induction false} TotalAfterDraw(stock: Stock, stock': Stock, order: seq<char>, letters: seq<char>)
    requires Enumerates(order, stock.Keys) && stock'.Keys == stock.Keys
    requires forall l :: l in stock ==> stock'[l] + multiset(letters)[l] == stock[l]
    requires forall l :: l in letters ==> l in stock
    ensures Total(stock', order) + |letters| == Total(stock, order)
  {
    var before, after := Available(stock, order), Available(stock', order);
    AvailableAfterDraw(stock, stock', order, letters);
    assert |multiset(after)| + |multiset(letters)| == |multiset(before)|;
  }

  /** The list laid out after the draw, together with the drawn letters, is the list laid out before it. */
  lemma {:induction false} AvailableAfterDraw(stock: Stock, stock': Stock, order: seq<char>, letters: seq<char>)
    requires Enumerates(order, stock.Keys) && stock'.Keys == stock.Keys
    requires forall l :: l in stock ==> stock'[l] + multiset(letters)[l] == stock[l]
    requires forall l :: l in letters ==> l in stock
    ensures multiset(Available(stock', order)) + multiset(letters) == multiset(Available(stock, order))
  {
    forall l
      ensures (multiset(Available(stock', order)) + multiset(letters))[l] == multiset(Available(stock, order))[l]
    {
      AvailableAfterDrawAt(stock, stock', order, letters, l);
    }
  }

  lemma {:induction false} AvailableAfterDrawAt(stock: Stock, stock': Stock, order: seq<char>, letters: seq<char>, l: char)
    requires Enumerates(order, stock.Keys) && stock'.Keys == stock.Keys
    requires l in stock ==> stock'[l] + multiset(letters)[l] == stock[l]
    requires l !in stock ==> l !in letters
    ensures (multiset(Available(stock', order)) + multiset(letters))[l] == multiset(Available(stock, order))[l]
  {
    var before, after := Available(stock, order), Available(stock', order);
    if l in stock {
      assert l in order;
      assert multiset(after)[l] == stock'[l] && multiset(before)[l] == stock[l];
    } else {
      assert l !in order;
      assert multiset(letters)[l] == 0;
    }
  }

  /** A deal only ever lowers counts, so the inventory stays within the original distribution. */
  lemma {:induction false} DealStaysWithinCatalog(catalog: Catalog, stock: Stock, order: seq<char>, count: int, picks: seq<nat>)
    requires Enumerates(order, stock.Keys) && WithinCatalog(stock, catalog)
    requires PicksInRange(picks, Total(stock, order), DrawCount(count, Total(stock, order)))
    ensures WithinCatalog(Deal(catalog, stock, order, count, picks).stock, catalog)
  {
    var d := Deal(catalog, stock, order, count, picks);
    forall l | l in d.stock
      ensures d.stock[l] <= catalog[l].count
    {
      assert d.stock[l] + multiset(LettersOf(d.tiles))[l] == stock[l];
    }
  }

  /** The freshly reset inventory holds every tile of the original distribution. */
  lemma {:induction false} ResetIsFull(catalog: Catalog, order: seq<char>, stock: Stock)
    requires Enumerates(order, catalog.Keys) && WithinCatalog(stock, catalog)
    ensures WithinCatalog(Reset(catalog), catalog)
    ensures Total(stock, order) <= Total(Reset(catalog), order)
  {
    TotalMonotone(stock, Reset(catalog), order);
  }

  lemma {:induction false} TotalMonotone(stock: Stock, stock': Stock, order: seq<char>)
    requires forall l :: l in order ==> l in stock && l in stock' && stock[l] <= stock'[l]
    ensures Total(stock, order) <= Total(stock', order)
  {
    if |order| > 0 {
      TotalMonotone(stock, stock', order[1..]);
    }
  }
}
