/** Building the wall (`createTiles`), shuffling it (`shuffleTiles`) and the
    deal schedule (`dealTilesWithAnimation`): the dealer's seat and then the
    others in turn each take the FRONT tile of the wall, 53 times, so the
    dealer ends with 14 tiles and everybody else with 13. */
module Wall {
  import opened Tiles

  // ---------------------------------------------------------------------
  // The 144-tile set
  // ---------------------------------------------------------------------

  /** Copies of `t` in a block of kind `k`, values `lo..hi`, `copies` each. */
  function Share(t: Tile, k: Kind, lo: int, hi: int, copies: nat): nat {
    if t.kind == k && lo <= t.value <= hi then copies else 0
  }

  /** How many copies of `t` the game's set holds: four of each numbered
      tile 1-9, wind 0-3 and dragon 0-2, one of each flower 0-7. */
  function SetCount(t: Tile): nat {
    Share(t, Wan, 1, 9, 4) + Share(t, Tiao, 1, 9, 4) + Share(t, Tong, 1, 9, 4)
      + Share(t, Wind, 0, 3, 4) + Share(t, Dragon, 0, 2, 4) + Share(t, Flower, 0, 7, 1)
  }

  /** The tiles the game is played with. */
  predicate InTileSet(t: Tile) {
    match t.kind
    case Wan | Tiao | Tong => 1 <= t.value <= 9
    case Wind => 0 <= t.value <= 3
    case Dragon => 0 <= t.value <= 2
    case Flower => 0 <= t.value <= 7
  }

  /** Each tile of the set comes four times, a flower once, and nothing
      else is in it. */
  lemma SetCountCases(t: Tile)
    ensures SetCount(t) == if !InTileSet(t) then 0 else if t.kind == Flower then 1 else 4
  {
  }

  /** A complete set: 144 tiles, each in its catalogue number of copies. */
  ghost predicate IsTileSet(w: seq<Tile>) {
    |w| == 144 && forall t :: Count(w, t) == SetCount(t)
  }

  lemma CountAppend(s: seq<Tile>, x: Tile, t: Tile)
    ensures Count(s + [x], t) == Count(s, t) + if x == t then 1 else 0
  {
    assert multiset(s + [x]) == multiset(s) + multiset{x};
  }

  /** The inner loop of `createTiles`: `copies` pushes of tile `x`. */
  method PushCopies(tiles: seq<Tile>, x: Tile, copies: nat) returns (r: seq<Tile>)
    ensures |r| == |tiles| + copies
    ensures |tiles| <= |r| && r[..|tiles|] == tiles
    ensures forall t :: Count(r, t) == Count(tiles, t) + if t == x then copies else 0
  {
    r := tiles;
    for c := 0 to copies
      invariant |r| == |tiles| + c
      invariant |tiles| <= |r| && r[..|tiles|] == tiles
      invariant forall t :: Count(r, t) == Count(tiles, t) + if t == x then c else 0
    {
      forall t ensures Count(r + [x], t) == Count(r, t) + if x == t then 1 else 0 {
        CountAppend(r, x, t);
      }
      r := r + [x];
    }
  }

  /** The outer loop of `createTiles` for one kind: values `lo..hi` in
      increasing order, `copies` pushes of each. */
  method PushBlock(tiles: seq<Tile>, k: Kind, lo: int, hi: int, copies: nat) returns (r: seq<Tile>)
    requires lo <= hi + 1
    ensures |r| == |tiles| + (hi - lo + 1) * copies
    ensures |tiles| <= |r| && r[..|tiles|] == tiles
    ensures forall t :: Count(r, t) == Count(tiles, t) + Share(t, k, lo, hi, copies)
  {
    r := tiles;
    for v := lo to hi + 1
      invariant |r| == |tiles| + (v - lo) * copies
      invariant |tiles| <= |r| && r[..|tiles|] == tiles
      invariant forall t :: Count(r, t) == Count(tiles, t) + (if t.kind == k && lo <= t.value < v then copies else 0)
    {
      var r' := PushCopies(r, Tile(k, v), copies);
      assert r'[..|tiles|] == r[..|tiles|];
      r := r';
      assert (v - lo) * copies + copies == (v + 1 - lo) * copies;
    }
  }

  /** `createTiles`: wan, tiao and tong 1-9, winds 0-3 and dragons 0-2 four
      times each, then flowers 0-7 once each, in that order. */
  method CreateTiles() returns (tiles: seq<Tile>)
    ensures IsTileSet(tiles)
  {
    tiles := PushBlock([], Wan, 1, 9, 4);
    tiles := PushBlock(tiles, Tiao, 1, 9, 4);
    tiles := PushBlock(tiles, Tong, 1, 9, 4);
    tiles := PushBlock(tiles, Wind, 0, 3, 4);
    tiles := PushBlock(tiles, Dragon, 0, 2, 4);
    tiles := PushBlock(tiles, Flower, 0, 7, 1);
  }

  // ---------------------------------------------------------------------
  // Fisher-Yates shuffle
  // ---------------------------------------------------------------------

  /** `s` with the tiles at `i` and `j` exchanged. */
  function Swap(s: seq<Tile>, i: nat, j: nat): (r: seq<Tile>)
    requires i < |s| && j < |s|
    ensures |r| == |s|
  {
    s[i := s[j]][j := s[i]]
  }

  lemma SwapPermutes(s: seq<Tile>, i: nat, j: nat)
    requires i < |s| && j < |s|
    ensures multiset(Swap(s, i, j)) == multiset(s)
  {
  }

  lemma SwapElements(s: seq<Tile>, i: nat, j: nat)
    requires i < |s| && j < |s|
    ensures Swap(s, i, j)[i] == s[j] && Swap(s, i, j)[j] == s[i]
    ensures forall k | 0 <= k < |s| && k != i && k != j :: Swap(s, i, j)[k] == s[k]
  {
  }

  /** Draws for the loop from position `i` down to 1: the k-th draw is the
      index picked at position i - k, so it lies in 0..i - k. The source
      takes it as `Math.floor(Math.random() * (i + 1))`; the random source
      is a parameter here. */
  predicate ValidDraws(draws: seq<nat>, i: nat) {
    i <= |draws| && forall k | 0 <= k < i :: draws[k] <= i - k
  }

  /** The shuffle loop from position `i` down to 1: the tile at `i` is
      exchanged with the one at the drawn index; the positions above `i`
      are never touched again. */
  function ShuffleFrom(s: seq<Tile>, i: nat, draws: seq<nat>): (r: seq<Tile>)
    requires i < |s| && ValidDraws(draws, i)
    ensures |r| == |s|
    decreases i
  {
    if i == 0 then s
    else ShuffleFrom(Swap(s, i, draws[0]), i - 1, draws[1..])
  }

  lemma {:induction false} ShuffleFromPermutes(s: seq<Tile>, i: nat, draws: seq<nat>)
    requires i < |s| && ValidDraws(draws, i)
    ensures multiset(ShuffleFrom(s, i, draws)) == multiset(s)
    decreases i
  {
    if i > 0 {
      SwapPermutes(s, i, draws[0]);
      ShuffleFromPermutes(Swap(s, i, draws[0]), i - 1, draws[1..]);
    }
  }

  /** Once the loop has passed a position, that tile stays where it is. */
  lemma {:induction false} ShuffleFromKeepsTop(s: seq<Tile>, i: nat, draws: seq<nat>)
    requires i < |s| && ValidDraws(draws, i)
    ensures forall k | i < k < |s| :: ShuffleFrom(s, i, draws)[k] == s[k]
    decreases i
  {
    if i > 0 {
      SwapElements(s, i, draws[0]);
      ShuffleFromKeepsTop(Swap(s, i, draws[0]), i - 1, draws[1..]);
    }
  }

  /** `shuffleTiles`: one draw for each position from the last down to 1. */
  function ShuffleTiles(s: seq<Tile>, draws: seq<nat>): (r: seq<Tile>)
    requires |s| == 0 || ValidDraws(draws, |s| - 1)
    ensures |r| == |s|
  {
    if |s| == 0 then s else ShuffleFrom(s, |s| - 1, draws)
  }

  /** The shuffle only rearranges: the same tiles, in the same numbers. */
  lemma ShufflePermutes(s: seq<Tile>, draws: seq<nat>)
    requires |s| == 0 || ValidDraws(draws, |s| - 1)
    ensures multiset(ShuffleTiles(s, draws)) == multiset(s)
  {
    if |s| > 0 {
      ShuffleFromPermutes(s, |s| - 1, draws);
    }
  }

  /** Position of some copy of `t` within the first `n` tiles of `s`. */
  lemma FindBelow(s: seq<Tile>, n: nat, t: Tile) returns (j: nat)
    requires n <= |s| && t in multiset(s[..n])
    ensures j < n && s[j] == t
  {
    var prefix := s[..n];
    assert t in prefix;
    j :| 0 <= j < |prefix| && prefix[j] == t;
  }

  /** Exchanging two tiles within the first i + 1 leaves that prefix's
      contents alone. */
  lemma SwapKeepsPrefix(s: seq<Tile>, i: nat, j: nat)
    requires j <= i < |s|
    ensures multiset(Swap(s, i, j)[..i + 1]) == multiset(s[..i + 1])
  {
    assert Swap(s, i, j)[..i + 1] == Swap(s[..i + 1], i, j);
    SwapPermutes(s[..i + 1], i, j);
  }

  /** Equal prefixes with equal last tiles are equal one tile shorter. */
  lemma PeelLast(a: seq<Tile>, b: seq<Tile>, i: nat)
    requires i < |a| && i < |b| && a[i] == b[i]
    requires multiset(a[..i + 1]) == multiset(b[..i + 1])
    ensures multiset(a[..i]) == multiset(b[..i])
  {
    assert a[..i + 1] == a[..i] + [a[i]];
    assert b[..i + 1] == b[..i] + [b[i]];
    assert multiset(a[..i]) == multiset(a[..i + 1]) - multiset{a[i]};
    assert multiset(b[..i]) == multiset(b[..i + 1]) - multiset{b[i]};
  }

  /** One step of the loop, with the draw `j` in front of the rest. */
  lemma ShuffleFromStep(s: seq<Tile>, i: nat, j: nat, rest: seq<nat>)
    requires 0 < i < |s| && j <= i && ValidDraws(rest, i - 1)
    ensures ValidDraws([j] + rest, i)
    ensures ShuffleFrom(s, i, [j] + rest) == ShuffleFrom(Swap(s, i, j), i - 1, rest)
  {
    var draws := [j] + rest;
    assert draws[1..] == rest;
    forall k | 0 <= k < i ensures draws[k] <= i - k {
      if k > 0 {
        assert draws[k] == rest[k - 1];
      }
    }
  }

  /** With one position left and the rest in place, the lists agree. */
  lemma LastPositionAgrees(s: seq<Tile>, target: seq<Tile>)
    requires 0 < |s| && |target| == |s|
    requires multiset(s[..1]) == multiset(target[..1])
    requires forall k | 0 < k < |s| :: s[k] == target[k]
    ensures s == target
  {
    assert s[..1] == [s[0]] && target[..1] == [target[0]];
    assert s[0] in multiset{target[0]};
  }

  /** The draw at position `i` that brings the target's tile there: after
      the exchange the last i + 1 positions already agree with the target
      and the first i hold the rest of its tiles. */
  lemma ReachStep(s: seq<Tile>, i: nat, target: seq<Tile>) returns (j: nat)
    requires 0 < i < |s| && |target| == |s|
    requires multiset(s[..i + 1]) == multiset(target[..i + 1])
    requires forall k | i < k < |s| :: s[k] == target[k]
    ensures j <= i
    ensures multiset(Swap(s, i, j)[..i]) == multiset(target[..i])
    ensures forall k | i - 1 < k < |s| :: Swap(s, i, j)[k] == target[k]
  {
    assert target[i] in multiset(target[..i + 1]) by {
      assert target[..i + 1][i] == target[i];
    }
    j := FindBelow(s, i + 1, target[i]);
    SwapElements(s, i, j);
    SwapKeepsPrefix(s, i, j);
    PeelLast(Swap(s, i, j), target, i);
  }

  /** Every arrangement of the wall can come out of the shuffle: for each
      permutation `target` of `s` there are draws that produce it. At each
      position the draw picks a copy of the tile the target wants there. */
  lemma {:induction false} ShuffleFromReaches(s: seq<Tile>, i: nat, target: seq<Tile>) returns (draws: seq<nat>)
    requires i < |s| && |target| == |s|
    requires multiset(s[..i + 1]) == multiset(target[..i + 1])
    requires forall k | i < k < |s| :: s[k] == target[k]
    ensures ValidDraws(draws, i) && ShuffleFrom(s, i, draws) == target
    decreases i
  {
    if i == 0 {
      LastPositionAgrees(s, target);
      draws := [];
    } else {
      var j := ReachStep(s, i, target);
      var s' := Swap(s, i, j);
      var rest := ShuffleFromReaches(s', i - 1, target);
      ShuffleFromStep(s, i, j, rest);
      draws := [j] + rest;
    }
  }

  lemma SameLength(a: seq<Tile>, b: seq<Tile>)
    requires multiset(a) == multiset(b)
    ensures |a| == |b|
  {
    assert |multiset(a)| == |multiset(b)|;
  }

  lemma ShuffleReachesWhole(s: seq<Tile>, target: seq<Tile>) returns (draws: seq<nat>)
    requires 0 < |s| && |target| == |s| && multiset(target) == multiset(s)
    ensures ValidDraws(draws, |s| - 1) && ShuffleFrom(s, |s| - 1, draws) == target
  {
    assert s[..|s|] == s && target[..|s|] == target;
    draws := ShuffleFromReaches(s, |s| - 1, target);
  }

  lemma ShuffleReachesEveryArrangement(s: seq<Tile>, target: seq<Tile>) returns (draws: seq<nat>)
    requires multiset(target) == multiset(s)
    ensures (|s| == 0 || ValidDraws(draws, |s| - 1)) && ShuffleTiles(s, draws) == target
  {
    SameLength(s, target);
    if |s| == 0 {
      draws := [];
    } else {
      draws := ShuffleReachesWhole(s, target);
    }
  }

  // ---------------------------------------------------------------------
  // The deal
  // ---------------------------------------------------------------------

  /** Number of tiles dealt before play starts: 13 to each of four seats and
      one more to the dealer. */
  const DealCount: nat := 4 * 13 + 1

  /** Seat that receives the `i`-th dealt tile. */
  function Seat(dealer: nat, i: nat): (r: nat)
    ensures r < 4
  {
    (dealer + i % 4) % 4
  }

  /** The deal loop from step `i`: the seat whose turn it is takes the
      front tile; an exhausted wall stops the deal for good (`if (!tile)
      return;`), written as None. */
  function DealFrom(hands: seq<seq<Tile>>, wall: seq<Tile>, dealer: nat, i: nat): (r: Option<(seq<seq<Tile>>, seq<Tile>)>)
    requires |hands| == 4 && i <= DealCount
    ensures r.Some? <==> |wall| >= DealCount - i
    ensures r.Some? ==> |r.value.0| == 4
    decreases DealCount - i
  {
    if i == DealCount then Some((hands, wall))
    else if |wall| == 0 then None
    else
      var p := Seat(dealer, i);
      DealFrom(hands[p := hands[p] + [wall[0]]], wall[1..], dealer, i + 1)
  }

  /** `dealTiles` followed by the deal loop: four empty hands, then 53 tiles
      handed out from the front of the wall. */
  function Deal(wall: seq<Tile>, dealer: nat): (r: Option<(seq<seq<Tile>>, seq<Tile>)>)
    ensures r.Some? <==> |wall| >= DealCount
    ensures r.Some? ==> |r.value.0| == 4
  {
    DealFrom([[], [], [], []], wall, dealer, 0)
  }

  /** The tiles among the first `n` of `w` that the schedule gives to seat
      `p`, in the order they were taken. */
  function Dealt(w: seq<Tile>, p: nat, dealer: nat, n: nat): seq<Tile>
    requires n <= |w|
  {
    if n == 0 then [] else Dealt(w, p, dealer, n - 1) + (if Seat(dealer, n - 1) == p then [w[n - 1]] else [])
  }

  /** How far seat `p` sits after the dealer, going round the table. */
  function Offset(p: nat, dealer: nat): nat
    requires dealer < 4 && p < 4
  {
    if dealer <= p then p - dealer else p + 4 - dealer
  }

  lemma SeatOffset(dealer: nat, i: nat, p: nat)
    requires dealer < 4 && p < 4
    ensures Seat(dealer, i) == p <==> i % 4 == Offset(p, dealer)
  {
  }

  /** Seat `p` holds one tile out of every four, starting at its offset. */
  lemma {:induction false} DealtShape(w: seq<Tile>, p: nat, dealer: nat, n: nat)
    requires n <= |w| && dealer < 4 && p < 4
    ensures |Dealt(w, p, dealer, n)| == (n + 3 - Offset(p, dealer)) / 4
    ensures forall k | 0 <= k < |Dealt(w, p, dealer, n)| :: Dealt(w, p, dealer, n)[k] == w[4 * k + Offset(p, dealer)]
  {
    if n > 0 {
      DealtShape(w, p, dealer, n - 1);
      SeatOffset(dealer, n - 1, p);
      ShapeArith(n - 1, Offset(p, dealer));
    }
  }

  lemma ShapeArith(m: nat, o: nat)
    requires o < 4
    ensures m % 4 == o ==> (m + 3 - o) / 4 + 1 == (m + 4 - o) / 4 && 4 * ((m + 3 - o) / 4) + o == m
    ensures m % 4 != o ==> (m + 3 - o) / 4 == (m + 4 - o) / 4
  {
  }

  /** The deal loop keeps each hand equal to what the schedule has given
      that seat so far, and the wall equal to what is left. */
  lemma {:induction false} DealFromInvariant(w: seq<Tile>, hands: seq<seq<Tile>>, dealer: nat, i: nat)
    requires |hands| == 4 && i <= DealCount && i <= |w|
    requires forall p | 0 <= p < 4 :: hands[p] == Dealt(w, p, dealer, i)
    ensures var r := DealFrom(hands, w[i..], dealer, i);
            r.Some? ==> DealCount <= |w| && r.value.1 == w[DealCount..] &&
                        forall p | 0 <= p < 4 :: r.value.0[p] == Dealt(w, p, dealer, DealCount)
    decreases DealCount - i
  {
    if i < DealCount && i < |w| {
      var q := Seat(dealer, i);
      var hands' := hands[q := hands[q] + [w[i]]];
      assert w[i..][0] == w[i] && w[i..][1..] == w[i + 1..];
      forall p | 0 <= p < 4 ensures hands'[p] == Dealt(w, p, dealer, i + 1) {
      }
      DealFromInvariant(w, hands', dealer, i + 1);
    }
  }

  /** After the whole deal, seat `p` has 14 tiles if it is the dealer and
      13 otherwise, its k-th tile being wall tile 4k + its offset. */
  lemma DealtAtEnd(w: seq<Tile>, p: nat, dealer: nat)
    requires dealer < 4 && p < 4 && DealCount <= |w|
    ensures |Dealt(w, p, dealer, DealCount)| == if p == dealer then 14 else 13
    ensures forall k | 0 <= k < |Dealt(w, p, dealer, DealCount)| ::
              Dealt(w, p, dealer, DealCount)[k] == w[4 * k + Offset(p, dealer)]
  {
    DealtShape(w, p, dealer, DealCount);
  }

  /** The deal succeeds exactly when the wall holds at least 53 tiles; the dealer
      then has 14 tiles and every other seat 13, the k-th tile of seat p is
      wall tile 4k + (p - dealer) mod 4, and the rest of the wall, in order,
      is what the deal did not take. */
  lemma DealSchedule(w: seq<Tile>, dealer: nat)
    requires dealer < 4
    ensures Deal(w, dealer).Some? <==> |w| >= DealCount
    ensures Deal(w, dealer).Some? ==>
      var (hands, rest) := Deal(w, dealer).value;
      && rest == w[DealCount..]
      && (forall p | 0 <= p < 4 :: |hands[p]| == if p == dealer then 14 else 13)
      && (forall p, k | 0 <= p < 4 && 0 <= k < |hands[p]| :: hands[p][k] == w[4 * k + Offset(p, dealer)])
  {
    if |w| >= DealCount {
      assert w[0..] == w;
      DealFromInvariant(w, [[], [], [], []], dealer, 0);
      var hands := Deal(w, dealer).value.0;
      forall p | 0 <= p < 4
        ensures |hands[p]| == (if p == dealer then 14 else 13)
        ensures forall k | 0 <= k < |hands[p]| :: hands[p][k] == w[4 * k + Offset(p, dealer)]
      {
        DealtAtEnd(w, p, dealer);
      }
    }
  }

  /** The multiset of all four seats' shares. */
  function AllDealt(w: seq<Tile>, dealer: nat, n: nat): multiset<Tile>
    requires n <= |w|
  {
    multiset(Dealt(w, 0, dealer, n)) + multiset(Dealt(w, 1, dealer, n))
      + multiset(Dealt(w, 2, dealer, n)) + multiset(Dealt(w, 3, dealer, n))
  }

  lemma AllDealtStep(w: seq<Tile>, dealer: nat, n: nat)
    requires 0 < n <= |w|
    ensures AllDealt(w, dealer, n) == AllDealt(w, dealer, n - 1) + multiset{w[n - 1]}
  {
    var q := Seat(dealer, n - 1);
    assert q < 4;
    forall p | 0 <= p < 4
      ensures multiset(Dealt(w, p, dealer, n))
           == multiset(Dealt(w, p, dealer, n - 1)) + (if p == q then multiset{w[n - 1]} else multiset{})
    {
    }
  }

  lemma DealtConservesStep(w: seq<Tile>, dealer: nat, n: nat)
    requires 0 < n <= |w|
    requires AllDealt(w, dealer, n - 1) == multiset(w[..n - 1])
    ensures AllDealt(w, dealer, n) == multiset(w[..n])
  {
    AllDealtStep(w, dealer, n);
    assert w[..n] == w[..n - 1] + [w[n - 1]];
  }

  lemma {:induction false} DealtConserves(w: seq<Tile>, dealer: nat, n: nat)
    requires n <= |w|
    ensures AllDealt(w, dealer, n) == multiset(w[..n])
  {
    if n > 0 {
      DealtConserves(w, dealer, n - 1);
      DealtConservesStep(w, dealer, n);
    } else {
      assert AllDealt(w, dealer, 0) == multiset{};
    }
  }

  /** Nothing is lost or duplicated by the deal: the four hands and the
      remaining wall together hold exactly the wall's tiles. */
  lemma DealConserves(w: seq<Tile>, dealer: nat)
    requires dealer < 4 && |w| >= DealCount
    ensures var (hands, rest) := Deal(w, dealer).value;
            multiset(hands[0]) + multiset(hands[1]) + multiset(hands[2]) + multiset(hands[3]) + multiset(rest)
              == multiset(w)
  {
    assert w[0..] == w;
    DealFromInvariant(w, [[], [], [], []], dealer, 0);
    DealtConserves(w, dealer, DealCount);
    TakeDrop(w, DealCount);
  }
}
