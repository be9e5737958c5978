/** The winning-hand search (`checkHu` / `checkSets`) and the claim
    predicates consulted when another seat discards (`canPlayerHu`,
    `canPlayerPeng`, `canPlayerChi`), plus the quad test `canGang`.

    The search is modelled exactly as the code performs it: every removal
    scans the list from its END and takes the last matching tiles. For a run
    that means the last three same-suit tiles whose value is v, v+1 or v+2,
    which is not always one tile of each value; the lemmas at the bottom
    show what that does to the answer. */
module Evaluator {
  import opened Tiles

  /** Removes the last `n` tiles of `s` that belong to `targets`, scanning
      from the back, and keeps every other tile in order. */
  function RemoveLast(s: seq<Tile>, targets: set<Tile>, n: nat): (r: seq<Tile>)
    ensures |r| == |s| - Min(n, CountIn(s, targets))
    ensures CountIn(r, targets) == CountIn(s, targets) - Min(n, CountIn(s, targets))
    ensures multiset(r) <= multiset(s)
    ensures forall u :: u !in targets ==> Count(r, u) == Count(s, u)
    decreases |s|
  {
    if n == 0 || |s| == 0 then s
    else
      var init, last := s[..|s| - 1], s[|s| - 1];
      LastSplit(s);
      if last in targets then RemoveLast(init, targets, n - 1)
      else
        var r' := RemoveLast(init, targets, n);
        FrontOfAppend(r', last);
        r' + [last]
  }

  /** The three tiles a run starting at `t` is made of. */
  function RunTargets(t: Tile): set<Tile> {
    {t, Tile(t.kind, t.value + 1), Tile(t.kind, t.value + 2)}
  }

  /** The run test of `checkSets`: the tile at `i` is suited and its two
      successors of the same suit are present somewhere in `tiles`. */
  predicate RunStartsAt(tiles: seq<Tile>, i: nat)
    requires i < |tiles|
  {
    var t := tiles[i];
    IsSuited(t.kind) && Tile(t.kind, t.value + 1) in tiles && Tile(t.kind, t.value + 2) in tiles
  }

  /** `checkSets`: the empty list succeeds; otherwise some tile with three
      or more copies has its last three copies removed and the rest
      succeeds, or some suited tile starts a run whose removal (the last
      three matching tiles) leaves a list that succeeds. The order in which
      the code tries the branches does not change an existence answer. */
  predicate CheckSets(tiles: seq<Tile>)
    decreases |tiles|, 1
  {
    || |tiles| == 0
    || (exists i | 0 <= i < |tiles| :: TripletBranch(tiles, i))
    || (exists i | 0 <= i < |tiles| :: RunBranch(tiles, i))
  }

  /** The triplet branch of `checkSets` for the tile at position `i`. */
  predicate TripletBranch(tiles: seq<Tile>, i: nat)
    requires i < |tiles|
    decreases |tiles|, 0
  {
    Count(tiles, tiles[i]) >= 3 && CheckSets(RemoveLast(tiles, {tiles[i]}, 3))
  }

  /** The run branch of `checkSets` for the tile at position `i`. */
  predicate RunBranch(tiles: seq<Tile>, i: nat)
    requires i < |tiles|
    decreases |tiles|, 0
  {
    RunStartsAt(tiles, i) && CheckSets(RemoveLast(tiles, RunTargets(tiles[i]), 3))
  }

  /** `checkHu`: the hand must hold 13 or 14 tiles; flowers are set aside;
      the remaining count must be 2 modulo 3; then some tile with two or
      more copies gives up its last two copies as the pair and the rest
      must pass `CheckSets`. */
  predicate CheckHu(hand: seq<Tile>) {
    && (|hand| == 13 || |hand| == 14)
    && var h := NonFlowers(hand);
    && |h| % 3 == 2
    && exists i | 0 <= i < |h| ::
         Count(h, h[i]) >= 2 && CheckSets(RemoveLast(h, {h[i]}, 2))
  }

  /** `canPlayerHu`: the hand with the discard appended at the end. */
  predicate CanPlayerHu(hand: seq<Tile>, discard: Tile) {
    CheckHu(hand + [discard])
  }

  /** `canPlayerPeng`: two or more copies of the discard. */
  predicate CanPlayerPeng(hand: seq<Tile>, discard: Tile) {
    Count(hand, discard) >= 2
  }

  /** Whether the hand holds a tile of suit `k` with value `v`
      (`values.includes(v)` over the same-suit values). */
  predicate HasValue(hand: seq<Tile>, k: Kind, v: int) {
    Tile(k, v) in hand
  }

  /** `canPlayerChi`: never for wind, dragon or flower discards; otherwise
      the three neighbour pairs are tried in the code's order. */
  predicate CanPlayerChi(hand: seq<Tile>, discard: Tile) {
    var k, v := discard.kind, discard.value;
    if k == Wind || k == Dragon || k == Flower then false
    else
      || (HasValue(hand, k, v - 1) && HasValue(hand, k, v - 2))
      || (HasValue(hand, k, v - 1) && HasValue(hand, k, v + 1))
      || (HasValue(hand, k, v + 1) && HasValue(hand, k, v + 2))
  }

  /** `canGang`: a non-empty hand in which some tile occurs three or more
      times. */
  predicate CanGang(hand: seq<Tile>) {
    |hand| > 0 && exists i | 0 <= i < |hand| :: Count(hand, hand[i]) >= 3
  }

  // ---------------------------------------------------------------------
  // Properties of the search
  // ---------------------------------------------------------------------

  /** Removing the last copies of a single tile lowers its count and no
      other count. */
  lemma RemoveLastSingleton(s: seq<Tile>, t: Tile, n: nat)
    ensures Count(RemoveLast(s, {t}, n), t) == Count(s, t) - Min(n, Count(s, t))
    ensures forall u :: u != t ==> Count(RemoveLast(s, {t}, n), u) == Count(s, u)
  {
    CountInSingleton(s, t);
    CountInSingleton(RemoveLast(s, {t}, n), t);
  }

  /** Three distinct members of `targets` present in `s` give three
      matching positions. */
  lemma ThreePresent(s: seq<Tile>, a: Tile, b: Tile, c: Tile)
    requires a in s && b in s && c in s
    requires a != b && b != c && a != c
    ensures CountIn(s, {a, b, c}) >= 3
  {
    CountInSplit(s, {a}, {b, c});
    CountInSplit(s, {b}, {c});
    CountInSingleton(s, a);
    CountInSingleton(s, b);
    CountInSingleton(s, c);
    assert {a} + {b, c} == {a, b, c};
    assert {b} + {c} == {b, c};
  }

  /** The triplet branch always removes exactly three tiles. */
  lemma TripletRemovesThree(tiles: seq<Tile>, i: nat)
    requires i < |tiles| && Count(tiles, tiles[i]) >= 3
    ensures |RemoveLast(tiles, {tiles[i]}, 3)| == |tiles| - 3
  {
    CountInSingleton(tiles, tiles[i]);
  }

  /** The run branch always removes exactly three tiles, because the three
      values of the run are all present. */
  lemma RunRemovesThree(tiles: seq<Tile>, i: nat)
    requires i < |tiles| && RunStartsAt(tiles, i)
    ensures |RemoveLast(tiles, RunTargets(tiles[i]), 3)| == |tiles| - 3
  {
    var t := tiles[i];
    ThreePresent(tiles, t, Tile(t.kind, t.value + 1), Tile(t.kind, t.value + 2));
  }

  /** One step of the search, read forwards: a triplet whose removal
      leaves an accepted list makes the whole list accepted. */
  lemma TripletStep(tiles: seq<Tile>, i: nat)
    requires i < |tiles| && Count(tiles, tiles[i]) >= 3
    requires CheckSets(RemoveLast(tiles, {tiles[i]}, 3))
    ensures CheckSets(tiles)
  {
    assert TripletBranch(tiles, i);
  }

  /** One step of the search, read forwards, for a run. */
  lemma RunStep(tiles: seq<Tile>, i: nat)
    requires i < |tiles| && RunStartsAt(tiles, i)
    requires CheckSets(RemoveLast(tiles, RunTargets(tiles[i]), 3))
    ensures CheckSets(tiles)
  {
    assert RunBranch(tiles, i);
  }

  /** The search fails on a non-empty list when every branch it could try
      fails. */
  lemma NoBranchSucceeds(tiles: seq<Tile>)
    requires |tiles| > 0
    requires forall i | 0 <= i < |tiles| :: !TripletBranch(tiles, i) && !RunBranch(tiles, i)
    ensures !CheckSets(tiles)
  {
  }

  /** Taking three away keeps divisibility by three, in both directions. */
  lemma MinusThree(a: int, b: int)
    requires b == a - 3
    ensures a % 3 == 0 <==> b % 3 == 0
  {
  }

  /** Two more than a multiple of three is 2 modulo 3. */
  lemma PlusTwo(a: int, b: int)
    requires a % 3 == 0 && b == a + 2
    ensures b % 3 == 2
  {
  }

  /** Every successful decomposition removes tiles three at a time, so a
      list that `CheckSets` accepts has a length divisible by three. */
  lemma {:induction false} CheckSetsLength(tiles: seq<Tile>)
    requires CheckSets(tiles)
    ensures |tiles| % 3 == 0
    decreases |tiles|
  {
    if |tiles| > 0 {
      var i :| 0 <= i < |tiles| && (TripletBranch(tiles, i) || RunBranch(tiles, i));
      var r;
      if TripletBranch(tiles, i) {
        TripletRemovesThree(tiles, i);
        r := RemoveLast(tiles, {tiles[i]}, 3);
      } else {
        assert RunBranch(tiles, i);
        assert RunStartsAt(tiles, i);
        RunRemovesThree(tiles, i);
        r := RemoveLast(tiles, RunTargets(tiles[i]), 3);
      }
      CheckSetsLength(r);
      MinusThree(|tiles|, |r|);
    }
  }

  /** Every tile count is a multiple of three: the list is a union of
      same-(kind, value) triplets. */
  ghost predicate AllTriplets(s: seq<Tile>) {
    forall t :: Count(s, t) % 3 == 0
  }

  /** `CheckSets` accepts every union of triplets, whatever their order. */
  lemma {:induction false} TripletsAccepted(s: seq<Tile>)
    requires AllTriplets(s)
    ensures CheckSets(s)
    decreases |s|
  {
    if |s| > 0 {
      var t := s[0];
      assert Count(s, t) >= 1;
      assert Count(s, t) >= 3;
      var r := RemoveLast(s, {t}, 3);
      RemoveLastSingleton(s, t, 3);
      CountInSingleton(s, t);
      assert AllTriplets(r) by {
        forall u ensures Count(r, u) % 3 == 0 {
          if u == t {
            MinusThree(Count(s, u), Count(r, u));
          }
        }
      }
      TripletsAccepted(r);
      assert TripletBranch(s, 0);
    }
  }

  /** A list with no numbered-suit tile that passes `CheckSets` is a union
      of triplets: without suited tiles the run branch never applies. */
  lemma {:induction false} HonoursAcceptedAreTriplets(s: seq<Tile>)
    requires forall k :: 0 <= k < |s| ==> !IsSuited(s[k].kind)
    requires CheckSets(s)
    ensures AllTriplets(s)
    decreases |s|
  {
    if |s| > 0 {
      var i :| 0 <= i < |s| && (TripletBranch(s, i) || RunBranch(s, i));
      var r := HonoursTriplet(s, i);
      HonoursAcceptedAreTriplets(r);
      TripletsBack(s, r, s[i]);
    }
  }

  /** One step of the above: with honours only, the branch taken is the
      triplet branch, which leaves an honours-only list that passes the
      search, three copies of `s[i]` shorter. */
  lemma HonoursTriplet(s: seq<Tile>, i: nat) returns (r: seq<Tile>)
    requires forall k :: 0 <= k < |s| ==> !IsSuited(s[k].kind)
    requires i < |s| && (TripletBranch(s, i) || RunBranch(s, i))
    ensures r == RemoveLast(s, {s[i]}, 3)
    ensures |r| < |s| && CheckSets(r)
    ensures forall k :: 0 <= k < |r| ==> !IsSuited(r[k].kind)
    ensures Count(r, s[i]) + 3 == Count(s, s[i])
    ensures forall u | u != s[i] :: Count(r, u) == Count(s, u)
  {
    assert !RunStartsAt(s, i);
    r := RemoveLast(s, {s[i]}, 3);
    RemoveLastSingleton(s, s[i], 3);
    HonoursKept(s, r);
  }

  /** A sub-multiset of an honours-only list is honours-only. */
  lemma HonoursKept(s: seq<Tile>, r: seq<Tile>)
    requires forall k :: 0 <= k < |s| ==> !IsSuited(s[k].kind)
    requires multiset(r) <= multiset(s)
    ensures forall k :: 0 <= k < |r| ==> !IsSuited(r[k].kind)
  {
    forall k | 0 <= k < |r| ensures !IsSuited(r[k].kind) {
      assert r[k] in multiset(r);
      assert r[k] in multiset(s);
      var j :| 0 <= j < |s| && s[j] == r[k];
    }
  }

  /** Putting a triplet back into a list of triplets keeps it one. */
  lemma TripletsBack(s: seq<Tile>, r: seq<Tile>, t: Tile)
    requires AllTriplets(r)
    requires Count(r, t) + 3 == Count(s, t)
    requires forall u | u != t :: Count(r, u) == Count(s, u)
    ensures AllTriplets(s)
  {
    forall u ensures Count(s, u) % 3 == 0 {
      if u == t {
        MinusThree(Count(s, u), Count(r, u));
      } else {
        assert Count(s, u) == Count(r, u);
      }
    }
  }

  /** Runs are tried only for the numbered suits: a list of wind and
      dragon tiles passes `CheckSets` exactly when it is a union of
      triplets. */
  lemma HonoursNeedTriplets(s: seq<Tile>)
    requires forall k :: 0 <= k < |s| ==> !IsSuited(s[k].kind)
    ensures CheckSets(s) <==> AllTriplets(s)
  {
    if AllTriplets(s) {
      TripletsAccepted(s);
    }
    if CheckSets(s) {
      HonoursAcceptedAreTriplets(s);
    }
  }

  // ---------------------------------------------------------------------
  // Winning hands
  // ---------------------------------------------------------------------

  /** `t` can be the pair of the flower-free tiles `h` and what is left is
      a union of triplets: two or more copies of `t`, and every count, with
      two taken from `t`, a multiple of three. */
  ghost predicate PairAndTriplets(h: seq<Tile>, t: Tile) {
    && Count(h, t) >= 2
    && forall u :: (Count(h, u) - if u == t then 2 else 0) % 3 == 0
  }

  /** Taking the pair out of a pair-and-triplets hand leaves a union of
      triplets that the search accepts. */
  lemma PairRemovedTriplets(h: seq<Tile>, t: Tile)
    requires PairAndTriplets(h, t)
    ensures AllTriplets(RemoveLast(h, {t}, 2))
    ensures |RemoveLast(h, {t}, 2)| == |h| - 2
  {
    var r := RemoveLast(h, {t}, 2);
    RemoveLastSingleton(h, t, 2);
    CountInSingleton(h, t);
    forall u ensures Count(r, u) % 3 == 0 {
      var c := Count(h, u) - if u == t then 2 else 0;
      assert c % 3 == 0;
      assert Count(r, u) == c;
    }
  }

  /** The pair step of `checkHu`, read forwards. */
  lemma PairBranchWins(hand: seq<Tile>, h: seq<Tile>, i: nat)
    requires |hand| == 13 || |hand| == 14
    requires h == NonFlowers(hand) && |h| % 3 == 2 && i < |h|
    requires Count(h, h[i]) >= 2 && CheckSets(RemoveLast(h, {h[i]}, 2))
    ensures CheckHu(hand)
  {
  }

  /** The index of a tile present in `h`. */
  lemma PositionOf(h: seq<Tile>, t: Tile) returns (i: nat)
    requires Count(h, t) >= 1
    ensures i < |h| && h[i] == t
  {
    assert t in multiset(h);
    i :| 0 <= i < |h| && h[i] == t;
  }

  /** A hand of 13 or 14 tiles whose non-flower tiles are a pair plus
      triplets wins, whatever the order of its tiles and wherever its
      flowers sit. */
  lemma HuByTriplets(hand: seq<Tile>, t: Tile)
    requires |hand| == 13 || |hand| == 14
    requires PairAndTriplets(NonFlowers(hand), t)
    ensures CheckHu(hand)
  {
    var h := NonFlowers(hand);
    var r := RemoveLast(h, {t}, 2);
    PairRemovedTriplets(h, t);
    TripletsAccepted(r);
    CheckSetsLength(r);
    PlusTwo(|r|, |h|);
    var i := PositionOf(h, t);
    assert RemoveLast(h, {h[i]}, 2) == r;
    PairBranchWins(hand, h, i);
  }

  /** With honours only, an accepted pair branch leaves triplets. */
  lemma HonoursPairBranch(h: seq<Tile>, i: nat)
    requires forall k :: 0 <= k < |h| ==> !IsSuited(h[k].kind)
    requires i < |h| && Count(h, h[i]) >= 2 && CheckSets(RemoveLast(h, {h[i]}, 2))
    ensures PairAndTriplets(h, h[i])
  {
    var r := RemoveLast(h, {h[i]}, 2);
    HonoursKept(h, r);
    HonoursAcceptedAreTriplets(r);
    RemoveLastSingleton(h, h[i], 2);
    PairBack(h, r, h[i]);
  }

  /** Putting a pair back into a list of triplets gives a pair plus
      triplets. */
  lemma PairBack(h: seq<Tile>, r: seq<Tile>, t: Tile)
    requires AllTriplets(r)
    requires Count(r, t) + 2 == Count(h, t)
    requires forall u | u != t :: Count(r, u) == Count(h, u)
    ensures PairAndTriplets(h, t)
  {
    forall u ensures (Count(h, u) - if u == t then 2 else 0) % 3 == 0 {
      assert Count(r, u) % 3 == 0;
      if u != t {
        assert Count(h, u) == Count(r, u);
      }
    }
  }

  /** A winning honours hand has a pair whose removal leaves triplets. */
  lemma HonoursWinHasPair(hand: seq<Tile>) returns (t: Tile)
    requires forall k :: 0 <= k < |hand| ==> !IsSuited(hand[k].kind)
    requires CheckHu(hand)
    ensures PairAndTriplets(NonFlowers(hand), t)
  {
    var h := NonFlowers(hand);
    var i :| 0 <= i < |h| && Count(h, h[i]) >= 2 && CheckSets(RemoveLast(h, {h[i]}, 2));
    FlowersSplit(hand);
    HonoursKept(hand, h);
    HonoursPairBranch(h, i);
    t := h[i];
  }

  /** A hand of 13 or 14 tiles whose non-flower tiles are a pair plus
      triplets. */
  ghost predicate PairPlusTriplets(hand: seq<Tile>) {
    && (|hand| == 13 || |hand| == 14)
    && exists t :: PairAndTriplets(NonFlowers(hand), t)
  }

  /** For a hand of winds, dragons and flowers, `checkHu` holds exactly
      when the hand has 13 or 14 tiles and its non-flower tiles are a pair
      plus triplets: runs never apply. */
  lemma HonoursHu(hand: seq<Tile>)
    requires forall k :: 0 <= k < |hand| ==> !IsSuited(hand[k].kind)
    ensures CheckHu(hand) <==> PairPlusTriplets(hand)
  {
    if CheckHu(hand) {
      var t := HonoursWinHasPair(hand);
      assert PairPlusTriplets(hand);
    }
    if PairPlusTriplets(hand) {
      var t :| PairAndTriplets(NonFlowers(hand), t);
      HuByTriplets(hand, t);
    }
  }
}
