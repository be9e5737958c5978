/** `startGame` and the end of the deal: a fresh set is shuffled, 53 tiles
    are dealt from its front, and each seat in turn sorts its hand and
    replaces its flowers from the end of what is left. */
module Start {
  import opened Tiles
  import opened Hand
  import opened Wall
  import opened Game

  /** One seat's turn at the end of the deal: `sortHand`, then
      `checkFlowers`; the result is the new hand and the wall left. */
  function SettleSeat(hand: seq<Tile>, wall: seq<Tile>): (seq<Tile>, seq<Tile>) {
    CheckFlowers(SortHand(hand), wall)
  }

  /** The first `n` seats take their turn with `step` in seat order, each
      drawing replacements from the wall the seat before it left. */
  function SettleBy(step: (seq<Tile>, seq<Tile>) -> (seq<Tile>, seq<Tile>), hands: seq<seq<Tile>>, wall: seq<Tile>, n: nat)
    : (r: (seq<Player>, seq<Tile>))
    requires n <= |hands|
    ensures |r.0| == n
  {
    if n == 0 then ([], wall)
    else
      var r' := SettleBy(step, hands, wall, n - 1);
      var c := step(hands[n - 1], r'.1);
      (r'.0 + [Player(c.0, [], false)], c.1)
  }

  /** The end of the deal for the first `n` seats. */
  function Settle(hands: seq<seq<Tile>>, wall: seq<Tile>, n: nat): (r: (seq<Player>, seq<Tile>))
    requires n <= |hands|
    ensures |r.0| == n
  {
    SettleBy(SettleSeat, hands, wall, n)
  }

  /** All concealed tiles of the seats `ps`. */
  function Concealed(ps: seq<Player>): multiset<Tile> {
    if |ps| == 0 then multiset{} else Concealed(ps[..|ps| - 1]) + multiset(ps[|ps| - 1].hand)
  }

  /** All tiles of the first `n` hands. */
  function DealtTiles(hands: seq<seq<Tile>>, n: nat): multiset<Tile>
    requires n <= |hands|
  {
    if n == 0 then multiset{} else DealtTiles(hands, n - 1) + multiset(hands[n - 1])
  }

  /** The flowers the first `n` hands were dealt, seat by seat: the tiles
      `checkFlowers` takes out and drops. */
  function DealtFlowers(hands: seq<seq<Tile>>, n: nat): (r: seq<Tile>)
    requires n <= |hands|
    ensures forall k :: 0 <= k < |r| ==> IsFlower(r[k])
  {
    if n == 0 then [] else DealtFlowers(hands, n - 1) + Flowers(hands[n - 1])
  }

  lemma DealtFour(hands: seq<seq<Tile>>)
    requires |hands| == 4
    ensures DealtTiles(hands, 4) == multiset(hands[0]) + multiset(hands[1]) + multiset(hands[2]) + multiset(hands[3])
  {
    assert DealtTiles(hands, 1) == multiset(hands[0]);
    assert DealtTiles(hands, 2) == multiset(hands[0]) + multiset(hands[1]);
    assert DealtTiles(hands, 3) == multiset(hands[0]) + multiset(hands[1]) + multiset(hands[2]);
  }

  /** Sorting does not change which flowers a hand holds. */
  lemma SortKeepsFlowers(s: seq<Tile>)
    ensures multiset(Flowers(SortHand(s))) == multiset(Flowers(s))
  {
    var t := SortHand(s);
    SortHandPermutes(s);
    FiltersPermute(s, t);
    FlowersSplit(s);
    FlowersSplit(t);
    forall x
      ensures multiset(Flowers(t))[x] == multiset(Flowers(s))[x]
    {
      assert multiset(Flowers(t))[x] + multiset(NonFlowers(t))[x] == multiset(s)[x];
    }
  }

  /** A seat's turn `c` from `hand` and `wall` keeps every tile: the
      hand and the wall afterwards, with the hand's flowers dropped, are
      the hand and the wall before. */
  predicate Balanced(hand: seq<Tile>, wall: seq<Tile>, c: (seq<Tile>, seq<Tile>)) {
    multiset(c.0) + multiset(c.1) + multiset(Flowers(hand)) == multiset(hand) + multiset(wall)
  }

  /** A seat's turn grows neither the hand nor the wall. */
  predicate Shrinks(hand: seq<Tile>, wall: seq<Tile>, c: (seq<Tile>, seq<Tile>)) {
    |c.0| <= |hand| && |c.1| <= |wall|
  }

  /** One seat's turn at the end of the deal keeps every tile: the hand
      and the wall afterwards, with the flowers dropped, are the dealt hand
      and the wall before. */
  lemma SettleStep(hand: seq<Tile>, wall: seq<Tile>)
    ensures Balanced(hand, wall, SettleSeat(hand, wall))
  {
    var r := SettleSeat(hand, wall);
    CheckFlowersSpec(SortHand(hand), wall);
    SortKeepsFlowers(hand);
    SortHandPermutes(hand);
    forall x
      ensures (multiset(r.0) + multiset(r.1) + multiset(Flowers(hand)))[x] == (multiset(hand) + multiset(wall))[x]
    {
      assert (multiset(r.0) + multiset(r.1) + multiset(Flowers(SortHand(hand))))[x]
          == (multiset(SortHand(hand)) + multiset(wall))[x];
    }
  }

  /** Nor does it grow the hand or the wall. */
  lemma SettleStepSizes(hand: seq<Tile>, wall: seq<Tile>)
    ensures Shrinks(hand, wall, SettleSeat(hand, wall))
  {
    CheckFlowersSpec(SortHand(hand), wall);
    SortHandPermutes(hand);
    FiltersPermute(hand, SortHand(hand));
  }

  lemma ConcealedAppend(ps: seq<Player>, pl: Player)
    ensures Concealed(ps + [pl]) == Concealed(ps) + multiset(pl.hand)
  {
    FrontOfAppend(ps, pl);
  }

  /** The balance of the seats before one added to that seat's balance. */
  lemma Rebalance(b: multiset<Tile>, w1: multiset<Tile>, fr: multiset<Tile>, dr: multiset<Tile>, w: multiset<Tile>,
                  a: multiset<Tile>, w': multiset<Tile>, f: multiset<Tile>, h: multiset<Tile>)
    requires b + w1 + fr == dr + w
    requires a + w' + f == h + w1
    ensures (b + a) + w' + (fr + f) == (dr + h) + w
  {
    forall x
      ensures ((b + a) + w' + (fr + f))[x] == ((dr + h) + w)[x]
    {
      assert (b + w1 + fr)[x] == (dr + w)[x];
      assert (a + w' + f)[x] == (h + w1)[x];
    }
  }

  lemma {:induction false} SettleByConserves(step: (seq<Tile>, seq<Tile>) -> (seq<Tile>, seq<Tile>),
                                             hands: seq<seq<Tile>>, wall: seq<Tile>, n: nat)
    requires n <= |hands|
    requires forall h, w :: Balanced(h, w, step(h, w))
    ensures var r := SettleBy(step, hands, wall, n);
            Concealed(r.0) + multiset(r.1) + multiset(DealtFlowers(hands, n)) == DealtTiles(hands, n) + multiset(wall)
  {
    if n > 0 {
      var r' := SettleBy(step, hands, wall, n - 1);
      var c := step(hands[n - 1], r'.1);
      SettleByConserves(step, hands, wall, n - 1);
      assert Balanced(hands[n - 1], r'.1, c);
      ConcealedAppend(r'.0, Player(c.0, [], false));
      Rebalance(Concealed(r'.0), multiset(r'.1), multiset(DealtFlowers(hands, n - 1)), DealtTiles(hands, n - 1), multiset(wall),
                multiset(c.0), multiset(c.1), multiset(Flowers(hands[n - 1])), multiset(hands[n - 1]));
    }
  }

  /** Nothing is lost at the end of the deal except the flowers, which are
      set aside: the seats' hands, the wall and the dealt flowers together
      are the dealt hands and the wall the deal left. */
  lemma SettleConserves(hands: seq<seq<Tile>>, wall: seq<Tile>, n: nat)
    requires n <= |hands|
    ensures var r := Settle(hands, wall, n);
            Concealed(r.0) + multiset(r.1) + multiset(DealtFlowers(hands, n)) == DealtTiles(hands, n) + multiset(wall)
  {
    forall h, w
      ensures Balanced(h, w, SettleSeat(h, w))
    {
      SettleStep(h, w);
    }
    SettleByConserves(SettleSeat, hands, wall, n);
  }

  /** Every seat in `ps` holds no more than it was dealt, has no meld and
      has not won. */
  predicate Fresh(ps: seq<Player>, hands: seq<seq<Tile>>) {
    |ps| <= |hands| && forall k | 0 <= k < |ps| :: |ps[k].hand| <= |hands[k]| && ps[k].melds == [] && !ps[k].hu
  }

  lemma FreshAppend(ps: seq<Player>, pl: Player, hands: seq<seq<Tile>>)
    requires Fresh(ps, hands) && |ps| < |hands|
    requires |pl.hand| <= |hands[|ps|]| && pl.melds == [] && !pl.hu
    ensures Fresh(ps + [pl], hands)
  {
    var qs := ps + [pl];
    forall k | 0 <= k < |qs|
      ensures |qs[k].hand| <= |hands[k]| && qs[k].melds == [] && !qs[k].hu
    {
      if k < |ps| {
        assert qs[k] == ps[k];
      }
    }
  }

  lemma {:induction false} SettleBySizes(step: (seq<Tile>, seq<Tile>) -> (seq<Tile>, seq<Tile>),
                                         hands: seq<seq<Tile>>, wall: seq<Tile>, n: nat)
    requires n <= |hands|
    requires forall h, w :: Shrinks(h, w, step(h, w))
    ensures var r := SettleBy(step, hands, wall, n);
            |r.1| <= |wall| && Fresh(r.0, hands)
  {
    if n > 0 {
      var r' := SettleBy(step, hands, wall, n - 1);
      var c := step(hands[n - 1], r'.1);
      SettleBySizes(step, hands, wall, n - 1);
      assert Shrinks(hands[n - 1], r'.1, c);
      FreshAppend(r'.0, Player(c.0, [], false), hands);
    }
  }

  /** No hand grows at the end of the deal, no seat has a meld or has won,
      and the wall only shrinks. */
  lemma SettleSizes(hands: seq<seq<Tile>>, wall: seq<Tile>, n: nat)
    requires n <= |hands|
    ensures var r := Settle(hands, wall, n);
            |r.1| <= |wall| && Fresh(r.0, hands)
  {
    forall h, w
      ensures Shrinks(h, w, SettleSeat(h, w))
    {
      SettleStepSizes(h, w);
    }
    SettleBySizes(SettleSeat, hands, wall, n);
  }

  /** A seat's turn `c` keeps the hand's size and takes one wall tile per
      flower, provided the wall holds that many. */
  predicate Exact(hand: seq<Tile>, wall: seq<Tile>, c: (seq<Tile>, seq<Tile>)) {
    |Flowers(hand)| <= |wall| ==> |c.0| == |hand| && |c.1| == |wall| - |Flowers(hand)|
  }

  /** While the wall lasts, a seat's turn at the end of the deal gives back
      a full hand: every flower is replaced. */
  lemma SettleStepExact(hand: seq<Tile>, wall: seq<Tile>)
    ensures Exact(hand, wall, SettleSeat(hand, wall))
  {
    CheckFlowersSpec(SortHand(hand), wall);
    SortHandPermutes(hand);
    FiltersPermute(hand, SortHand(hand));
  }

  /** A hand holds at least as many tiles as flowers. */
  lemma FlowersAtMost(s: seq<Tile>)
    ensures |Flowers(s)| <= |s|
  {
    FlowersSplit(s);
    assert |multiset(Flowers(s))| + |multiset(NonFlowers(s))| == |multiset(s)|;
  }

  /** The settled seats `ps` kept the sizes of the dealt `hands`. */
  predicate SizesKept(ps: seq<Player>, hands: seq<seq<Tile>>) {
    |ps| <= |hands| && forall k | 0 <= k < |ps| :: |ps[k].hand| == |hands[k]|
  }

  lemma SizesKeptAppend(ps: seq<Player>, pl: Player, hands: seq<seq<Tile>>)
    requires SizesKept(ps, hands) && |ps| < |hands| && |pl.hand| == |hands[|ps|]|
    ensures SizesKept(ps + [pl], hands)
  {
    var qs := ps + [pl];
    forall k | 0 <= k < |qs| ensures |qs[k].hand| == |hands[k]| {
      if k < |ps| {
        assert qs[k] == ps[k];
      }
    }
  }

  /** With hands of at most 14 tiles and a wall of at least 14 tiles per
      seat, the wall never runs out: every seat keeps its dealt size and the
      wall loses exactly one tile per dealt flower. */
  lemma {:induction false} SettleByExact(step: (seq<Tile>, seq<Tile>) -> (seq<Tile>, seq<Tile>),
                                         hands: seq<seq<Tile>>, wall: seq<Tile>, n: nat)
    requires n <= |hands|
    requires forall h, w :: Exact(h, w, step(h, w))
    requires forall k | 0 <= k < |hands| :: |hands[k]| <= 14
    requires |wall| >= 14 * n
    ensures var r := SettleBy(step, hands, wall, n);
            && SizesKept(r.0, hands)
            && |DealtFlowers(hands, n)| <= 14 * n
            && |r.1| == |wall| - |DealtFlowers(hands, n)|
  {
    if n > 0 {
      var r' := SettleBy(step, hands, wall, n - 1);
      var c := step(hands[n - 1], r'.1);
      SettleByExact(step, hands, wall, n - 1);
      FlowersAtMost(hands[n - 1]);
      assert Exact(hands[n - 1], r'.1, c);
      SizesKeptAppend(r'.0, Player(c.0, [], false), hands);
    }
  }

  /** The end of the deal from a wall that outlasts the replacements. */
  lemma SettleExact(hands: seq<seq<Tile>>, wall: seq<Tile>)
    requires |hands| == 4 && |wall| >= 56
    requires forall k | 0 <= k < 4 :: |hands[k]| <= 14
    ensures var r := Settle(hands, wall, 4);
            && (forall k | 0 <= k < 4 :: |r.0[k].hand| == |hands[k]|)
            && |r.1| == |wall| - |DealtFlowers(hands, 4)|
  {
    forall h, w
      ensures Exact(h, w, SettleSeat(h, w))
    {
      SettleStepExact(h, w);
    }
    SettleByExact(SettleSeat, hands, wall, 4);
  }

  /** From a full set of 144 tiles the 91 tiles left after the deal outlast
      every replacement: the dealer holds 14 tiles, every other seat 13,
      and the wall has lost exactly one tile per flower set aside. */
  lemma OpeningSizes(prev: Game, wall: seq<Tile>)
    requires |wall| == 144
    ensures var (g, setAside) := Opening(prev, wall);
            && |g.players| == 4
            && (forall p | 0 <= p < 4 :: |g.players[p].hand| == if p == Dealer then 14 else 13)
            && |g.wall| == 91 - |setAside|
  {
    DealSchedule(wall, Dealer);
    var d := Deal(wall, Dealer).value;
    SettleExact(d.0, d.1);
  }

  /** The round as the deal leaves it, from a shuffled `wall`: the deal
      from seat 0, the end of the deal, and the game record `startGame`
      sets up; the flowers set aside come second. */
  function Opening(prev: Game, wall: seq<Tile>): (r: (Game, seq<Tile>))
    requires |wall| >= DealCount
  {
    var d := Deal(wall, Dealer).value;
    var s := Settle(d.0, d.1, 4);
    (Game(s.1, s.0, Dealer, [], None, -1, true, prev.canHu, prev.canPeng, prev.canChi, Idle, AllOff), DealtFlowers(d.0, 4))
  }

  /** The opening satisfies the invariant: the dealer holds at most 14
      tiles, everyone else at most 13, and no seat has a meld or has won. */
  lemma OpeningInv(prev: Game, wall: seq<Tile>)
    requires |wall| >= DealCount
    ensures var g := Opening(prev, wall).0;
            && Inv(g)
            && forall p | 0 <= p < 4 :: g.players[p].melds == [] && !g.players[p].hu
  {
    DealSchedule(wall, Dealer);
    var d := Deal(wall, Dealer).value;
    SettleSizes(d.0, d.1, 4);
    var g := Opening(prev, wall).0;
    assert g.players == Settle(d.0, d.1, 4).0;
    forall p | 0 <= p < 4
      ensures Size(g.players[p]) <= 13 + Allowance(g, p)
    {
      assert |g.players[p].hand| <= |d.0[p]|;
    }
  }

  /** The opening keeps the wall's tiles: each is in a hand, in the wall
      left, or among the flowers set aside. */
  lemma OpeningConserves(prev: Game, wall: seq<Tile>)
    requires |wall| >= DealCount
    ensures var (g, setAside) := Opening(prev, wall);
            Concealed(g.players) + multiset(g.wall) + multiset(setAside) == multiset(wall)
  {
    DealConserves(wall, Dealer);
    var d := Deal(wall, Dealer).value;
    SettleConserves(d.0, d.1, 4);
    DealtFour(d.0);
  }

  /** What `StartGame` promises, for any 144-tile wall. */
  lemma OpeningFacts(prev: Game, wall: seq<Tile>)
    requires |wall| == 144
    ensures var (g, setAside) := Opening(prev, wall);
            && Inv(g) && g.started && g.current == Dealer && g.pending == Idle
            && g.discards == [] && g.lastDiscard.None? && g.lastDiscarder == -1
            && FlagsOf(g) == FlagsOf(prev)
            && g.buttons == AllOff && ButtonsAgree(g)
            && (forall p | 0 <= p < 4 :: g.players[p].melds == [] && !g.players[p].hu)
            && (forall p | 0 <= p < 4 :: |g.players[p].hand| == if p == Dealer then 14 else 13)
            && |g.wall| == 91 - |setAside|
            && Concealed(g.players) + multiset(g.wall) + multiset(setAside) == multiset(wall)
  {
    OpeningInv(prev, wall);
    OpeningConserves(prev, wall);
    OpeningSizes(prev, wall);
  }

  /** `startGame`: a new set, shuffled with the given draws, dealt from
      seat 0, which is the human and plays first. The round starts with no
      discard and nothing scheduled; every one of the 144 tiles is in a
      hand, in the wall, or among the flowers set aside. The human's claim
      flags are carried over from `prev`: `startGame` never clears them,
      but it disables every button, so no claim can be made on the opening
      deal. */
  method StartGame(prev: Game, draws: seq<nat>) returns (g: Game, setAside: seq<Tile>)
    requires ValidDraws(draws, 143)
    ensures Inv(g) && g.started && g.current == Dealer && g.pending == Idle
    ensures g.discards == [] && g.lastDiscard.None? && g.lastDiscarder == -1
    ensures FlagsOf(g) == FlagsOf(prev)
    ensures g.buttons == AllOff && ButtonsAgree(g)
    ensures forall p | 0 <= p < 4 :: g.players[p].melds == [] && !g.players[p].hu
    ensures forall p | 0 <= p < 4 :: |g.players[p].hand| == if p == Dealer then 14 else 13
    ensures |g.wall| == 91 - |setAside|
    ensures forall k | 0 <= k < |setAside| :: IsFlower(setAside[k])
    ensures forall t :: (Concealed(g.players) + multiset(g.wall) + multiset(setAside))[t] == SetCount(t)
  {
    var tiles := CreateTiles();
    var wall := ShuffleTiles(tiles, draws);
    ShufflePermutes(tiles, draws);
    OpeningFacts(prev, wall);
    g, setAside := Opening(prev, wall).0, Opening(prev, wall).1;
    forall t
      ensures (Concealed(g.players) + multiset(g.wall) + multiset(setAside))[t] == SetCount(t)
    {
      assert Count(tiles, t) == SetCount(t);
    }
  }
}
