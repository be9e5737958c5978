/** The turn flow of the game: one record holds the wall, the four seats,
    the discard pile, the last discard and the human's claim flags. Every
    callback the browser would run later (`setTimeout`) is a `pending` step
    that `Tick` runs; the human's buttons are commands. Seat 0 is the human,
    seats 1-3 are computer players, and seat 0 always deals. */
module Game {
  import opened Tiles
  import opened Evaluator
  import opened Hand
  import opened Wall

  /** The human's seat. */
  const Human: nat := 0

  /** `startGame` always sets the dealer to seat 0. */
  const Dealer: nat := 0

  datatype MeldKind = ChiMeld | PengMeld | GangMeld

  /** An exposed meld as the game records it: three tiles for a pung or a
      chow, a single tile for a kong. */
  datatype Meld = Meld(kind: MeldKind, tiles: seq<Tile>)

  datatype Player = Player(hand: seq<Tile>, melds: seq<Meld>, hu: bool)

  /** The callback the game has scheduled, if any. */
  datatype Pending =
    | Idle        // nothing scheduled: waiting for the human
    | ClaimsDue   // `processAiActions`
    | DrawDue     // `drawTileWithAnimation`
    | AiTurnDue   // `aiTurn`

  /** Which of the Hu, Peng, Chi and Gang buttons are enabled. A disabled
      button ignores clicks, so for the claim commands the button is a
      guard in addition to the flag the handler checks. */
  datatype Buttons = Buttons(hu: bool, peng: bool, chi: bool, gang: bool)

  /** `disableActionButtons`. */
  const AllOff := Buttons(false, false, false, false)

  datatype Game = Game(
    wall: seq<Tile>,
    players: seq<Player>,
    current: nat,
    discards: seq<Tile>,
    lastDiscard: Option<Tile>,
    lastDiscarder: int,
    started: bool,
    canHu: bool,
    canPeng: bool,
    canChi: bool,
    pending: Pending,
    buttons: Buttons)

  /** Four seats and a current seat among them. */
  predicate Shaped(g: Game) {
    |g.players| == 4 && g.current < 4
  }

  /** The shape plus what the scheduled callbacks rely on: the claim step
      reads the last discard, and a draw is scheduled only after the last
      discard has been cleared. */
  predicate Sound(g: Game) {
    && Shaped(g)
    && (g.pending == ClaimsDue ==> g.lastDiscard.Some?)
    && (g.pending == DrawDue ==> g.lastDiscard.None?)
  }

  /** Concealed tiles plus three per meld: 13 between turns, 14 for the
      seat that has drawn or claimed and not yet discarded. */
  function Size(p: Player): nat {
    |p.hand| + 3 * |p.melds|
  }

  /** The one extra tile the current seat may hold: after its draw or
      claim, before its discard. */
  function Allowance(g: Game, p: nat): nat {
    if p == g.current && g.lastDiscard.None? && g.pending != DrawDue then 1 else 0
  }

  /** The invariant of every reachable state. */
  predicate Inv(g: Game) {
    && Sound(g)
    && forall p | 0 <= p < 4 :: Size(g.players[p]) <= 13 + Allowance(g, p)
  }

  function WithPlayer(g: Game, p: nat, pl: Player): (r: Game)
    requires Shaped(g) && p < 4
    ensures Shaped(r)
  {
    g.(players := g.players[p := pl])
  }

  // ---------------------------------------------------------------------
  // Steps of the turn
  // ---------------------------------------------------------------------

  /** `nextPlayer`: the next seat in turn, the last discard and the flags
      cleared; an empty wall ends the round, otherwise a draw is due. */
  function NextPlayer(g: Game): (r: Game)
    requires Shaped(g)
    ensures Shaped(r)
  {
    var g1 := g.(current := (g.current + 1) % 4, lastDiscard := None, lastDiscarder := -1,
                 canPeng := false, canChi := false, canHu := false, buttons := AllOff);
    if |g.wall| == 0 then g1.(started := false) else g1.(pending := DrawDue)
  }

  /** The hand takes the LAST tile of the wall, is sorted and has its
      flowers replaced (the draw step, and the replacement after a kong). */
  function TakeFromWall(hand: seq<Tile>, wall: seq<Tile>): (seq<Tile>, seq<Tile>)
    requires |wall| > 0
  {
    CheckFlowers(SortHand(hand + [wall[|wall| - 1]]), wall[..|wall| - 1])
  }

  /** The draw step for the current seat. The human may now declare a win
      (the flag and its button are raised, never lowered, here); a computer
      seat's turn is due and every button is disabled. */
  function Draw(g: Game): (r: Game)
    requires Shaped(g)
    ensures Shaped(r)
  {
    if |g.wall| == 0 then g
    else
      var p := g.current;
      var (hand, wall) := TakeFromWall(g.players[p].hand, g.wall);
      var g1 := WithPlayer(g, p, g.players[p].(hand := hand)).(wall := wall);
      if p == Human then g1.(canHu := g.canHu || CheckHu(hand), buttons := g.buttons.(hu := g.buttons.hu || CheckHu(hand)))
      else g1.(pending := AiTurnDue, buttons := AllOff)
  }

  /** The first half of `discardTile`: the tile at `i` leaves the current
      hand for the discard pile and becomes the last discard. */
  function Release(g: Game, i: nat): (r: Game)
    requires Shaped(g) && i < |g.players[g.current].hand|
    ensures Shaped(r)
  {
    var p := g.current;
    var t := g.players[p].hand[i];
    WithPlayer(g, p, g.players[p].(hand := RemoveAt(g.players[p].hand, i)))
      .(lastDiscard := Some(t), lastDiscarder := p, discards := g.discards + [t])
  }

  /** The seat `i` places after the current one. */
  function SeatAfter(g: Game, i: nat): (r: nat)
    ensures r < 4
  {
    (g.current + i) % 4
  }

  /** The claims the seat `i` places after the current one can make on `t`:
      a win, a pung, and a chow, the last only for the very next seat. */
  function SeatClaims(g: Game, t: Tile, i: nat): Flags
    requires Shaped(g)
  {
    var hand := g.players[SeatAfter(g, i)].hand;
    Flags(CanPlayerHu(hand, t), CanPlayerPeng(hand, t), i == 1 && CanPlayerChi(hand, t))
  }

  function Any(f: Flags): bool {
    f.hu || f.peng || f.chi
  }

  /** The human's three claim flags. */
  datatype Flags = Flags(hu: bool, peng: bool, chi: bool)

  function FlagsOf(g: Game): Flags {
    Flags(g.canHu, g.canPeng, g.canChi)
  }

  /** The offset of the human's seat from the current one, or 4 when the
      human is the current seat (and so is never scanned). */
  function HumanOffset(g: Game): nat {
    if g.current == Human || g.current >= 4 then 4 else 4 - g.current
  }

  /** The loop of `checkOtherPlayersActions` from the seat `i` places on,
      given each seat's claims and the human's offset: it notes whether
      anybody can act and raises the human's flags. */
  function ScanFrom(claims: seq<Flags>, human: nat, i: nat, f: Flags, canAct: bool): (Flags, bool)
    requires |claims| == 3 && 1 <= i <= 4
    decreases 4 - i
  {
    if i == 4 then (f, canAct)
    else
      var c := claims[i - 1];
      var mine := i == human;
      ScanFrom(claims, human, i + 1, Flags(f.hu || (mine && c.hu), f.peng || (mine && c.peng), f.chi || (mine && c.chi)),
               canAct || Any(c))
  }

  /** `enableActionButtons`: the Hu, Peng and Chi buttons follow the flags.
      Its next statement calls `canGang`, which the constructor's field of
      the same name hides, and throws, so the Gang button keeps its state. */
  function Enabled(g: Game): (r: Game) {
    g.(buttons := g.buttons.(hu := g.canHu, peng := g.canPeng, chi := g.canChi))
  }

  /** `checkOtherPlayersActions`: nobody can act, so the turn passes; some
      seat can act and one of the human's flags is up, so the buttons are
      enabled and the game waits for the human; only computer seats can
      act, so the claim step is due. */
  function CheckOthers(g: Game, t: Tile): (r: Game)
    requires Shaped(g)
    ensures Shaped(r)
  {
    var claims := [SeatClaims(g, t, 1), SeatClaims(g, t, 2), SeatClaims(g, t, 3)];
    var (f, canAct) := ScanFrom(claims, HumanOffset(g), 1, FlagsOf(g), false);
    var g1 := g.(canHu := f.hu, canPeng := f.peng, canChi := f.chi);
    if !canAct then NextPlayer(g1)
    else if Any(f) then Enabled(g1)
    else g1.(pending := ClaimsDue)
  }

  /** `discardTile`. An index outside the hand leaves the game as it is. */
  function Discard(g: Game, i: nat): (r: Game)
    requires Shaped(g)
    ensures Shaped(r)
  {
    if i >= |g.players[g.current].hand| then g
    else CheckOthers(Release(g, i), g.players[g.current].hand[i])
  }

  /** `aiHu` and `playerHu`: the seat wins and the round is over. */
  function Win(g: Game, p: nat): (r: Game)
    requires Shaped(g) && p < 4
    ensures Shaped(r)
  {
    WithPlayer(g, p, g.players[p].(hu := true)).(started := false)
  }

  /** `aiPeng`: the seat gives up two copies of the discard, records the
      pung, becomes the current seat and its turn is due. The discard stays
      on the pile. */
  function AiPeng(g: Game, p: nat): (r: Game)
    requires Shaped(g) && p < 4 && g.lastDiscard.Some?
    ensures Shaped(r)
  {
    var d := g.lastDiscard.value;
    var pl := g.players[p];
    WithPlayer(g, p, pl.(hand := PengTake(pl.hand, d), melds := pl.melds + [Meld(PengMeld, [d, d, d])]))
      .(current := p, lastDiscard := None, lastDiscarder := -1, pending := AiTurnDue)
  }

  /** What a computer seat does with the discard. */
  datatype Decision = Pass | TakeWin | TakePeng

  /** The seat `i` places after the current one: the human passes here; a
      computer seat wins if it can, otherwise pungs if it can and its coin
      comes up. The coin for that seat is `coins[i - 1]`. */
  function Decide(g: Game, coins: seq<bool>, i: nat): Decision
    requires Shaped(g) && g.lastDiscard.Some? && 1 <= i
  {
    var seat := SeatAfter(g, i);
    var hand := g.players[seat].hand;
    var d := g.lastDiscard.value;
    if seat == Human then Pass
    else if CanPlayerHu(hand, d) then TakeWin
    else if CanPlayerPeng(hand, d) && Coin(coins, i - 1) then TakePeng
    else Pass
  }

  /** The loop of `processAiActions` from the seat `i` places on: the first
      seat that does not pass takes the tile; if all pass, the turn passes
      on. */
  function ProcessFrom(g: Game, ds: seq<Decision>, i: nat): (r: Game)
    requires Shaped(g) && g.lastDiscard.Some? && |ds| == 3 && 1 <= i <= 4
    ensures Shaped(r)
    decreases 4 - i
  {
    if i == 4 then NextPlayer(g)
    else
      match ds[i - 1]
      case TakeWin => Win(g, SeatAfter(g, i))
      case TakePeng => AiPeng(g, SeatAfter(g, i))
      case Pass => ProcessFrom(g, ds, i + 1)
  }

  function Decisions(g: Game, coins: seq<bool>): (r: seq<Decision>)
    requires Shaped(g) && g.lastDiscard.Some?
    ensures |r| == 3
  {
    [Decide(g, coins, 1), Decide(g, coins, 2), Decide(g, coins, 3)]
  }

  /** `processAiActions`. */
  function ProcessAi(g: Game, coins: seq<bool>): (r: Game)
    requires Shaped(g) && g.lastDiscard.Some?
    ensures Shaped(r)
  {
    ProcessFrom(g, Decisions(g, coins), 1)
  }

  /** `aiTurn`: the computer seat wins if its hand is complete, otherwise
      it discards the tile `aiChooseDiscard` picks. */
  function AiTurn(g: Game, coins: seq<bool>): (r: Game)
    requires Shaped(g)
    ensures Shaped(r)
  {
    var hand := g.players[g.current].hand;
    if CheckHu(hand) then Win(g, g.current)
    else Discard(g, LastPicked(hand, coins, |hand|))
  }

  /** Runs the scheduled callback, if any. */
  function Tick(g: Game, coins: seq<bool>): (r: Game)
    requires Sound(g)
    ensures Shaped(r)
  {
    var g0 := g.(pending := Idle);
    match g.pending
    case Idle => g
    case ClaimsDue => ProcessAi(g0, coins)
    case DrawDue => Draw(g0)
    case AiTurnDue => AiTurn(g0, coins)
  }

  // ---------------------------------------------------------------------
  // The human's commands
  // ---------------------------------------------------------------------

  /** Clicking a tile of the human's hand discards it, but only while seat 0
      is the current seat. */
  function PlayerDiscard(g: Game, i: nat): (r: Game)
    requires Shaped(g)
    ensures Shaped(r)
  {
    if g.current != Human then g else Discard(g, i)
  }

  /** `playerHu`: guarded by the flag alone; the hand is not looked at.
      The buttons are disabled. */
  function PlayerHu(g: Game): (r: Game)
    requires Shaped(g)
    ensures Shaped(r)
  {
    if !g.canHu then g else Win(g, Human).(buttons := AllOff)
  }

  /** The win check after a claim or a kong: a complete hand raises the win
      flag and enables the buttons, otherwise every button is disabled. */
  function Offer(g: Game, complete: bool): (r: Game) {
    if complete then Enabled(g.(canHu := true)) else g.(buttons := AllOff)
  }

  /** What `playerPeng` and `playerChi` do after the hand edit: the human
      becomes the current seat, the last discard and the flags are cleared,
      and a win is offered if the new hand is complete. */
  function AfterClaim(g: Game, hand: seq<Tile>, meld: Meld): (r: Game)
    requires Shaped(g)
    ensures Shaped(r)
  {
    var pl := g.players[Human];
    var g1 := WithPlayer(g, Human, pl.(hand := hand, melds := pl.melds + [meld]))
      .(current := Human, lastDiscard := None, lastDiscarder := -1,
        canPeng := false, canChi := false, canHu := false);
    Offer(g1, CheckHu(hand))
  }

  /** `playerPeng`. */
  function PlayerPeng(g: Game): (r: Game)
    requires Shaped(g)
    ensures Shaped(r)
  {
    if !g.canPeng || g.lastDiscard.None? then g
    else
      var d := g.lastDiscard.value;
      var hand := g.players[Human].hand;
      if Count(hand, d) < 2 then g
      else AfterClaim(g, PengTake(hand, d), Meld(PengMeld, [d, d, d]))
  }

  /** `playerChi`: the meld records the run, whatever the hand gave up. */
  function PlayerChi(g: Game): (r: Game)
    requires Shaped(g)
    ensures Shaped(r)
  {
    if !g.canChi || g.lastDiscard.None? then g
    else
      var d := g.lastDiscard.value;
      var hand := g.players[Human].hand;
      match ChiRun(hand, d)
      case None => g
      case Some(lo) =>
        if CountIn(hand, RunTargets(Tile(d.kind, lo))) < 2 then g
        else
          var run := [Tile(d.kind, lo), Tile(d.kind, lo + 1), Tile(d.kind, lo + 2)];
          AfterClaim(g, ChiTake(hand, d, lo), Meld(ChiMeld, run))
  }

  /** `playerGang`: no flag guards it. The four copies leave the hand, the
      kong is recorded as one tile, a replacement comes from the back of the
      wall if there is one, and a complete hand raises the win flag. */
  function PlayerGang(g: Game): (r: Game)
    requires Shaped(g)
    ensures Shaped(r)
  {
    var pl := g.players[Human];
    match GangTile(pl.hand)
    case None => g
    case Some(t) =>
      var (hand, wall) := Kong(pl.hand, g.wall, t);
      var g1 := WithPlayer(g, Human, pl.(hand := hand, melds := pl.melds + [Meld(GangMeld, [t])])).(wall := wall);
      Offer(g1, CheckHu(hand))
  }

  /** The hand edit of `playerGang`: every copy of `t` leaves, and a
      replacement comes from the back of the wall if there is one. */
  function Kong(hand: seq<Tile>, wall: seq<Tile>, t: Tile): (seq<Tile>, seq<Tile>) {
    var kept := GangTake(hand, t);
    if |wall| == 0 then (kept, wall) else TakeFromWall(kept, wall)
  }

  /** What can happen next: the scheduled callback runs, or the human
      clicks a tile or an enabled button while nothing is scheduled. */
  datatype Event = TickEvent(coins: seq<bool>) | DiscardEvent(i: nat) | HuEvent | PengEvent | ChiEvent | GangEvent

  function Step(g: Game, e: Event): (r: Game)
    requires Sound(g)
    ensures Shaped(r)
  {
    var ready := g.pending == Idle;
    match e
    case TickEvent(coins) => Tick(g, coins)
    case DiscardEvent(i) => if ready then PlayerDiscard(g, i) else g
    case HuEvent => if ready && g.buttons.hu then PlayerHu(g) else g
    case PengEvent => if ready && g.buttons.peng then PlayerPeng(g) else g
    case ChiEvent => if ready && g.buttons.chi then PlayerChi(g) else g
    case GangEvent => if ready && g.buttons.gang then PlayerGang(g) else g
  }

  // ---------------------------------------------------------------------
  // The claim scan
  // ---------------------------------------------------------------------

  /** Some seat from the `i`-th on has a claim. */
  predicate SomeClaim(claims: seq<Flags>, i: nat)
    requires |claims| == 3 && 1 <= i <= 4
    decreases 4 - i
  {
    i < 4 && (Any(claims[i - 1]) || SomeClaim(claims, i + 1))
  }

  /** The scan reports that somebody can act exactly when some seat from
      the `i`-th on has a claim. */
  lemma {:induction false} ScanActs(claims: seq<Flags>, human: nat, i: nat, f: Flags, canAct: bool)
    requires |claims| == 3 && 1 <= i <= 4
    ensures ScanFrom(claims, human, i, f, canAct).1 <==> canAct || SomeClaim(claims, i)
    decreases 4 - i
  {
    if i < 4 {
      var c := claims[i - 1];
      var mine := i == human;
      ScanActs(claims, human, i + 1, Flags(f.hu || (mine && c.hu), f.peng || (mine && c.peng), f.chi || (mine && c.chi)),
               canAct || Any(c));
    }
  }

  /** The flags after the scan from the `i`-th seat on: the human's own
      claims are added when the human sits at or after that offset. */
  lemma {:induction false} ScanFlags(claims: seq<Flags>, human: nat, i: nat, f: Flags, canAct: bool)
    requires |claims| == 3 && 1 <= i <= 4
    ensures var r := ScanFrom(claims, human, i, f, canAct).0;
            var mine := i <= human < 4;
            && (r.hu <==> f.hu || (mine && claims[human - 1].hu))
            && (r.peng <==> f.peng || (mine && claims[human - 1].peng))
            && (r.chi <==> f.chi || (mine && claims[human - 1].chi))
    decreases 4 - i
  {
    if i < 4 {
      var c := claims[i - 1];
      var mine := i == human;
      ScanFlags(claims, human, i + 1, Flags(f.hu || (mine && c.hu), f.peng || (mine && c.peng), f.chi || (mine && c.chi)),
                canAct || Any(c));
    }
  }

  /** The human's offset names the human's seat. */
  lemma HumanAt(g: Game)
    requires Shaped(g)
    ensures forall i | 1 <= i < 4 :: SeatAfter(g, i) == Human <==> i == HumanOffset(g)
  {
  }

  /** `checkOtherPlayersActions` in full. If no other seat can act, the
      turn passes on. Otherwise the human's flags are raised for the claims
      the human's seat can make; if any flag is then up, the buttons follow
      the flags and the game waits for the human, otherwise the computer players' claim step is due. The
      claims are those of the seats one, two and three places on. */
  lemma CheckOthersSpec(g: Game, t: Tile, claims: seq<Flags>)
    requires Shaped(g) && claims == [SeatClaims(g, t, 1), SeatClaims(g, t, 2), SeatClaims(g, t, 3)]
    ensures var acts := Any(claims[0]) || Any(claims[1]) || Any(claims[2]);
            var k := HumanOffset(g);
            var mine := if k < 4 then claims[k - 1] else Flags(false, false, false);
            var flagged := g.(canHu := g.canHu || mine.hu, canPeng := g.canPeng || mine.peng,
                              canChi := g.canChi || mine.chi);
            && (!acts ==> CheckOthers(g, t) == NextPlayer(g))
            && (acts && Any(FlagsOf(flagged)) ==> CheckOthers(g, t) == Enabled(flagged))
            && (acts && !Any(FlagsOf(flagged)) ==> CheckOthers(g, t) == flagged.(pending := ClaimsDue))
  {
    var k := HumanOffset(g);
    ScanActs(claims, k, 1, FlagsOf(g), false);
    ScanFlags(claims, k, 1, FlagsOf(g), false);
    assert SomeClaim(claims, 1) <==> Any(claims[0]) || Any(claims[1]) || Any(claims[2]);
  }

  /** The human's claims, when the human is not the discarder: a win or a
      pung on any discard, a chow only when the human sits right after the
      discarder. */
  lemma HumanClaims(g: Game, t: Tile)
    requires Shaped(g) && g.current != Human
    ensures var k, hand := HumanOffset(g), g.players[Human].hand;
            && 1 <= k < 4
            && SeatClaims(g, t, k) == Flags(CanPlayerHu(hand, t), CanPlayerPeng(hand, t), k == 1 && CanPlayerChi(hand, t))
            && (k == 1 <==> (g.current + 1) % 4 == Human)
  {
    HumanAt(g);
  }

  /** Chow is offered to the human only by the seat right before it. */
  lemma ChiOnlyForNextSeat(g: Game, t: Tile)
    requires Shaped(g)
    ensures CheckOthers(g, t).canChi && !g.canChi ==> (g.current + 1) % 4 == Human
  {
    CheckOthersSpec(g, t, [SeatClaims(g, t, 1), SeatClaims(g, t, 2), SeatClaims(g, t, 3)]);
    if g.current != Human {
      HumanClaims(g, t);
    }
  }

  // ---------------------------------------------------------------------
  // Arbitration among the computer players
  // ---------------------------------------------------------------------

  /** What the `j`-th seat after the discarder's does when it does not pass. */
  function Claimed(g: Game, d: Decision, j: nat): Game
    requires Shaped(g) && g.lastDiscard.Some?
  {
    if d == TakeWin then Win(g, SeatAfter(g, j + 1)) else AiPeng(g, SeatAfter(g, j + 1))
  }

  /** The loop hands the discard to the FIRST seat from the `i`-th on that
      does not pass, whatever the seats after it would have done; if all
      pass, the turn passes on. */
  lemma {:induction false} FirstTakerTakes(g: Game, ds: seq<Decision>, i: nat)
    requires Shaped(g) && g.lastDiscard.Some? && |ds| == 3 && 1 <= i <= 4
    ensures (forall j | i - 1 <= j < 3 :: ds[j] == Pass) ==> ProcessFrom(g, ds, i) == NextPlayer(g)
    ensures forall j | i - 1 <= j < 3 && ds[j] != Pass && (forall m | i - 1 <= m < j :: ds[m] == Pass) ::
              ProcessFrom(g, ds, i) == Claimed(g, ds[j], j)
    decreases 4 - i
  {
    if i < 4 {
      FirstTakerTakes(g, ds, i + 1);
      forall j | i - 1 <= j < 3 && ds[j] != Pass && (forall m | i - 1 <= m < j :: ds[m] == Pass)
        ensures ProcessFrom(g, ds, i) == Claimed(g, ds[j], j)
      {
        if j > i - 1 {
          assert ds[i - 1] == Pass;
          assert ProcessFrom(g, ds, i) == ProcessFrom(g, ds, i + 1);
        }
      }
    }
  }

  /** The next seat, a computer player that can pung and whose coin comes
      up, takes the discard even when the discard would complete a
      later seat's hand. */
  lemma PengBeatsLaterHu(g: Game, coins: seq<bool>)
    requires Shaped(g) && g.lastDiscard.Some?
    requires var seat, d := SeatAfter(g, 1), g.lastDiscard.value;
             && seat != Human
             && !CanPlayerHu(g.players[seat].hand, d)
             && CanPlayerPeng(g.players[seat].hand, d) && Coin(coins, 0)
    ensures ProcessAi(g, coins) == AiPeng(g, SeatAfter(g, 1))
  {
    var ds := Decisions(g, coins);
    assert ds[0] == TakePeng;
    FirstTakerTakes(g, ds, 1);
  }

  // ---------------------------------------------------------------------
  // The size invariant
  // ---------------------------------------------------------------------

  /** Every seat within 13. */
  predicate AllWithin13(g: Game)
    requires Shaped(g)
  {
    forall p | 0 <= p < 4 :: Size(g.players[p]) <= 13
  }

  /** Replacing flowers never makes a hand longer, so a draw adds at most
      one tile. */
  lemma TakeFromWallSize(hand: seq<Tile>, wall: seq<Tile>)
    requires |wall| > 0
    ensures |TakeFromWall(hand, wall).0| <= |hand| + 1
  {
    CheckFlowersSpec(SortHand(hand + [wall[|wall| - 1]]), wall[..|wall| - 1]);
  }

  lemma NextPlayerInv(g: Game)
    requires Shaped(g) && g.pending == Idle && AllWithin13(g)
    ensures Inv(NextPlayer(g))
  {
  }

  /** The claim check keeps the invariant: the seats are untouched and
      every hand is within 13 once the discard has left it. */
  lemma CheckOthersInv(g: Game, t: Tile)
    requires Shaped(g) && g.pending == Idle && g.lastDiscard.Some? && AllWithin13(g)
    ensures Inv(CheckOthers(g, t))
  {
    var claims := [SeatClaims(g, t, 1), SeatClaims(g, t, 2), SeatClaims(g, t, 3)];
    var (f, canAct) := ScanFrom(claims, HumanOffset(g), 1, FlagsOf(g), false);
    var g1 := g.(canHu := f.hu, canPeng := f.peng, canChi := f.chi);
    if !canAct {
      NextPlayerInv(g1);
    }
  }

  lemma DiscardInv(g: Game, i: nat)
    requires Inv(g) && g.pending == Idle
    ensures Inv(Discard(g, i))
  {
    if i < |g.players[g.current].hand| {
      var g1 := Release(g, i);
      assert forall p | 0 <= p < 4 && p != g.current :: g1.players[p] == g.players[p];
      CheckOthersInv(g1, g.players[g.current].hand[i]);
    }
  }

  lemma DrawInv(g: Game)
    requires Shaped(g) && g.pending == Idle && g.lastDiscard.None? && AllWithin13(g)
    ensures Inv(Draw(g))
  {
    if |g.wall| > 0 {
      var p := g.current;
      var tw := TakeFromWall(g.players[p].hand, g.wall);
      TakeFromWallSize(g.players[p].hand, g.wall);
      var r := Draw(g);
      assert r.players == g.players[p := g.players[p].(hand := tw.0)];
      assert r.current == p && r.lastDiscard.None? && r.pending != DrawDue && r.pending != ClaimsDue;
    }
  }

  lemma WinInv(g: Game, p: nat)
    requires Inv(g) && p < 4
    ensures Inv(Win(g, p))
  {
  }

  lemma AiPengInv(g: Game, p: nat)
    requires Shaped(g) && g.pending == Idle && g.lastDiscard.Some? && AllWithin13(g) && p < 4
    requires CanPlayerPeng(g.players[p].hand, g.lastDiscard.value)
    ensures Inv(AiPeng(g, p))
  {
    PengTakeSpec(g.players[p].hand, g.lastDiscard.value);
  }

  /** Every seat that is to pung can pung. */
  predicate PengsValid(g: Game, ds: seq<Decision>)
    requires Shaped(g) && g.lastDiscard.Some? && |ds| == 3
  {
    forall j | 0 <= j < 3 :: ds[j] == TakePeng ==> CanPlayerPeng(g.players[SeatAfter(g, j + 1)].hand, g.lastDiscard.value)
  }

  lemma DecisionsValid(g: Game, coins: seq<bool>)
    requires Shaped(g) && g.lastDiscard.Some?
    ensures PengsValid(g, Decisions(g, coins))
  {
  }

  lemma {:induction false} ProcessFromInv(g: Game, ds: seq<Decision>, i: nat)
    requires Shaped(g) && g.pending == Idle && g.lastDiscard.Some? && AllWithin13(g)
    requires |ds| == 3 && 1 <= i <= 4 && PengsValid(g, ds)
    ensures Inv(ProcessFrom(g, ds, i))
    decreases 4 - i
  {
    if i == 4 {
      NextPlayerInv(g);
    } else {
      match ds[i - 1]
      case TakeWin =>
      case TakePeng => AiPengInv(g, SeatAfter(g, i));
      case Pass => ProcessFromInv(g, ds, i + 1);
    }
  }

  lemma AiTurnInv(g: Game, coins: seq<bool>)
    requires Inv(g) && g.pending == Idle
    ensures Inv(AiTurn(g, coins))
  {
    var hand := g.players[g.current].hand;
    if !CheckHu(hand) {
      DiscardInv(g, LastPicked(hand, coins, |hand|));
    }
  }

  lemma TickInv(g: Game, coins: seq<bool>)
    requires Inv(g)
    ensures Inv(Tick(g, coins))
  {
    var g0 := g.(pending := Idle);
    match g.pending
    case Idle =>
    case ClaimsDue =>
      DecisionsValid(g0, coins);
      ProcessFromInv(g0, Decisions(g0, coins), 1);
    case DrawDue => DrawInv(g0);
    case AiTurnDue => AiTurnInv(g0, coins);
  }

  /** A pung or chow by the human: the hand gives up two tiles for a meld
      worth three, and the human becomes the seat to discard. */
  lemma AfterClaimInv(g: Game, hand: seq<Tile>, meld: Meld)
    requires Shaped(g) && g.pending == Idle && g.lastDiscard.Some? && AllWithin13(g)
    requires |hand| + 2 == |g.players[Human].hand|
    ensures Inv(AfterClaim(g, hand, meld))
  {
  }

  lemma PlayerPengInv(g: Game)
    requires Inv(g) && g.pending == Idle
    ensures Inv(PlayerPeng(g))
  {
    if g.canPeng && g.lastDiscard.Some? && Count(g.players[Human].hand, g.lastDiscard.value) >= 2 {
      PengTakeSpec(g.players[Human].hand, g.lastDiscard.value);
      AfterClaimInv(g, PengTake(g.players[Human].hand, g.lastDiscard.value),
                    Meld(PengMeld, [g.lastDiscard.value, g.lastDiscard.value, g.lastDiscard.value]));
    }
  }

  lemma PlayerChiInv(g: Game)
    requires Inv(g) && g.pending == Idle
    ensures Inv(PlayerChi(g))
  {
    if g.canChi && g.lastDiscard.Some? {
      var d := g.lastDiscard.value;
      var hand := g.players[Human].hand;
      if ChiRun(hand, d).Some? {
        var lo := ChiRun(hand, d).value;
        var targets := RunTargets(Tile(d.kind, lo));
        if CountIn(hand, targets) >= 2 {
          RemoveFirstSpec(hand, targets, 2);
          var run := [Tile(d.kind, lo), Tile(d.kind, lo + 1), Tile(d.kind, lo + 2)];
          AfterClaimInv(g, ChiTake(hand, d, lo), Meld(ChiMeld, run));
        }
      }
    }
  }

  lemma PlayerGangInv(g: Game)
    requires Inv(g)
    ensures Inv(PlayerGang(g))
  {
    var pl := g.players[Human];
    if GangTile(pl.hand).Some? {
      var t := GangTile(pl.hand).value;
      var k := Kong(pl.hand, g.wall, t);
      KongSize(pl.hand, g.wall);
      var g1 := WithPlayer(g, Human, pl.(hand := k.0, melds := pl.melds + [Meld(GangMeld, [t])])).(wall := k.1);
      assert Inv(g1) by {
        forall p | 0 <= p < 4
          ensures Size(g1.players[p]) <= 13 + Allowance(g1, p)
        {
          assert Allowance(g1, p) == Allowance(g, p);
        }
      }
      OfferInv(g1, CheckHu(k.0));
      assert PlayerGang(g) == Offer(g1, CheckHu(k.0));
    }
  }

  /** Offering a win touches neither the hands nor the turn. */
  lemma OfferInv(g: Game, complete: bool)
    requires Inv(g)
    ensures Inv(Offer(g, complete))
  {
    assert forall p | 0 <= p < 4 :: Allowance(Offer(g, complete), p) == Allowance(g, p);
  }

  /** A kong gives up four tiles for a meld worth three and takes back at
      most one. */
  lemma KongSize(hand: seq<Tile>, wall: seq<Tile>)
    requires GangTile(hand).Some?
    ensures |Kong(hand, wall, GangTile(hand).value).0| + 3 <= |hand|
  {
    var t := GangTile(hand).value;
    GangTakeSpec(hand);
    if |wall| > 0 {
      TakeFromWallSize(GangTake(hand, t), wall);
    }
  }

  /** Every step keeps the invariant. */
  lemma StepInv(g: Game, e: Event)
    requires Inv(g)
    ensures Inv(Step(g, e))
  {
    if e.TickEvent? {
      TickInv(g, e.coins);
    } else if g.pending == Idle {
      match e
      case DiscardEvent(i) => if g.current == Human { DiscardInv(g, i); }
      case HuEvent => if g.buttons.hu && g.canHu { WinInv(g, Human); }
      case PengEvent => PlayerPengInv(g);
      case ChiEvent => PlayerChiInv(g);
      case GangEvent => if g.buttons.gang { PlayerGangInv(g); }
    }
  }

  // ---------------------------------------------------------------------
  // Consequences
  // ---------------------------------------------------------------------

  /** A seat with a meld holds at most 11 concealed tiles, so neither its
      own hand nor its hand with any discard passes the 13-or-14 length
      test of `checkHu`: a player who has claimed can never win. */
  lemma MeldedCannotWin(g: Game, p: nat)
    requires Inv(g) && p < 4 && |g.players[p].melds| > 0
    ensures |g.players[p].hand| <= 11
    ensures !CheckHu(g.players[p].hand)
    ensures forall d :: !CanPlayerHu(g.players[p].hand, d)
  {
  }

  /** After the human's pung the win check that follows it never raises
      the flag: if the flag is up afterwards, the pung did not happen. */
  lemma PengNeverOffersWin(g: Game)
    requires Inv(g) && g.pending == Idle
    ensures PlayerPeng(g).canHu ==> PlayerPeng(g) == g
  {
    if g.canPeng && g.lastDiscard.Some? && Count(g.players[Human].hand, g.lastDiscard.value) >= 2 {
      PengTakeSpec(g.players[Human].hand, g.lastDiscard.value);
    }
  }

  /** The same for the human's chow. */
  lemma ChiNeverOffersWin(g: Game)
    requires Inv(g) && g.pending == Idle
    ensures PlayerChi(g).canHu ==> PlayerChi(g) == g
  {
    if g.canChi && g.lastDiscard.Some? {
      var d := g.lastDiscard.value;
      var hand := g.players[Human].hand;
      if ChiRun(hand, d).Some? {
        var targets := RunTargets(Tile(d.kind, ChiRun(hand, d).value));
        if CountIn(hand, targets) >= 2 {
          RemoveFirstSpec(hand, targets, 2);
        }
      }
    }
  }

  /** And for the kong: its win check leaves the flag as it was. */
  lemma GangNeverOffersWin(g: Game)
    requires Inv(g)
    ensures PlayerGang(g).canHu == g.canHu
  {
    var pl := g.players[Human];
    if GangTile(pl.hand).Some? {
      KongSize(pl.hand, g.wall);
    }
  }

  /** `playerHu` looks only at the flag: whatever the hand, the human wins
      and the round ends. */
  lemma HuTrustsFlag(g: Game)
    requires Shaped(g) && g.canHu
    ensures PlayerHu(g).players[Human].hu && !PlayerHu(g).started
    ensures PlayerHu(g).players[Human].hand == g.players[Human].hand
  {
  }

  /** A win flag raised by the human's draw survives the human's discard:
      when some other seat can act on the discard, the game waits for the
      human with the flag still up and the Hu button enabled, and the human
      can then win holding the hand the discard broke. */
  lemma StaleWinFlag(g: Game, i: nat)
    requires Shaped(g) && g.current == Human && g.canHu && i < |g.players[Human].hand|
    requires var g1, t := Release(g, i), g.players[Human].hand[i];
             Any(SeatClaims(g1, t, 1)) || Any(SeatClaims(g1, t, 2)) || Any(SeatClaims(g1, t, 3))
    ensures var r := PlayerDiscard(g, i);
            && r.canHu && r.buttons.hu && r.pending == g.pending && r.current == Human
            && PlayerHu(r).players[Human].hu
            && PlayerHu(r).players[Human].hand == RemoveAt(g.players[Human].hand, i)
  {
    var g1, t := Release(g, i), g.players[Human].hand[i];
    CheckOthersSpec(g1, t, [SeatClaims(g1, t, 1), SeatClaims(g1, t, 2), SeatClaims(g1, t, 3)]);
  }

  /** `nextPlayer`: the seat after the current one, flags and last discard
      cleared; the round ends exactly when the wall is empty, otherwise that
      seat's draw is due. Nothing else changes. */
  lemma NextPlayerSpec(g: Game)
    requires Shaped(g)
    ensures var r := NextPlayer(g);
            && r.current == (g.current + 1) % 4
            && r.lastDiscard.None? && r.lastDiscarder == -1
            && !r.canHu && !r.canPeng && !r.canChi && r.buttons == AllOff
            && (|g.wall| == 0 ==> r.pending == g.pending && !r.started)
            && (|g.wall| > 0 ==> r.pending == DrawDue && r.started == g.started)
            && r.players == g.players && r.wall == g.wall && r.discards == g.discards
  {
  }

  /** The first half of `discardTile` takes exactly the tile at `i` out of
      the current hand, appends it to the pile and records it and its seat
      as the last discard; the other seats are untouched. */
  lemma ReleaseSpec(g: Game, i: nat)
    requires Shaped(g) && i < |g.players[g.current].hand|
    ensures var r, hand, t := Release(g, i), g.players[g.current].hand, g.players[g.current].hand[i];
            && r.players[g.current].hand == hand[..i] + hand[i + 1..]
            && multiset(r.players[g.current].hand) + multiset{t} == multiset(hand)
            && r.discards == g.discards + [t]
            && r.lastDiscard == Some(t) && r.lastDiscarder == g.current
            && (forall p | 0 <= p < 4 && p != g.current :: r.players[p] == g.players[p])
  {
    var hand := g.players[g.current].hand;
    RemoveAtPermutes(hand, i);
  }

  /** `hand'` and `wall'` are what a draw from `wall` leaves: the wall loses
      its LAST tile and the flowers replaced from its end, and the hand gains
      that tile and the replacements, flowers aside. */
  predicate Refilled(hand: seq<Tile>, wall: seq<Tile>, hand': seq<Tile>, wall': seq<Tile>)
    requires |wall| > 0
  {
    var n := |wall|;
    var drawn := hand + [wall[n - 1]];
    var m := Min(|Flowers(drawn)|, n - 1);
    && wall' == wall[..n - 1 - m]
    && multiset(hand') == multiset(NonFlowers(drawn)) + multiset(wall[n - 1 - m..n - 1])
  }

  lemma TakeFromWallSpec(hand: seq<Tile>, wall: seq<Tile>)
    requires |wall| > 0
    ensures Refilled(hand, wall, TakeFromWall(hand, wall).0, TakeFromWall(hand, wall).1)
  {
    var drawn := hand + [wall[|wall| - 1]];
    SortHandPermutes(drawn);
    FiltersPermute(drawn, SortHand(drawn));
    FlowersReplaced(hand, wall, SortHand(drawn));
  }

  /** Replacing the flowers of any reordering of the drawn hand refills it. */
  lemma FlowersReplaced(hand: seq<Tile>, wall: seq<Tile>, sorted: seq<Tile>)
    requires |wall| > 0
    requires var drawn := hand + [wall[|wall| - 1]];
             && multiset(NonFlowers(sorted)) == multiset(NonFlowers(drawn))
             && |Flowers(sorted)| == |Flowers(drawn)|
    ensures var r := CheckFlowers(sorted, wall[..|wall| - 1]);
            Refilled(hand, wall, r.0, r.1)
  {
    var w := wall[..|wall| - 1];
    var k := Min(|Flowers(sorted)|, |w|);
    var r := CheckFlowers(sorted, w);
    ReplacedParts(sorted, wall, k);
    assert r.1 == wall[..|wall| - 1 - k]
        && multiset(r.0) == multiset(NonFlowers(sorted)) + multiset(wall[|wall| - 1 - k..|wall| - 1]);
  }

  /** `CheckFlowers` on the wall's front, in terms of the whole wall. */
  lemma ReplacedParts(hand: seq<Tile>, wall: seq<Tile>, k: nat)
    requires |wall| > 0 && k == Min(|Flowers(hand)|, |wall| - 1)
    ensures var r := CheckFlowers(hand, wall[..|wall| - 1]);
            && r.1 == wall[..|wall| - 1 - k]
            && multiset(r.0) == multiset(NonFlowers(hand)) + multiset(wall[|wall| - 1 - k..|wall| - 1])
  {
    var n := |wall|;
    var w := wall[..n - 1];
    var r := CheckFlowers(hand, w);
    assert r.1 == w[..n - 1 - k] && multiset(r.0) == multiset(NonFlowers(hand)) + multiset(w[n - 1 - k..]) by {
      CheckFlowersSpec(hand, w);
    }
    TailOfFront(wall, n - 1, k);
  }

  /** The draw step refills the current seat's hand from the back of the
      wall; the other seats are untouched. */
  lemma DrawSpec(g: Game)
    requires Shaped(g) && |g.wall| > 0
    ensures var r, p := Draw(g), g.current;
            && Refilled(g.players[p].hand, g.wall, r.players[p].hand, r.wall)
            && (forall q | 0 <= q < 4 && q != p :: r.players[q] == g.players[q])
  {
    DrawShape(g);
    TakeFromWallSpec(g.players[g.current].hand, g.wall);
  }

  lemma DrawShape(g: Game)
    requires Shaped(g) && |g.wall| > 0
    ensures var p, tw := g.current, TakeFromWall(g.players[g.current].hand, g.wall);
            && Draw(g).wall == tw.1 && Draw(g).players[p].hand == tw.0
            && forall q | 0 <= q < 4 && q != p :: Draw(g).players[q] == g.players[q]
  {
    var p, tw := g.current, TakeFromWall(g.players[g.current].hand, g.wall);
    assert Draw(g).players == g.players[p := g.players[p].(hand := tw.0)];
  }

  /** Looking for claims never touches the hands, the wall or the pile. */
  lemma CheckOthersKeeps(g: Game, t: Tile)
    requires Shaped(g)
    ensures var r := CheckOthers(g, t);
            r.players == g.players && r.wall == g.wall && r.discards == g.discards
  {
  }

  /** A computer seat with a complete hand wins with it; otherwise exactly
      the tile `aiChooseDiscard` picks moves from its hand to the pile, and
      the other seats keep their hands. */
  lemma AiTurnSpec(g: Game, coins: seq<bool>)
    requires Shaped(g)
    ensures var r, c, hand := AiTurn(g, coins), g.current, g.players[g.current].hand;
            CheckHu(hand) ==> r.players[c].hu && !r.started && r.players[c].hand == hand
    ensures var r, c, hand := AiTurn(g, coins), g.current, g.players[g.current].hand;
            var b := LastPicked(hand, coins, |hand|);
            !CheckHu(hand) && |hand| > 0 ==>
              && b < |hand|
              && (b > 0 ==> Count(hand, hand[b]) == 1)
              && r.discards == g.discards + [hand[b]]
              && multiset(r.players[c].hand) + multiset{hand[b]} == multiset(hand)
              && (forall q | 0 <= q < 4 && q != c :: r.players[q] == g.players[q])
  {
    var c, hand := g.current, g.players[g.current].hand;
    if !CheckHu(hand) && |hand| > 0 {
      var b := LastPicked(hand, coins, |hand|);
      LastPickedSpec(hand, coins, |hand|);
      ReleaseSpec(g, b);
      var g1 := Release(g, b);
      CheckOthersKeeps(g1, hand[b]);
    }
  }

  /** A computer seat whose hand is empty (its last concealed tile and the
      wall's last tile were both flowers with nothing to replace them) has
      no tile to discard: its turn clears the schedule and the game stalls,
      no later callback being due. */
  lemma EmptyHandStalls(g: Game, coins: seq<bool>, coins': seq<bool>)
    requires Sound(g) && g.pending == AiTurnDue && g.players[g.current].hand == []
    ensures Tick(g, coins) == g.(pending := Idle)
    ensures Tick(Tick(g, coins), coins') == Tick(g, coins)
  {
    assert !CheckHu([]);
  }

  /** A computer seat's pung takes out the first two copies of the discard
      and nothing else, records one meld, and makes that seat current with
      its turn due; the discard stays on the pile. */
  lemma AiPengSpec(g: Game, p: nat) returns (i: nat, j: nat)
    requires Shaped(g) && p < 4 && g.lastDiscard.Some?
    requires CanPlayerPeng(g.players[p].hand, g.lastDiscard.value)
    ensures var hand, d := g.players[p].hand, g.lastDiscard.value;
            && i < j < |hand| && hand[i] == d && hand[j] == d
            && (forall k | 0 <= k < j && k != i :: hand[k] != d)
    ensures var r, pl, d := AiPeng(g, p), g.players[p], g.lastDiscard.value;
            && r.players[p].hand == pl.hand[..i] + pl.hand[i + 1..j] + pl.hand[j + 1..]
            && r.players[p].melds == pl.melds + [Meld(PengMeld, [d, d, d])]
            && r.current == p && r.lastDiscard.None? && r.lastDiscarder == -1 && r.pending == AiTurnDue
            && r.discards == g.discards && r.wall == g.wall
            && (forall q | 0 <= q < 4 && q != p :: r.players[q] == g.players[q])
  {
    var pl, d := g.players[p], g.lastDiscard.value;
    i, j := PengTakeShape(pl.hand, d);
    var r := AiPeng(g, p);
    assert r.players == g.players[p := pl.(hand := PengTake(pl.hand, d), melds := pl.melds + [Meld(PengMeld, [d, d, d])])];
  }

  /** The human's pung edits the hand the same way, clears every flag but
      the win flag, which is raised exactly when the new hand is complete.
      Without the flag, a last discard or two copies nothing happens. */
  lemma PlayerPengSpec(g: Game) returns (i: nat, j: nat)
    requires Shaped(g)
    ensures !(g.canPeng && g.lastDiscard.Some? && CanPlayerPeng(g.players[Human].hand, g.lastDiscard.value)) ==>
              PlayerPeng(g) == g
    ensures g.canPeng && g.lastDiscard.Some? && CanPlayerPeng(g.players[Human].hand, g.lastDiscard.value) ==>
              var hand, d := g.players[Human].hand, g.lastDiscard.value;
              && i < j < |hand| && hand[i] == d && hand[j] == d
              && (forall k | 0 <= k < j && k != i :: hand[k] != d)
    ensures g.canPeng && g.lastDiscard.Some? && CanPlayerPeng(g.players[Human].hand, g.lastDiscard.value) ==>
              var r, pl, d := PlayerPeng(g), g.players[Human], g.lastDiscard.value;
              && r.players[Human].hand == pl.hand[..i] + pl.hand[i + 1..j] + pl.hand[j + 1..]
              && r.players[Human].melds == pl.melds + [Meld(PengMeld, [d, d, d])]
              && r.current == Human && r.lastDiscard.None? && r.lastDiscarder == -1
              && !r.canPeng && !r.canChi && (r.canHu <==> CheckHu(r.players[Human].hand))
              && !r.buttons.peng && !r.buttons.chi && (r.buttons.hu <==> CheckHu(r.players[Human].hand))
              && r.discards == g.discards && r.wall == g.wall
              && (forall q | 0 <= q < 4 && q != Human :: r.players[q] == g.players[q])
  {
    i, j := 0, 0;
    if g.canPeng && g.lastDiscard.Some? && CanPlayerPeng(g.players[Human].hand, g.lastDiscard.value) {
      var pl, d := g.players[Human], g.lastDiscard.value;
      i, j := PengTakeShape(pl.hand, d);
      var r := PlayerPeng(g);
      assert r.players
          == g.players[Human := pl.(hand := PengTake(pl.hand, d), melds := pl.melds + [Meld(PengMeld, [d, d, d])])];
    }
  }

  // ---------------------------------------------------------------------
  // The buttons
  // ---------------------------------------------------------------------

  /** An enabled claim button has its flag up, and the Gang button is
      disabled: `startGame` disables it, and the one statement that would
      enable it comes after the throw in `enableActionButtons`. */
  predicate ButtonsAgree(g: Game) {
    && (g.buttons.hu ==> g.canHu)
    && (g.buttons.peng ==> g.canPeng)
    && (g.buttons.chi ==> g.canChi)
    && !g.buttons.gang
  }

  /** The claim scan only raises flags, and enables exactly the buttons
      whose flags are up. */
  lemma CheckOthersButtons(g: Game, t: Tile)
    requires Shaped(g) && ButtonsAgree(g)
    ensures ButtonsAgree(CheckOthers(g, t))
  {
    CheckOthersSpec(g, t, [SeatClaims(g, t, 1), SeatClaims(g, t, 2), SeatClaims(g, t, 3)]);
  }

  lemma DiscardButtons(g: Game, i: nat)
    requires Shaped(g) && ButtonsAgree(g)
    ensures ButtonsAgree(Discard(g, i))
  {
    if i < |g.players[g.current].hand| {
      CheckOthersButtons(Release(g, i), g.players[g.current].hand[i]);
    }
  }

  lemma {:induction false} ProcessFromButtons(g: Game, ds: seq<Decision>, i: nat)
    requires Shaped(g) && g.lastDiscard.Some? && |ds| == 3 && 1 <= i <= 4 && ButtonsAgree(g)
    ensures ButtonsAgree(ProcessFrom(g, ds, i))
    decreases 4 - i
  {
    if i < 4 && ds[i - 1] == Pass {
      ProcessFromButtons(g, ds, i + 1);
    }
  }

  lemma TickButtons(g: Game, coins: seq<bool>)
    requires Sound(g) && ButtonsAgree(g)
    ensures ButtonsAgree(Tick(g, coins))
  {
    var g0 := g.(pending := Idle);
    match g.pending
    case Idle =>
    case ClaimsDue => ProcessFromButtons(g0, Decisions(g0, coins), 1);
    case DrawDue =>
    case AiTurnDue => AiTurnButtons(g0, coins);
  }

  lemma AiTurnButtons(g: Game, coins: seq<bool>)
    requires Shaped(g) && ButtonsAgree(g)
    ensures ButtonsAgree(AiTurn(g, coins))
  {
    var hand := g.players[g.current].hand;
    if !CheckHu(hand) {
      DiscardButtons(g, LastPicked(hand, coins, |hand|));
    }
  }

  /** Every step keeps the buttons in line with the flags and the Gang
      button disabled, so from any such state a click on Gang does
      nothing: the kong of `playerGang` is never played. */
  lemma ButtonsStep(g: Game, e: Event)
    requires Sound(g) && ButtonsAgree(g)
    ensures ButtonsAgree(Step(g, e))
    ensures Step(g, GangEvent) == g
  {
    if e.TickEvent? {
      TickButtons(g, e.coins);
    } else if e.DiscardEvent? && g.pending == Idle && g.current == Human {
      DiscardButtons(g, e.i);
    }
  }

  /** With every button disabled, no claim can be made. */
  lemma AllOffNoClaims(g: Game)
    requires Sound(g) && g.buttons == AllOff
    ensures ButtonsAgree(g)
    ensures Step(g, HuEvent) == g && Step(g, PengEvent) == g && Step(g, ChiEvent) == g && Step(g, GangEvent) == g
  {
  }
}
