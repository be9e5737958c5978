/** Edits a seat makes to its own hand: `sortHand`, the flower replacement
    of `checkFlowers`, the removals of a claimed pung (`aiPeng`,
    `playerPeng`), chow (`playerChi`) and kong (`playerGang`), and the
    AI's discard choice (`aiChooseDiscard`). */
module Hand {
  import opened Tiles
  import opened Evaluator

  // ---------------------------------------------------------------------
  // sortHand
  // ---------------------------------------------------------------------

  /** Position of a kind in the display order wan, tiao, tong, wind,
      dragon. Flowers never reach the lookup. */
  function SuitRank(k: Kind): nat {
    match k
    case Wan => 0
    case Tiao => 1
    case Tong => 2
    case Wind => 3
    case Dragon => 4
    case Flower => 5
  }

  /** The comparator of `sortHand`: a flower on either side compares equal
      to anything; otherwise kinds in display order, then values. */
  function Cmp(a: Tile, b: Tile): int {
    if IsFlower(a) || IsFlower(b) then 0
    else if SuitRank(a.kind) != SuitRank(b.kind) then SuitRank(a.kind) - SuitRank(b.kind)
    else a.value - b.value
  }

  /** The order the comparator induces on tiles other than flowers. */
  predicate LessEq(a: Tile, b: Tile) {
    SuitRank(a.kind) < SuitRank(b.kind) || (a.kind == b.kind && a.value <= b.value)
  }

  predicate Sorted(s: seq<Tile>) {
    forall i, j | 0 <= i < j < |s| :: LessEq(s[i], s[j])
  }

  /** Without flowers the comparator says "not after" exactly when the
      tiles are in `LessEq` order. */
  lemma CmpOrder(a: Tile, b: Tile)
    requires !IsFlower(a) && !IsFlower(b)
    ensures Cmp(a, b) <= 0 <==> LessEq(a, b)
    ensures LessEq(a, b) || LessEq(b, a)
    ensures LessEq(a, b) && LessEq(b, a) ==> a == b
  {
  }

  lemma LessEqTrans(a: Tile, b: Tile, c: Tile)
    requires LessEq(a, b) && LessEq(b, c)
    ensures LessEq(a, c)
  {
  }

  /** Places `x` after the last tile of `s` that the comparator does not
      put after it (one step of a stable insertion sort). */
  function Insert(s: seq<Tile>, x: Tile): (r: seq<Tile>)
    ensures |r| == |s| + 1
    decreases |s|
  {
    if |s| == 0 then [x]
    else if Cmp(s[|s| - 1], x) > 0 then Insert(s[..|s| - 1], x) + [s[|s| - 1]]
    else s + [x]
  }

  /** `sortHand`. JavaScript's `sort` with this comparator is a stable sort
      in current engines; the model is the stable insertion sort. With no
      flower in the hand the result is the one sorted arrangement, which
      every correct sort produces (`SortedIsUnique`). */
  function SortHand(s: seq<Tile>): (r: seq<Tile>)
    ensures |r| == |s|
    decreases |s|
  {
    if |s| == 0 then [] else Insert(SortHand(s[..|s| - 1]), s[|s| - 1])
  }

  lemma {:induction false} InsertPermutes(s: seq<Tile>, x: Tile)
    ensures multiset(Insert(s, x)) == multiset(s) + multiset{x}
    decreases |s|
  {
    if |s| > 0 && Cmp(s[|s| - 1], x) > 0 {
      var init := s[..|s| - 1];
      InsertPermutes(init, x);
      LastSplit(s);
    }
  }

  /** Sorting only rearranges the hand. */
  lemma {:induction false} SortHandPermutes(s: seq<Tile>)
    ensures multiset(SortHand(s)) == multiset(s)
    decreases |s|
  {
    if |s| > 0 {
      var init, x := s[..|s| - 1], s[|s| - 1];
      SortHandPermutes(init);
      InsertPermutes(SortHand(init), x);
      assert SortHand(s) == Insert(SortHand(init), x);
      LastSplit(s);
    }
  }

  /** Every tile of a rearrangement of `s` + [x] is `x` or a tile of `s`. */
  lemma MemberOfPermutation(r: seq<Tile>, s: seq<Tile>, x: Tile, k: nat)
    requires multiset(r) == multiset(s) + multiset{x} && k < |r|
    ensures r[k] == x || r[k] in s
  {
    assert r[k] in multiset(r);
  }

  lemma {:induction false} InsertSorted(s: seq<Tile>, x: Tile)
    requires Sorted(s) && NoFlowers(s) && !IsFlower(x)
    ensures Sorted(Insert(s, x))
    decreases |s|
  {
    if |s| > 0 {
      var init, last := s[..|s| - 1], s[|s| - 1];
      CmpOrder(last, x);
      if Cmp(last, x) > 0 {
        InsertSorted(init, x);
        var r := Insert(init, x);
        InsertPermutes(init, x);
        forall k | 0 <= k < |r| ensures LessEq(r[k], last) {
          MemberOfPermutation(r, init, x, k);
          if r[k] != x {
            var j :| 0 <= j < |init| && init[j] == r[k];
            assert s[j] == r[k];
          }
        }
      } else {
        forall i | 0 <= i < |s| ensures LessEq(s[i], x) {
          if i < |s| - 1 {
            LessEqTrans(s[i], last, x);
          }
        }
      }
    }
  }

  /** Without flowers, `sortHand` leaves the hand sorted. */
  lemma {:induction false} SortHandSorted(s: seq<Tile>)
    requires NoFlowers(s)
    ensures Sorted(SortHand(s))
    decreases |s|
  {
    if |s| > 0 {
      var init := s[..|s| - 1];
      SortHandSorted(init);
      SortHandPermutes(init);
      var si := SortHand(init);
      forall k | 0 <= k < |si| ensures !IsFlower(si[k]) {
        assert si[k] in multiset(init);
      }
      InsertSorted(si, s[|s| - 1]);
    }
  }

  /** The first tile of a sorted list is at or below every tile in it. */
  lemma SortedHead(t: seq<Tile>, y: Tile)
    requires Sorted(t) && |t| > 0 && y in multiset(t)
    ensures LessEq(t[0], y)
  {
    var j :| 0 <= j < |t| && t[j] == y;
  }

  /** Two sorted lists of the same tiles start with the same tile. */
  lemma SameHead(t: seq<Tile>, u: seq<Tile>)
    requires Sorted(t) && Sorted(u) && NoFlowers(t) && multiset(t) == multiset(u)
    requires |t| > 0 && |u| > 0
    ensures t[0] == u[0]
  {
    assert t[0] in multiset(t);
    assert u[0] in multiset(u);
    SortedHead(t, u[0]);
    SortedHead(u, t[0]);
    assert !IsFlower(u[0]) by {
      var j :| 0 <= j < |t| && t[j] == u[0];
    }
    CmpOrder(t[0], u[0]);
  }

  lemma DropHead(t: seq<Tile>)
    requires |t| > 0
    ensures Sorted(t) ==> Sorted(t[1..])
    ensures NoFlowers(t) ==> NoFlowers(t[1..])
    ensures multiset(t[1..]) == multiset(t) - multiset{t[0]}
  {
    HeadSplit(t);
  }

  /** Two sorted lists with the same tiles are the same list: the order
      leaves no freedom once flowers are out. */
  lemma {:induction false} SortedIsUnique(t: seq<Tile>, u: seq<Tile>)
    requires Sorted(t) && Sorted(u) && NoFlowers(t) && multiset(t) == multiset(u)
    ensures t == u
    decreases |t|
  {
    assert |multiset(t)| == |multiset(u)|;
    if |t| > 0 {
      SameHead(t, u);
      DropHead(t);
      DropHead(u);
      SortedIsUnique(t[1..], u[1..]);
      HeadSplit(t);
      HeadSplit(u);
    }
  }

  /** For a hand without flowers `sortHand` yields exactly the sorted
      rearrangement of its tiles, so sorting again changes nothing. */
  lemma SortHandCharacterised(s: seq<Tile>, t: seq<Tile>)
    requires NoFlowers(s) && Sorted(t) && multiset(t) == multiset(s)
    ensures SortHand(s) == t
  {
    SortHandSorted(s);
    SortHandPermutes(s);
    NoFlowersPermutation(s, t);
    SortedIsUnique(t, SortHand(s));
  }

  lemma NoFlowersPermutation(s: seq<Tile>, t: seq<Tile>)
    requires NoFlowers(s) && multiset(t) == multiset(s)
    ensures NoFlowers(t)
  {
    forall k | 0 <= k < |t| ensures !IsFlower(t[k]) {
      assert t[k] in multiset(s);
    }
  }

  lemma SortHandIdempotent(s: seq<Tile>)
    requires NoFlowers(s)
    ensures SortHand(SortHand(s)) == SortHand(s)
  {
    SortHandSorted(s);
    SortHandPermutes(s);
    NoFlowersPermutation(s, SortHand(s));
    SortHandCharacterised(SortHand(s), SortHand(s));
  }

  // ---------------------------------------------------------------------
  // checkFlowers
  // ---------------------------------------------------------------------

  /** The last `n` tiles of the wall in the order `pop` takes them. */
  function Popped(w: seq<Tile>, n: nat): (r: seq<Tile>)
    requires n <= |w|
    ensures |r| == n
    decreases n
  {
    if n == 0 then [] else [w[|w| - 1]] + Popped(w[..|w| - 1], n - 1)
  }

  /** The loop of `checkFlowers` over the flowers `fs` collected before it
      starts: each is looked up (`indexOf`), spliced out, and replaced by a
      tile popped off the END of the wall while the wall lasts. A flower
      that arrives as a replacement is not in `fs` and stays. */
  function ReplaceFlowers(hand: seq<Tile>, wall: seq<Tile>, fs: seq<Tile>): (r: (seq<Tile>, seq<Tile>))
    decreases |fs|
  {
    if |fs| == 0 then (hand, wall)
    else
      var i := IndexOf(hand, fs[0]);
      if i == |hand| then ReplaceFlowers(hand, wall, fs[1..])
      else
        var h := RemoveAt(hand, i);
        if |wall| == 0 then ReplaceFlowers(h, wall, fs[1..])
        else ReplaceFlowers(h + [wall[|wall| - 1]], wall[..|wall| - 1], fs[1..])
  }

  /** `checkFlowers`: the hand's flowers are replaced from the wall and the
      hand is sorted; the result is the new hand and the new wall. The
      flowers taken out are dropped. */
  function CheckFlowers(hand: seq<Tile>, wall: seq<Tile>): (seq<Tile>, seq<Tile>) {
    var r := ReplaceFlowers(hand, wall, Flowers(hand));
    (SortHand(r.0), r.1)
  }

  /** The first flower of `p` splits it into a flower-free front and the
      rest. */
  lemma {:induction false} FirstFlower(p: seq<Tile>) returns (j: nat)
    requires |Flowers(p)| > 0
    ensures j < |p| && p[j] == Flowers(p)[0]
    ensures forall k | 0 <= k < j :: !IsFlower(p[k])
    ensures Flowers(p[..j] + p[j + 1..]) == Flowers(p)[1..]
    ensures NonFlowers(p[..j] + p[j + 1..]) == NonFlowers(p)
    decreases |p|
  {
    HeadSplit(p);
    FiltersAppend([p[0]], p[1..]);
    if IsFlower(p[0]) {
      j := 0;
      assert p[..j] + p[j + 1..] == p[1..];
    } else {
      var j' := FirstFlower(p[1..]);
      j := j' + 1;
      var rest := p[1..][..j'] + p[1..][j' + 1..];
      assert p[..j] + p[j + 1..] == [p[0]] + rest;
      FiltersAppend([p[0]], rest);
    }
  }

  /** `indexOf` finds the first flower of `p` where it is, even with other
      tiles after `p`. */
  lemma IndexOfFirstFlower(p: seq<Tile>, q: seq<Tile>, j: nat)
    requires j < |p| && IsFlower(p[j])
    requires forall k | 0 <= k < j :: !IsFlower(p[k])
    ensures IndexOf(p + q, p[j]) == j
  {
    assert (p + q)[j] == p[j];
    forall k | 0 <= k < j ensures (p + q)[k] != p[j] {
      assert (p + q)[k] == p[k];
    }
  }

  /** One round of the loop, as the definition reads when the flower is
      found at `i`. */
  lemma ReplaceUnfold(hand: seq<Tile>, wall: seq<Tile>, fs: seq<Tile>, i: nat)
    requires |fs| > 0 && i < |hand| && IndexOf(hand, fs[0]) == i
    ensures |wall| == 0 ==>
      ReplaceFlowers(hand, wall, fs) == ReplaceFlowers(RemoveAt(hand, i), wall, fs[1..])
    ensures |wall| > 0 ==>
      ReplaceFlowers(hand, wall, fs) == ReplaceFlowers(RemoveAt(hand, i) + [wall[|wall| - 1]], wall[..|wall| - 1], fs[1..])
  {
  }

  /** One round of the loop on the first remaining flower of `p`. */
  lemma ReplaceStep(p: seq<Tile>, q: seq<Tile>, w: seq<Tile>) returns (p': seq<Tile>)
    requires |Flowers(p)| > 0
    ensures |p'| < |p| && Flowers(p') == Flowers(p)[1..] && NonFlowers(p') == NonFlowers(p)
    ensures |w| == 0 ==>
      ReplaceFlowers(p + q, w, Flowers(p)) == ReplaceFlowers(p' + q, w, Flowers(p'))
    ensures |w| > 0 ==>
      ReplaceFlowers(p + q, w, Flowers(p)) == ReplaceFlowers(p' + (q + [w[|w| - 1]]), w[..|w| - 1], Flowers(p'))
  {
    var j := FirstFlower(p);
    IndexOfFirstFlower(p, q, j);
    p' := p[..j] + p[j + 1..];
    assert RemoveAt(p + q, j) == p' + q;
    ReplaceUnfold(p + q, w, Flowers(p), j);
    if |w| > 0 {
      assert (p' + q) + [w[|w| - 1]] == p' + (q + [w[|w| - 1]]);
    }
  }

  /** What the loop does, in closed form: for `p` followed by tiles `q`
      (the loop starts with q empty), every flower of `p` leaves, the other
      tiles keep their order, and the tiles popped from the wall, as many
      as there are flowers while the wall lasts, follow in the order they
      were popped. `indexOf` compares objects in the source and tiles here;
      the closed form shows both find the same tile, since each flower is
      found at the first flower position still in the hand. */
  lemma {:induction false} FlowersClosedForm(p: seq<Tile>, q: seq<Tile>, w: seq<Tile>)
    ensures var m := Min(|Flowers(p)|, |w|);
            ReplaceFlowers(p + q, w, Flowers(p)) == (NonFlowers(p) + q + Popped(w, m), w[..|w| - m])
    decreases |p|
  {
    if |Flowers(p)| == 0 {
      NoFlowersLeft(p);
      NonFlowersIdentity(p);
      assert w[..|w| - 0] == w;
      assert NonFlowers(p) + q + Popped(w, 0) == p + q;
      assert ReplaceFlowers(p + q, w, Flowers(p)) == (p + q, w);
    } else {
      var p' := ReplaceStep(p, q, w);
      if |w| == 0 {
        FlowersClosedForm(p', q, w);
        assert Min(|Flowers(p')|, |w|) == 0 == Min(|Flowers(p)|, |w|);
        assert w[..|w| - 0] == w;
      } else {
        var m := Min(|Flowers(p)|, |w|);
        var q', w' := q + [w[|w| - 1]], w[..|w| - 1];
        FlowersClosedForm(p', q', w');
        assert Min(|Flowers(p')|, |w'|) == m - 1;
        PoppedStep(w, m, q);
        calc {
          ReplaceFlowers(p + q, w, Flowers(p));
          ReplaceFlowers(p' + q', w', Flowers(p'));
          (NonFlowers(p') + q' + Popped(w', m - 1), w'[..|w'| - (m - 1)]);
          { assert NonFlowers(p') + q' + Popped(w', m - 1) == NonFlowers(p) + (q' + Popped(w', m - 1)); }
          (NonFlowers(p) + (q + Popped(w, m)), w[..|w| - m]);
          { assert NonFlowers(p) + (q + Popped(w, m)) == NonFlowers(p) + q + Popped(w, m); }
          (NonFlowers(p) + q + Popped(w, m), w[..|w| - m]);
        }
      }
    }
  }

  /** Popping one tile and then `m` - 1 more is popping `m`. */
  lemma PoppedStep(w: seq<Tile>, m: nat, q: seq<Tile>)
    requires 0 < m <= |w|
    ensures var w' := w[..|w| - 1];
            && w'[..|w'| - (m - 1)] == w[..|w| - m]
            && (q + [w[|w| - 1]]) + Popped(w', m - 1) == q + Popped(w, m)
  {
  }

  lemma {:induction false} NoFlowersLeft(p: seq<Tile>)
    requires |Flowers(p)| == 0
    ensures NoFlowers(p)
    decreases |p|
  {
    if |p| > 0 {
      NoFlowersLeft(p[1..]);
      assert forall k | 1 <= k < |p| :: p[k] == p[1..][k - 1];
    }
  }

  /** The popped tiles are the wall's last `n`, in reverse. */
  lemma {:induction false} PoppedTiles(w: seq<Tile>, n: nat)
    requires n <= |w|
    ensures multiset(Popped(w, n)) == multiset(w[|w| - n..])
    decreases n
  {
    if n > 0 {
      var w' := w[..|w| - 1];
      PoppedTiles(w', n - 1);
      assert w[|w| - n..] == w'[|w'| - (n - 1)..] + [w[|w| - 1]];
    }
  }

  /** The closed form for the loop as `checkFlowers` runs it. */
  lemma ReplaceWhole(hand: seq<Tile>, wall: seq<Tile>)
    ensures var m := Min(|Flowers(hand)|, |wall|);
            ReplaceFlowers(hand, wall, Flowers(hand)) == (NonFlowers(hand) + Popped(wall, m), wall[..|wall| - m])
  {
    var m := Min(|Flowers(hand)|, |wall|);
    FlowersClosedForm(hand, [], wall);
    assert hand + [] == hand;
    assert NonFlowers(hand) + [] == NonFlowers(hand);
  }

  /** The hand and wall `checkFlowers` leaves, as tiles. */
  lemma CheckFlowersTiles(hand: seq<Tile>, wall: seq<Tile>)
    ensures var r := CheckFlowers(hand, wall);
            var m := Min(|Flowers(hand)|, |wall|);
            && r.1 == wall[..|wall| - m]
            && multiset(r.0) == multiset(NonFlowers(hand)) + multiset(wall[|wall| - m..])
  {
    var m := Min(|Flowers(hand)|, |wall|);
    ReplaceWhole(hand, wall);
    var h := NonFlowers(hand) + Popped(wall, m);
    SortHandPermutes(h);
    PoppedTiles(wall, m);
  }

  /** `checkFlowers` in terms of what goes in: the wall loses its last m
      tiles, m being the number of flowers while the wall lasts; the hand
      keeps its other tiles and gains those m, so its size is unchanged
      when the wall suffices; and the flowers are the only tiles that leave
      hand and wall together. */
  lemma CheckFlowersSpec(hand: seq<Tile>, wall: seq<Tile>)
    ensures var r := CheckFlowers(hand, wall);
            var m := Min(|Flowers(hand)|, |wall|);
            && r.1 == wall[..|wall| - m]
            && multiset(r.0) == multiset(NonFlowers(hand)) + multiset(wall[|wall| - m..])
            && |r.0| == |hand| - |Flowers(hand)| + m
            && multiset(r.0) + multiset(r.1) + multiset(Flowers(hand)) == multiset(hand) + multiset(wall)
  {
    var r := CheckFlowers(hand, wall);
    var m := Min(|Flowers(hand)|, |wall|);
    CheckFlowersTiles(hand, wall);
    var fs, nf, front, back := Flowers(hand), NonFlowers(hand), wall[..|wall| - m], wall[|wall| - m..];
    FlowersSplit(hand);
    TakeDrop(wall, |wall| - m);
    assert |multiset(r.0)| == |multiset(nf)| + |multiset(back)|;
    assert |multiset(fs)| + |multiset(nf)| == |multiset(hand)|;
  }

  /** When no flower comes off the wall, the hand leaves `checkFlowers`
      free of flowers and in display order. */
  lemma CheckFlowersSorted(hand: seq<Tile>, wall: seq<Tile>)
    requires NoFlowers(wall[|wall| - Min(|Flowers(hand)|, |wall|)..])
    ensures NoFlowers(CheckFlowers(hand, wall).0) && Sorted(CheckFlowers(hand, wall).0)
  {
    var m := Min(|Flowers(hand)|, |wall|);
    ReplaceWhole(hand, wall);
    var h := NonFlowers(hand) + Popped(wall, m);
    PoppedTiles(wall, m);
    forall k | 0 <= k < |h| ensures !IsFlower(h[k]) {
      if k >= |NonFlowers(hand)| {
        var t := h[k];
        assert t == Popped(wall, m)[k - |NonFlowers(hand)|];
        assert t in multiset(wall[|wall| - m..]);
      }
    }
    SortHandSorted(h);
    SortHandPermutes(h);
    NoFlowersPermutation(h, SortHand(h));
  }

  // ---------------------------------------------------------------------
  // Removals for claimed melds
  // ---------------------------------------------------------------------

  /** Removes the first `n` tiles of `s` that belong to `targets`: the
      claims collect the matching positions in order, keep the first ones
      and splice them out from the back. */
  function RemoveFirst(s: seq<Tile>, targets: set<Tile>, n: nat): seq<Tile>
    decreases |s|
  {
    if n == 0 || |s| == 0 then s
    else if s[0] in targets then RemoveFirst(s[1..], targets, n - 1)
    else [s[0]] + RemoveFirst(s[1..], targets, n)
  }

  /** The tiles `RemoveFirst` takes out, in hand order. */
  function FirstMatches(s: seq<Tile>, targets: set<Tile>, n: nat): seq<Tile>
    decreases |s|
  {
    if n == 0 || |s| == 0 then []
    else if s[0] in targets then [s[0]] + FirstMatches(s[1..], targets, n - 1)
    else FirstMatches(s[1..], targets, n)
  }

  /** `RemoveFirst` takes out as many target tiles as asked for, or all of
      them if there are fewer. */
  lemma {:induction false} FirstMatchesLength(s: seq<Tile>, targets: set<Tile>, n: nat)
    ensures |FirstMatches(s, targets, n)| == Min(n, CountIn(s, targets))
    decreases |s|
  {
    if n > 0 && |s| > 0 {
      var hit := if s[0] in targets then 1 else 0;
      FirstMatchesLength(s[1..], targets, n - hit);
      HeadSplit(s);
      CountInAppend([s[0]], s[1..], targets);
      assert [s[0]][..0] == [];
      assert CountIn([s[0]], targets) == hit;
    }
  }

  /** Every tile `RemoveFirst` takes out is a target. */
  lemma {:induction false} FirstMatchesTargets(s: seq<Tile>, targets: set<Tile>, n: nat)
    ensures forall k | 0 <= k < |FirstMatches(s, targets, n)| :: FirstMatches(s, targets, n)[k] in targets
    decreases |s|
  {
    if n > 0 && |s| > 0 {
      if s[0] in targets {
        FirstMatchesTargets(s[1..], targets, n - 1);
      } else {
        FirstMatchesTargets(s[1..], targets, n);
      }
    }
  }

  /** The kept and the removed tiles together are the hand. */
  predicate SplitHolds(s: seq<Tile>, targets: set<Tile>, n: nat) {
    multiset(RemoveFirst(s, targets, n)) + multiset(FirstMatches(s, targets, n)) == multiset(s)
  }

  /** `SplitHolds` when the first tile is taken. */
  lemma SplitTaken(s: seq<Tile>, targets: set<Tile>, n: nat)
    requires n > 0 && |s| > 0 && s[0] in targets
    requires SplitHolds(s[1..], targets, n - 1)
    ensures SplitHolds(s, targets, n)
  {
    var r1, x1 := RemoveFirst(s[1..], targets, n - 1), FirstMatches(s[1..], targets, n - 1);
    assert FirstMatches(s, targets, n) == [s[0]] + x1;
    ShiftOne(multiset(r1), multiset(x1), multiset(s[1..]), s[0]);
    HeadMultiset(s);
  }

  /** `SplitHolds` when the first tile is kept. */
  lemma SplitKept(s: seq<Tile>, targets: set<Tile>, n: nat)
    requires n > 0 && |s| > 0 && s[0] !in targets
    requires SplitHolds(s[1..], targets, n)
    ensures SplitHolds(s, targets, n)
  {
    var r1, x1 := RemoveFirst(s[1..], targets, n), FirstMatches(s[1..], targets, n);
    assert RemoveFirst(s, targets, n) == [s[0]] + r1;
    ShiftOne(multiset(r1), multiset(x1), multiset(s[1..]), s[0]);
    HeadMultiset(s);
  }

  lemma {:induction false} RemoveFirstSplit(s: seq<Tile>, targets: set<Tile>, n: nat)
    ensures SplitHolds(s, targets, n)
    decreases |s|
  {
    if n > 0 && |s| > 0 {
      if s[0] in targets {
        RemoveFirstSplit(s[1..], targets, n - 1);
        SplitTaken(s, targets, n);
      } else {
        RemoveFirstSplit(s[1..], targets, n);
        SplitKept(s, targets, n);
      }
    } else {
      assert RemoveFirst(s, targets, n) == s && FirstMatches(s, targets, n) == [];
    }
  }

  /** The three facts together. */
  lemma RemoveFirstSpec(s: seq<Tile>, targets: set<Tile>, n: nat)
    ensures var r, x := RemoveFirst(s, targets, n), FirstMatches(s, targets, n);
            && |x| == Min(n, CountIn(s, targets))
            && (forall k | 0 <= k < |x| :: x[k] in targets)
            && multiset(r) + multiset(x) == multiset(s)
            && |r| == |s| - |x|
  {
    FirstMatchesLength(s, targets, n);
    FirstMatchesTargets(s, targets, n);
    RemoveFirstSplit(s, targets, n);
    var r, x := RemoveFirst(s, targets, n), FirstMatches(s, targets, n);
    assert |multiset(r)| + |multiset(x)| == |multiset(s)|;
  }

  /** The hand after a pung of `d` (`aiPeng`, `playerPeng`). */
  function PengTake(hand: seq<Tile>, d: Tile): seq<Tile> {
    RemoveFirst(hand, {d}, 2)
  }

  /** When the pung is allowed, exactly two copies of the discard leave the
      hand and everything else stays. */
  lemma PengTakeSpec(hand: seq<Tile>, d: Tile)
    requires CanPlayerPeng(hand, d)
    ensures multiset(PengTake(hand, d)) + multiset{d, d} == multiset(hand)
    ensures |PengTake(hand, d)| == |hand| - 2
  {
    RemoveFirstSpec(hand, {d}, 2);
    CountInSingleton(hand, d);
    var x := FirstMatches(hand, {d}, 2);
    assert x == [d, d];
  }

  /** Removal only starts at the first target. */
  lemma {:induction false} RemoveFirstSkip(s: seq<Tile>, targets: set<Tile>, n: nat, i: nat)
    requires i <= |s| && forall k | 0 <= k < i :: s[k] !in targets
    ensures RemoveFirst(s, targets, n) == s[..i] + RemoveFirst(s[i..], targets, n)
    decreases i
  {
    if i > 0 && n > 0 {
      RemoveFirstSkip(s[1..], targets, n, i - 1);
      assert s[1..][..i - 1] == s[1..i];
      assert s[1..][i - 1..] == s[i..];
      assert s[..i] == [s[0]] + s[1..i];
    }
  }

  /** Removal takes the first target and carries on behind it. */
  lemma TakeAt(s: seq<Tile>, targets: set<Tile>, n: nat, i: nat)
    requires n > 0 && i < |s| && s[i] in targets
    requires forall k | 0 <= k < i :: s[k] !in targets
    ensures RemoveFirst(s, targets, n) == s[..i] + RemoveFirst(s[i + 1..], targets, n - 1)
  {
    RemoveFirstSkip(s, targets, n, i);
    assert s[i..][1..] == s[i + 1..];
  }

  /** A tile held twice has a second copy after its first one. */
  lemma SecondCopy(hand: seq<Tile>, d: Tile) returns (i: nat, j: nat)
    requires Count(hand, d) >= 2
    ensures i < j < |hand| && hand[i] == d && hand[j] == d
    ensures forall k | 0 <= k < j && k != i :: hand[k] != d
  {
    i := IndexOf(hand, d);
    assert i < |hand| by { assert d in multiset(hand); }
    var rest := hand[i + 1..];
    assert hand == hand[..i] + [d] + rest;
    assert multiset(hand[..i])[d] == 0 by {
      assert forall k | 0 <= k < i :: hand[..i][k] != d;
    }
    assert multiset(rest)[d] >= 1;
    var j' := IndexOf(rest, d);
    assert j' < |rest| by { assert d in multiset(rest); }
    j := i + 1 + j';
    assert forall k | i < k < j :: hand[k] == rest[k - i - 1];
  }

  /** The pung takes out the first two copies of the discard, at `i` and
      `j`, and keeps every other tile in its order. */
  lemma PengTakeShape(hand: seq<Tile>, d: Tile) returns (i: nat, j: nat)
    requires CanPlayerPeng(hand, d)
    ensures i < j < |hand| && hand[i] == d && hand[j] == d
    ensures forall k | 0 <= k < j && k != i :: hand[k] != d
    ensures PengTake(hand, d) == hand[..i] + hand[i + 1..j] + hand[j + 1..]
  {
    i, j := SecondCopy(hand, d);
    var rest := hand[i + 1..];
    TakeAt(hand, {d}, 2, i);
    assert forall k | 0 <= k < j - i - 1 :: rest[k] !in {d};
    TakeAt(rest, {d}, 1, j - i - 1);
    assert rest[..j - i - 1] == hand[i + 1..j];
    assert rest[j - i..] == hand[j + 1..];
  }

  /** The chow `playerChi` takes: the lowest value of the run, trying the
      discard as the run's top, middle and bottom tile in that order. The
      discard's kind is not checked here; the claim flag is what keeps
      honours out. */
  function ChiRun(hand: seq<Tile>, d: Tile): Option<int> {
    var k, v := d.kind, d.value;
    if HasValue(hand, k, v - 1) && HasValue(hand, k, v - 2) then Some(v - 2)
    else if HasValue(hand, k, v - 1) && HasValue(hand, k, v + 1) then Some(v - 1)
    else if HasValue(hand, k, v + 1) && HasValue(hand, k, v + 2) then Some(v)
    else None
  }

  /** For a suited discard a run is found exactly when `canPlayerChi`
      allowed the claim; the run contains the discard and the hand holds
      its other two values. */
  lemma ChiRunAgrees(hand: seq<Tile>, d: Tile)
    requires IsSuited(d.kind)
    ensures ChiRun(hand, d).Some? <==> CanPlayerChi(hand, d)
    ensures ChiRun(hand, d).Some? ==>
      var lo := ChiRun(hand, d).value;
      && lo <= d.value <= lo + 2
      && forall v | lo <= v <= lo + 2 && v != d.value :: Tile(d.kind, v) in hand
  {
  }

  /** The hand after a chow on the run starting at `lo` (`playerChi`): the
      first two hand tiles of the discard's kind whose value lies in the
      run, whatever their values. */
  function ChiTake(hand: seq<Tile>, d: Tile, lo: int): seq<Tile> {
    RemoveFirst(hand, RunTargets(Tile(d.kind, lo)), 2)
  }

  /** A chow always takes two tiles of the run out of the hand. */
  lemma ChiTakeSpec(hand: seq<Tile>, d: Tile)
    requires IsSuited(d.kind) && ChiRun(hand, d).Some?
    ensures var lo := ChiRun(hand, d).value;
            var x := FirstMatches(hand, RunTargets(Tile(d.kind, lo)), 2);
            && |ChiTake(hand, d, lo)| == |hand| - 2
            && |x| == 2
            && (forall k | 0 <= k < 2 :: x[k].kind == d.kind && lo <= x[k].value <= lo + 2)
            && multiset(ChiTake(hand, d, lo)) + multiset(x) == multiset(hand)
  {
    var lo := ChiRun(hand, d).value;
    ChiRunAgrees(hand, d);
    var targets := RunTargets(Tile(d.kind, lo));
    RemoveFirstSpec(hand, targets, 2);
    var a, b := if d.value == lo then lo + 1 else lo, if d.value == lo + 2 then lo + 1 else lo + 2;
    assert Tile(d.kind, a) in hand && Tile(d.kind, b) in hand && a != b;
    TwoPresent(hand, targets, Tile(d.kind, a), Tile(d.kind, b));
  }

  lemma TwoPresent(s: seq<Tile>, targets: set<Tile>, a: Tile, b: Tile)
    requires a in s && b in s && a != b && a in targets && b in targets
    ensures CountIn(s, targets) >= 2
  {
    CountInSplit(s, {a}, targets - {a});
    CountInSplit(s, {b}, targets - {a} - {b});
    assert {a} + (targets - {a}) == targets;
    assert {b} + (targets - {a} - {b}) == targets - {a};
    CountInSingleton(s, a);
    CountInSingleton(s, b);
  }

  /** The position of the first tile, from `i` on, that occurs exactly
      four times in the hand. */
  function FirstQuadFrom(hand: seq<Tile>, i: nat): (r: nat)
    requires i <= |hand|
    ensures i <= r <= |hand|
    ensures r < |hand| ==> Count(hand, hand[r]) == 4
    ensures forall k | i <= k < r :: Count(hand, hand[k]) != 4
    decreases |hand| - i
  {
    if i == |hand| then i
    else if Count(hand, hand[i]) == 4 then i
    else FirstQuadFrom(hand, i + 1)
  }

  /** The kong `playerGang` declares: the counts are kept per tile in the
      order the tiles first occur in the hand, and the first tile counted
      exactly four times is taken. */
  function GangTile(hand: seq<Tile>): Option<Tile> {
    var i := FirstQuadFrom(hand, 0);
    if i < |hand| then Some(hand[i]) else None
  }

  /** A kong is found exactly when some tile occurs four times, and the one
      found is the four-times tile whose first copy comes earliest. */
  lemma GangTileSpec(hand: seq<Tile>)
    ensures GangTile(hand).None? <==> forall k | 0 <= k < |hand| :: Count(hand, hand[k]) != 4
    ensures GangTile(hand).Some? ==>
      var t := GangTile(hand).value;
      && Count(hand, t) == 4
      && forall k | 0 <= k < |hand| && Count(hand, hand[k]) == 4 :: IndexOf(hand, t) <= k
  {
    var i := FirstQuadFrom(hand, 0);
    if i < |hand| {
      var t := hand[i];
      var j := IndexOf(hand, t);
      assert j <= i;
      assert hand[j] == t;
    }
  }

  /** The hand after declaring the kong of `t`: every copy leaves. */
  function GangTake(hand: seq<Tile>, t: Tile): seq<Tile> {
    RemoveFirst(hand, {t}, 4)
  }

  lemma GangTakeSpec(hand: seq<Tile>)
    requires GangTile(hand).Some?
    ensures var t := GangTile(hand).value;
            && multiset(GangTake(hand, t)) + multiset{t, t, t, t} == multiset(hand)
            && t !in GangTake(hand, t)
            && |GangTake(hand, t)| == |hand| - 4
  {
    GangTileSpec(hand);
    var t := GangTile(hand).value;
    RemoveFirstSpec(hand, {t}, 4);
    CountInSingleton(hand, t);
    var x := FirstMatches(hand, {t}, 4);
    assert x == [t, t, t, t];
    assert multiset(GangTake(hand, t))[t] == 0;
  }

  /** Whenever `playerGang` finds a kong, `canGang` holds. */
  lemma GangTileCanGang(hand: seq<Tile>)
    requires GangTile(hand).Some?
    ensures CanGang(hand)
  {
    var i := FirstQuadFrom(hand, 0);
    assert Count(hand, hand[i]) >= 3;
  }

  /** The converse fails: `canGang` accepts three copies, which
      `playerGang` refuses to declare. */
  lemma CanGangWithoutKong()
    ensures var t := Tile(Wan, 1); CanGang([t, t, t]) && GangTile([t, t, t]).None?
  {
    var t := Tile(Wan, 1);
    var h := [t, t, t];
    assert multiset(h)[t] == 3;
    assert Count(h, h[0]) >= 3;
    GangTileSpec(h);
  }

  // ---------------------------------------------------------------------
  // The AI's discard
  // ---------------------------------------------------------------------

  /** The coin `Math.random() > 0.5` drawn for the `k`-th tile the choice
      flips a coin for; once the supplied coins run out, the coin falls
      false. */
  predicate Coin(coins: seq<bool>, k: nat) {
    k < |coins| && coins[k]
  }

  /** How many coins the choice has flipped before position `i`: one per
      tile that occurs once in the hand. */
  function Flips(hand: seq<Tile>, i: nat): nat
    requires i <= |hand|
  {
    if i == 0 then 0
    else Flips(hand, i - 1) + (if Count(hand, hand[i - 1]) == 1 then 1 else 0)
  }

  /** Position `i` wins its coin flip: a single tile whose coin came up. */
  predicate Picked(hand: seq<Tile>, coins: seq<bool>, i: nat)
    requires i < |hand|
  {
    Count(hand, hand[i]) == 1 && Coin(coins, Flips(hand, i))
  }

  /** Reference choice: the last position before `n` that wins its coin
      flip, or position 0 when none does. */
  function LastPicked(hand: seq<Tile>, coins: seq<bool>, n: nat): nat
    requires n <= |hand|
  {
    if n == 0 then 0
    else if Picked(hand, coins, n - 1) then n - 1
    else LastPicked(hand, coins, n - 1)
  }

  /** The reference choice is a position of the hand (position 0 when
      the hand is empty) and, unless it is 0, a single tile. */
  lemma {:induction false} LastPickedSpec(hand: seq<Tile>, coins: seq<bool>, n: nat)
    requires n <= |hand|
    ensures LastPicked(hand, coins, n) < n || LastPicked(hand, coins, n) == 0
    ensures LastPicked(hand, coins, n) > 0 ==> Picked(hand, coins, LastPicked(hand, coins, n))
    decreases n
  {
    if n > 0 && !Picked(hand, coins, n - 1) {
      LastPickedSpec(hand, coins, n - 1);
    }
  }

  /** `aiChooseDiscard`: every tile occurs at least once, so the running
      minimum, which starts at one, never drops; the first test of the
      condition never holds, and a tile replaces the current choice only
      when it is single and its coin comes up. */
  method AiChooseDiscard(hand: seq<Tile>, coins: seq<bool>) returns (best: nat)
    ensures best == LastPicked(hand, coins, |hand|)
    ensures best < |hand| || best == 0
    ensures best > 0 ==> Picked(hand, coins, best)
    ensures forall i | best < i < |hand| :: !Picked(hand, coins, i)
  {
    best := 0;
    var minCount := 1;
    var flipped := 0;
    for index := 0 to |hand|
      invariant minCount == 1
      invariant flipped == Flips(hand, index)
      invariant best == LastPicked(hand, coins, index)
      invariant best < |hand| || best == 0
      invariant best > 0 ==> best < index && Picked(hand, coins, best)
      invariant forall i | best < i < index :: !Picked(hand, coins, i)
    {
      var count := Count(hand, hand[index]);
      assert count >= 1 by { assert hand[index] in multiset(hand); }
      var take := false;
      if count < minCount {
        take := true;
      } else if count == minCount {
        var coin := flipped < |coins| && coins[flipped];
        flipped := flipped + 1;
        take := coin;
      }
      if take {
        best := index;
        minCount := count;
      }
    }
  }

  /** With no coin coming up the AI discards its first tile. */
  lemma {:induction false} NoCoinsFirstTile(hand: seq<Tile>, coins: seq<bool>, n: nat)
    requires n <= |hand|
    requires forall k | 0 <= k < |coins| :: !coins[k]
    ensures LastPicked(hand, coins, n) == 0
    decreases n
  {
    if n > 0 {
      NoCoinsFirstTile(hand, coins, n - 1);
    }
  }
}
