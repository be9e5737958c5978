/** Concrete hands that pin down what the winning-hand search of the game
    accepts and rejects. The run removal of `checkSets` takes the LAST three
    same-suit tiles whose value lies in {v, v+1, v+2}; the first three lemmas
    show that this is neither "one tile of each value" nor independent of
    the order of the list. */
module HandExamples {
  import opened Tiles
  import opened Evaluator
  import opened Hand

  const A1 := Tile(Wan, 1)
  const A2 := Tile(Wan, 2)
  const A3 := Tile(Wan, 3)
  const A4 := Tile(Wan, 4)
  const A5 := Tile(Wan, 5)
  const A6 := Tile(Wan, 6)
  const A7 := Tile(Wan, 7)
  const A8 := Tile(Wan, 8)
  const A9 := Tile(Wan, 9)
  const B1 := Tile(Tiao, 1)
  const B2 := Tile(Tiao, 2)
  const B3 := Tile(Tiao, 3)
  const C5 := Tile(Tong, 5)

  /** Removing from the back: when the last |u| tiles all match, exactly
      they go. */
  lemma {:induction false} RemoveLastSuffix(p: seq<Tile>, u: seq<Tile>, targets: set<Tile>)
    requires forall k :: 0 <= k < |u| ==> u[k] in targets
    ensures RemoveLast(p + u, targets, |u|) == p
    decreases |u|
  {
    if |u| > 0 {
      var init := u[..|u| - 1];
      assert (p + u)[..|p + u| - 1] == p + init;
      RemoveLastSuffix(p, init, targets);
    }
  }

  /** Unions of triplets are closed under concatenation. */
  lemma AllTripletsAppend(a: seq<Tile>, b: seq<Tile>)
    requires AllTriplets(a) && AllTriplets(b)
    ensures AllTriplets(a + b)
  {
    assert multiset(a + b) == multiset(a) + multiset(b);
    forall t ensures Count(a + b, t) % 3 == 0 {
      var x, y := Count(a, t), Count(b, t);
      assert x % 3 == 0 && y % 3 == 0;
      assert Count(a + b, t) == x + y;
    }
  }

  lemma OneTriplet(t: Tile)
    ensures AllTriplets([t, t, t])
  {
    forall u ensures Count([t, t, t], u) % 3 == 0 {
      assert multiset([t, t, t]) == multiset{t, t, t};
    }
  }

  /** The last |u| tiles all match, so exactly they go. */
  lemma DropsSuffix(s: seq<Tile>, p: seq<Tile>, u: seq<Tile>, targets: set<Tile>)
    requires s == p + u
    requires forall k :: 0 <= k < |u| ==> u[k] in targets
    ensures RemoveLast(s, targets, |u|) == p
  {
    RemoveLastSuffix(p, u, targets);
  }

  lemma TripletOfOnesAccepted(s: seq<Tile>)
    requires s == [A1, A1, A1]
    ensures CheckSets(s)
  {
    DropsSuffix(s, [], s, {A1});
    assert multiset(s)[A1] == 3;
    TripletStep(s, 0);
  }

  lemma UnevenRunRemoval(s: seq<Tile>)
    requires s == [A1, A1, A1, A2, A3, A3]
    ensures RemoveLast(s, RunTargets(A1), 3) == [A1, A1, A1]
  {
    DropsSuffix(s, [A1, A1, A1], [A2, A3, A3], RunTargets(A1));
  }

  /** [1,1,1,2,3,3] of one suit passes: the run started at 1 removes the two
      3s and the 2 (the last three tiles in {1,2,3}), leaving the triplet of 1s. */
  lemma RunRemovalAcceptsUnevenList()
    ensures CheckSets([A1, A1, A1, A2, A3, A3])
  {
    var s := [A1, A1, A1, A2, A3, A3];
    UnevenRunRemoval(s);
    TripletOfOnesAccepted([A1, A1, A1]);
    assert A2 in s && A3 in s;
    RunStep(s, 0);
  }

  /** A list on which neither a triplet nor a run can start is rejected. */
  lemma Stuck(s: seq<Tile>)
    requires |s| > 0
    requires forall i | 0 <= i < |s| :: Count(s, s[i]) < 3 && !RunStartsAt(s, i)
    ensures !CheckSets(s)
  {
    NoBranchSucceeds(s);
  }

  lemma ShortListFails(s: seq<Tile>)
    requires s == [A1, A1, A2] || s == [A3, A3, A2] || s == [A3, A3, A1]
    ensures !CheckSets(s)
  {
    if s == [A1, A1, A2] {
      assert multiset(s) == multiset{A1, A1, A2} && A3 !in s;
    } else if s == [A3, A3, A2] {
      assert multiset(s) == multiset{A3, A3, A2} && A4 !in s;
    } else {
      assert multiset(s) == multiset{A3, A3, A1} && A2 !in s && A4 !in s;
    }
    Stuck(s);
  }

  lemma TwoRunsRemoval(s: seq<Tile>)
    requires s == [A1, A1, A2, A2, A3, A3]
    ensures RemoveLast(s, RunTargets(A1), 3) == [A1, A1, A2]
  {
    DropsSuffix(s, [A1, A1, A2], [A2, A3, A3], RunTargets(A1));
  }

  lemma TwoRunsStuck(s: seq<Tile>)
    requires s == [A1, A1, A2, A2, A3, A3]
    requires !CheckSets(RemoveLast(s, RunTargets(A1), 3))
    ensures !CheckSets(s)
  {
    TwoRunsFacts(s);
    forall i | 0 <= i < |s| ensures !TripletBranch(s, i) && !RunBranch(s, i) {
    }
    NoBranchSucceeds(s);
  }

  lemma TwoRunsFacts(s: seq<Tile>)
    requires s == [A1, A1, A2, A2, A3, A3]
    ensures forall i | 0 <= i < |s| :: Count(s, s[i]) < 3 && (s[i] == A1 || !RunStartsAt(s, i))
  {
    assert multiset(s) == multiset{A1, A1, A2, A2, A3, A3};
    assert A4 !in s;
  }

  /** [1,1,2,2,3,3] of one suit fails although it is two runs: the run
      started at 1 removes 3, 3 and 2 and leaves [1,1,2]. */
  lemma RunRemovalRejectsTwoRuns()
    ensures !CheckSets([A1, A1, A2, A2, A3, A3])
  {
    var s := [A1, A1, A2, A2, A3, A3];
    TwoRunsRemoval(s);
    ShortListFails([A1, A1, A2]);
    TwoRunsStuck(s);
  }

  lemma ReorderedTripletRemoval(s: seq<Tile>)
    requires s == [A3, A3, A1, A1, A1, A2]
    ensures RemoveLast(s, {A1}, 3) == [A3, A3, A2]
  {
    var front := s[..5];
    DropsSuffix(front, s[..2], s[2..5], {A1});
    KeepsLast(s, front, A2, {A1}, 3);
  }

  /** A last tile outside the targets stays last. */
  lemma KeepsLast(s: seq<Tile>, p: seq<Tile>, x: Tile, targets: set<Tile>, n: nat)
    requires s == p + [x] && x !in targets && n > 0
    ensures RemoveLast(s, targets, n) == RemoveLast(p, targets, n) + [x]
  {
    assert s[..|s| - 1] == p;
  }

  lemma ReorderedRunRemoval(s: seq<Tile>)
    requires s == [A3, A3, A1, A1, A1, A2]
    ensures RemoveLast(s, RunTargets(A1), 3) == [A3, A3, A1]
  {
    DropsSuffix(s, [A3, A3, A1], [A1, A1, A2], RunTargets(A1));
  }

  /** Apart from the 1s, no position of [3,3,1,1,1,2] starts a triplet or a run. */
  lemma ReorderedFacts(s: seq<Tile>)
    requires s == [A3, A3, A1, A1, A1, A2]
    ensures forall i | 0 <= i < |s| :: s[i] == A1 || (Count(s, s[i]) < 3 && !RunStartsAt(s, i))
  {
    assert multiset(s) == multiset{A3, A3, A1, A1, A1, A2};
    assert A4 !in s;
  }

  lemma ReorderedNoBranch(s: seq<Tile>, i: nat)
    requires s == [A3, A3, A1, A1, A1, A2] && i < |s|
    requires !CheckSets(RemoveLast(s, {A1}, 3))
    requires !CheckSets(RemoveLast(s, RunTargets(A1), 3))
    ensures !TripletBranch(s, i) && !RunBranch(s, i)
  {
    ReorderedFacts(s);
  }

  lemma ReorderedStuck(s: seq<Tile>)
    requires s == [A3, A3, A1, A1, A1, A2]
    requires !CheckSets(RemoveLast(s, {A1}, 3))
    requires !CheckSets(RemoveLast(s, RunTargets(A1), 3))
    ensures !CheckSets(s)
  {
    forall i | 0 <= i < |s| ensures !TripletBranch(s, i) && !RunBranch(s, i) {
      ReorderedNoBranch(s, i);
    }
    NoBranchSucceeds(s);
  }

  /** The answer depends on the order of the list: a permutation of the
      list accepted by `RunRemovalAcceptsUnevenList` is rejected, because
      the triplet of 1s now leaves [3,3,2] and the run from 1 leaves
      [3,3,1]. */
  lemma CheckSetsDependsOnOrder()
    ensures CheckSets([A1, A1, A1, A2, A3, A3])
    ensures !CheckSets([A3, A3, A1, A1, A1, A2])
    ensures multiset([A1, A1, A1, A2, A3, A3]) == multiset([A3, A3, A1, A1, A1, A2])
  {
    RunRemovalAcceptsUnevenList();
    var s := [A3, A3, A1, A1, A1, A2];
    ReorderedTripletRemoval(s);
    ReorderedRunRemoval(s);
    ShortListFails([A3, A3, A2]);
    ShortListFails([A3, A3, A1]);
    ReorderedStuck(s);
  }

  /** The pair step of `checkHu`, read forwards, for a flower-free hand. */
  lemma PairStep(h: seq<Tile>, i: nat)
    requires |h| == 14 && NoFlowers(h) && i < |h|
    requires Count(h, h[i]) >= 2 && CheckSets(RemoveLast(h, {h[i]}, 2))
    ensures CheckHu(h)
  {
    NonFlowersIdentity(h);
  }

  lemma FourTripletsAccepted(body: seq<Tile>)
    requires body == [A1, A1, A1, A2, A2, A2, A3, A3, A3, A4, A4, A4]
    ensures CheckSets(body)
  {
    OneTriplet(A1); OneTriplet(A2); OneTriplet(A3); OneTriplet(A4);
    var t12 := [A1, A1, A1] + [A2, A2, A2];
    AllTripletsAppend([A1, A1, A1], [A2, A2, A2]);
    AllTripletsAppend(t12, [A3, A3, A3]);
    AllTripletsAppend(t12 + [A3, A3, A3], [A4, A4, A4]);
    assert body == t12 + [A3, A3, A3] + [A4, A4, A4];
    TripletsAccepted(body);
  }

  lemma TrailingPair(h: seq<Tile>, body: seq<Tile>, t: Tile)
    requires h == body + [t, t] && NoFlowers(h) && |h| == 14
    requires CheckSets(body)
    ensures CheckHu(h)
  {
    DropsSuffix(h, body, [t, t], {t});
    assert h[12] == t && h[13] == t;
    assert multiset(h)[t] >= 2;
    PairStep(h, 12);
  }

  lemma FourTripletsSplit(h: seq<Tile>)
    requires h == [A1, A1, A1, A2, A2, A2, A3, A3, A3, A4, A4, A4, A5, A5]
    ensures h[..12] == [A1, A1, A1, A2, A2, A2, A3, A3, A3, A4, A4, A4]
    ensures h == h[..12] + [A5, A5] && NoFlowers(h) && |h| == 14
  {
  }

  /** Four triplets and a pair: 1-1-1 2-2-2 3-3-3 4-4-4 5-5 of one suit win. */
  lemma FourTripletsAndPairWin(h: seq<Tile>)
    requires h == [A1, A1, A1, A2, A2, A2, A3, A3, A3, A4, A4, A4, A5, A5]
    ensures CheckHu(h)
  {
    FourTripletsSplit(h);
    FourTripletsAccepted(h[..12]);
    TrailingPair(h, h[..12], A5);
  }

  /** A run sitting at the end of an accepted list extends it. */
  lemma TrailingRun(s: seq<Tile>, p: seq<Tile>, t: Tile)
    requires IsSuited(t.kind)
    requires s == p + [t, Tile(t.kind, t.value + 1), Tile(t.kind, t.value + 2)]
    requires CheckSets(p)
    ensures CheckSets(s)
  {
    DropsSuffix(s, p, [t, Tile(t.kind, t.value + 1), Tile(t.kind, t.value + 2)], RunTargets(t));
    assert s[|p|] == t;
    assert s[|p| + 1] == Tile(t.kind, t.value + 1);
    assert s[|p| + 2] == Tile(t.kind, t.value + 2);
    RunStep(s, |p|);
  }

  lemma RunsSplit(h: seq<Tile>)
    requires h == [A1, A2, A3, A4, A5, A6, A7, A8, A9, B1, B2, B3, C5, C5]
    ensures h[..3] == h[..0] + [A1, A2, A3]
    ensures h[..6] == h[..3] + [A4, A5, A6]
    ensures h[..9] == h[..6] + [A7, A8, A9]
    ensures h[..12] == h[..9] + [B1, B2, B3]
    ensures h == h[..12] + [C5, C5] && NoFlowers(h) && |h| == 14
  {
  }

  /** Three runs of one suit, a run of another and a pair of a third win:
      1..9 wan, 1-2-3 tiao, 5-5 tong. */
  lemma RunsAndPairWin(h: seq<Tile>)
    requires h == [A1, A2, A3, A4, A5, A6, A7, A8, A9, B1, B2, B3, C5, C5]
    ensures CheckHu(h)
  {
    RunsSplit(h);
    assert CheckSets(h[..0]);
    TrailingRun(h[..3], h[..0], A1);
    TrailingRun(h[..6], h[..3], A4);
    TrailingRun(h[..9], h[..6], A7);
    TrailingRun(h[..12], h[..9], B1);
    TrailingPair(h, h[..12], C5);
  }

  /** A chow of 3 against 2, 3, 4 picks the run 2-3-4 and takes the first
      two hand tiles in it, 2 and 3: the hand keeps the 4 it should have
      given up and loses its own 3. */
  lemma ChiTakesOwnValue()
    ensures ChiRun([A2, A3, A4], A3) == Some(2)
    ensures ChiTake([A2, A3, A4], A3, 2) == [A4]
  {
    assert Tile(Wan, 1) !in [A2, A3, A4];
    assert RemoveFirst([A2, A3, A4], RunTargets(A2), 2) == RemoveFirst([A3, A4], RunTargets(A2), 1);
    assert [A2, A3, A4][1..] == [A3, A4];
    assert [A3, A4][1..] == [A4];
  }

  /** A chow of 3 against 2, 2, 4 takes both 2s, so the hand gives up two
      copies of one neighbour and keeps the other. */
  lemma ChiTakesTwoCopies()
    ensures ChiRun([A2, A2, A4], A3) == Some(2)
    ensures ChiTake([A2, A2, A4], A3, 2) == [A4]
  {
    assert Tile(Wan, 1) !in [A2, A2, A4];
    assert [A2, A2, A4][1..] == [A2, A4];
    assert [A2, A4][1..] == [A4];
    assert RemoveFirst([A2, A2, A4], RunTargets(A2), 2) == RemoveFirst([A2, A4], RunTargets(A2), 1);
  }
}
