/** Tiles of the four-player game and the counting vocabulary shared by every
    other module. A tile is a (kind, value) pair: physical copies of the same
    pair carry different display ids in the game, but no rule ever looks at
    those ids, so copies are interchangeable here. */
module Tiles {

  datatype Option<T> = None | Some(value: T)

  /** `wan`, `tiao` and `tong` are the numbered suits; winds, dragons and
      flowers are honour and bonus tiles. */
  datatype Kind = Wan | Tiao | Tong | Wind | Dragon | Flower

  datatype Tile = Tile(kind: Kind, value: int)

  predicate IsSuited(k: Kind) {
    k == Wan || k == Tiao || k == Tong
  }

  predicate IsFlower(t: Tile) {
    t.kind == Flower
  }

  function Min(a: int, b: int): int {
    if a <= b then a else b
  }

  /** Number of copies of `t` in `s`. */
  function Count(s: seq<Tile>, t: Tile): nat {
    multiset(s)[t]
  }

  /** Number of positions of `s` whose tile belongs to `targets`. */
  function CountIn(s: seq<Tile>, targets: set<Tile>): (r: nat)
    ensures r <= |s|
    ensures forall k :: 0 <= k < |s| && s[k] in targets ==> r >= 1
    decreases |s|
  {
    if |s| == 0 then 0
    else CountIn(s[..|s| - 1], targets) + (if s[|s| - 1] in targets then 1 else 0)
  }

  lemma {:induction false} CountInAppend(a: seq<Tile>, b: seq<Tile>, targets: set<Tile>)
    ensures CountIn(a + b, targets) == CountIn(a, targets) + CountIn(b, targets)
    decreases |b|
  {
    if |b| == 0 {
      assert a + b == a;
    } else {
      assert (a + b)[..|a + b| - 1] == a + b[..|b| - 1];
      CountInAppend(a, b[..|b| - 1], targets);
    }
  }

  /** A non-empty sequence is its front followed by its last element. */
  lemma LastSplit<T>(s: seq<T>)
    requires |s| > 0
    ensures s == s[..|s| - 1] + [s[|s| - 1]]
  {
  }

  /** A sequence is its first `k` elements followed by the rest. */
  lemma TakeDrop<T>(s: seq<T>, k: nat)
    requires k <= |s|
    ensures s[..k] + s[k..] == s
  {
  }

  /** A non-empty sequence is its first element followed by the rest. */
  lemma HeadSplit<T>(s: seq<T>)
    requires |s| > 0
    ensures s == [s[0]] + s[1..]
  {
  }

  /** The same, counted as a multiset. */
  lemma HeadMultiset<T>(s: seq<T>)
    requires |s| > 0
    ensures multiset(s) == multiset{s[0]} + multiset(s[1..])
  {
    HeadSplit(s);
  }

  /** Adding one element to either side of a multiset equation. */
  lemma ShiftOne<T>(a: multiset<T>, b: multiset<T>, c: multiset<T>, x: T)
    requires a + b == c
    ensures a + (multiset{x} + b) == multiset{x} + c
    ensures (multiset{x} + a) + b == multiset{x} + c
  {
  }

  /** The last `m` of the first `n` elements, and the ones before them. */
  lemma TailOfFront<T>(s: seq<T>, n: nat, m: nat)
    requires m <= n <= |s|
    ensures s[..n][n - m..] == s[n - m..n]
    ensures s[..n][..n - m] == s[..n - m]
  {
  }

  /** Appending one element keeps the front. */
  lemma FrontOfAppend<T>(s: seq<T>, x: T)
    ensures (s + [x])[..|s|] == s
  {
  }

  /** Counting the members of a singleton set is counting copies of its tile. */
  lemma {:induction false} CountInSingleton(s: seq<Tile>, t: Tile)
    ensures CountIn(s, {t}) == Count(s, t)
    decreases |s|
  {
    if |s| > 0 {
      LastSplit(s);
      CountInSingleton(s[..|s| - 1], t);
    }
  }

  /** Counting over disjoint target sets adds up. */
  lemma {:induction false} CountInSplit(s: seq<Tile>, a: set<Tile>, b: set<Tile>)
    requires a !! b
    ensures CountIn(s, a + b) == CountIn(s, a) + CountIn(s, b)
    decreases |s|
  {
    if |s| > 0 {
      CountInSplit(s[..|s| - 1], a, b);
    }
  }

  /** The tiles of `s` that are not flowers, in their original order. */
  function NonFlowers(s: seq<Tile>): (r: seq<Tile>)
    ensures forall k :: 0 <= k < |r| ==> !IsFlower(r[k])
    decreases |s|
  {
    if |s| == 0 then []
    else (if IsFlower(s[0]) then [] else [s[0]]) + NonFlowers(s[1..])
  }

  /** Setting flowers aside keeps every other tile's count. */
  lemma {:induction false} NonFlowersCount(s: seq<Tile>, t: Tile)
    ensures Count(NonFlowers(s), t) == if IsFlower(t) then 0 else Count(s, t)
    decreases |s|
  {
    if |s| > 0 {
      NonFlowersCount(s[1..], t);
      HeadSplit(s);
      var b := if IsFlower(s[0]) then [] else [s[0]];
      assert multiset(b + NonFlowers(s[1..])) == multiset(b) + multiset(NonFlowers(s[1..]));
    }
  }

  /** The flower tiles of `s`, in their original order. */
  function Flowers(s: seq<Tile>): (r: seq<Tile>)
    ensures forall k :: 0 <= k < |r| ==> IsFlower(r[k])
    decreases |s|
  {
    if |s| == 0 then []
    else (if IsFlower(s[0]) then [s[0]] else []) + Flowers(s[1..])
  }

  /** Every tile is either a flower or not: the two filters split `s`. */
  lemma {:induction false} FlowersSplit(s: seq<Tile>)
    ensures multiset(Flowers(s)) + multiset(NonFlowers(s)) == multiset(s)
    decreases |s|
  {
    if |s| > 0 {
      FlowersSplit(s[1..]);
      HeadSplit(s);
      if IsFlower(s[0]) {
        assert Flowers(s) == [s[0]] + Flowers(s[1..]);
        assert NonFlowers(s) == NonFlowers(s[1..]);
      } else {
        assert Flowers(s) == Flowers(s[1..]);
        assert NonFlowers(s) == [s[0]] + NonFlowers(s[1..]);
      }
    }
  }

  /** Rearranging tiles rearranges the flowers and the other tiles alike. */
  lemma FiltersPermute(a: seq<Tile>, b: seq<Tile>)
    requires multiset(a) == multiset(b)
    ensures multiset(NonFlowers(a)) == multiset(NonFlowers(b))
    ensures |Flowers(a)| == |Flowers(b)|
  {
    forall t ensures multiset(NonFlowers(a))[t] == multiset(NonFlowers(b))[t] {
      NonFlowersCount(a, t);
      NonFlowersCount(b, t);
    }
    FlowersSplit(a);
    FlowersSplit(b);
    assert |multiset(a)| == |multiset(b)|;
  }

  predicate NoFlowers(s: seq<Tile>) {
    forall k :: 0 <= k < |s| ==> !IsFlower(s[k])
  }

  /** Both filters distribute over concatenation. */
  lemma {:induction false} FiltersAppend(a: seq<Tile>, b: seq<Tile>)
    ensures Flowers(a + b) == Flowers(a) + Flowers(b)
    ensures NonFlowers(a + b) == NonFlowers(a) + NonFlowers(b)
    decreases |a|
  {
    if |a| > 0 {
      FiltersAppend(a[1..], b);
      assert (a + b)[1..] == a[1..] + b;
      assert (a + b)[0] == a[0];
    } else {
      assert a + b == b;
    }
  }

  /** Setting flowers aside changes nothing in a flower-free list. */
  lemma {:induction false} NonFlowersIdentity(s: seq<Tile>)
    requires NoFlowers(s)
    ensures NonFlowers(s) == s
    decreases |s|
  {
    if |s| > 0 {
      NonFlowersIdentity(s[1..]);
      HeadSplit(s);
    }
  }

  /** Position of the first copy of `t` in `s`, or |s| when there is none
      (the JavaScript `indexOf`, with -1 written as |s|). */
  function IndexOf(s: seq<Tile>, t: Tile): (r: nat)
    ensures r <= |s|
    ensures r < |s| ==> s[r] == t
    ensures forall k :: 0 <= k < r ==> s[k] != t
    decreases |s|
  {
    if |s| == 0 then 0
    else if s[0] == t then 0
    else 1 + IndexOf(s[1..], t)
  }

  /** `s` with the element at position `i` taken out (`splice(i, 1)`). */
  function RemoveAt(s: seq<Tile>, i: nat): (r: seq<Tile>)
    requires i < |s|
    ensures |r| == |s| - 1
  {
    s[..i] + s[i + 1..]
  }

  lemma RemoveAtPermutes(s: seq<Tile>, i: nat)
    requires i < |s|
    ensures multiset(RemoveAt(s, i)) + multiset{s[i]} == multiset(s)
  {
    assert s == s[..i] + [s[i]] + s[i + 1..];
  }
}
