/**
 * The side-by-side comparison of the meta tags of two pages: the equality
 * test on two tags' attribute maps and the alignment of the two tag lists
 * into rows keyed by the `name` attribute.
 */
module MetaCompare {

  /** One meta tag: its attributes, name to value (an HTML element has each attribute once). */
  type Attrs = map<string, string>

  // ---------------------------------------------------------------------------
  // Tag equality
  // ---------------------------------------------------------------------------

  /** The key counts agree and every key of the first tag carries the same value in the second. */
  predicate TagsEqual(m1: Attrs, m2: Attrs)
  {
    |m1| == |m2| && forall k | k in m1 :: k in m2 && m2[k] == m1[k]
  }

  /** A subset of a finite set with as many elements is the whole set. */
  lemma {:induction false} SubsetOfSameSize<T>(a: set<T>, b: set<T>)
    requires a <= b && |a| == |b|
    ensures a == b
  {
    if a != b {
      var x :| x in b && x !in a;
      assert a <= b - {x};
      SubsetSize(a, b - {x});
      assert false;
    }
  }

  lemma {:induction false} SubsetSize<T>(a: set<T>, b: set<T>)
    requires a <= b
    ensures |a| <= |b|
    decreases |a|
  {
    if a != {} {
      var x :| x in a;
      SubsetSize(a - {x}, b - {x});
    }
  }

  /** Comparing key count and then the first tag's keys is exactly equality of the two maps. */
  lemma {:induction false} TagsEqualIsMapEquality(m1: Attrs, m2: Attrs)
    ensures TagsEqual(m1, m2) <==> m1 == m2
    ensures TagsEqual(m1, m2) <==> TagsEqual(m2, m1)
    ensures TagsEqual(m1, m1)
  {
    if TagsEqual(m1, m2) {
      assert m1.Keys <= m2.Keys;
      assert |m1.Keys| == |m1| && |m2.Keys| == |m2|;
      SubsetOfSameSize(m1.Keys, m2.Keys);
      assert forall k | k in m2 :: m1[k] == m2[k];
    }
    if TagsEqual(m2, m1) {
      assert m2.Keys <= m1.Keys;
      assert |m1.Keys| == |m1| && |m2.Keys| == |m2|;
      SubsetOfSameSize(m2.Keys, m1.Keys);
    }
  }

  /**
   * The equality test as a loop over the first tag's keys: a size mismatch
   * answers false at once, then the first key whose value differs (or is
   * absent from the second tag) answers false.
   */
  method AreMetaTagsEqual(m1: Attrs, m2: Attrs) returns (same: bool)
    ensures same <==> m1 == m2
    ensures |m1| != |m2| ==> !same
  {
    if |m1| != |m2| {
      return false;
    }
    var todo := m1.Keys;
    while todo != {}
      invariant todo <= m1.Keys
      invariant forall k | k in m1 && k !in todo :: k in m2 && m2[k] == m1[k]
      decreases |todo|
    {
      var k :| k in todo;
      if k !in m2 || m2[k] != m1[k] {
        assert m1 != m2;
        return false;
      }
      todo := todo - {k};
    }
    assert TagsEqual(m1, m2);
    TagsEqualIsMapEquality(m1, m2);
    return true;
  }

  // ---------------------------------------------------------------------------
  // String order
  // ---------------------------------------------------------------------------

  /** The default array sort order on strings: character by character, a proper prefix first. */
  predicate Below(a: string, b: string)
    decreases |a|
  {
    if |a| == 0 then |b| > 0
    else if |b| == 0 then false
    else if a[0] != b[0] then a[0] < b[0]
    else Below(a[1..], b[1..])
  }

  lemma {:induction false} BelowIrreflexive(a: string)
    ensures !Below(a, a)
    decreases |a|
  {
    if |a| > 0 {
      BelowIrreflexive(a[1..]);
    }
  }

  lemma {:induction false} BelowTransitive(a: string, b: string, c: string)
    requires Below(a, b) && Below(b, c)
    ensures Below(a, c)
    decreases |a|
  {
    if |a| > 0 && a[0] == b[0] && b[0] == c[0] {
      BelowTransitive(a[1..], b[1..], c[1..]);
    }
  }

  lemma {:induction false} BelowTotal(a: string, b: string)
    ensures a == b || Below(a, b) || Below(b, a)
    decreases |a|
  {
    if |a| > 0 && |b| > 0 && a[0] == b[0] {
      BelowTotal(a[1..], b[1..]);
      if a[1..] == b[1..] {
        assert a == [a[0]] + a[1..] && b == [b[0]] + b[1..];
      }
    }
  }

  lemma BelowAsymmetric(a: string, b: string)
    requires Below(a, b)
    ensures !Below(b, a) && a != b
  {
    BelowIrreflexive(a);
    if Below(b, a) {
      BelowTransitive(a, b, a);
    }
  }

  /** Strictly ascending, hence free of repeats. */
  predicate Ascending(s: seq<string>)
  {
    forall i, j | 0 <= i < j < |s| :: Below(s[i], s[j])
  }

  // ---------------------------------------------------------------------------
  // Sorting the collected names
  // ---------------------------------------------------------------------------

  /** Adds a name to an ascending list unless it is already there. */
  function Insert(s: seq<string>, x: string): seq<string>
  {
    if |s| == 0 then [x]
    else if s[0] == x then s
    else if Below(x, s[0]) then [x] + s
    else [s[0]] + Insert(s[1..], x)
  }

  lemma {:induction false} InsertSpec(s: seq<string>, x: string)
    requires Ascending(s)
    ensures Ascending(Insert(s, x))
    ensures forall y :: y in Insert(s, x) <==> y in s || y == x
  {
    if |s| > 0 && s[0] != x && !Below(x, s[0]) {
      var t := s[1..];
      assert Ascending(t) by {
        forall i, j | 0 <= i < j < |t| ensures Below(t[i], t[j]) {
          assert t[i] == s[i + 1] && t[j] == s[j + 1];
        }
      }
      InsertSpec(t, x);
      var r := Insert(t, x);
      BelowTotal(x, s[0]);
      forall j | 0 <= j < |r| ensures Below(s[0], r[j]) {
        assert r[j] in r;
        if r[j] != x {
          var k :| 0 <= k < |t| && t[k] == r[j];
          assert s[k + 1] == t[k];
        }
      }
      assert Insert(s, x) == [s[0]] + r;
      forall i, j | 0 <= i < j < |[s[0]] + r| ensures Below(([s[0]] + r)[i], ([s[0]] + r)[j]) {
        if i > 0 {
          assert ([s[0]] + r)[i] == r[i - 1] && ([s[0]] + r)[j] == r[j - 1];
        }
      }
      assert s == [s[0]] + t;
    } else if |s| > 0 && s[0] != x {
      forall j | 0 <= j < |s| ensures Below(x, s[j]) {
        if j > 0 {
          BelowTransitive(x, s[0], s[j]);
        }
      }
    }
  }

  /** The distinct names of a list in ascending order. */
  function SortDistinct(xs: seq<string>): seq<string>
  {
    if |xs| == 0 then [] else Insert(SortDistinct(xs[..|xs| - 1]), xs[|xs| - 1])
  }

  lemma {:induction false} SortDistinctSpec(xs: seq<string>)
    ensures Ascending(SortDistinct(xs))
    ensures forall y :: y in SortDistinct(xs) <==> y in xs
  {
    if |xs| > 0 {
      var init := xs[..|xs| - 1];
      SortDistinctSpec(init);
      InsertSpec(SortDistinct(init), xs[|xs| - 1]);
      assert xs == init + [xs[|xs| - 1]];
    }
  }

  /** Two ascending lists holding the same names are the same list: the sort's result does not depend on its algorithm. */
  lemma {:induction false} AscendingUnique(a: seq<string>, b: seq<string>)
    requires Ascending(a) && Ascending(b)
    requires forall y :: y in a <==> y in b
    ensures a == b
    decreases |a|
  {
    if |a| > 0 {
      assert a[0] in b;
      assert |b| > 0;
      assert b[0] in a;
      if a[0] != b[0] {
        var i :| 0 <= i < |b| && b[i] == a[0];
        var j :| 0 <= j < |a| && a[j] == b[0];
        assert Below(b[0], a[0]) && Below(a[0], b[0]);
        BelowAsymmetric(a[0], b[0]);
      }
      var ta, tb := a[1..], b[1..];
      forall y ensures y in ta <==> y in tb {
        if y in ta {
          var i :| 0 <= i < |ta| && ta[i] == y;
          assert a[i + 1] == y;
          BelowAsymmetric(a[0], y);
          assert y in b;
          var k :| 0 <= k < |b| && b[k] == y;
          assert k != 0;
          assert b[k] == tb[k - 1];
        }
        if y in tb {
          var i :| 0 <= i < |tb| && tb[i] == y;
          assert b[i + 1] == y;
          BelowAsymmetric(b[0], y);
          assert y in a;
          var k :| 0 <= k < |a| && a[k] == y;
          assert k != 0;
          assert a[k] == ta[k - 1];
        }
      }
      assert Ascending(ta) by {
        forall i, j | 0 <= i < j < |ta| ensures Below(ta[i], ta[j]) {
          assert ta[i] == a[i + 1] && ta[j] == a[j + 1];
        }
      }
      assert Ascending(tb) by {
        forall i, j | 0 <= i < j < |tb| ensures Below(tb[i], tb[j]) {
          assert tb[i] == b[i + 1] && tb[j] == b[j + 1];
        }
      }
      AscendingUnique(ta, tb);
      assert a == [a[0]] + ta && b == [b[0]] + tb;
    } else if |b| > 0 {
      Member(b, |b| - 1);
      assert false;
    }
  }

  lemma Member<T>(s: seq<T>, i: int)
    requires 0 <= i < |s|
    ensures s[i] in s
  {
  }

  // ---------------------------------------------------------------------------
  // Rows
  // ---------------------------------------------------------------------------

  /** The tag's `name` attribute is present and equal to `n`. */
  predicate Named(tag: Attrs, n: string)
  {
    "name" in tag && tag["name"] == n
  }

  /** The tag's `name` attribute is present and non-empty (a truthy name). */
  predicate HasName(tag: Attrs)
  {
    "name" in tag && tag["name"] != ""
  }

  /** The truthy names of a list of tags, in list order, repeats kept. */
  function NamesOf(tags: seq<Attrs>): seq<string>
  {
    if |tags| == 0 then []
    else NamesOf(tags[..|tags| - 1])
         + (if HasName(tags[|tags| - 1]) then [tags[|tags| - 1]["name"]] else [])
  }

  /** The index of the first tag named `n`, or the list's length when none is. */
  function FindIndex(tags: seq<Attrs>, n: string): (r: nat)
    ensures r <= |tags|
    ensures r < |tags| ==> Named(tags[r], n)
    ensures forall k | 0 <= k < r :: !Named(tags[k], n)
  {
    if |tags| == 0 then 0
    else if Named(tags[0], n) then 0
    else
      var r' := FindIndex(tags[1..], n);
      assert forall k | 1 <= k < 1 + r' :: tags[k] == tags[1..][k - 1];
      1 + r'
  }

  /** One column's card: the tag itself, marked same or different, or a placeholder carrying the name. */
  datatype Card = TagCard(attrs: Attrs, same: bool) | Placeholder(name: string)

  datatype Row = Row(name: string, left: Card, right: Card)

  function Column(tags: seq<Attrs>, n: string, same: bool): Card
  {
    var i := FindIndex(tags, n);
    if i < |tags| then TagCard(tags[i], same) else Placeholder(n)
  }

  function RowFor(tags1: seq<Attrs>, tags2: seq<Attrs>, n: string): Row
  {
    var i, j := FindIndex(tags1, n), FindIndex(tags2, n);
    var same := i < |tags1| && j < |tags2| && TagsEqual(tags1[i], tags2[j]);
    Row(n, Column(tags1, n, same), Column(tags2, n, same))
  }

  /** The comparison rows: one per distinct truthy name of either page, in sorted order. */
  function CompareRows(tags1: seq<Attrs>, tags2: seq<Attrs>): (rows: seq<Row>)
    ensures |rows| == |SortDistinct(NamesOf(tags1) + NamesOf(tags2))|
  {
    var names := SortDistinct(NamesOf(tags1) + NamesOf(tags2));
    seq(|names|, i requires 0 <= i < |names| => RowFor(tags1, tags2, names[i]))
  }

  /** The collected names are exactly the truthy names of the tags. */
  lemma {:induction false} NamesOfSpec(tags: seq<Attrs>)
    ensures forall n | n in NamesOf(tags) :: n != "" && FindIndex(tags, n) < |tags|
    ensures forall k | 0 <= k < |tags| && HasName(tags[k]) :: tags[k]["name"] in NamesOf(tags)
  {
    if |tags| > 0 {
      var init := tags[..|tags| - 1];
      NamesOfSpec(init);
      forall n | n in NamesOf(tags) ensures n != "" && FindIndex(tags, n) < |tags| {
        if n in NamesOf(init) {
          var k := FindIndex(init, n);
          assert tags[k] == init[k];
        }
      }
      forall k | 0 <= k < |tags| && HasName(tags[k]) ensures tags[k]["name"] in NamesOf(tags) {
        if k < |tags| - 1 {
          assert tags[k] == init[k];
        }
      }
    }
  }

  lemma NamesOfBoth(tags1: seq<Attrs>, tags2: seq<Attrs>)
    ensures forall n | n in NamesOf(tags1) + NamesOf(tags2) ::
      n != "" && (FindIndex(tags1, n) < |tags1| || FindIndex(tags2, n) < |tags2|)
    ensures forall k | 0 <= k < |tags1| && HasName(tags1[k]) :: tags1[k]["name"] in NamesOf(tags1) + NamesOf(tags2)
    ensures forall k | 0 <= k < |tags2| && HasName(tags2[k]) :: tags2[k]["name"] in NamesOf(tags1) + NamesOf(tags2)
  {
    NamesOfSpec(tags1);
    NamesOfSpec(tags2);
  }

  /**
   * Rows are strictly ascending by name, so no name repeats; every row's name
   * is the truthy name of some tag on one side; every truthy name of either
   * side has a row. A tag without a truthy name is therefore never a row.
   */
  lemma RowNames(tags1: seq<Attrs>, tags2: seq<Attrs>)
    ensures forall i, j | 0 <= i < j < |CompareRows(tags1, tags2)| ::
      Below(CompareRows(tags1, tags2)[i].name, CompareRows(tags1, tags2)[j].name)
    ensures forall i | 0 <= i < |CompareRows(tags1, tags2)| ::
      var n := CompareRows(tags1, tags2)[i].name;
      n != "" && (FindIndex(tags1, n) < |tags1| || FindIndex(tags2, n) < |tags2|)
    ensures forall k | 0 <= k < |tags1| && HasName(tags1[k]) ::
      exists i | 0 <= i < |CompareRows(tags1, tags2)| :: CompareRows(tags1, tags2)[i].name == tags1[k]["name"]
    ensures forall k | 0 <= k < |tags2| && HasName(tags2[k]) ::
      exists i | 0 <= i < |CompareRows(tags1, tags2)| :: CompareRows(tags1, tags2)[i].name == tags2[k]["name"]
  {
    var all := NamesOf(tags1) + NamesOf(tags2);
    var names := SortDistinct(all);
    var rows := CompareRows(tags1, tags2);
    SortDistinctSpec(all);
    NamesOfBoth(tags1, tags2);
    assert forall i | 0 <= i < |rows| :: rows[i].name == names[i];
    forall i | 0 <= i < |rows|
      ensures rows[i].name != "" && (FindIndex(tags1, rows[i].name) < |tags1| || FindIndex(tags2, rows[i].name) < |tags2|)
    {
      assert names[i] in names;
    }
    forall k | 0 <= k < |tags1| && HasName(tags1[k])
      ensures exists i | 0 <= i < |rows| :: rows[i].name == tags1[k]["name"]
    {
      var i :| 0 <= i < |names| && names[i] == tags1[k]["name"];
      assert rows[i].name == names[i];
    }
    forall k | 0 <= k < |tags2| && HasName(tags2[k])
      ensures exists i | 0 <= i < |rows| :: rows[i].name == tags2[k]["name"]
    {
      var i :| 0 <= i < |names| && names[i] == tags2[k]["name"];
      assert rows[i].name == names[i];
    }
  }

  /**
   * A side's card is a placeholder exactly when no tag on that side bears the
   * row's name, and otherwise shows the first tag that does.
   */
  lemma ColumnSpec(tags: seq<Attrs>, n: string, same: bool)
    ensures Column(tags, n, same).Placeholder? <==> forall k | 0 <= k < |tags| :: !Named(tags[k], n)
    ensures Column(tags, n, same).Placeholder? ==> Column(tags, n, same).name == n
    ensures Column(tags, n, same).TagCard? ==>
      exists k | 0 <= k < |tags| :: tags[k] == Column(tags, n, same).attrs && Named(tags[k], n)
        && forall k' | 0 <= k' < k :: !Named(tags[k'], n)
  {
    var i := FindIndex(tags, n);
    if i < |tags| {
      assert tags[i] == Column(tags, n, same).attrs;
    }
  }

  /** Both cards of a row are marked same exactly when both sides have the tag and the two tags are identical. */
  lemma SameSpec(tags1: seq<Attrs>, tags2: seq<Attrs>, n: string)
    ensures var r := RowFor(tags1, tags2, n);
      (r.left.TagCard? && r.left.same) <==> (r.left.TagCard? && r.right.TagCard? && r.left.attrs == r.right.attrs)
    ensures var r := RowFor(tags1, tags2, n);
      (r.right.TagCard? && r.right.same) <==> (r.left.TagCard? && r.right.TagCard? && r.left.attrs == r.right.attrs)
  {
    var i, j := FindIndex(tags1, n), FindIndex(tags2, n);
    if i < |tags1| && j < |tags2| {
      TagsEqualIsMapEquality(tags1[i], tags2[j]);
    }
  }

  /** The rows' cards, read per row index. */
  lemma RowCards(tags1: seq<Attrs>, tags2: seq<Attrs>, i: nat)
    requires i < |CompareRows(tags1, tags2)|
    ensures var r := CompareRows(tags1, tags2)[i];
      r.name != ""
      && (r.left.Placeholder? <==> forall k | 0 <= k < |tags1| :: !Named(tags1[k], r.name))
      && (r.right.Placeholder? <==> forall k | 0 <= k < |tags2| :: !Named(tags2[k], r.name))
      && ((r.left.TagCard? && r.left.same) <==> (r.left.TagCard? && r.right.TagCard? && r.left.attrs == r.right.attrs))
      && ((r.right.TagCard? && r.right.same) <==> (r.left.TagCard? && r.right.TagCard? && r.left.attrs == r.right.attrs))
  {
    RowNames(tags1, tags2);
    var r := CompareRows(tags1, tags2)[i];
    var n := r.name;
    var i1, j1 := FindIndex(tags1, n), FindIndex(tags2, n);
    var same := i1 < |tags1| && j1 < |tags2| && TagsEqual(tags1[i1], tags2[j1]);
    assert r == RowFor(tags1, tags2, n);
    ColumnSpec(tags1, n, same);
    ColumnSpec(tags2, n, same);
    SameSpec(tags1, tags2, n);
  }

  function Mirror(r: Row): Row
  {
    Row(r.name, r.right, r.left)
  }

  /** Comparing the pages the other way round gives the same rows with the two columns swapped. */
  lemma {:induction false} CompareSymmetric(tags1: seq<Attrs>, tags2: seq<Attrs>)
    ensures var a, b := CompareRows(tags1, tags2), CompareRows(tags2, tags1);
      |a| == |b| && forall i | 0 <= i < |a| :: b[i] == Mirror(a[i])
  {
    var n12 := SortDistinct(NamesOf(tags1) + NamesOf(tags2));
    var n21 := SortDistinct(NamesOf(tags2) + NamesOf(tags1));
    SortDistinctSpec(NamesOf(tags1) + NamesOf(tags2));
    SortDistinctSpec(NamesOf(tags2) + NamesOf(tags1));
    AscendingUnique(n12, n21);
    var a, b := CompareRows(tags1, tags2), CompareRows(tags2, tags1);
    forall i | 0 <= i < |a| ensures b[i] == Mirror(a[i]) {
      var n := n12[i];
      var i1, j1 := FindIndex(tags1, n), FindIndex(tags2, n);
      if i1 < |tags1| && j1 < |tags2| {
        TagsEqualIsMapEquality(tags1[i1], tags2[j1]);
      }
    }
  }
}
