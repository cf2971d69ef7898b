/** The row logic of the 2048 `move('left')`: drop the zeros, merge equal
    neighbours from left to right (each tile at most once) and pad the row
    with zeros back to its length. */
module Tiles {

  const RowLength := 4

  /** A tile value: a power of two of at least 2. */
  predicate IsTile(v: int)
    decreases v
  {
    v == 2 || (v > 2 && v % 2 == 0 && IsTile(v / 2))
  }

  /** What a grid cell may hold: 0 (empty) or a tile. */
  predicate IsCell(v: int) {
    v == 0 || IsTile(v)
  }

  function Sum(s: seq<int>): int {
    if s == [] then 0 else s[0] + Sum(s[1..])
  }

  function Zeros(n: nat): (z: seq<int>)
    ensures |z| == n && forall k :: 0 <= k < n ==> z[k] == 0
  {
    seq(n, _ => 0)
  }

  /** `row.filter(val => val !== 0)`. */
  function NonZero(row: seq<int>): (r: seq<int>)
    ensures |r| <= |row|
    ensures forall k :: 0 <= k < |r| ==> r[k] != 0
    ensures forall v :: v in r <==> v in row && v != 0
  {
    if row == [] then []
    else (if row[0] != 0 then [row[0]] else []) + NonZero(row[1..])
  }

  /** The filter keeps every nonzero tile as often as it occurs and no zero. */
  lemma {:induction false} NonZeroCounts(row: seq<int>)
    ensures multiset(NonZero(row)) == multiset(row)[0 := 0]
  {
    if row != [] {
      NonZeroCounts(row[1..]);
      assert row == [row[0]] + row[1..];
    }
  }

  /** The filter works element by element, so it keeps the order of the
      tiles: filtering a concatenation concatenates the filtered parts. */
  lemma {:induction false} NonZeroAppend(a: seq<int>, b: seq<int>)
    ensures NonZero(a + b) == NonZero(a) + NonZero(b)
  {
    if a == [] {
      assert a + b == b;
    } else {
      assert (a + b)[1..] == a[1..] + b;
      NonZeroAppend(a[1..], b);
    }
  }

  /** The tiles the left-to-right scan leaves: an equal neighbour pair becomes
      one tile of twice the value, and the scan resumes after the pair. */
  function Merge(s: seq<int>): (r: seq<int>)
    ensures |r| <= |s|
  {
    if |s| < 2 then s
    else if s[0] == s[1] then [2 * s[0]] + Merge(s[2..])
    else [s[0]] + Merge(s[1..])
  }

  /** The points the scan adds to `score`: the value of every merged tile. */
  function MergeGain(s: seq<int>): int {
    if |s| < 2 then 0
    else if s[0] == s[1] then 2 * s[0] + MergeGain(s[2..])
    else MergeGain(s[1..])
  }

  /** `[...row, ...Array(4 - row.length).fill(0)]` after the filter and the scan. */
  function SlideLeft(row: seq<int>): (r: seq<int>)
    requires |row| == RowLength
    ensures |r| == RowLength
  {
    var merged := Merge(NonZero(row));
    merged + Zeros(RowLength - |merged|)
  }

  /** The points one row adds to `score` in a left move. */
  function RowGain(row: seq<int>): int {
    MergeGain(NonZero(row))
  }

  /** The inner loop of `move('left')` on a filtered row: when `row[j]` equals
      `row[j + 1]`, double `row[j]`, count it, splice out `row[j + 1]`, and
      go on from `j + 1`. */
  method MergeLeft(s: seq<int>) returns (row: seq<int>, gained: int)
    ensures row == Merge(s)
    ensures gained == MergeGain(s)
  {
    row, gained := s, 0;
    var j := 0;
    ghost var done, rest := [], s;
    while j < |row| - 1
      invariant row == done + rest && j == |done|
      invariant done + Merge(rest) == Merge(s)
      invariant gained + MergeGain(rest) == MergeGain(s)
    {
      if row[j] == row[j + 1] {
        ScanPair(done, rest);
        SpliceDoubled(row, done, rest);
        row := row[j := row[j] * 2];
        gained := gained + row[j];
        row := row[..j + 1] + row[j + 2..];
        done, rest := done + [2 * rest[0]], rest[2..];
      } else {
        ScanSingle(done, rest);
        ShiftOne(done, rest);
        done, rest := done + [rest[0]], rest[1..];
      }
      j := j + 1;
    }
  }

  /** A scan step over an equal pair, seen from the unscanned part `rest`. */
  lemma ScanPair(done: seq<int>, rest: seq<int>)
    requires |rest| >= 2 && rest[0] == rest[1]
    ensures done + Merge(rest) == (done + [2 * rest[0]]) + Merge(rest[2..])
    ensures MergeGain(rest) == 2 * rest[0] + MergeGain(rest[2..])
  {
    var m := Merge(rest[2..]);
    assert done + ([2 * rest[0]] + m) == (done + [2 * rest[0]]) + m;
  }

  /** A scan step past a tile that differs from its right neighbour. */
  lemma ScanSingle(done: seq<int>, rest: seq<int>)
    requires |rest| >= 2 && rest[0] != rest[1]
    ensures done + Merge(rest) == (done + [rest[0]]) + Merge(rest[1..])
    ensures MergeGain(rest) == MergeGain(rest[1..])
  {
    var m := Merge(rest[1..]);
    assert done + ([rest[0]] + m) == (done + [rest[0]]) + m;
  }

  /** Moving the first unscanned tile over to the scanned part. */
  lemma ShiftOne(done: seq<int>, rest: seq<int>)
    requires |rest| >= 1
    ensures done + rest == (done + [rest[0]]) + rest[1..]
  {
    assert rest == [rest[0]] + rest[1..];
  }

  /** Doubling `row[j]` and splicing out `row[j + 1]` moves the doubled tile
      from the unscanned part to the scanned part. */
  lemma SpliceDoubled(row: seq<int>, done: seq<int>, rest: seq<int>)
    requires row == done + rest && |rest| >= 2
    ensures var j := |done|; var d := row[j := row[j] * 2];
      d[j] == 2 * rest[0] && d[..j + 1] + d[j + 2..] == (done + [2 * rest[0]]) + rest[2..]
  {
    var j := |done|;
    var d := row[j := row[j] * 2];
    assert d[..j + 1] == done + [2 * rest[0]];
    assert d[j + 2..] == rest[2..];
  }

  // ---------------------------------------------------------------------
  // An independent description of the scan: a row splits into groups, each
  // a single tile or a pair of equal tiles, and the split is greedy: a single
  // tile is never followed by a group that starts with the same value.

  datatype Group = Single(v: int) | Pair(v: int)

  /** The input tiles a sequence of groups covers. */
  function Flatten(gs: seq<Group>): seq<int> {
    if gs == [] then []
    else (match gs[0] case Single(v) => [v] case Pair(v) => [v, v]) + Flatten(gs[1..])
  }

  /** The tiles the groups leave: a pair becomes one tile of twice its value. */
  function Values(gs: seq<Group>): seq<int> {
    if gs == [] then []
    else [if gs[0].Pair? then 2 * gs[0].v else gs[0].v] + Values(gs[1..])
  }

  /** The points the groups are worth: the value of every merged tile. */
  function Gain(gs: seq<Group>): int {
    if gs == [] then 0
    else (if gs[0].Pair? then 2 * gs[0].v else 0) + Gain(gs[1..])
  }

  predicate Greedy(gs: seq<Group>) {
    forall k :: 0 <= k < |gs| - 1 && gs[k].Single? ==> gs[k].v != gs[k + 1].v
  }

  /** The greedy grouping of a row, read off left to right. */
  function GroupsOf(s: seq<int>): (gs: seq<Group>)
    ensures Flatten(gs) == s && Greedy(gs)
    ensures |s| > 0 ==> |gs| > 0 && gs[0].v == s[0]
  {
    if s == [] then []
    else if |s| >= 2 && s[0] == s[1] then
      var rest := GroupsOf(s[2..]);
      assert Flatten([Pair(s[0])] + rest) == [s[0], s[0]] + Flatten(rest) by {
        assert ([Pair(s[0])] + rest)[1..] == rest;
      }
      [Pair(s[0])] + rest
    else
      var rest := GroupsOf(s[1..]);
      assert Flatten([Single(s[0])] + rest) == [s[0]] + Flatten(rest) by {
        assert ([Single(s[0])] + rest)[1..] == rest;
      }
      [Single(s[0])] + rest
  }

  /** The scan is exactly the greedy grouping: any greedy split of a row into
      singles and equal pairs yields the scan's tiles and the scan's points.
      So every tile takes part in at most one merge, and the points added are
      the values of the merged tiles. */
  lemma {:induction false} MergeIsGreedyGrouping(gs: seq<Group>)
    requires Greedy(gs)
    ensures Merge(Flatten(gs)) == Values(gs)
    ensures MergeGain(Flatten(gs)) == Gain(gs)
  {
    if gs != [] {
      var rest := gs[1..];
      assert Greedy(rest) by {
        forall k | 0 <= k < |rest| - 1 && rest[k].Single? ensures rest[k].v != rest[k + 1].v {
          assert rest[k] == gs[k + 1] && rest[k + 1] == gs[k + 2];
        }
      }
      MergeIsGreedyGrouping(rest);
      var s := Flatten(gs);
      match gs[0]
      case Pair(v) =>
        assert s[2..] == Flatten(rest);
      case Single(v) =>
        assert s[1..] == Flatten(rest);
        if rest != [] {
          var t := Flatten(rest);
          assert t[0] == rest[0].v by {
            assert t == (match rest[0] case Single(w) => [w] case Pair(w) => [w, w]) + Flatten(rest[1..]);
          }
          assert s[1] == t[0];
        }
    }
  }

  /** The scan of any row is described by its greedy grouping. */
  lemma MergeByGroups(s: seq<int>)
    ensures Merge(s) == Values(GroupsOf(s)) && MergeGain(s) == Gain(GroupsOf(s))
  {
    MergeIsGreedyGrouping(GroupsOf(s));
  }

  // ---------------------------------------------------------------------
  // Bookkeeping of a left move on one row.

  lemma {:induction false} SumAppend(a: seq<int>, b: seq<int>)
    ensures Sum(a + b) == Sum(a) + Sum(b)
  {
    if a == [] {
      assert a + b == b;
    } else {
      SumAppend(a[1..], b);
      assert (a + b)[1..] == a[1..] + b;
    }
  }

  lemma {:induction false} SumZeros(n: nat)
    ensures Sum(Zeros(n)) == 0
  {
    if n > 0 {
      SumZeros(n - 1);
      assert Zeros(n)[1..] == Zeros(n - 1);
    }
  }

  lemma {:induction false} SumNonZero(s: seq<int>)
    ensures Sum(NonZero(s)) == Sum(s)
  {
    if s != [] {
      SumNonZero(s[1..]);
      SumAppend(if s[0] != 0 then [s[0]] else [], NonZero(s[1..]));
    }
  }

  lemma {:induction false} SumMerge(s: seq<int>)
    ensures Sum(Merge(s)) == Sum(s)
  {
    if |s| >= 2 {
      if s[0] == s[1] {
        SumMerge(s[2..]);
        assert s[1..][1..] == s[2..];
      } else {
        SumMerge(s[1..]);
      }
    }
  }

  /** A left move keeps the row's total: merging moves value, never makes it. */
  lemma SlideLeftKeepsSum(row: seq<int>)
    requires |row| == RowLength
    ensures Sum(SlideLeft(row)) == Sum(row)
  {
    var merged := Merge(NonZero(row));
    SumAppend(merged, Zeros(RowLength - |merged|));
    SumZeros(RowLength - |merged|);
    SumMerge(NonZero(row));
    SumNonZero(row);
  }

  lemma {:induction false} MergeKeepsTiles(s: seq<int>)
    requires forall k :: 0 <= k < |s| ==> IsTile(s[k])
    ensures forall k :: 0 <= k < |Merge(s)| ==> IsTile(Merge(s)[k])
  {
    if |s| >= 2 {
      if s[0] == s[1] {
        MergeKeepsTiles(s[2..]);
        assert IsTile(2 * s[0]) by {
          assert (2 * s[0]) / 2 == s[0];
        }
      } else {
        MergeKeepsTiles(s[1..]);
      }
    }
  }

  lemma {:induction false} NonZeroKeepsTiles(row: seq<int>)
    requires forall k :: 0 <= k < |row| ==> IsCell(row[k])
    ensures forall k :: 0 <= k < |NonZero(row)| ==> IsTile(NonZero(row)[k])
  {
    forall k | 0 <= k < |NonZero(row)| ensures IsTile(NonZero(row)[k]) {
      var v := NonZero(row)[k];
      assert v in NonZero(row);
      var i :| 0 <= i < |row| && row[i] == v;
    }
  }

  /** A left move keeps every nonzero cell a power of two of at least 2. */
  lemma SlideLeftKeepsCells(row: seq<int>)
    requires |row| == RowLength
    requires forall k :: 0 <= k < |row| ==> IsCell(row[k])
    ensures |SlideLeft(row)| == RowLength
    ensures forall k :: 0 <= k < RowLength ==> IsCell(SlideLeft(row)[k])
  {
    NonZeroKeepsTiles(row);
    MergeKeepsTiles(NonZero(row));
  }

  lemma {:induction false} NonZeroOfNonZeros(s: seq<int>)
    requires forall k :: 0 <= k < |s| ==> s[k] != 0
    ensures NonZero(s) == s
  {
    if s != [] {
      NonZeroOfNonZeros(s[1..]);
    }
  }

  lemma {:induction false} NonZeroAppendZeros(s: seq<int>, n: nat)
    ensures NonZero(s + Zeros(n)) == NonZero(s)
  {
    if s == [] {
      assert s + Zeros(n) == Zeros(n);
      if n > 0 {
        NonZeroAppendZeros([], n - 1);
        assert Zeros(n)[1..] == [] + Zeros(n - 1);
      }
    } else {
      NonZeroAppendZeros(s[1..], n);
      assert (s + Zeros(n))[1..] == s[1..] + Zeros(n);
    }
  }

  lemma {:induction false} MergeOfNonZeros(s: seq<int>)
    requires forall k :: 0 <= k < |s| ==> s[k] != 0
    ensures forall k :: 0 <= k < |Merge(s)| ==> Merge(s)[k] != 0
  {
    if |s| >= 2 {
      if s[0] == s[1] {
        MergeOfNonZeros(s[2..]);
      } else {
        MergeOfNonZeros(s[1..]);
      }
    }
  }

  /** A left move packs the row: its nonzero tiles, in order, are the scan of
      the old row's nonzero tiles, and all of them come before every zero.
      The number of tiles never grows. */
  lemma SlideLeftPacks(row: seq<int>)
    requires |row| == RowLength
    ensures |SlideLeft(row)| == RowLength
    ensures NonZero(SlideLeft(row)) == Merge(NonZero(row))
    ensures forall a, b :: 0 <= a < b < RowLength && SlideLeft(row)[a] == 0 ==> SlideLeft(row)[b] == 0
    ensures |NonZero(SlideLeft(row))| <= |NonZero(row)|
  {
    var merged := Merge(NonZero(row));
    MergeOfNonZeros(NonZero(row));
    NonZeroAppendZeros(merged, RowLength - |merged|);
    NonZeroOfNonZeros(merged);
  }

  lemma {:induction false} MergeGainShrinks(s: seq<int>)
    requires forall k :: 0 <= k < |s| ==> s[k] > 0
    ensures MergeGain(s) >= 0
    ensures MergeGain(s) != 0 ==> |Merge(s)| < |s|
  {
    if |s| >= 2 {
      if s[0] == s[1] {
        MergeGainShrinks(s[2..]);
      } else {
        MergeGainShrinks(s[1..]);
      }
    }
  }

  /** Points are scored only when the row changes: a merge removes a tile.
      Points are never negative. */
  lemma RowGainChangesRow(row: seq<int>)
    requires |row| == RowLength
    requires forall k :: 0 <= k < |row| ==> IsCell(row[k])
    ensures RowGain(row) >= 0
    ensures RowGain(row) != 0 ==> SlideLeft(row) != row
  {
    NonZeroKeepsTiles(row);
    MergeGainShrinks(NonZero(row));
    SlideLeftPacks(row);
  }

  /** `[2,2,2,2]` slides to `[4,4,0,0]` for 8 points: the two new 4s do not
      merge again in the same move. */
  lemma SlideLeftFourTwos()
    ensures SlideLeft([2, 2, 2, 2]) == [4, 4, 0, 0] && RowGain([2, 2, 2, 2]) == 8
  {
    NonZeroOfNonZeros([2, 2, 2, 2]);
    assert [2, 2, 2, 2][2..] == [2, 2];
    assert [2, 2][2..] == [];
    assert Merge([2, 2, 2, 2]) == [4, 4];
  }

  /** `[2,2,4,0]` slides to `[4,4,0,0]` for 4 points: the merged 4 does not
      merge with the 4 beside it. */
  lemma SlideLeftTwoTwosFour()
    ensures SlideLeft([2, 2, 4, 0]) == [4, 4, 0, 0] && RowGain([2, 2, 4, 0]) == 4
  {
    assert [2, 2, 4] + Zeros(1) == [2, 2, 4, 0];
    NonZeroAppendZeros([2, 2, 4], 1);
    NonZeroOfNonZeros([2, 2, 4]);
    var merged := Merge([2, 2, 4]);
    assert merged == [4, 4] && MergeGain([2, 2, 4]) == 4 by {
      assert [2, 2, 4][2..] == [4];
    }
    assert merged + Zeros(2) == [4, 4, 0, 0];
  }

  /** `[2,2,0,0]` slides to `[4,0,0,0]` for 4 points. */
  lemma SlideLeftTwoTwos()
    ensures SlideLeft([2, 2, 0, 0]) == [4, 0, 0, 0] && RowGain([2, 2, 0, 0]) == 4
  {
    assert [2, 2] + Zeros(2) == [2, 2, 0, 0];
    NonZeroAppendZeros([2, 2], 2);
    NonZeroOfNonZeros([2, 2]);
    assert [2, 2][2..] == [];
    assert Merge([2, 2]) == [4];
  }
}
