/** The `positionOrder` bookkeeping shared by course sections (siblings of
    one course) and course classes (siblings of one section).

    A table is seen through two projections of equal length: `pos[i]` is the
    `positionOrder` of row `i`, and `mask[i]` says whether row `i` belongs to
    the sibling group being ordered (active and under the same parent). */
module Ordering {

  /** Number of rows in the sibling group. */
  function Count(mask: seq<bool>): nat
  {
    if mask == [] then 0
    else Count(mask[..|mask| - 1]) + (if mask[|mask| - 1] then 1 else 0)
  }

  /** The group's positions are exactly 0 .. Count(mask) - 1, one per row. */
  predicate Dense(pos: seq<int>, mask: seq<bool>)
  {
    |pos| == |mask| &&
    (forall i :: 0 <= i < |pos| && mask[i] ==> 0 <= pos[i] < Count(mask)) &&
    (forall i, j :: 0 <= i < |pos| && 0 <= j < |pos| && i != j && mask[i] && mask[j] ==> pos[i] != pos[j])
  }

  /** The order `find(... order: { positionOrder: 'ASC' })` lists rows in;
      equal positions are listed in table order. */
  predicate Before(pos: seq<int>, i: nat, j: nat)
    requires i < |pos| && j < |pos|
  {
    pos[i] < pos[j] || (pos[i] == pos[j] && i < j)
  }

  predicate Indices(o: seq<nat>, n: nat)
  {
    forall a :: 0 <= a < |o| ==> o[a] < n
  }

  /** `o` lists rows in strictly increasing `Before` order. */
  predicate Ranked(pos: seq<int>, o: seq<nat>)
    requires Indices(o, |pos|)
  {
    forall a, b :: 0 <= a < b < |o| ==> Before(pos, o[a], o[b])
  }

  /** Inserts row `x`, which comes after every row of `o` in table order, at
      its place in `o` (after all rows of equal position). */
  function InsertIndex(pos: seq<int>, o: seq<nat>, x: nat): (r: seq<nat>)
    requires x < |pos| && Indices(o, |pos|)
    ensures |r| == |o| + 1 && Indices(r, |pos|)
    ensures forall y :: y in r <==> y == x || y in o
    decreases |o|
  {
    if o == [] then [x]
    else if pos[x] < pos[o[0]] then [x] + o
    else
      assert forall y :: y in o[1..] ==> y in o;
      [o[0]] + InsertIndex(pos, o[1..], x)
  }

  lemma {:induction false} InsertIndexRanked(pos: seq<int>, o: seq<nat>, x: nat)
    requires x < |pos| && Indices(o, |pos|)
    requires Ranked(pos, o) && forall y :: y in o ==> y < x
    ensures Ranked(pos, InsertIndex(pos, o, x))
    decreases |o|
  {
    if o != [] && pos[o[0]] <= pos[x] {
      var rest := InsertIndex(pos, o[1..], x);
      assert forall y :: y in o[1..] ==> y in o;
      assert Ranked(pos, o[1..]);
      InsertIndexRanked(pos, o[1..], x);
      forall b | 0 <= b < |rest|
        ensures Before(pos, o[0], rest[b])
      {
        assert rest[b] in rest;
        assert o[0] in o;
        if rest[b] != x {
          var c :| 0 <= c < |o[1..]| && o[1..][c] == rest[b];
          assert o[c + 1] == rest[b];
        }
      }
      assert InsertIndex(pos, o, x) == [o[0]] + rest;
    } else if o != [] {
      assert o[0] in o;
    }
  }

  /** The group rows among the first `m` rows, in `Before` order. */
  function SortPrefix(pos: seq<int>, mask: seq<bool>, m: nat): (r: seq<nat>)
    requires |pos| == |mask| && m <= |pos|
    ensures Indices(r, |pos|) && Ranked(pos, r)
    ensures forall y: nat :: y in r <==> y < m && mask[y]
    ensures |r| == Count(mask[..m])
  {
    if m == 0 then []
    else
      var r := SortPrefix(pos, mask, m - 1);
      assert mask[..m][..m - 1] == mask[..m - 1];
      if mask[m - 1] then InsertIndexRanked(pos, r, m - 1); InsertIndex(pos, r, m - 1) else r
  }

  /** The sibling group as `find(... order: { positionOrder: 'ASC' })`
      returns it. */
  function SortedMembers(pos: seq<int>, mask: seq<bool>): (r: seq<nat>)
    requires |pos| == |mask|
    ensures Indices(r, |pos|) && Ranked(pos, r)
    ensures forall y: nat :: y in r <==> y < |pos| && mask[y]
    ensures |r| == Count(mask)
  {
    assert mask[..|pos|] == mask;
    SortPrefix(pos, mask, |pos|)
  }

  /** The positions after the renumbering loop has written `a` to the row
      `o[a]` for every `a < k`. */
  function Assign(pos: seq<int>, o: seq<nat>, k: nat): (r: seq<int>)
    requires Indices(o, |pos|) && k <= |o|
    ensures |r| == |pos|
  {
    if k == 0 then pos else Assign(pos, o, k - 1)[o[k - 1] := k - 1]
  }

  lemma {:induction false} AssignValues(pos: seq<int>, o: seq<nat>, k: nat)
    requires Indices(o, |pos|) && k <= |o| && Ranked(pos, o)
    ensures forall a :: 0 <= a < k ==> Assign(pos, o, k)[o[a]] == a
    ensures forall i :: 0 <= i < |pos| && i !in o[..k] ==> Assign(pos, o, k)[i] == pos[i]
  {
    if k > 0 {
      AssignValues(pos, o, k - 1);
      forall a | 0 <= a < k - 1
        ensures o[a] != o[k - 1]
      {
        assert Before(pos, o[a], o[k - 1]);
      }
      assert forall i :: i !in o[..k] ==> i !in o[..k - 1] && i != o[k - 1] by {
        assert forall i :: i in o[..k - 1] ==> i in o[..k];
        assert o[k - 1] in o[..k];
      }
    }
  }

  /** `reorderSections` / `reorderClasses`: list the group in position
      order and give the `a`-th listed row the position `a`. */
  function Renumbered(pos: seq<int>, mask: seq<bool>): (r: seq<int>)
    requires |pos| == |mask|
    ensures |r| == |pos|
  {
    var o := SortedMembers(pos, mask);
    Assign(pos, o, |o|)
  }

  lemma RenumberedValues(pos: seq<int>, mask: seq<bool>)
    requires |pos| == |mask|
    ensures forall a :: 0 <= a < |SortedMembers(pos, mask)| ==>
              Renumbered(pos, mask)[SortedMembers(pos, mask)[a]] == a
    ensures forall i :: 0 <= i < |pos| && !mask[i] ==> Renumbered(pos, mask)[i] == pos[i]
  {
    var o := SortedMembers(pos, mask);
    AssignValues(pos, o, |o|);
    assert o[..|o|] == o;
  }

  /** After renumbering the group's positions are 0 .. n - 1, one per row,
      and rows outside the group keep theirs. */
  lemma RenumberDense(pos: seq<int>, mask: seq<bool>)
    requires |pos| == |mask|
    ensures Dense(Renumbered(pos, mask), mask)
    ensures forall i :: 0 <= i < |pos| && !mask[i] ==> Renumbered(pos, mask)[i] == pos[i]
  {
    var o := SortedMembers(pos, mask);
    var r := Renumbered(pos, mask);
    RenumberedValues(pos, mask);
    forall i | 0 <= i < |pos| && mask[i]
      ensures exists a :: 0 <= a < |o| && o[a] == i && r[i] == a
    {
      assert i in o;
    }
    forall i, j | 0 <= i < |pos| && 0 <= j < |pos| && i != j && mask[i] && mask[j]
      ensures r[i] != r[j]
    {
      assert i in o && j in o;
    }
  }

  /** Renumbering keeps the listed order: a row listed before another gets
      the smaller position. */
  lemma RenumberKeepsOrder(pos: seq<int>, mask: seq<bool>)
    requires |pos| == |mask|
    ensures forall i, j :: 0 <= i < |pos| && 0 <= j < |pos| && mask[i] && mask[j] && Before(pos, i, j) ==>
              Renumbered(pos, mask)[i] < Renumbered(pos, mask)[j]
  {
    var o := SortedMembers(pos, mask);
    var r := Renumbered(pos, mask);
    RenumberedValues(pos, mask);
    forall i, j | 0 <= i < |pos| && 0 <= j < |pos| && mask[i] && mask[j] && Before(pos, i, j)
      ensures r[i] < r[j]
    {
      assert i in o && j in o;
      var a :| 0 <= a < |o| && o[a] == i;
      var b :| 0 <= b < |o| && o[b] == j;
      if b <= a {
        assert false;
      }
    }
  }

  lemma {:induction false} IncreasingGap(w: seq<int>, a: nat, b: nat)
    requires forall x, y :: 0 <= x < y < |w| ==> w[x] < w[y]
    requires a <= b < |w|
    ensures w[b] - w[a] >= b - a
    decreases b - a
  {
    if a < b {
      IncreasingGap(w, a, b - 1);
    }
  }

  /** `n` strictly increasing values taken from 0 .. n - 1 are 0 .. n - 1. */
  lemma IncreasingFill(w: seq<int>)
    requires forall x, y :: 0 <= x < y < |w| ==> w[x] < w[y]
    requires forall x :: 0 <= x < |w| ==> 0 <= w[x] < |w|
    ensures forall x :: 0 <= x < |w| ==> w[x] == x
  {
    forall x | 0 <= x < |w|
      ensures w[x] == x
    {
      IncreasingGap(w, 0, x);
      IncreasingGap(w, x, |w| - 1);
    }
  }

  /** Renumbering an already dense group changes nothing. */
  lemma RenumberIdempotent(pos: seq<int>, mask: seq<bool>)
    requires Dense(pos, mask)
    ensures Renumbered(pos, mask) == pos
  {
    var o := SortedMembers(pos, mask);
    var r := Renumbered(pos, mask);
    RenumberedValues(pos, mask);
    var w := seq(|o|, a requires 0 <= a < |o| => pos[o[a]]);
    forall x, y | 0 <= x < y < |w|
      ensures w[x] < w[y]
    {
      assert Before(pos, o[x], o[y]);
      assert o[x] in o && o[y] in o;
    }
    forall x | 0 <= x < |w|
      ensures 0 <= w[x] < |w|
    {
      assert o[x] in o;
    }
    IncreasingFill(w);
    forall i | 0 <= i < |pos|
      ensures r[i] == pos[i]
    {
      if mask[i] {
        assert i in o;
        var a :| 0 <= a < |o| && o[a] == i;
        assert w[a] == a;
      }
    }
  }

  /** Renumbering twice is renumbering once. */
  lemma RenumberTwice(pos: seq<int>, mask: seq<bool>)
    requires |pos| == |mask|
    ensures Renumbered(Renumbered(pos, mask), mask) == Renumbered(pos, mask)
  {
    RenumberDense(pos, mask);
    RenumberIdempotent(Renumbered(pos, mask), mask);
  }

  lemma {:induction false} CountUpdate(mask: seq<bool>, k: nat, b: bool)
    requires k < |mask|
    ensures Count(mask[k := b]) == Count(mask) - (if mask[k] then 1 else 0) + (if b then 1 else 0)
    decreases |mask|
  {
    var n := |mask|;
    if k == n - 1 {
      assert mask[k := b][..n - 1] == mask[..n - 1];
    } else {
      assert mask[k := b][..n - 1] == mask[..n - 1][k := b];
      CountUpdate(mask[..n - 1], k, b);
    }
  }

  lemma CountAppend(mask: seq<bool>, b: bool)
    ensures Count(mask + [b]) == Count(mask) + (if b then 1 else 0)
  {
    assert (mask + [b])[..|mask|] == mask;
  }

  /** A group whose rows keep their positions stays dense, whatever happens
      to the rows outside it. */
  lemma DenseFrame(pos: seq<int>, pos': seq<int>, mask: seq<bool>)
    requires Dense(pos, mask) && |pos'| == |pos|
    requires forall i :: 0 <= i < |pos| && mask[i] ==> pos'[i] == pos[i]
    ensures Dense(pos', mask)
  {
  }

  /** Removing row `k` from a dense group and renumbering closes the gap:
      rows below it keep their positions, rows above it move up by one. */
  lemma RenumberAfterRemoval(pos: seq<int>, mask: seq<bool>, k: nat)
    requires Dense(pos, mask) && k < |pos| && mask[k]
    ensures forall i :: 0 <= i < |pos| && mask[i] && i != k ==>
              Renumbered(pos, mask[k := false])[i] == if pos[i] < pos[k] then pos[i] else pos[i] - 1
  {
    var mask' := mask[k := false];
    var o := SortedMembers(pos, mask');
    var r := Renumbered(pos, mask');
    RenumberedValues(pos, mask');
    CountUpdate(mask, k, false);
    var w := seq(|o|, a requires 0 <= a < |o| => if pos[o[a]] < pos[k] then pos[o[a]] else pos[o[a]] - 1);
    forall x, y | 0 <= x < y < |w|
      ensures w[x] < w[y]
    {
      assert Before(pos, o[x], o[y]);
      assert o[x] in o && o[y] in o;
    }
    forall x | 0 <= x < |w|
      ensures 0 <= w[x] < |w|
    {
      assert o[x] in o;
    }
    IncreasingFill(w);
    forall i | 0 <= i < |pos| && mask[i] && i != k
      ensures r[i] == if pos[i] < pos[k] then pos[i] else pos[i] - 1
    {
      assert i in o;
      var a :| 0 <= a < |o| && o[a] == i;
      assert w[a] == a;
    }
  }

  /** A row appended at position `Count(mask)` keeps the group dense. */
  lemma AppendDense(pos: seq<int>, mask: seq<bool>)
    requires Dense(pos, mask)
    ensures Dense(pos + [Count(mask)], mask + [true])
  {
    CountAppend(mask, true);
  }

  /** A row appended outside the group leaves the group dense. */
  lemma AppendOutside(pos: seq<int>, mask: seq<bool>, v: int)
    requires Dense(pos, mask)
    ensures Dense(pos + [v], mask + [false])
  {
    CountAppend(mask, false);
  }

  /** The shift `create` applies to the siblings before a section is
      inserted at position `p`: every group row at `p` or after moves down
      by one. */
  function ShiftFrom(pos: seq<int>, mask: seq<bool>, p: int): (r: seq<int>)
    requires |pos| == |mask|
    ensures |r| == |pos|
  {
    seq(|pos|, i requires 0 <= i < |pos| => if mask[i] && pos[i] >= p then pos[i] + 1 else pos[i])
  }

  /** Inserting at a position in 0 .. n keeps the group dense. */
  lemma InsertDense(pos: seq<int>, mask: seq<bool>, p: int)
    requires Dense(pos, mask) && 0 <= p <= Count(mask)
    ensures Dense(ShiftFrom(pos, mask, p) + [p], mask + [true])
  {
    CountAppend(mask, true);
  }

  /** The shift keeps the group's relative order, and the inserted row lands
      after exactly the rows that were before `p`. */
  lemma InsertKeepsOrder(pos: seq<int>, mask: seq<bool>, p: int)
    requires |pos| == |mask|
    ensures forall i, j :: 0 <= i < |pos| && 0 <= j < |pos| && mask[i] && mask[j] ==>
              (pos[i] < pos[j] <==> ShiftFrom(pos, mask, p)[i] < ShiftFrom(pos, mask, p)[j])
    ensures forall i :: 0 <= i < |pos| && mask[i] ==> (ShiftFrom(pos, mask, p)[i] < p <==> pos[i] < p)
  {
  }

  /** No range check guards the inserted position: one past the end leaves
      a gap, so the group is no longer dense. */
  lemma InsertBeyondEnd(pos: seq<int>, mask: seq<bool>, p: int)
    requires Dense(pos, mask) && p > Count(mask)
    ensures !Dense(ShiftFrom(pos, mask, p) + [p], mask + [true])
  {
    CountAppend(mask, true);
    var n := |pos|;
    assert (mask + [true])[n] && (ShiftFrom(pos, mask, p) + [p])[n] == p;
  }

  /** `updateOrder` of a class / the position part of `update` of a section:
      row `k` goes to position `t`; the group rows strictly between the old
      and the new position, the new one included, shift by one towards the
      old position. */
  function Move(pos: seq<int>, mask: seq<bool>, k: nat, t: int): (r: seq<int>)
    requires |pos| == |mask| && k < |pos|
    ensures |r| == |pos|
  {
    var c := pos[k];
    seq(|pos|, i requires 0 <= i < |pos| =>
      if i == k then t
      else if mask[i] && c < t && c < pos[i] <= t then pos[i] - 1
      else if mask[i] && t < c && t <= pos[i] < c then pos[i] + 1
      else pos[i])
  }

  /** Moving a group row to a position in range keeps the group dense. */
  lemma MoveDense(pos: seq<int>, mask: seq<bool>, k: nat, t: int)
    requires Dense(pos, mask) && k < |pos| && mask[k] && 0 <= t < Count(mask)
    ensures Dense(Move(pos, mask, k, t), mask)
  {
    var r := Move(pos, mask, k, t);
    forall i, j | 0 <= i < |pos| && 0 <= j < |pos| && i != j && mask[i] && mask[j]
      ensures r[i] != r[j]
    {
      if i != k && j != k {
        assert pos[i] != pos[k] && pos[j] != pos[k] && pos[i] != pos[j];
      } else if i == k {
        assert pos[j] != pos[k];
      } else {
        assert pos[i] != pos[k];
      }
    }
  }

  /** A move keeps the relative order of the other group rows. */
  lemma MoveKeepsOrder(pos: seq<int>, mask: seq<bool>, k: nat, t: int)
    requires Dense(pos, mask) && k < |pos| && mask[k]
    ensures forall i, j :: 0 <= i < |pos| && 0 <= j < |pos| && i != k && j != k && mask[i] && mask[j] ==>
              (pos[i] < pos[j] <==> Move(pos, mask, k, t)[i] < Move(pos, mask, k, t)[j])
  {
    var r := Move(pos, mask, k, t);
    forall i, j | 0 <= i < |pos| && 0 <= j < |pos| && i != k && j != k && mask[i] && mask[j]
      ensures pos[i] < pos[j] <==> r[i] < r[j]
    {
      assert pos[i] != pos[k] && pos[j] != pos[k];
      if i != j {
        assert pos[i] != pos[j];
      }
    }
  }

  /** Moving a row back to where it was undoes a move. */
  lemma MoveRoundTrip(pos: seq<int>, mask: seq<bool>, k: nat, t: int)
    requires Dense(pos, mask) && k < |pos| && mask[k] && 0 <= t < Count(mask)
    ensures Move(Move(pos, mask, k, t), mask, k, pos[k]) == pos
  {
    var r := Move(pos, mask, k, t);
    var back := Move(r, mask, k, pos[k]);
    forall i | 0 <= i < |pos|
      ensures back[i] == pos[i]
    {
      if i != k && mask[i] {
        assert pos[i] != pos[k];
      }
    }
  }

  /** A ranked listing names every row at most once. */
  lemma RankedDistinct(pos: seq<int>, o: seq<nat>)
    requires Indices(o, |pos|) && Ranked(pos, o)
    ensures forall a, b :: 0 <= a < |o| && 0 <= b < |o| && a != b ==> o[a] != o[b]
  {
    forall a, b | 0 <= a < |o| && 0 <= b < |o| && a != b
      ensures o[a] != o[b]
    {
      if a < b {
        assert Before(pos, o[a], o[b]);
      } else {
        assert Before(pos, o[b], o[a]);
      }
    }
  }
}
