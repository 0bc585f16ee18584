/** Group-by counting over a column whose cells may be missing: `dropna().unique()`,
    `value_counts()` and `groupby(...).size()`. A grouped count is a list of
    (key, count) rows; missing cells belong to no group. */
module Tally {
  import opened Optional
  import opened Sequences

  /** One (key, count) row per group. */
  type Counts<K> = seq<(K, nat)>

  /** No value occurs twice. */
  predicate Distinct<K(==)>(ks: seq<K>)
  {
    forall i, j :: 0 <= i < j < |ks| ==> ks[i] != ks[j]
  }

  /** The cell holds the value `k`. */
  function IsValue<K(==)>(k: K): Option<K> -> bool
  {
    cell => cell == Some(k)
  }

  /** The cell is not missing. */
  predicate IsPresent<K>(cell: Option<K>)
  {
    cell.Some?
  }

  /** Number of cells holding `k`. */
  function Occurrences<K(==)>(cells: seq<Option<K>>, k: K): nat
  {
    Count(cells, IsValue(k))
  }

  /** Number of cells that are not missing. */
  function Present<K>(cells: seq<Option<K>>): nat
  {
    Count(cells, IsPresent)
  }

  /** The keys of a grouped count, in row order. */
  function Keys<K>(g: Counts<K>): seq<K>
  {
    if |g| == 0 then [] else [g[0].0] + Keys(g[1..])
  }

  /** The count recorded for `k`, zero when `k` has no row. */
  function CountOf<K(==)>(g: Counts<K>, k: K): nat
  {
    if |g| == 0 then 0 else if g[0].0 == k then g[0].1 else CountOf(g[1..], k)
  }

  /** The sum of all counts. */
  function Sum<K>(g: Counts<K>): nat
  {
    if |g| == 0 then 0 else g[0].1 + Sum(g[1..])
  }

  /** Every row counts at least one cell. */
  predicate AllPositive<K>(g: Counts<K>)
  {
    forall i :: 0 <= i < |g| ==> g[i].1 > 0
  }

  /** Rows are in strictly increasing key order: each key is below the next. */
  predicate Ascending(g: Counts<int>)
  {
    |g| <= 1 || (g[0].0 < g[1].0 && Ascending(g[1..]))
  }

  /** The last cell of a column and the column without it. */
  lemma {:induction false} CellStep<K>(cells: seq<Option<K>>, k: K)
    requires |cells| > 0
    ensures var init, last := cells[..|cells| - 1], cells[|cells| - 1];
      && Occurrences(cells, k) == Occurrences(init, k) + (if last == Some(k) then 1 else 0)
      && Present(cells) == Present(init) + (if last.Some? then 1 else 0)
  {
  }

  /** A value occurs in a column exactly when it occurs before the last cell or is
      the last cell. */
  lemma {:induction false} LastCellStep<K>(cells: seq<Option<K>>)
    requires |cells| > 0
    ensures forall k :: Some(k) in cells <==>
      Some(k) in cells[..|cells| - 1] || cells[|cells| - 1] == Some(k)
  {
    SplitLast(cells);
  }

  /** How the per-value counts and the present values of a column unfold on its last
      cell. */
  lemma {:induction false} ColumnStep<K>(cells: seq<Option<K>>)
    requires |cells| > 0
    ensures var init, last := cells[..|cells| - 1], cells[|cells| - 1];
      && (forall k :: Occurrences(cells, k) == Occurrences(init, k) + (if last == Some(k) then 1 else 0))
      && (forall k :: Some(k) in cells <==> Some(k) in init || last == Some(k))
  {
    forall k ensures Occurrences(cells, k) == Occurrences(cells[..|cells| - 1], k) + (if cells[|cells| - 1] == Some(k) then 1 else 0) {
      CellStep(cells, k);
    }
    LastCellStep(cells);
  }

  /** `column.dropna().unique()`: the distinct non-missing values in order of first
      appearance. */
  function Unique<K(==,!new)>(cells: seq<Option<K>>): (u: seq<K>)
    ensures Distinct(u)
    ensures forall k :: k in u <==> Some(k) in cells
  {
    if |cells| == 0 then []
    else
      var init, last := cells[..|cells| - 1], cells[|cells| - 1];
      LastCellStep(cells);
      var seen := Unique(init);
      if last.Some? && last.value !in seen then seen + [last.value] else seen
  }

  /** First-appearance order: the distinct values of any leading part of a column
      are a leading part of the distinct values of the whole column, so reading
      more cells only appends values not seen before. */
  lemma {:induction false} UniquePrefix<K(!new)>(cells: seq<Option<K>>, n: nat)
    requires n <= |cells|
    ensures Unique(cells[..n]) <= Unique(cells)
    decreases |cells| - n
  {
    if n < |cells| {
      var init := cells[..|cells| - 1];
      assert init[..n] == cells[..n];
      UniquePrefix(init, n);
    } else {
      assert cells[..n] == cells;
    }
  }

  /** How the summaries of a grouped count unfold on its first row. */
  lemma {:induction false} ConsFacts<K>(x: (K, nat), rest: Counts<K>)
    ensures Keys([x] + rest) == [x.0] + Keys(rest)
    ensures Sum([x] + rest) == x.1 + Sum(rest)
    ensures forall j :: CountOf([x] + rest, j) == if x.0 == j then x.1 else CountOf(rest, j)
    ensures AllPositive([x] + rest) <==> x.1 > 0 && AllPositive(rest)
  {
    var r := [x] + rest;
    assert r[0] == x && r[1..] == rest;
    assert forall i :: 0 < i < |r| ==> r[i] == rest[i - 1];
  }

  /** Counts one more cell holding `k`: its row is incremented, or a new row is added
      at the end when `k` has none yet. */
  function Bump<K(==,!new)>(g: Counts<K>, k: K): (r: Counts<K>)
    ensures Sum(r) == Sum(g) + 1
    ensures forall j :: CountOf(r, j) == CountOf(g, j) + (if j == k then 1 else 0)
    ensures AllPositive(g) ==> AllPositive(r)
    ensures Keys(r) == if k in Keys(g) then Keys(g) else Keys(g) + [k]
  {
    if |g| == 0 then
      ConsFacts((k, 1), []);
      [(k, 1)]
    else
      assert g == [g[0]] + g[1..];
      ConsFacts(g[0], g[1..]);
      if g[0].0 == k then
        ConsFacts((k, g[0].1 + 1), g[1..]);
        [(k, g[0].1 + 1)] + g[1..]
      else
        var rest := Bump(g[1..], k);
        ConsFacts(g[0], rest);
        assert k in Keys(g) <==> k in Keys(g[1..]);
        assert [g[0].0] + (Keys(g[1..]) + [k]) == Keys(g) + [k];
        [g[0]] + rest
  }

  /** `column.value_counts()` with rows in order of first appearance: one row per
      distinct non-missing value, holding the number of cells equal to it. */
  function GroupCounts<K(==,!new)>(cells: seq<Option<K>>): (g: Counts<K>)
    ensures Keys(g) == Unique(cells)
    ensures AllPositive(g)
    ensures forall k :: CountOf(g, k) == Occurrences(cells, k)
    ensures Sum(g) == Present(cells)
  {
    if |cells| == 0 then []
    else
      var init, last := cells[..|cells| - 1], cells[|cells| - 1];
      var before := GroupCounts(init);
      assert forall k :: CountOf(before, k) == Occurrences(init, k);
      forall k ensures Occurrences(cells, k) == Occurrences(init, k) + (if last == Some(k) then 1 else 0) {
        CellStep(cells, k);
      }
      match last
      case None =>
        before
      case Some(k) =>
        Bump(before, k)
  }

  /** A key without a row counts zero. */
  lemma {:induction false} AbsentCountsZero<K>(g: Counts<K>, k: K)
    requires k !in Keys(g)
    ensures CountOf(g, k) == 0
  {
    if |g| > 0 {
      assert Keys(g) == [g[0].0] + Keys(g[1..]);
      AbsentCountsZero(g[1..], k);
    }
  }

  /** Every key of an ascending grouped count is at least its first key. */
  lemma {:induction false} FirstKeyLeast(g: Counts<int>)
    requires Ascending(g) && |g| > 0
    ensures forall j :: j in Keys(g) ==> g[0].0 <= j
  {
    assert Keys(g) == [g[0].0] + Keys(g[1..]);
    if |g| > 1 {
      FirstKeyLeast(g[1..]);
    }
  }

  /** Counts one more cell holding `k`, keeping rows in ascending key order. */
  function BumpSorted(g: Counts<int>, k: int): (r: Counts<int>)
    requires Ascending(g)
    ensures Ascending(r)
    ensures |r| > 0 && (r[0].0 == k || (|g| > 0 && r[0].0 == g[0].0))
    ensures Sum(r) == Sum(g) + 1
    ensures forall j :: CountOf(r, j) == CountOf(g, j) + (if j == k then 1 else 0)
    ensures AllPositive(g) ==> AllPositive(r)
    ensures forall j :: j in Keys(r) <==> j in Keys(g) || j == k
  {
    if |g| == 0 then
      ConsFacts((k, 1), []);
      [(k, 1)]
    else if k < g[0].0 then
      FirstKeyLeast(g);
      AbsentCountsZero(g, k);
      ConsFacts((k, 1), g);
      [(k, 1)] + g
    else
      assert g == [g[0]] + g[1..];
      ConsFacts(g[0], g[1..]);
      if g[0].0 == k then
        ConsFacts((k, g[0].1 + 1), g[1..]);
        [(k, g[0].1 + 1)] + g[1..]
      else
        var rest := BumpSorted(g[1..], k);
        ConsFacts(g[0], rest);
        [g[0]] + rest
  }

  /** `groupby(column).size()`: one row per distinct non-missing key, in ascending key
      order, holding the number of cells equal to it. */
  function SortedGroupCounts(cells: seq<Option<int>>): (g: Counts<int>)
    ensures Ascending(g)
    ensures AllPositive(g)
    ensures forall k :: CountOf(g, k) == Occurrences(cells, k)
    ensures forall k :: k in Keys(g) <==> Some(k) in cells
    ensures Sum(g) == Present(cells)
  {
    if |cells| == 0 then []
    else
      var init, last := cells[..|cells| - 1], cells[|cells| - 1];
      var before := SortedGroupCounts(init);
      ColumnStep(cells);
      match last
      case None =>
        before
      case Some(k) =>
        BumpSorted(before, k)
  }
}
