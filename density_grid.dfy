/** The commit-density heatmap table (`get_skeleton_df`, `get_insight_3_df`):
    every (weekday, time interval) cell of the week with the number of
    commits that fall in it. */
module DensityGrid {
  import opened Common
  import opened Timestamps
  import opened TimeBucket

  /** The weekday axis, in categorical order. */
  const Days: seq<string> := ["Monday", "Tuesday", "Wednesday", "Thursday", "Friday", "Saturday", "Sunday"]

  /** A commit timestamp as read back from the store, with the index of its
      weekday name (0 for Monday) as pandas' `day_name` gives it. */
  datatype Stamp = Stamp(weekday: nat, time: Timestamp)

  predicate ValidStamp(c: Stamp) {
    c.weekday < 7 && Valid(c.time)
  }

  predicate AllValid(cs: seq<Stamp>) {
    forall i :: 0 <= i < |cs| ==> ValidStamp(cs[i])
  }

  /** A (day, time interval) key of the table. */
  type Cell = (string, string)

  /** A row of the finished table. */
  datatype GridRow = GridRow(day: string, timeInterval: string, totalCommits: nat)

  lemma {:induction false} MulMono(a: nat, b: nat, n: nat)
    ensures a <= b ==> a * n <= b * n
    decreases if a <= b then b - a else 0
  {
    if a < b {
      MulMono(a, b - 1, n);
      MulSucc(b - 1, n);
    }
  }

  lemma MulSucc(a: nat, n: nat)
    ensures (a + 1) * n == a * n + n
  {
  }

  /** Euclidean division is determined by quotient and remainder. */
  lemma DivModUnique(k: nat, n: nat, q: nat, r: nat)
    requires 0 < n && r < n && k == q * n + r
    ensures k / n == q && k % n == r
  {
    MulMono(k / n + 1, q, n);
    MulMono(q + 1, k / n, n);
    MulSucc(k / n, n);
    MulSucc(q, n);
  }

  /** A position in an `m` by `n` product lies in row `k / n`. */
  lemma ProductIndex(k: nat, m: nat, n: nat)
    requires k < m * n
    ensures n > 0 && k / n < m && k == (k / n) * n + k % n
  {
    MulMono(m, k / n, n);
  }

  /** `itertools.product`: every pair, the first component varying slowest. */
  function Product<A, B>(xs: seq<A>, ys: seq<B>): (p: seq<(A, B)>)
    ensures |p| == |xs| * |ys|
  {
    seq(|xs| * |ys|, k requires 0 <= k < |xs| * |ys| =>
      ProductIndex(k, |xs|, |ys|);
      (xs[k / |ys|], ys[k % |ys|]))
  }

  /** Row `i` of the first axis, column `j` of the second is at `i * |ys| + j`. */
  lemma ProductAt<A, B>(xs: seq<A>, ys: seq<B>, i: nat, j: nat)
    requires i < |xs| && j < |ys|
    ensures i * |ys| + j < |Product(xs, ys)|
    ensures Product(xs, ys)[i * |ys| + j] == (xs[i], ys[j])
  {
    var n := |ys|;
    MulMono(i + 1, |xs|, n);
    assert (i + 1) * n == i * n + n;
    DivModUnique(i * n + j, n, i, j);
  }

  /** `get_skeleton_df`: the 56 cells of the week, day-major. */
  function Skeleton(): seq<Cell> {
    Product(Days, Labels)
  }

  lemma DaysDistinct(i: nat, j: nat)
    requires i < 7 && j < 7 && i != j
    ensures Days[i] != Days[j]
  {
    var a, b := Days[i], Days[j];
    assert a[0] != b[0] || |a| != |b|;
  }

  /** The skeleton has 56 rows, Monday's eight intervals first and Sunday's
      last, each day's intervals from 12am-3am to 9pm-12am. */
  lemma SkeletonLayout()
    ensures |Skeleton()| == 56
    ensures forall k :: 0 <= k < 56 ==> Skeleton()[k] == (Days[k / 8], Labels[k % 8])
  {
  }

  lemma ProductEntry<A, B>(xs: seq<A>, ys: seq<B>, k: nat)
    requires k < |Product(xs, ys)|
    ensures Product(xs, ys)[k].0 in xs && Product(xs, ys)[k].1 in ys
  {
    ProductIndex(k, |xs|, |ys|);
  }

  /** A pair is in a product exactly when its components are in the axes. */
  lemma ProductMembers<A, B>(xs: seq<A>, ys: seq<B>)
    ensures forall c :: c in Product(xs, ys) <==> c.0 in xs && c.1 in ys
  {
    var p := Product(xs, ys);
    forall c | c in p ensures c.0 in xs && c.1 in ys {
      var k :| 0 <= k < |p| && p[k] == c;
      ProductEntry(xs, ys, k);
    }
    forall c: (A, B) | c.0 in xs && c.1 in ys ensures c in p {
      var i :| 0 <= i < |xs| && xs[i] == c.0;
      var j :| 0 <= j < |ys| && ys[j] == c.1;
      ProductAt(xs, ys, i, j);
    }
  }

  /** Each (day, interval) pair of the two axes is in the skeleton, and
      nothing else is. */
  lemma SkeletonCells()
    ensures forall c :: c in Skeleton() <==> c.0 in Days && c.1 in Labels
  {
    ProductMembers(Days, Labels);
  }

  /** No pair is in the skeleton twice. */
  lemma SkeletonDistinct()
    ensures forall i, j :: 0 <= i < j < |Skeleton()| ==> Skeleton()[i] != Skeleton()[j]
  {
    SkeletonLayout();
    var sk := Skeleton();
    forall i, j | 0 <= i < j < 56 ensures sk[i] != sk[j] {
      if i / 8 != j / 8 {
        DaysDistinct(i / 8, j / 8);
      } else {
        LabelsDistinct(i % 8, j % 8);
      }
    }
  }

  /** The cell of one commit: its weekday name and the interval tag
      `format_time_interval` gives its `strftime` text. */
  function CellOf(c: Stamp): (cell: Cell)
    requires ValidStamp(c)
    ensures cell == (Days[c.weekday], Labels[c.time.hour / 3])
  {
    RenderedInterval(c.time);
    (Days[c.weekday], TimeInterval(Render(c.time)).value)
  }

  /** Reference count: the number of commits whose cell is `cell`. */
  function Count(cs: seq<Stamp>, cell: Cell): nat
    requires AllValid(cs)
  {
    if cs == [] then 0
    else Count(cs[..|cs| - 1], cell) + (if CellOf(cs[|cs| - 1]) == cell then 1 else 0)
  }

  /** `groupby(["day", "time_interval"]).size()`: one entry per cell that
      holds at least one commit, with its number of commits. */
  function GroupCounts(cs: seq<Stamp>): (m: map<Cell, nat>)
    requires AllValid(cs)
    ensures forall cell :: cell in m <==> Count(cs, cell) > 0
    ensures forall cell :: cell in m ==> m[cell] == Count(cs, cell)
  {
    if cs == [] then map[]
    else
      var m := GroupCounts(cs[..|cs| - 1]);
      var cell := CellOf(cs[|cs| - 1]);
      m[cell := (if cell in m then m[cell] else 0) + 1]
  }

  /** `pd.merge(main_df, temp_df, how='left')`: every skeleton row, in
      skeleton order, with its count where the grouped table has one. */
  function LeftJoin(skeleton: seq<Cell>, counts: map<Cell, nat>): seq<(Cell, Option<nat>)> {
    seq(|skeleton|, i requires 0 <= i < |skeleton| =>
      (skeleton[i], if skeleton[i] in counts then Some(counts[skeleton[i]]) else None))
  }

  /** `fillna({'total_commits': 0})` and the cast to `int`. */
  function FillNa(joined: seq<(Cell, Option<nat>)>): seq<GridRow> {
    seq(|joined|, i requires 0 <= i < |joined| =>
      GridRow(joined[i].0.0, joined[i].0.1, if joined[i].1.Some? then joined[i].1.value else 0))
  }

  /** `get_insight_3_df`. */
  function Insight3(cs: seq<Stamp>): seq<GridRow>
    requires AllValid(cs)
  {
    FillNa(LeftJoin(Skeleton(), GroupCounts(cs)))
  }

  /** Joining the grouped counts onto any list of cells and filling the gaps
      with 0 gives one row per cell, in the cells' order, holding that cell's
      number of commits. */
  lemma JoinedCounts(cells: seq<Cell>, cs: seq<Stamp>)
    requires AllValid(cs)
    ensures var rows := FillNa(LeftJoin(cells, GroupCounts(cs)));
      |rows| == |cells|
      && forall k :: 0 <= k < |cells| ==> rows[k] == GridRow(cells[k].0, cells[k].1, Count(cs, cells[k]))
  {
  }

  /** The table has the 56 skeleton rows in skeleton order, and each row's
      count is the number of commits in its cell, 0 when there is none. */
  lemma Insight3Cells(cs: seq<Stamp>)
    requires AllValid(cs)
    ensures |Insight3(cs)| == 56
    ensures forall k :: 0 <= k < 56 ==>
      Insight3(cs)[k] == GridRow(Days[k / 8], Labels[k % 8], Count(cs, (Days[k / 8], Labels[k % 8])))
  {
    SkeletonLayout();
    JoinedCounts(Skeleton(), cs);
  }

  /** The position of `x` in a categorical axis. */
  function Rank(axis: seq<string>, x: string): (r: nat)
    requires x in axis
    ensures r < |axis| && axis[r] == x
  {
    if axis[0] == x then 0 else 1 + Rank(axis[1..], x)
  }

  lemma RankOfDistinct(axis: seq<string>, k: nat)
    requires k < |axis|
    requires forall i, j :: 0 <= i < j < |axis| ==> axis[i] != axis[j]
    ensures Rank(axis, axis[k]) == k
  {
  }

  /** The rows are ordered by the categorical axes, not lexically: by day
      from Monday to Sunday, and within a day by interval from 12am-3am to
      9pm-12am. */
  lemma Insight3Order(cs: seq<Stamp>)
    requires AllValid(cs)
    ensures |Insight3(cs)| == 56
    ensures forall i, j :: 0 <= i < j < 56 ==>
      var a, b := Insight3(cs)[i], Insight3(cs)[j];
      a.day in Days && b.day in Days && a.timeInterval in Labels && b.timeInterval in Labels
      && (Rank(Days, a.day) < Rank(Days, b.day)
          || (Rank(Days, a.day) == Rank(Days, b.day) && Rank(Labels, a.timeInterval) < Rank(Labels, b.timeInterval)))
  {
    Insight3Cells(cs);
    forall i, j | 0 <= i < j < 7 ensures Days[i] != Days[j] {
      DaysDistinct(i, j);
    }
    forall i, j | 0 <= i < j < 8 ensures Labels[i] != Labels[j] {
      LabelsDistinct(i, j);
    }
    forall k | 0 <= k < 56 ensures Rank(Days, Days[k / 8]) == k / 8 && Rank(Labels, Labels[k % 8]) == k % 8 {
      RankOfDistinct(Days, k / 8);
      RankOfDistinct(Labels, k % 8);
    }
  }

  // Count conservation

  function Total(rows: seq<GridRow>): nat {
    if rows == [] then 0 else rows[0].totalCommits + Total(rows[1..])
  }

  function SumCounts(cells: seq<Cell>, cs: seq<Stamp>): nat
    requires AllValid(cs)
  {
    if cells == [] then 0 else Count(cs, cells[0]) + SumCounts(cells[1..], cs)
  }

  function Occurrences(cells: seq<Cell>, cell: Cell): nat {
    if cells == [] then 0 else (if cells[0] == cell then 1 else 0) + Occurrences(cells[1..], cell)
  }

  lemma {:induction false} OccursOnce(cells: seq<Cell>, cell: Cell)
    requires cell in cells
    requires forall i, j :: 0 <= i < j < |cells| ==> cells[i] != cells[j]
    ensures Occurrences(cells, cell) == 1
  {
    if cells[0] == cell {
      NotOccurring(cells[1..], cell);
    } else {
      OccursOnce(cells[1..], cell);
    }
  }

  lemma {:induction false} NotOccurring(cells: seq<Cell>, cell: Cell)
    requires cell !in cells
    ensures Occurrences(cells, cell) == 0
  {
    if cells != [] {
      NotOccurring(cells[1..], cell);
    }
  }

  /** Adding one commit adds, summed over any cells, the number of times its
      cell is among them. */
  lemma {:induction false} SumCountsSnoc(cells: seq<Cell>, cs: seq<Stamp>)
    requires AllValid(cs) && cs != []
    ensures SumCounts(cells, cs) == SumCounts(cells, cs[..|cs| - 1]) + Occurrences(cells, CellOf(cs[|cs| - 1]))
  {
    if cells != [] {
      SumCountsSnoc(cells[1..], cs);
    }
  }

  lemma {:induction false} SumCountsEmpty(cells: seq<Cell>)
    ensures SumCounts(cells, []) == 0
  {
    if cells != [] {
      SumCountsEmpty(cells[1..]);
    }
  }

  /** Summed over cells that hold each commit's cell exactly once, the
      counts add up to the number of commits. */
  lemma {:induction false} SumOverCells(cells: seq<Cell>, cs: seq<Stamp>)
    requires AllValid(cs)
    requires forall i, j :: 0 <= i < j < |cells| ==> cells[i] != cells[j]
    requires forall i :: 0 <= i < |cs| ==> CellOf(cs[i]) in cells
    ensures SumCounts(cells, cs) == |cs|
  {
    if cs != [] {
      var init := cs[..|cs| - 1];
      assert forall i :: 0 <= i < |init| ==> init[i] == cs[i];
      SumOverCells(cells, init);
      SumCountsSnoc(cells, cs);
      OccursOnce(cells, CellOf(cs[|cs| - 1]));
    } else {
      SumCountsEmpty(cells);
    }
  }

  lemma {:induction false} TotalOfCounts(rows: seq<GridRow>, cells: seq<Cell>, cs: seq<Stamp>)
    requires AllValid(cs) && |rows| == |cells|
    requires forall k :: 0 <= k < |rows| ==> rows[k].totalCommits == Count(cs, cells[k])
    ensures Total(rows) == SumCounts(cells, cs)
  {
    if rows != [] {
      TotalOfCounts(rows[1..], cells[1..], cs);
    }
  }

  lemma SkeletonHoldsEveryCell(cs: seq<Stamp>)
    requires AllValid(cs)
    ensures forall i :: 0 <= i < |cs| ==> CellOf(cs[i]) in Skeleton()
  {
    SkeletonCells();
    forall i | 0 <= i < |cs| ensures CellOf(cs[i]) in Skeleton() {
      var cell := CellOf(cs[i]);
      assert cell.0 in Days && cell.1 in Labels;
    }
  }

  /** Every commit is counted in exactly one cell: the counts of the table add
      up to the number of commits. */
  lemma Insight3Total(cs: seq<Stamp>)
    requires AllValid(cs)
    ensures Total(Insight3(cs)) == |cs|
  {
    var sk := Skeleton();
    SkeletonDistinct();
    SkeletonHoldsEveryCell(cs);
    SumOverCells(sk, cs);
    JoinedCounts(sk, cs);
    TotalOfCounts(FillNa(LeftJoin(sk, GroupCounts(cs))), sk, cs);
  }

  lemma CountSingle(c: Stamp, cell: Cell)
    requires ValidStamp(c)
    ensures Count([c], cell) == if CellOf(c) == cell then 1 else 0
  {
    assert [c][..0] == [];
  }

  /** One commit on a Wednesday (1 January 2020) at 14:10:00: 1 in the
      (Wednesday, 12pm-3pm) row and 0 in every other row. */
  lemma OneWednesdayCommit()
    ensures var grid := Insight3([Stamp(2, Timestamp(2020, 1, 1, 14, 10, 0))]);
      |grid| == 56 && grid[20] == GridRow("Wednesday", "12pm-3pm", 1)
      && forall k :: 0 <= k < 56 && k != 20 ==> grid[k].totalCommits == 0
  {
    var c := Stamp(2, Timestamp(2020, 1, 1, 14, 10, 0));
    assert CellOf(c) == (Days[2], Labels[4]);
    Insight3Cells([c]);
    CountSingle(c, (Days[2], Labels[4]));
    forall k | 0 <= k < 56 && k != 20 ensures Count([c], (Days[k / 8], Labels[k % 8])) == 0 {
      CountSingle(c, (Days[k / 8], Labels[k % 8]));
      if k / 8 != 2 {
        DaysDistinct(k / 8, 2);
      } else {
        LabelsDistinct(k % 8, 4);
      }
    }
  }
}
