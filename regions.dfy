/** The enrollment totals per academic region and the top-10 table built from
    them, and the enrollment total per sector. */
module Regions {
  import opened Records
  import opened Grouping
  import opened Ranking

  /** `regions_data`: the student total per academic region. */
  function RegionTotals(rows: seq<Row>): (r: seq<Group>)
    ensures forall i, j :: 0 <= i < j < |r| ==> r[i].key != r[j].key
    ensures forall i :: 0 <= i < |rows| ==> exists k :: 0 <= k < |r| && r[k].key == rows[i].region
    ensures forall k :: 0 <= k < |r| ==> exists i :: 0 <= i < |rows| && rows[i].region == r[k].key
    ensures forall k :: 0 <= k < |r| ==> r[k].sum == SumWhere(rows, Region, r[k].key, Students)
  {
    AggregateCovers(rows, Region, Students);
    AggregateFromRows(rows, Region, Students);
    Aggregate(rows, Region, Students)
  }

  function BySum(g: Group): Number {
    Num(g.sum as real)
  }

  /** `top_10_regions`: the region totals sorted by total, descending, first ten. */
  function TopRegions(rows: seq<Row>): (top: seq<Group>)
    ensures |top| <= 10
    ensures multiset(top) <= multiset(RegionTotals(rows))
  {
    var all := RegionTotals(rows);
    TopBySum(all, 10);
    Top(all, BySum, 10)
  }

  /** Keeping the `n` largest group rows: min(n, |all|) rows of `all`, in
      non-increasing order of sum, none left out larger than one kept. */
  lemma TopBySum(all: seq<Group>, n: nat)
    ensures |Top(all, BySum, n)| == if |all| <= n then |all| else n
    ensures forall i, j :: 0 <= i < j < |Top(all, BySum, n)| ==>
              Top(all, BySum, n)[i].sum >= Top(all, BySum, n)[j].sum
    ensures multiset(Top(all, BySum, n)) <= multiset(all)
    ensures forall x, y :: x in Top(all, BySum, n) && y in multiset(all) - multiset(Top(all, BySum, n)) ==>
              y.sum <= x.sum
  {
    var top := Top(all, BySum, n);
    TopSelects(all, BySum, n);
    forall i, j | 0 <= i < j < |top| ensures top[i].sum >= top[j].sum {
      assert Precedes(BySum(top[i]), BySum(top[j]));
    }
    forall x, y | x in top && y in multiset(all) - multiset(top) ensures y.sum <= x.sum {
      assert Precedes(BySum(x), BySum(y));
    }
  }

  /** The top-10 table has min(10, number of regions) rows, all of them rows
      of `regions_data`. */
  lemma TopRegionsSize(rows: seq<Row>)
    ensures |TopRegions(rows)| == if |RegionTotals(rows)| <= 10 then |RegionTotals(rows)| else 10
    ensures multiset(TopRegions(rows)) <= multiset(RegionTotals(rows))
  {
    var all := RegionTotals(rows);
    assert TopRegions(rows) == Top(all, BySum, 10);
    TopBySum(all, 10);
  }

  /** The top-10 table is in non-increasing order of total, and every region
      left out has a total no larger than any region kept. */
  lemma TopRegionsOrder(rows: seq<Row>)
    ensures forall i, j :: 0 <= i < j < |TopRegions(rows)| ==>
              TopRegions(rows)[i].sum >= TopRegions(rows)[j].sum
    ensures forall x, y :: x in TopRegions(rows) && y in multiset(RegionTotals(rows)) - multiset(TopRegions(rows)) ==>
              y.sum <= x.sum
  {
    var all := RegionTotals(rows);
    assert TopRegions(rows) == Top(all, BySum, 10);
    TopBySum(all, 10);
  }

  /** Each region appears once in `regions_data`, and the region totals add up
      to the total of all rows of the selected year. */
  lemma RegionTotalsConserve(rows: seq<Row>)
    ensures forall i, j :: 0 <= i < j < |RegionTotals(rows)| ==>
              RegionTotals(rows)[i].key != RegionTotals(rows)[j].key
    ensures SumGroups(RegionTotals(rows)) == Total(rows, Students)
  {
    GroupSumConserves(rows, Region, Students);
  }

  /** `enrollment_sector`: the student total per sector. */
  function SectorTotals(rows: seq<Row>): (r: seq<Group>)
    ensures forall i, j :: 0 <= i < j < |r| ==> r[i].key != r[j].key
    ensures forall i :: 0 <= i < |rows| ==> exists k :: 0 <= k < |r| && r[k].key == rows[i].sector
    ensures forall k :: 0 <= k < |r| ==> exists i :: 0 <= i < |rows| && rows[i].sector == r[k].key
    ensures forall k :: 0 <= k < |r| ==> r[k].sum == SumWhere(rows, Sector, r[k].key, Students)
  {
    AggregateCovers(rows, Sector, Students);
    AggregateFromRows(rows, Sector, Students);
    Aggregate(rows, Sector, Students)
  }

  /** The sector totals add up to the total of all rows of the selected year. */
  lemma SectorTotalsConserve(rows: seq<Row>)
    ensures SumGroups(SectorTotals(rows)) == Total(rows, Students)
  {
    GroupSumConserves(rows, Sector, Students);
  }

  lemma InsertBD()
    ensures Insert(Group("B", 30), [Group("D", 10)], BySum) == [Group("B", 30), Group("D", 10)]
  {
  }
  lemma InsertBCD()
    ensures Insert(Group("B", 30), [Group("C", 90), Group("D", 10)], BySum) == [Group("C", 90), Group("B", 30), Group("D", 10)]
  {
    assert [Group("C", 90), Group("D", 10)][1..] == [Group("D", 10)];
    InsertBD();
  }
  lemma SortCD()
    ensures SortDescending([Group("C", 90), Group("D", 10)], BySum) == [Group("C", 90), Group("D", 10)]
  {
    assert [Group("C", 90), Group("D", 10)][1..] == [Group("D", 10)] && [Group("D", 10)][1..] == [];
  }
  lemma SortBCD()
    ensures SortDescending([Group("B", 30), Group("C", 90), Group("D", 10)], BySum)
         == [Group("C", 90), Group("B", 30), Group("D", 10)]
  {
    assert [Group("B", 30), Group("C", 90), Group("D", 10)][1..] == [Group("C", 90), Group("D", 10)];
    SortCD();
    InsertBCD();
  }
  lemma InsertABD()
    ensures Insert(Group("A", 50), [Group("B", 30), Group("D", 10)], BySum) == [Group("A", 50), Group("B", 30), Group("D", 10)]
  {
  }
  lemma InsertACBD()
    ensures Insert(Group("A", 50), [Group("C", 90), Group("B", 30), Group("D", 10)], BySum)
         == [Group("C", 90), Group("A", 50), Group("B", 30), Group("D", 10)]
  {
    assert [Group("C", 90), Group("B", 30), Group("D", 10)][1..] == [Group("B", 30), Group("D", 10)];
    InsertABD();
  }
  lemma SortABCD()
    ensures SortDescending([Group("A", 50), Group("B", 30), Group("C", 90), Group("D", 10)], BySum)
         == [Group("C", 90), Group("A", 50), Group("B", 30), Group("D", 10)]
  {
    assert [Group("A", 50), Group("B", 30), Group("C", 90), Group("D", 10)][1..]
        == [Group("B", 30), Group("C", 90), Group("D", 10)];
    SortBCD();
    InsertACBD();
  }

  /** Ranking the totals A:50, B:30, C:90, D:10 and keeping two gives C then A. */
  lemma TopTwoExample()
    ensures Top([Group("A", 50), Group("B", 30), Group("C", 90), Group("D", 10)], BySum, 2)
         == [Group("C", 90), Group("A", 50)]
  {
    SortABCD();
  }
}
