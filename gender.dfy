/** The gender-imbalance ranking: per academic region the girls and boys of
    the four grades are totalled, turned into percentages, and the regions are
    ranked by the gap between the two percentages. */
module Gender {
  import opened Records
  import opened Grouping
  import opened Ranking

  datatype Majority = Boys | Girls

  /** `abs(a - b)` on float64: NaN if either side is NaN. */
  function AbsDifference(a: Number, b: Number): (d: Number)
    ensures d.NaN? <==> a.NaN? || b.NaN?
    ensures d.Num? ==> d.value >= 0.0 && (d.value == a.value - b.value || d.value == b.value - a.value)
  {
    if a.NaN? || b.NaN? then NaN
    else if a.value >= b.value then Num(a.value - b.value) else Num(b.value - a.value)
  }

  /** `a > b` on float64: false whenever NaN is involved; between two numbers
      it holds exactly when `a` strictly precedes `b` in the descending order. */
  predicate Greater(a: Number, b: Number): (g: bool)
    ensures a.NaN? || b.NaN? ==> !g
    ensures a.Num? && b.Num? ==> (g <==> Precedes(a, b) && !Precedes(b, a))
  {
    a.Num? && b.Num? && a.value > b.value
  }

  /** One row of `region_gender_data`. */
  datatype GenderRow = GenderRow(
    region: string,
    totalGirls: nat,
    totalBoys: nat,
    totalStudents: nat,
    percentageBoys: Number,
    percentageGirls: Number,
    difference: Number,
    majority: Majority)

  /** The columns computed for one region. Summing each grade column per
      region and then adding the four sums gives the same count as summing
      each row's four grades. */
  function GenderRowOf(rows: seq<Row>, region: string): (g: GenderRow)
    ensures g.region == region
    ensures g.totalGirls == SumWhere(rows, Region, region, GirlCount)
    ensures g.totalBoys == SumWhere(rows, Region, region, BoyCount)
    ensures g.totalStudents == g.totalGirls + g.totalBoys
    ensures g.percentageBoys == Percentage(g.totalBoys, g.totalStudents)
    ensures g.percentageGirls == Percentage(g.totalGirls, g.totalStudents)
    ensures g.percentageBoys.NaN? <==> g.totalStudents == 0
    ensures g.percentageGirls.NaN? <==> g.totalStudents == 0
  {
    var girls := SumWhere(rows, Region, region, GirlCount);
    var boys := SumWhere(rows, Region, region, BoyCount);
    var total := girls + boys;
    var pb := Percentage(boys, total);
    var pg := Percentage(girls, total);
    GenderRow(region, girls, boys, total, pb, pg, AbsDifference(pb, pg),
              if Greater(pb, pg) then Boys else Girls)
  }

  /** `region_gender_data`: one row per region of the selected year. */
  function GenderStats(rows: seq<Row>): (r: seq<GenderRow>)
    ensures |r| == |Keys(rows, Region)|
    ensures forall i :: 0 <= i < |r| ==> r[i] == GenderRowOf(rows, Keys(rows, Region)[i])
  {
    var ks := Keys(rows, Region);
    seq(|ks|, i requires 0 <= i < |ks| => GenderRowOf(rows, ks[i]))
  }

  function ByDifference(g: GenderRow): Number {
    g.difference
  }

  /** `sort_values(by='Percentage Difference', ascending=False).head(10)`. */
  function GenderRanking(rows: seq<Row>): (top: seq<GenderRow>)
    ensures |top| <= 10
    ensures multiset(top) <= multiset(GenderStats(rows))
    ensures SortedDescending(top, ByDifference)
  {
    var stats := GenderStats(rows);
    TopSelects(stats, ByDifference, 10);
    Top(stats, ByDifference, 10)
  }

  /** For a positive total, comparing percentages is comparing counts. */
  lemma PercentageMonotone(a: nat, b: nat, t: nat)
    requires a <= t && b <= t && t > 0
    ensures Percentage(a, t).value > Percentage(b, t).value <==> a > b
    ensures Percentage(a, t).value - Percentage(b, t).value == (a as real - b as real) / t as real * 100.0
  {
    var tr := t as real;
    var x, y := a as real / tr, b as real / tr;
    assert x * tr == a as real && y * tr == b as real;
    var z := (a as real - b as real) / tr;
    assert z * tr == a as real - b as real;
    assert (x - y - z) * tr == 0.0;
    assert x - y == z;
    assert a > b ==> a as real / tr > b as real / tr;
    assert b >= a ==> b as real / tr >= a as real / tr;
  }

  /** `d` is |boys - girls| as a percentage of their sum, between 0 and 100. */
  predicate IsGap(d: real, boys: nat, girls: nat) {
    && d * (boys + girls) as real == (if boys >= girls then boys - girls else girls - boys) as real * 100.0
    && 0.0 <= d <= 100.0
  }

  /** Total Students is Total Girls plus Total Boys; the majority is "Boys"
      exactly when there are more boys than girls, so an exact tie, and a
      region with no pupils at all, counts as "Girls"; the difference is NaN
      exactly when the region has no pupils, and otherwise |boys - girls| as a
      percentage of the total, between 0 and 100. */
  lemma GenderRowFacts(rows: seq<Row>, region: string)
    ensures var g := GenderRowOf(rows, region);
            && g.totalStudents == g.totalGirls + g.totalBoys
            && (g.majority == Boys <==> g.totalBoys > g.totalGirls)
            && (g.difference.NaN? <==> g.totalStudents == 0)
            && (g.difference.Num? ==> IsGap(g.difference.value, g.totalBoys, g.totalGirls))
  {
    var w := SumWhere(rows, Region, region, GirlCount);
    var b := SumWhere(rows, Region, region, BoyCount);
    var pb, pg := Percentage(b, b + w), Percentage(w, b + w);
    assert GenderRowOf(rows, region)
        == GenderRow(region, w, b, b + w, pb, pg, AbsDifference(pb, pg), if Greater(pb, pg) then Boys else Girls);
    CountGap(b, w);
  }

  /** The gap and the majority rule on the two counts of a region. */
  lemma CountGap(b: nat, w: nat)
    ensures Greater(Percentage(b, b + w), Percentage(w, b + w)) <==> b > w
    ensures AbsDifference(Percentage(b, b + w), Percentage(w, b + w)).NaN? <==> b + w == 0
    ensures b + w > 0 ==> IsGap(AbsDifference(Percentage(b, b + w), Percentage(w, b + w)).value, b, w)
  {
    var t := b + w;
    if t > 0 {
      PercentageMonotone(b, w, t);
      PercentageMonotone(w, b, t);
      var d := if b >= w then b - w else w - b;
      assert AbsDifference(Percentage(b, t), Percentage(w, t)).value == d as real / t as real * 100.0;
      PercentageBound(d, t);
    }
  }

  /** The tie rule: equal numbers of boys and girls give "Girls" and a zero gap. */
  lemma TieIsGirls(rows: seq<Row>, region: string)
    requires SumWhere(rows, Region, region, BoyCount) == SumWhere(rows, Region, region, GirlCount)
    ensures GenderRowOf(rows, region).majority == Girls
    ensures GenderRowOf(rows, region).totalStudents > 0 ==> GenderRowOf(rows, region).difference == Num(0.0)
  {
    GenderRowFacts(rows, region);
  }

  /** The ranking keeps min(10, number of regions) rows of `region_gender_data`,
      ordered by difference, largest first and NaN last, and no region left out
      has a larger difference than one kept. */
  lemma GenderRankingSelects(rows: seq<Row>)
    ensures |GenderRanking(rows)| == if |GenderStats(rows)| <= 10 then |GenderStats(rows)| else 10
    ensures multiset(GenderRanking(rows)) <= multiset(GenderStats(rows))
    ensures SortedDescending(GenderRanking(rows), ByDifference)
    ensures forall x, y :: x in GenderRanking(rows) && y in multiset(GenderStats(rows)) - multiset(GenderRanking(rows)) ==>
              Precedes(x.difference, y.difference)
  {
    var stats := GenderStats(rows);
    assert GenderRanking(rows) == Top(stats, ByDifference, 10);
    TopSelects(stats, ByDifference, 10);
  }
}
