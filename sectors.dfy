/** The share of private schools per academic region: rows are counted per
    (region, sector), a missing pair counts 0, and the share is
    PRIVE / (PUBLIC + PRIVE) * 100, sorted largest first. */
module Sectors {
  import opened Records
  import opened Grouping
  import opened Ranking

  const Public: string := "PUBLIC"
  const Private: string := "PRIVE"

  /** `groupby(['Région académique', 'Secteur']).size()`, read through
      `unstack(fill_value=0)`: the number of rows (schools) of that region and
      sector, 0 when there is none. */
  function SchoolCount(rows: seq<Row>, region: string, sector: string): (n: nat)
    ensures n <= |rows|
    ensures n == 0 <==> forall i :: 0 <= i < |rows| ==> rows[i].region != region || rows[i].sector != sector
  {
    var both := Where(Where(rows, RegionIs(region)), SectorIs(sector));
    assert forall i :: 0 <= i < |rows| && rows[i].region == region && rows[i].sector == sector ==> rows[i] in both;
    assert both != [] ==> both[0] in rows && both[0].region == region && both[0].sector == sector;
    |both|
  }

  /** `PRIVE / (PUBLIC + PRIVE) * 100` on float64: NaN for 0 / 0. */
  function PrivatePercentage(publicCount: nat, privateCount: nat): (p: Number)
    ensures p.NaN? <==> publicCount + privateCount == 0
    ensures p.Num? ==>
              && p.value * (publicCount + privateCount) as real == privateCount as real * 100.0
              && 0.0 <= p.value <= 100.0
  {
    Percentage(privateCount, publicCount + privateCount)
  }

  /** One row of `schools_percentage`. */
  datatype SectorShare = SectorShare(region: string, publicCount: nat, privateCount: nat, privatePercentage: Number)

  /** The row of `schools_count` for one region: a count is 0 exactly when
      the region has no school of that sector, and the share is NaN exactly
      when it has neither. */
  function ShareOf(rows: seq<Row>, region: string): (r: SectorShare)
    ensures r.region == region
    ensures r.publicCount == SchoolCount(rows, region, Public) && r.privateCount == SchoolCount(rows, region, Private)
    ensures r.privatePercentage == PrivatePercentage(r.publicCount, r.privateCount)
    ensures r.publicCount == 0 <==> forall i :: 0 <= i < |rows| ==> rows[i].region != region || rows[i].sector != Public
    ensures r.privateCount == 0 <==> forall i :: 0 <= i < |rows| ==> rows[i].region != region || rows[i].sector != Private
    ensures r.privatePercentage.NaN? <==>
              forall i :: 0 <= i < |rows| ==> rows[i].region != region || (rows[i].sector != Public && rows[i].sector != Private)
  {
    var pub := SchoolCount(rows, region, Public);
    var priv := SchoolCount(rows, region, Private);
    SectorShare(region, pub, priv, PrivatePercentage(pub, priv))
  }

  /** Whether `unstack` produces a column for the sector: the rows of that
      sector are not empty. */
  predicate HasSector(rows: seq<Row>, sector: string): (b: bool)
    ensures b <==> Where(rows, SectorIs(sector)) != []
  {
    var w := Where(rows, SectorIs(sector));
    assert w != [] ==> w[0] in rows && w[0].sector == sector;
    exists r :: r in rows && r.sector == sector
  }

  function ByShare(s: SectorShare): Number {
    s.privatePercentage
  }

  /** One row per region, in order of first appearance. */
  function Shares(rows: seq<Row>): (r: seq<SectorShare>)
    ensures |r| == |Keys(rows, Region)|
    ensures forall i :: 0 <= i < |r| ==> r[i] == ShareOf(rows, Keys(rows, Region)[i])
  {
    var ks := Keys(rows, Region);
    seq(|ks|, i requires 0 <= i < |ks| => ShareOf(rows, ks[i]))
  }

  /** Lines 292-296 of the page. `schools_count['PRIVE']` is evaluated before
      `schools_count['PUBLIC']`, so a year without any private school raises
      `KeyError('PRIVE')` whatever else is missing. */
  function SectorShares(rows: seq<Row>): (r: Result<seq<SectorShare>>)
    ensures r.Ok? <==> HasSector(rows, Private) && HasSector(rows, Public)
    ensures r.Err? ==> r.error == KeyError(if HasSector(rows, Private) then Public else Private)
    ensures r.Ok? ==> SortedDescending(r.value, ByShare) && multiset(r.value) == multiset(Shares(rows))
  {
    if !HasSector(rows, Private) then Err(KeyError(Private))
    else if !HasSector(rows, Public) then Err(KeyError(Public))
    else Ok(SortDescending(Shares(rows), ByShare))
  }

  /** The share is 0 exactly when the region has public schools and no
      private one, and 100 exactly when it has private schools and no public
      one. */
  lemma PrivatePercentageFacts(publicCount: nat, privateCount: nat)
    ensures PrivatePercentage(publicCount, privateCount) == Num(0.0) <==> publicCount > 0 && privateCount == 0
    ensures PrivatePercentage(publicCount, privateCount) == Num(100.0) <==> privateCount > 0 && publicCount == 0
  {
    var p := PrivatePercentage(publicCount, privateCount);
    var total := (publicCount + privateCount) as real;
    if p.Num? {
      assert p.value * total == privateCount as real * 100.0;
      if p.value == 0.0 {
        assert privateCount == 0;
      }
      if p.value == 100.0 {
        assert 100.0 * total == privateCount as real * 100.0;
        assert publicCount == 0;
      }
      if privateCount == 0 {
        assert p.value * total == 0.0 && total > 0.0;
      }
      if publicCount == 0 {
        assert p.value * total == 100.0 * total && total > 0.0;
      }
    }
  }

  /** Three public schools and one private school give a share of 25.0. */
  lemma QuarterExample()
    ensures PrivatePercentage(3, 1) == Num(25.0)
  {
  }

  /** Counting by sector never counts a row twice, and counts every row of
      the region when all its rows are PUBLIC or PRIVE. */
  lemma {:induction false} SectorCountsSplit(rows: seq<Row>)
    ensures |Where(rows, SectorIs(Public))| + |Where(rows, SectorIs(Private))| <= |rows|
    ensures (forall i :: 0 <= i < |rows| ==> rows[i].sector == Public || rows[i].sector == Private) ==>
              |Where(rows, SectorIs(Public))| + |Where(rows, SectorIs(Private))| == |rows|
  {
    if rows != [] {
      SectorCountsSplit(rows[1..]);
      assert forall i :: 0 <= i < |rows[1..]| ==> rows[1..][i] == rows[i + 1];
    }
  }

  /** A region whose rows are all PUBLIC or PRIVE has a share that is a number,
      and its two counts add up to its number of rows. */
  lemma ShareOfPresentRegion(rows: seq<Row>, region: string)
    requires forall i :: 0 <= i < |rows| ==> rows[i].sector == Public || rows[i].sector == Private
    requires exists i :: 0 <= i < |rows| && rows[i].region == region
    ensures ShareOf(rows, region).publicCount + ShareOf(rows, region).privateCount
         == |Where(rows, RegionIs(region))|
    ensures ShareOf(rows, region).privatePercentage.Num?
  {
    var inRegion := Where(rows, RegionIs(region));
    var i :| 0 <= i < |rows| && rows[i].region == region;
    assert rows[i] in inRegion;
    forall k | 0 <= k < |inRegion| ensures inRegion[k].sector == Public || inRegion[k].sector == Private {
      assert inRegion[k] in rows;
    }
    SectorCountsSplit(inRegion);
  }

  /** The page fails with `KeyError('PRIVE')` when no row of the year is
      private, with `KeyError('PUBLIC')` when some is but none is public, and
      otherwise lists every region once, sorted by private share, largest
      first and NaN last. */
  lemma SectorSharesOutcome(rows: seq<Row>)
    ensures !HasSector(rows, Private) ==> SectorShares(rows) == Err(KeyError(Private))
    ensures HasSector(rows, Private) && !HasSector(rows, Public) ==> SectorShares(rows) == Err(KeyError(Public))
    ensures HasSector(rows, Private) && HasSector(rows, Public) ==>
              && SectorShares(rows).Ok?
              && SortedDescending(SectorShares(rows).value, ByShare)
              && multiset(SectorShares(rows).value) == multiset(Shares(rows))
              && |SectorShares(rows).value| == |Keys(rows, Region)|
  {
    if HasSector(rows, Private) && HasSector(rows, Public) {
      var r := SectorShares(rows).value;
      assert |r| == |multiset(r)| == |multiset(Shares(rows))| == |Shares(rows)|;
    }
  }
}
