/** `groupby(key)[field].sum()` over the rows of one year: by academic region,
    by department code or by sector, summing the student total or the girls'
    or boys' counts. */
module Grouping {
  import opened Records

  /** The column a `groupby` is keyed on. */
  datatype Key = Region | Department | Sector

  /** The numeric field a group-by sums: "Nombre d'élèves total", or the four
      grades' girls or boys columns added together. */
  datatype Measure = Students | GirlCount | BoyCount

  function KeyOf(r: Row, key: Key): string {
    match key
    case Region => r.region
    case Department => r.deptCode
    case Sector => r.sector
  }

  function Value(r: Row, m: Measure): nat {
    match m
    case Students => r.students
    case GirlCount => GradeSum(r.girls)
    case BoyCount => GradeSum(r.boys)
  }

  function KeyColumn(rows: seq<Row>, key: Key): (ks: seq<string>)
    ensures |ks| == |rows|
    ensures forall i :: 0 <= i < |rows| ==> ks[i] == KeyOf(rows[i], key)
  {
    seq(|rows|, i requires 0 <= i < |rows| => KeyOf(rows[i], key))
  }

  /** The distinct keys, one per group, in order of first appearance. */
  function Keys(rows: seq<Row>, key: Key): seq<string> {
    Unique(KeyColumn(rows, key))
  }

  /** Reference definition: the sum of `m` over the rows whose key is `k`. */
  function SumWhere(rows: seq<Row>, key: Key, k: string, m: Measure): nat {
    if rows == [] then 0
    else
      var last := rows[|rows| - 1];
      SumWhere(rows[..|rows| - 1], key, k, m) + (if KeyOf(last, key) == k then Value(last, m) else 0)
  }

  /** The sum of `m` over all rows. */
  function Total(rows: seq<Row>, m: Measure): nat {
    if rows == [] then 0 else Total(rows[..|rows| - 1], m) + Value(rows[|rows| - 1], m)
  }

  /** A key that no row carries has an empty group. */
  lemma {:induction false} SumWhereAbsent(rows: seq<Row>, key: Key, k: string, m: Measure)
    requires k !in KeyColumn(rows, key)
    ensures SumWhere(rows, key, k, m) == 0
  {
    if rows != [] {
      var p := rows[..|rows| - 1];
      assert KeyColumn(rows, key)[|rows| - 1] == KeyOf(rows[|rows| - 1], key);
      assert forall i :: 0 <= i < |p| ==> KeyColumn(p, key)[i] == KeyColumn(rows, key)[i];
      SumWhereAbsent(p, key, k, m);
    }
  }

  /** The group-by as one pass over the rows, adding each row into the bucket
      of its key: exactly the keys present, each holding the sum over its rows. */
  function GroupSum(rows: seq<Row>, key: Key, m: Measure): (g: map<string, nat>)
    ensures forall k :: k in g <==> k in KeyColumn(rows, key)
    ensures forall k :: k in g ==> g[k] == SumWhere(rows, key, k, m)
  {
    if rows == [] then map[]
    else
      var p := rows[..|rows| - 1];
      var g := GroupSum(p, key, m);
      var last := rows[|rows| - 1];
      var k := KeyOf(last, key);
      assert KeyColumn(rows, key) == KeyColumn(p, key) + [k];
      if k in g then
        g[k := g[k] + Value(last, m)]
      else
        SumWhereAbsent(p, key, k, m);
        g[k := Value(last, m)]
  }

  /** A group row of the frame that `reset_index()` returns. */
  datatype Group = Group(key: string, sum: nat)

  function GroupRows(g: map<string, nat>, ks: seq<string>): (r: seq<Group>)
    requires forall i :: 0 <= i < |ks| ==> ks[i] in g
    ensures |r| == |ks|
    ensures forall i :: 0 <= i < |ks| ==> r[i] == Group(ks[i], g[ks[i]])
  {
    if ks == [] then [] else [Group(ks[0], g[ks[0]])] + GroupRows(g, ks[1..])
  }

  /** `data.groupby(key)[m].sum().reset_index()`: one row per distinct key
      present in the data, holding the sum over the rows with that key. */
  function Aggregate(rows: seq<Row>, key: Key, m: Measure): (r: seq<Group>)
    ensures forall i, j :: 0 <= i < j < |r| ==> r[i].key != r[j].key
    ensures forall k :: k in KeyColumn(rows, key) <==> exists i :: 0 <= i < |r| && r[i].key == k
    ensures forall i :: 0 <= i < |r| ==> r[i].sum == SumWhere(rows, key, r[i].key, m)
  {
    var g := GroupSum(rows, key, m);
    var ks := Keys(rows, key);
    var r := GroupRows(g, ks);
    GroupRowsCover(r, ks, KeyColumn(rows, key));
    r
  }

  /** Every row's key has a group row. */
  lemma AggregateCovers(rows: seq<Row>, key: Key, m: Measure)
    ensures forall i :: 0 <= i < |rows| ==>
              exists k :: 0 <= k < |Aggregate(rows, key, m)| && Aggregate(rows, key, m)[k].key == KeyOf(rows[i], key)
  {
    var r := Aggregate(rows, key, m);
    forall i | 0 <= i < |rows| ensures exists k :: 0 <= k < |r| && r[k].key == KeyOf(rows[i], key) {
      assert KeyColumn(rows, key)[i] == KeyOf(rows[i], key);
    }
  }

  /** Every group row's key is the key of some row. */
  lemma AggregateFromRows(rows: seq<Row>, key: Key, m: Measure)
    ensures forall k :: 0 <= k < |Aggregate(rows, key, m)| ==>
              exists i :: 0 <= i < |rows| && KeyOf(rows[i], key) == Aggregate(rows, key, m)[k].key
  {
    var r := Aggregate(rows, key, m);
    var column := KeyColumn(rows, key);
    forall k | 0 <= k < |r| ensures exists i :: 0 <= i < |rows| && KeyOf(rows[i], key) == r[k].key {
      var x := r[k].key;
      assert exists j :: 0 <= j < |r| && r[j].key == x;
      assert x in column;
      var i :| 0 <= i < |column| && column[i] == x;
      assert KeyOf(rows[i], key) == x;
    }
  }

  lemma GroupRowsCover(r: seq<Group>, ks: seq<string>, column: seq<string>)
    requires |r| == |ks| && forall i :: 0 <= i < |ks| ==> r[i].key == ks[i]
    requires forall i :: 0 <= i < |column| ==> column[i] in ks
    requires forall i :: 0 <= i < |ks| ==> ks[i] in column
    ensures forall k :: k in column <==> exists i :: 0 <= i < |r| && r[i].key == k
  {
    forall k | k in column ensures exists i :: 0 <= i < |r| && r[i].key == k {
      var j :| 0 <= j < |column| && column[j] == k;
      var i :| 0 <= i < |ks| && ks[i] == k;
      assert r[i].key == k;
    }
  }

  function SumGroups(gs: seq<Group>): nat {
    if gs == [] then 0 else gs[0].sum + SumGroups(gs[1..])
  }

  /** The sum over a list of keys of each key's group sum. */
  function SumOverKeys(rows: seq<Row>, key: Key, ks: seq<string>, m: Measure): nat {
    if ks == [] then 0 else SumWhere(rows, key, ks[0], m) + SumOverKeys(rows, key, ks[1..], m)
  }

  /** Appending a row adds its value to the key list's sum when its key is listed. */
  lemma {:induction false} SumOverKeysSnoc(rows: seq<Row>, r: Row, key: Key, ks: seq<string>, m: Measure)
    requires NoDuplicates(ks)
    ensures SumOverKeys(rows + [r], key, ks, m)
         == SumOverKeys(rows, key, ks, m) + (if KeyOf(r, key) in ks then Value(r, m) else 0)
  {
    assert (rows + [r])[..|rows|] == rows;
    if ks != [] {
      SumOverKeysSnoc(rows, r, key, ks[1..], m);
      assert ks[0] == KeyOf(r, key) ==> KeyOf(r, key) !in ks[1..];
    }
  }

  /** Summing the groups of a list of distinct keys that covers every row counts
      each row exactly once. */
  lemma {:induction false} SumOverKeysPartition(rows: seq<Row>, key: Key, ks: seq<string>, m: Measure)
    requires NoDuplicates(ks)
    requires forall i :: 0 <= i < |rows| ==> KeyOf(rows[i], key) in ks
    ensures SumOverKeys(rows, key, ks, m) == Total(rows, m)
  {
    if rows == [] {
      SumOverKeysEmpty(key, ks, m);
    } else {
      var p := rows[..|rows| - 1];
      var r := rows[|rows| - 1];
      assert rows == p + [r];
      SumOverKeysPartition(p, key, ks, m);
      SumOverKeysSnoc(p, r, key, ks, m);
    }
  }

  lemma {:induction false} SumOverKeysEmpty(key: Key, ks: seq<string>, m: Measure)
    ensures SumOverKeys([], key, ks, m) == 0
  {
    if ks != [] {
      SumOverKeysEmpty(key, ks[1..], m);
    }
  }

  lemma {:induction false} SumGroupRows(rows: seq<Row>, key: Key, ks: seq<string>, m: Measure)
    requires forall i :: 0 <= i < |ks| ==> ks[i] in GroupSum(rows, key, m)
    ensures SumGroups(GroupRows(GroupSum(rows, key, m), ks)) == SumOverKeys(rows, key, ks, m)
  {
    if ks != [] {
      var g := GroupSum(rows, key, m);
      assert GroupRows(g, ks)[1..] == GroupRows(g, ks[1..]);
      SumGroupRows(rows, key, ks[1..], m);
    }
  }

  /** Grouping neither drops nor double-counts a row: the group sums add up to
      the sum over every row. */
  lemma GroupSumConserves(rows: seq<Row>, key: Key, m: Measure)
    ensures SumGroups(Aggregate(rows, key, m)) == Total(rows, m)
  {
    var ks := Keys(rows, key);
    forall i | 0 <= i < |rows| ensures KeyOf(rows[i], key) in ks {
      assert KeyColumn(rows, key)[i] == KeyOf(rows[i], key);
    }
    SumGroupRows(rows, key, ks, m);
    SumOverKeysPartition(rows, key, ks, m);
  }

  /** A row's value is part of the sum of its own group. */
  lemma {:induction false} SumWhereCovers(rows: seq<Row>, key: Key, i: nat, m: Measure)
    requires i < |rows|
    ensures SumWhere(rows, key, KeyOf(rows[i], key), m) >= Value(rows[i], m)
  {
    if i < |rows| - 1 {
      SumWhereCovers(rows[..|rows| - 1], key, i, m);
    }
  }
}
