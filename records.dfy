/** The enrollment table as it stands once the semicolon-separated file has
    been read: one row per school and year, the column names of its header,
    the boolean-mask filters applied to it and the `unique()` of a column. */
module Records {

  /** A Python `KeyError`: a dictionary key or a data-frame column that is not there. */
  datatype Error = KeyError(key: string)

  datatype Result<T> = Ok(value: T) | Err(error: Error)

  /** Counts for the four grades of a French middle school: 6e, 5e, 4e, 3e. */
  datatype GradeCounts = GradeCounts(sixth: nat, fifth: nat, fourth: nat, third: nat)

  function GradeSum(g: GradeCounts): nat {
    g.sixth + g.fifth + g.fourth + g.third
  }

  /** One row of the enrollment file. Missing numeric cells count as zero, as
      pandas' `sum()` skips them; a language column that a row has no cell for
      is absent from `languages`. */
  datatype Row = Row(
    year: int,                    // "Rentrée scolaire"
    region: string,               // "Région académique"
    deptCode: string,             // "Code département", after astype(str)
    sector: string,               // "Secteur": "PUBLIC" or "PRIVE"
    girls: GradeCounts,           // "6èmes filles" .. "3èmes filles"
    boys: GradeCounts,            // "6èmes garçons" .. "3èmes garçons"
    students: nat,                // "Nombre d'élèves total"
    languages: map<string, nat>)  // "6èmes LV1 allemand" .. "3èmes LV2 italien" -> count

  /** A data frame: the header's column names and the rows in file order. */
  datatype Table = Table(columns: set<string>, rows: seq<Row>)

  /** The boolean masks the page applies: `data['Rentrée scolaire'] == y`,
      `data['Région académique'] == r` and `data['Secteur'] == s`. */
  datatype Criterion = YearIs(year: int) | RegionIs(region: string) | SectorIs(sector: string)

  predicate Matches(r: Row, c: Criterion) {
    match c
    case YearIs(y) => r.year == y
    case RegionIs(g) => r.region == g
    case SectorIs(s) => r.sector == s
  }

  /** `rows[mask]`: the rows that match, in their original order. */
  function Where(rows: seq<Row>, c: Criterion): (r: seq<Row>)
    ensures |r| <= |rows|
    ensures forall x :: x in r <==> x in rows && Matches(x, c)
  {
    if rows == [] then []
    else (if Matches(rows[0], c) then [rows[0]] else []) + Where(rows[1..], c)
  }

  /** Filtering distributes over concatenation, so it keeps the original order. */
  lemma {:induction false} WhereConcat(a: seq<Row>, b: seq<Row>, c: Criterion)
    ensures Where(a + b, c) == Where(a, c) + Where(b, c)
  {
    if a == [] {
      assert a + b == b;
    } else {
      assert (a + b)[0] == a[0] && (a + b)[1..] == a[1..] + b;
      WhereConcat(a[1..], b, c);
      var head := if Matches(a[0], c) then [a[0]] else [];
      assert Where(a + b, c) == head + (Where(a[1..], c) + Where(b, c));
      assert Where(a, c) == head + Where(a[1..], c);
      assert head + (Where(a[1..], c) + Where(b, c)) == (head + Where(a[1..], c)) + Where(b, c);
    }
  }

  /** Every matching row is kept as often as it occurs, every other row is dropped. */
  lemma {:induction false} WhereMultiset(rows: seq<Row>, c: Criterion, x: Row)
    ensures multiset(Where(rows, c))[x] == if Matches(x, c) then multiset(rows)[x] else 0
  {
    if rows != [] {
      WhereMultiset(rows[1..], c, x);
      var head := if Matches(rows[0], c) then [rows[0]] else [];
      assert rows == [rows[0]] + rows[1..];
      assert multiset(rows) == multiset{rows[0]} + multiset(rows[1..]);
      assert multiset(Where(rows, c)) == multiset(head) + multiset(Where(rows[1..], c));
    }
  }

  /** Filtering again by the same year (or region, or sector) changes nothing. */
  lemma {:induction false} WhereIdempotent(rows: seq<Row>, c: Criterion)
    ensures Where(Where(rows, c), c) == Where(rows, c)
  {
    if rows != [] {
      var head := if Matches(rows[0], c) then [rows[0]] else [];
      WhereConcat(head, Where(rows[1..], c), c);
      WhereIdempotent(rows[1..], c);
    }
  }

  /** The year filter and the region filter may be applied in either order. */
  lemma {:induction false} WhereCommutes(rows: seq<Row>, c: Criterion, d: Criterion)
    ensures Where(Where(rows, c), d) == Where(Where(rows, d), c)
  {
    if rows != [] {
      var hc := if Matches(rows[0], c) then [rows[0]] else [];
      var hd := if Matches(rows[0], d) then [rows[0]] else [];
      WhereConcat(hc, Where(rows[1..], c), d);
      WhereConcat(hd, Where(rows[1..], d), c);
      WhereCommutes(rows[1..], c, d);
    }
  }

  predicate NoDuplicates<T(==)>(s: seq<T>) {
    forall i, j :: 0 <= i < j < |s| ==> s[i] != s[j]
  }

  /** The position where `x` first occurs in `s`. */
  function FirstIndex<T(==)>(s: seq<T>, x: T): (k: nat)
    requires x in s
    ensures k < |s| && s[k] == x && x !in s[..k]
  {
    if s[0] == x then 0 else 1 + FirstIndex(s[1..], x)
  }

  /** `Series.unique()`: each value once, in order of first appearance. */
  function Unique<T(==)>(s: seq<T>): (u: seq<T>)
    ensures forall i :: 0 <= i < |s| ==> s[i] in u
    ensures forall i :: 0 <= i < |u| ==> u[i] in s
    ensures NoDuplicates(u)
  {
    if s == [] then []
    else
      var u := Unique(s[..|s| - 1]);
      if s[|s| - 1] in u then u else u + [s[|s| - 1]]
  }

  lemma {:induction false} FirstIndexInPrefix<T>(s: seq<T>, n: nat, x: T)
    requires n <= |s| && x in s[..n]
    ensures FirstIndex(s, x) == FirstIndex(s[..n], x)
  {
    if s[0] != x {
      assert s[..n][1..] == s[1..][..n - 1];
      FirstIndexInPrefix(s[1..], n - 1, x);
    }
  }

  /** The values of `unique()` are listed in the order in which they first occur. */
  lemma {:induction false} UniqueFirstAppearance<T>(s: seq<T>)
    ensures forall i, j :: 0 <= i < j < |Unique(s)| ==>
              FirstIndex(s, Unique(s)[i]) < FirstIndex(s, Unique(s)[j])
  {
    if s != [] {
      var p := s[..|s| - 1];
      var u := Unique(p);
      var last := s[|s| - 1];
      UniqueFirstAppearance(p);
      forall i | 0 <= i < |u| ensures FirstIndex(s, u[i]) == FirstIndex(p, u[i]) < |p| {
        FirstIndexInPrefix(s, |s| - 1, u[i]);
      }
      if last !in u {
        FirstIndexOfNew(s);
        var v := u + [last];
        assert Unique(s) == v;
        forall i, j | 0 <= i < j < |v| ensures FirstIndex(s, v[i]) < FirstIndex(s, v[j]) {
          assert v[i] == u[i];
          if j < |u| {
            assert v[j] == u[j];
          }
        }
      }
    }
  }

  /** A value first seen at the end of `s` has its first index there. */
  lemma FirstIndexOfNew<T>(s: seq<T>)
    requires s != [] && s[|s| - 1] !in Unique(s[..|s| - 1])
    ensures FirstIndex(s, s[|s| - 1]) == |s| - 1
  {
    var p := s[..|s| - 1];
    var last := s[|s| - 1];
    assert forall k | 0 <= k < |p| :: p[k] in Unique(p);
    assert forall k | 0 <= k < |p| :: s[k] == p[k] && s[k] != last;
    var f := FirstIndex(s, last);
    assert s[f] == last;
  }

  function YearColumn(rows: seq<Row>): (ys: seq<int>)
    ensures |ys| == |rows|
    ensures forall i :: 0 <= i < |rows| ==> ys[i] == rows[i].year
  {
    seq(|rows|, i requires 0 <= i < |rows| => rows[i].year)
  }

  /** `data['Rentrée scolaire'].unique()`, the choices of the year selector. */
  function Years(rows: seq<Row>): (ys: seq<int>)
    ensures forall i :: 0 <= i < |rows| ==> rows[i].year in ys
    ensures forall k :: 0 <= k < |ys| ==> exists i :: 0 <= i < |rows| && rows[i].year == ys[k]
    ensures NoDuplicates(ys)
  {
    assert forall i :: 0 <= i < |rows| ==> rows[i].year == YearColumn(rows)[i];
    Unique(YearColumn(rows))
  }

  /** A year is offered by the selector exactly when filtering by it keeps some row. */
  lemma YearsCoverRows(rows: seq<Row>, y: int)
    ensures y in Years(rows) <==> Where(rows, YearIs(y)) != []
  {
    if y in Years(rows) {
      var i :| 0 <= i < |rows| && YearColumn(rows)[i] == y;
      assert rows[i] in Where(rows, YearIs(y));
    }
  }
}
