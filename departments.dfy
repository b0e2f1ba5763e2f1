/** The department choropleth: department codes are zero-padded to three
    characters on the table side and on the GeoJSON side, the student totals
    are summed per padded code, and each GeoJSON feature is joined to its
    total or to the "Not available" sentinel and given a fill colour. */
module Departments {
  import opened Records
  import opened Grouping

  /** `n` copies of '0'. */
  function Zeros(n: nat): (z: string)
    ensures |z| == n
    ensures forall i :: 0 <= i < n ==> z[i] == '0'
  {
    if n == 0 then "" else "0" + Zeros(n - 1)
  }

  predicate Signed(s: string) {
    |s| > 0 && (s[0] == '+' || s[0] == '-')
  }

  /** Python's `str.zfill(width)`: strings at least `width` long are returned
      as they are; shorter ones get '0's on the left, inserted after a leading
      '+' or '-' sign. */
  function ZFill(s: string, width: nat): (r: string)
    ensures |r| == if |s| >= width then |s| else width
    ensures |s| >= width ==> r == s
  {
    if |s| >= width then s
    else if Signed(s) then [s[0]] + Zeros(width - |s|) + s[1..]
    else Zeros(width - |s|) + s
  }

  function Max(a: nat, b: nat): nat {
    if a >= b then a else b
  }

  /** The padded code is max(width, |s|) long; an unsigned code ends with the
      original string and everything before it is '0'; a code that is already
      long enough is unchanged. */
  lemma ZFillPads(s: string, width: nat)
    ensures |ZFill(s, width)| == Max(width, |s|)
    ensures |s| >= width ==> ZFill(s, width) == s
    ensures !Signed(s) ==>
              ZFill(s, width)[|ZFill(s, width)| - |s|..] == s &&
              forall i :: 0 <= i < |ZFill(s, width)| - |s| ==> ZFill(s, width)[i] == '0'
    ensures Signed(s) && |s| < width ==>
              && ZFill(s, width)[0] == s[0]
              && (forall i :: 1 <= i <= width - |s| ==> ZFill(s, width)[i] == '0')
              && ZFill(s, width)[width - |s| + 1..] == s[1..]
  {
  }

  /** Padding twice is padding once. */
  lemma ZFillIdempotent(s: string, width: nat)
    ensures ZFill(ZFill(s, width), width) == ZFill(s, width)
  {
  }

  /** A leading '0' on an unsigned code shorter than the width makes no
      difference: "1", "01" and "001" all pad to "001". */
  lemma {:induction false} ZFillIgnoresLeadingZero(s: string, width: nat)
    requires |s| < width && !Signed(s)
    ensures ZFill("0" + s, width) == ZFill(s, width)
  {
    var t := "0" + s;
    var n := width - |s|;
    assert t[0] == '0' && |t| == |s| + 1;
    assert ZFill(s, width) == Zeros(n) + s;
    ZerosSplit(n - 1);
    if |t| == width {
      assert ZFill(t, width) == t;
      assert Zeros(n) == "0";
    } else {
      assert ZFill(t, width) == Zeros(n - 1) + t;
      assert Zeros(n - 1) + t == (Zeros(n - 1) + "0") + s;
    }
  }

  lemma {:induction false} ZerosSplit(n: nat)
    ensures Zeros(n) + "0" == Zeros(n + 1)
  {
    if n > 0 {
      ZerosSplit(n - 1);
      assert Zeros(n) + "0" == "0" + (Zeros(n - 1) + "0");
    }
  }

  /** Examples: "1" becomes "001", "2A" becomes "02A", "75" becomes "075",
      "974" stays as it is, and "-1" becomes "-01". */
  lemma ZFillExamples()
    ensures ZFill("1", 3) == "001" && ZFill("2A", 3) == "02A" && ZFill("75", 3) == "075"
    ensures ZFill("974", 3) == "974" && ZFill("-1", 3) == "-01"
  {
    assert Zeros(2) == "00" && Zeros(1) == "0";
  }

  /** The table's "Code département" column after `astype(str).str.zfill(3)`. */
  function PadCodes(rows: seq<Row>): (r: seq<Row>)
    ensures |r| == |rows|
    ensures forall i :: 0 <= i < |rows| ==> r[i] == rows[i].(deptCode := ZFill(rows[i].deptCode, 3))
  {
    seq(|rows|, i requires 0 <= i < |rows| => rows[i].(deptCode := ZFill(rows[i].deptCode, 3)))
  }

  /** The column assignment on `data_filtered`, done in place on the frame's
      rows: every code is padded, every other field is left as it was. */
  method PadCodeColumn(a: array<Row>)
    modifies a
    ensures a[..] == PadCodes(old(a[..]))
  {
    var i := 0;
    while i < a.Length
      invariant 0 <= i <= a.Length
      invariant forall k :: 0 <= k < i ==> a[k] == old(a[k]).(deptCode := ZFill(old(a[k]).deptCode, 3))
      invariant forall k :: i <= k < a.Length ==> a[k] == old(a[k])
    {
      a[i] := a[i].(deptCode := ZFill(a[i].deptCode, 3));
      i := i + 1;
    }
  }

  /** `student_data_dict`: padded department code -> student total. */
  function DepartmentTotals(rows: seq<Row>): (d: map<string, nat>)
    ensures forall k :: k in d ==> |k| >= 3
    ensures forall i :: 0 <= i < |rows| ==> ZFill(rows[i].deptCode, 3) in d
  {
    var p := PadCodes(rows);
    assert forall i :: 0 <= i < |rows| ==> KeyColumn(p, Department)[i] == ZFill(rows[i].deptCode, 3);
    GroupSum(p, Department, Students)
  }

  /** Every key of `student_data_dict` is the padded code of some row, at least
      three characters long, and its value is the sum of the student totals of
      the rows whose code pads to it. */
  lemma DepartmentTotalsKeys(rows: seq<Row>)
    ensures forall k :: k in DepartmentTotals(rows) <==>
              exists i :: 0 <= i < |rows| && ZFill(rows[i].deptCode, 3) == k
    ensures forall k :: k in DepartmentTotals(rows) ==> |k| >= 3
    ensures forall k :: k in DepartmentTotals(rows) ==>
              DepartmentTotals(rows)[k] == SumWhere(PadCodes(rows), Department, k, Students)
  {
    var p := PadCodes(rows);
    forall k ensures k in DepartmentTotals(rows) <==> exists i :: 0 <= i < |rows| && ZFill(rows[i].deptCode, 3) == k {
      if k in DepartmentTotals(rows) {
        var i :| 0 <= i < |p| && KeyColumn(p, Department)[i] == k;
        assert ZFill(rows[i].deptCode, 3) == k;
      }
      if exists i :: 0 <= i < |rows| && ZFill(rows[i].deptCode, 3) == k {
        var i :| 0 <= i < |rows| && ZFill(rows[i].deptCode, 3) == k;
        assert KeyColumn(p, Department)[i] == k;
      }
    }
    forall k | k in DepartmentTotals(rows) ensures |k| >= 3 {
      var i :| 0 <= i < |rows| && ZFill(rows[i].deptCode, 3) == k;
      ZFillPads(rows[i].deptCode, 3);
    }
  }

  /** A GeoJSON feature: its `properties` object ("code", "nom", ...). */
  datatype Feature = Feature(properties: map<string, string>)

  /** The value a feature resolves to: a student total, or "Not available". */
  datatype Resolved = Count(n: nat) | NotAvailable

  /** What the loop computes for one feature: its name, padded code, value,
      fill colour and tooltip. */
  datatype JoinedFeature = JoinedFeature(name: string, code: string, value: Resolved, fill: string, tooltip: string)

  const Black: string := "#000000"

  /** `str()` of a non-negative count: its decimal digits, with no leading
      '0' except for the count 0 itself. */
  function Decimal(n: nat): (s: string)
    ensures |s| >= 1
    ensures forall i :: 0 <= i < |s| ==> '0' <= s[i] <= '9'
    ensures s[0] == '0' <==> n == 0
  {
    if n < 10 then [('0' as int + n) as char]
    else Decimal(n / 10) + [('0' as int + n % 10) as char]
  }

  /** The number that a string of decimal digits spells. */
  function DigitsValue(s: string): nat
    requires forall i :: 0 <= i < |s| ==> '0' <= s[i] <= '9'
  {
    if s == [] then 0
    else DigitsValue(s[..|s| - 1]) * 10 + (s[|s| - 1] as int - '0' as int)
  }

  /** Reading back the digits shown in the tooltip gives the count. */
  lemma {:induction false} DecimalRoundTrip(n: nat)
    ensures DigitsValue(Decimal(n)) == n
  {
    if n >= 10 {
      DecimalRoundTrip(n / 10);
      var s := Decimal(n);
      assert s[..|s| - 1] == Decimal(n / 10);
    }
  }

  /** `{num_students}` in the f-string: `str()` of a total, or the sentinel. */
  function Shown(v: Resolved): (s: string)
    ensures v.Count? ==>
              && |s| >= 1 && (forall i :: 0 <= i < |s| ==> '0' <= s[i] <= '9')
              && DigitsValue(s) == v.n && (s[0] == '0' <==> v.n == 0)
    ensures v.NotAvailable? ==> s == "Not available"
  {
    match v
    case Count(n) =>
      DecimalRoundTrip(n);
      Decimal(n)
    case NotAvailable => "Not available"
  }

  /** The popup text: the name right after the 13-character "Name" label,
      the code right after the 24-character "Department Code" label, and the
      value as shown at the end. */
  function Tooltip(name: string, code: string, v: Resolved): (t: string)
    ensures |t| == 72 + |name| + |code| + |Shown(v)|
    ensures t[13..13 + |name|] == name
    ensures t[41 + |name|..41 + |name| + |code|] == code
    ensures t[|t| - |Shown(v)|..] == Shown(v)
  {
    var head := "<b>Name</b>: " + name;
    var middle := head + "<br>" + "<b>Department Code</b>: " + code;
    var t := middle + "<br>" + "<b>Number of Students</b>: " + Shown(v);
    assert head[13..] == name && middle[41 + |name|..] == code;
    assert t[..|middle|] == middle && middle[..|head|] == head;
    t
  }

  /** One iteration of the feature loop. `feature['properties']['code']` is
      read before `['nom']`, so a feature lacking both fails on "code". The
      colour scale fitted by the choropleth is the parameter `scale`. */
  function JoinFeature(f: Feature, counts: map<string, nat>, scale: nat -> string): (r: Result<JoinedFeature>)
    ensures r.Ok? <==> "code" in f.properties && "nom" in f.properties
    ensures r.Err? ==> r.error == KeyError(if "code" in f.properties then "nom" else "code")
    ensures r.Ok? ==> r.value.code == ZFill(f.properties["code"], 3) && |r.value.code| >= 3
  {
    if "code" !in f.properties then Err(KeyError("code"))
    else if "nom" !in f.properties then Err(KeyError("nom"))
    else
      var code := ZFill(f.properties["code"], 3);
      var v := if code in counts then Count(counts[code]) else NotAvailable;
      var fill := if v != NotAvailable then scale(v.n) else Black;
      Ok(JoinedFeature(f.properties["nom"], code, v, fill, Tooltip(f.properties["nom"], code, v)))
  }

  /** A feature with a code and a name resolves to exactly one value: the total
      for its padded code when the dictionary has that key, "Not available"
      otherwise; the fill is black for "Not available" and the scale's colour
      for a total. */
  lemma JoinFeatureResolves(f: Feature, counts: map<string, nat>, scale: nat -> string)
    ensures JoinFeature(f, counts, scale).Ok? <==> "code" in f.properties && "nom" in f.properties
    ensures JoinFeature(f, counts, scale).Ok? ==>
              var j := JoinFeature(f, counts, scale).value;
              var code := ZFill(f.properties["code"], 3);
              && j.code == code && |j.code| >= 3 && j.name == f.properties["nom"]
              && (j.value == if code in counts then Count(counts[code]) else NotAvailable)
              && (j.value.NotAvailable? ==> j.fill == Black)
              && (j.value.Count? ==> j.fill == scale(j.value.n))
  {
    if "code" in f.properties {
      ZFillPads(f.properties["code"], 3);
    }
  }

  /** With a colour scale that never yields black, a feature is filled black
      exactly when its value is "Not available". */
  lemma BlackIffNotAvailable(f: Feature, counts: map<string, nat>, scale: nat -> string)
    requires forall n :: scale(n) != Black
    requires JoinFeature(f, counts, scale).Ok?
    ensures JoinFeature(f, counts, scale).value.fill == Black
        <==> JoinFeature(f, counts, scale).value.value == NotAvailable
  {
  }

  /** The tooltip of a joined feature shows the feature's "nom", its padded
      code, and the count's digits or "Not available". */
  lemma TooltipContents(f: Feature, counts: map<string, nat>, scale: nat -> string)
    requires JoinFeature(f, counts, scale).Ok?
    ensures var j := JoinFeature(f, counts, scale).value;
            var c := 13 + |j.name| + 4 + 24;
            && j.tooltip[13..13 + |j.name|] == f.properties["nom"]
            && j.tooltip[c..c + |j.code|] == ZFill(f.properties["code"], 3)
            && (j.value.Count? ==> DigitsValue(j.tooltip[|j.tooltip| - |Decimal(j.value.n)|..]) == j.value.n)
            && (j.value.NotAvailable? ==> j.tooltip[|j.tooltip| - 13..] == "Not available")
  {
    var j := JoinFeature(f, counts, scale).value;
    assert j.tooltip == Tooltip(j.name, j.code, j.value);
    assert |Shown(j.value)| == if j.value.Count? then |Decimal(j.value.n)| else 13;
  }

  /** A department with rows in the selected year is never "Not available" on
      the map, whichever width its code has on either side: a feature whose
      code pads to the same string as a row's code resolves to a total that
      includes that row's students. */
  lemma JoinFindsRow(rows: seq<Row>, i: nat, f: Feature, scale: nat -> string)
    requires i < |rows|
    requires "code" in f.properties && "nom" in f.properties
    requires ZFill(f.properties["code"], 3) == ZFill(rows[i].deptCode, 3)
    ensures JoinFeature(f, DepartmentTotals(rows), scale).Ok?
    ensures JoinFeature(f, DepartmentTotals(rows), scale).value.value.Count?
    ensures JoinFeature(f, DepartmentTotals(rows), scale).value.value.n >= rows[i].students
  {
    var p := PadCodes(rows);
    var code := ZFill(rows[i].deptCode, 3);
    assert KeyColumn(p, Department)[i] == code;
    SumWhereCovers(p, Department, i, Students);
  }

  /** The loop over `geojson_deps['features']`: one joined feature per
      feature, in order; the first feature without a "code" or "nom"
      property stops the loop with that `KeyError`. */
  method BuildChoropleth(features: seq<Feature>, counts: map<string, nat>, scale: nat -> string)
    returns (r: Result<seq<JoinedFeature>>)
    ensures r.Ok? <==> forall i :: 0 <= i < |features| ==> JoinFeature(features[i], counts, scale).Ok?
    ensures r.Ok? ==>
              && |r.value| == |features|
              && forall i :: 0 <= i < |features| ==> JoinFeature(features[i], counts, scale) == Ok(r.value[i])
    ensures r.Err? ==>
              exists i :: 0 <= i < |features| && JoinFeature(features[i], counts, scale) == Err(r.error)
                && forall j :: 0 <= j < i ==> JoinFeature(features[j], counts, scale).Ok?
  {
    var joined: seq<JoinedFeature> := [];
    var i := 0;
    while i < |features|
      invariant 0 <= i <= |features|
      invariant |joined| == i
      invariant forall k :: 0 <= k < i ==> JoinFeature(features[k], counts, scale) == Ok(joined[k])
    {
      var j := JoinFeature(features[i], counts, scale);
      if j.Err? {
        return Err(j.error);
      }
      joined := joined + [j.value];
      i := i + 1;
    }
    r := Ok(joined);
  }
}
