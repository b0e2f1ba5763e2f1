/** `sort_values(by=..., ascending=False)` followed by `head(n)`, as the page
    ranks regions by student total, by gender gap and by private-school share. */
module Ranking {

  /** A float64 cell of a computed column: a number, or NaN where a 0/0
      division produced one. Numbers are exact reals here. */
  datatype Number = NaN | Num(value: real)

  /** `part / whole * 100` on float64 counts, where `part` is part of
      `whole`: NaN for 0 / 0, otherwise a value in [0, 100] that, times the
      whole, gives back the part times 100. */
  function Percentage(part: nat, whole: nat): (p: Number)
    requires part <= whole
    ensures p.NaN? <==> whole == 0
    ensures p.Num? ==> p.value * whole as real == part as real * 100.0 && 0.0 <= p.value <= 100.0
  {
    if whole == 0 then NaN
    else
      PercentageBound(part, whole);
      Num(part as real / whole as real * 100.0)
  }

  lemma PercentageBound(d: nat, t: nat)
    requires 0 < t && d <= t
    ensures (d as real / t as real * 100.0) * t as real == d as real * 100.0
    ensures 0.0 <= d as real / t as real * 100.0 <= 100.0
  {
    var q := d as real / t as real;
    assert q * t as real == d as real;
    assert q <= 1.0;
  }

  /** Whether a descending sort may put `a` before `b`: larger values first,
      NaN last (pandas' default `na_position='last'`). */
  predicate Precedes(a: Number, b: Number) {
    b.NaN? || (a.Num? && a.value >= b.value)
  }

  predicate SortedDescending<T>(s: seq<T>, key: T -> Number) {
    forall i, j :: 0 <= i < j < |s| ==> Precedes(key(s[i]), key(s[j]))
  }

  lemma ConsSorted<T>(a: T, t: seq<T>, key: T -> Number)
    requires SortedDescending(t, key)
    requires forall j :: 0 <= j < |t| ==> Precedes(key(a), key(t[j]))
    ensures SortedDescending([a] + t, key)
  {
    var s := [a] + t;
    forall i, j | 0 <= i < j < |s| ensures Precedes(key(s[i]), key(s[j])) {
      if i > 0 {
        assert s[i] == t[i - 1] && s[j] == t[j - 1];
      } else {
        assert s[j] == t[j - 1];
      }
    }
  }

  /** Inserts `x` into a descending sequence, before the first element it may precede. */
  function Insert<T(==)>(x: T, s: seq<T>, key: T -> Number): (r: seq<T>)
    requires SortedDescending(s, key)
    ensures SortedDescending(r, key)
    ensures multiset(r) == multiset(s) + multiset{x}
  {
    if s == [] then [x]
    else if Precedes(key(x), key(s[0])) then
      ConsSorted(x, s, key);
      [x] + s
    else
      assert s == [s[0]] + s[1..];
      var rest := Insert(x, s[1..], key);
      assert forall j :: 0 <= j < |rest| ==> rest[j] in multiset(s[1..]) + multiset{x};
      assert forall j :: 0 <= j < |rest| ==> Precedes(key(s[0]), key(rest[j]));
      ConsSorted(s[0], rest, key);
      [s[0]] + rest
  }

  /** A descending sort: sorted by `key`, larger first and NaN last, and a
      permutation of its input. Among equal keys the order is one admissible
      choice; pandas' default quicksort does not promise any. */
  function SortDescending<T(==)>(s: seq<T>, key: T -> Number): (r: seq<T>)
    ensures SortedDescending(r, key)
    ensures multiset(r) == multiset(s)
  {
    if s == [] then []
    else
      assert s == [s[0]] + s[1..];
      Insert(s[0], SortDescending(s[1..], key), key)
  }

  /** `head(n)`: the first `n` rows, or all of them when there are fewer. */
  function Head<T>(s: seq<T>, n: nat): (h: seq<T>)
    ensures |h| == if |s| <= n then |s| else n
    ensures h == s[..|h|]
  {
    if |s| <= n then s else s[..n]
  }

  /** `sort_values(by=key, ascending=False).head(n)`: min(n, |s|) rows of the
      input, in descending order. Which rows are kept is TopSelects. */
  function Top<T(==)>(s: seq<T>, key: T -> Number, n: nat): (t: seq<T>)
    ensures |t| == if |s| <= n then |s| else n
    ensures SortedDescending(t, key)
    ensures multiset(t) <= multiset(s)
  {
    var sorted := SortDescending(s, key);
    assert |sorted| == |multiset(sorted)| == |multiset(s)| == |s|;
    var h := Head(sorted, n);
    PrefixSorted(sorted, key, |h|);
    PrefixDominates(sorted, key, |h|);
    h
  }

  /** The top `n` holds min(n, |s|) rows of the input, in descending order, and
      no row left out ranks above a row kept. */
  lemma TopSelects<T>(s: seq<T>, key: T -> Number, n: nat)
    ensures |Top(s, key, n)| == if |s| <= n then |s| else n
    ensures SortedDescending(Top(s, key, n), key)
    ensures multiset(Top(s, key, n)) <= multiset(s)
    ensures forall x, y :: x in Top(s, key, n) && y in multiset(s) - multiset(Top(s, key, n)) ==>
              Precedes(key(x), key(y))
  {
    var t := SortDescending(s, key);
    var k := |Top(s, key, n)|;
    assert Top(s, key, n) == t[..k];
    PrefixDominates(t, key, k);
  }

  lemma PrefixSorted<T>(t: seq<T>, key: T -> Number, k: nat)
    requires SortedDescending(t, key) && k <= |t|
    ensures SortedDescending(t[..k], key)
  {
    forall i, j | 0 <= i < j < k ensures Precedes(key(t[..k][i]), key(t[..k][j])) {
      assert t[..k][i] == t[i] && t[..k][j] == t[j];
    }
  }

  /** In a descending sequence, every element of a prefix may precede every
      element after it. */
  lemma PrefixDominates<T>(t: seq<T>, key: T -> Number, k: nat)
    requires SortedDescending(t, key) && k <= |t|
    ensures multiset(t[..k]) <= multiset(t)
    ensures forall x, y :: x in t[..k] && y in multiset(t) - multiset(t[..k]) ==> Precedes(key(x), key(y))
  {
    var r, rest := t[..k], t[k..];
    assert t == r + rest;
    assert multiset(t) == multiset(r) + multiset(rest);
    forall x, y | x in r && y in multiset(t) - multiset(r)
      ensures Precedes(key(x), key(y))
    {
      assert y in rest;
      var i :| 0 <= i < k && r[i] == x;
      var j :| 0 <= j < |rest| && rest[j] == y;
      assert t[i] == x && t[k + j] == y;
    }
  }
}
