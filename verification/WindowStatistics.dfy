/**
 What the three statistics of a window are, said of the trips themselves: a column holds one
 optional value a row, and the median, the mean and the rate are stated by counting rows.
 */
module WindowStatistics {
  import opened Base
  import opened Calendar
  import opened Aggregates
  import opened PointInTime
  import opened LookupParity

  type Column = seq<Option<real>>

  ghost function Present(c: Column): set<nat> {
    set i: nat | i < |c| && c[i].Some?
  }

  ghost function Less(c: Column, x: real): set<nat> {
    set i: nat | i < |c| && c[i].Some? && c[i].value < x
  }

  ghost function More(c: Column, x: real): set<nat> {
    set i: nat | i < |c| && c[i].Some? && c[i].value > x
  }

  // ----------------------------------------------------------- the median ---

  /** A value of the column with fewer than half of the values below it and at most half above. */
  ghost predicate IsLowerMiddle(c: Column, x: real) {
    Some(x) in c && 2 * |Less(c, x)| < |Present(c)| && 2 * |More(c, x)| <= |Present(c)|
  }

  ghost predicate IsUpperMiddle(c: Column, x: real) {
    Some(x) in c && 2 * |Less(c, x)| <= |Present(c)| && 2 * |More(c, x)| < |Present(c)|
  }

  ghost predicate IsMedianOf(c: Column, m: real) {
    exists x, y :: IsLowerMiddle(c, x) && IsUpperMiddle(c, y) && m == (x + y) / 2.0
  }

  /** The values of a column, missing ones skipped. */
  function Values(c: Column): seq<real> {
    if c == [] then []
    else Values(c[..|c| - 1]) + if c[|c| - 1].Some? then [c[|c| - 1].value] else []
  }

  /** How many values lie below and above a number. */
  datatype Sides = Sides(below: nat, above: nat) {
    function Plus(s: Sides): Sides {
      Sides(below + s.below, above + s.above)
    }
  }

  function SideOf(r: real, x: real): Sides {
    Sides(if r < x then 1 else 0, if r > x then 1 else 0)
  }

  function SidesOf(s: seq<real>, x: real): Sides {
    if s == [] then Sides(0, 0) else SideOf(s[0], x).Plus(SidesOf(s[1..], x))
  }

  lemma {:induction false} SidesInsert(r: real, s: seq<real>, x: real)
    ensures SidesOf(InsertReal(r, s), x) == SideOf(r, x).Plus(SidesOf(s, x))
  {
    if s == [] || r <= s[0] {
      assert InsertReal(r, s)[1..] == s;
    } else {
      SidesInsert(r, s[1..], x);
      assert InsertReal(r, s)[1..] == InsertReal(r, s[1..]);
    }
  }

  lemma {:induction false} SidesSort(s: seq<real>, x: real)
    ensures SidesOf(SortReals(s), x) == SidesOf(s, x)
  {
    if s != [] {
      SidesSort(s[1..], x);
      SidesInsert(s[0], SortReals(s[1..]), x);
    }
  }

  lemma {:induction false} SidesSnoc(s: seq<real>, r: real, x: real)
    ensures SidesOf(s + [r], x) == SidesOf(s, x).Plus(SideOf(r, x))
  {
    hide SideOf;
    if s == [] {
      assert s + [r] == [r];
      assert [r][1..] == [];
    } else {
      assert (s + [r])[1..] == s[1..] + [r];
      SidesSnoc(s[1..], r, x);
    }
  }

  /** The rows of a column on either side of a number are as many as its values there. */
  lemma {:induction false} SidesAre(c: Column, x: real)
    ensures SidesOf(Values(c), x) == Sides(|Less(c, x)|, |More(c, x)|) && |Values(c)| == |Present(c)|
  {
    if c == [] {
      assert Present(c) == {} && Less(c, x) == {} && More(c, x) == {};
    } else {
      var n := |c| - 1;
      assert c == c[..n] + [c[n]];
      hide Present, Less, More, SidesOf, SideOf;
      SidesAre(c[..n], x);
      PresentSnoc(c[..n], c[n]);
      LessSnoc(c[..n], c[n], x);
      MoreSnoc(c[..n], c[n], x);
      match c[n]
      case Some(r) => SidesSnoc(Values(c[..n]), r, x);
      case None => assert Values(c) == Values(c[..n]);
    }
  }

  lemma LessSnoc(c: Column, v: Option<real>, x: real)
    ensures |Less(c + [v], x)| == |Less(c, x)| + if v.Some? then SideOf(v.value, x).below else 0
  {
    assert Less(c + [v], x) == Less(c, x) + if v.Some? && v.value < x then {|c|} else {};
  }

  lemma MoreSnoc(c: Column, v: Option<real>, x: real)
    ensures |More(c + [v], x)| == |More(c, x)| + if v.Some? then SideOf(v.value, x).above else 0
  {
    assert More(c + [v], x) == More(c, x) + if v.Some? && v.value > x then {|c|} else {};
  }

  lemma {:induction false} ValuesAre(c: Column, x: real)
    ensures x in Values(c) <==> Some(x) in c
  {
    if c != [] {
      ValuesAre(c[..|c| - 1], x);
      assert c == c[..|c| - 1] + [c[|c| - 1]];
    }
  }

  /** In ascending values, at most k lie below the k-th and at most the rest above it. */
  lemma {:induction false} SidesOfSorted(t: seq<real>, k: nat)
    requires SortedReals(t) && k < |t|
    ensures SidesOf(t, t[k]).below <= k && SidesOf(t, t[k]).above <= |t| - 1 - k
  {
    var rest := t[1..];
    assert SortedReals(rest);
    assert SidesOf(t, t[k]) == SideOf(t[0], t[k]).Plus(SidesOf(rest, t[k]));
    assert t[0] <= t[k];
    hide SidesOf;
    if k > 0 {
      hide SortedReals;
      SidesOfSorted(rest, k - 1);
    } else {
      NoneBelow(rest, t[0]);
    }
  }

  lemma {:induction false} NoneBelow(t: seq<real>, x: real)
    requires forall i :: 0 <= i < |t| ==> x <= t[i]
    ensures SidesOf(t, x).below == 0 && SidesOf(t, x).above <= |t|
  {
    if t != [] { NoneBelow(t[1..], x); }
  }

  lemma SortedMember(s: seq<real>, k: nat)
    requires |SortReals(s)| == |s| && k < |s|
    ensures SortReals(s)[k] in s
  {
    SortRealsSorts(s);
    assert SortReals(s)[k] in multiset(SortReals(s));
  }

  /** The k-th of a column's values in ascending order: at most k rows below, the rest above. */
  lemma KthOf(c: Column, k: nat)
    requires |SortReals(Values(c))| == |Present(c)| && k < |Present(c)|
    ensures var x := SortReals(Values(c))[k];
            Some(x) in c && |Less(c, x)| <= k && |More(c, x)| <= |Present(c)| - 1 - k
  {
    hide Values, Less, More, Present, SidesOf, SortReals, SortedReals;
    var s := Values(c);
    var x := SortReals(s)[k];
    SidesAre(c, x);
    SortedMember(s, k);
    ValuesAre(c, x);
    SortRealsSorts(s);
    SidesOfSorted(SortReals(s), k);
    SidesSort(s, x);
  }

  lemma MiddlesOf(c: Column)
    requires Present(c) != {}
    ensures Median(Values(c)).Some?
    ensures exists x, y :: IsLowerMiddle(c, x) && IsUpperMiddle(c, y) && Median(Values(c)) == Some((x + y) / 2.0)
  {
    hide Values, Less, More, Present, SidesOf, SortReals, SortedReals;
    var s := Values(c);
    SidesAre(c, 0.0);
    SortLength(s);
    var n := |s|;
    KthOf(c, (n - 1) / 2);
    KthOf(c, n / 2);
    var x, y := SortReals(s)[(n - 1) / 2], SortReals(s)[n / 2];
    assert IsLowerMiddle(c, x) && IsUpperMiddle(c, y);
    if n % 2 == 1 { assert x == y && (x + x) / 2.0 == x; }
  }

  lemma SmallerSet(a: set<nat>, b: set<nat>)
    requires a <= b
    ensures |a| <= |b|
  {
    assert b == a + (b - a);
  }

  /** Of two numbers, every row is not above the smaller or not below the larger. */
  lemma Straddle(c: Column, x: real, y: real)
    requires x < y
    ensures |Present(c)| <= |Less(c, y)| + |More(c, x)|
  {
    SmallerSet(Present(c), Less(c, y) + More(c, x));
  }

  lemma MiddlesAreUnique(c: Column, x: real, y: real)
    ensures IsLowerMiddle(c, x) && IsLowerMiddle(c, y) ==> x == y
    ensures IsUpperMiddle(c, x) && IsUpperMiddle(c, y) ==> x == y
  {
    hide Less, More, Present;
    if x < y { Straddle(c, x, y); }
    if y < x { Straddle(c, y, x); }
  }

  /**
   The median of a column's values: the mid-point of the value with fewer than half of the
   others below it and the one with fewer than half above it.
   */
  lemma MedianIff(c: Column, m: real)
    ensures Median(Values(c)) == Some(m) <==> IsMedianOf(c, m)
  {
    hide Median, Values, IsLowerMiddle, IsUpperMiddle;
    if Present(c) == {} {
      NothingPresent(c);
    } else {
      MiddlesOf(c);
      var x, y :| IsLowerMiddle(c, x) && IsUpperMiddle(c, y) && Median(Values(c)) == Some((x + y) / 2.0);
      if IsMedianOf(c, m) {
        var u, v :| IsLowerMiddle(c, u) && IsUpperMiddle(c, v) && m == (u + v) / 2.0;
        MiddlesAreUnique(c, x, u);
        MiddlesAreUnique(c, y, v);
      }
    }
  }

  lemma NothingPresent(c: Column)
    requires Present(c) == {}
    ensures Median(Values(c)) == None && forall x :: !IsLowerMiddle(c, x)
  {
    SidesAre(c, 0.0);
  }

  /** Two different rows hold the two values, the lower half not above the one, and so on. */
  ghost predicate IsMidpoint(c: Column, i: nat, j: nat, m: real) {
    && i < |c| && j < |c| && i != j && c[i].Some? && c[j].Some? && c[i].value <= c[j].value
    && m == (c[i].value + c[j].value) / 2.0
    && 2 * |Present(c) - More(c, c[i].value)| >= |Present(c)|
    && 2 * |Present(c) - Less(c, c[j].value)| >= |Present(c)|
  }

  /**
   At most half of the rows lie below the median and at most half above. Of an odd number of
   values it is one; of an even number it is half-way between two rows' values, with half of
   the rows at or below the lower and half at or above the upper.
   */
  lemma MedianIsMiddle(c: Column, m: real)
    requires Median(Values(c)) == Some(m)
    ensures 2 * |Less(c, m)| <= |Present(c)| && 2 * |More(c, m)| <= |Present(c)|
    ensures |Present(c)| % 2 == 1 ==> Some(m) in c
    ensures |Present(c)| % 2 == 0 ==> exists i, j :: IsMidpoint(c, i, j, m)
  {
    hide Median, Values;
    MedianIff(c, m);
    var x, y :| IsLowerMiddle(c, x) && IsUpperMiddle(c, y) && m == (x + y) / 2.0;
    if y < x { Straddle(c, y, x); }
    SmallerSet(Less(c, m), Less(c, y));
    SmallerSet(More(c, m), More(c, x));
    if |Present(c)| % 2 == 1 {
      assert IsLowerMiddle(c, y);
      MiddlesAreUnique(c, x, y);
    } else {
      var i, j := TwoRows(c, x, y);
      Complement(Present(c), More(c, x));
      Complement(Present(c), Less(c, y));
      assert IsMidpoint(c, i, j, m);
    }
  }

  lemma Complement(a: set<nat>, b: set<nat>)
    requires b <= a
    ensures |a - b| == |a| - |b|
  {
    assert a == b + (a - b);
  }

  lemma TwoRows(c: Column, x: real, y: real) returns (i: nat, j: nat)
    requires IsLowerMiddle(c, x) && IsUpperMiddle(c, y) && x <= y && |Present(c)| % 2 == 0
    ensures i < |c| && j < |c| && i != j && c[i] == Some(x) && c[j] == Some(y)
  {
    i :| i < |c| && c[i] == Some(x);
    if x < y {
      j :| j < |c| && c[j] == Some(y);
    } else {
      var others := Less(c, x) + More(c, x) + {i};
      assert |others| <= |Less(c, x)| + |More(c, x)| + 1;
      assert Present(c) - others != {} by {
        if Present(c) <= others { SmallerSet(Present(c), others); }
      }
      j :| j in Present(c) - others;
    }
  }

  // ------------------------------------------------------------- the mean ---

  /** The sum of a column's values, from its first row on. */
  function TotalOf(c: Column): real {
    if c == [] then 0.0 else (if c[0].Some? then c[0].value else 0.0) + TotalOf(c[1..])
  }

  lemma {:induction false} TotalAppends(a: Column, b: Column)
    ensures TotalOf(a + b) == TotalOf(a) + TotalOf(b)
  {
    if a == [] {
      assert a + b == b;
    } else {
      assert (a + b)[1..] == a[1..] + b;
      TotalAppends(a[1..], b);
    }
  }

  lemma {:induction false} SumIsTotal(c: Column)
    ensures Sum(Values(c)) == TotalOf(c)
  {
    if c != [] {
      var n := |c| - 1;
      SumIsTotal(c[..n]);
      assert c == c[..n] + [c[n]];
      TotalAppends(c[..n], [c[n]]);
      assert [c[n]][1..] == [];
      assert TotalOf([c[n]]) == if c[n].Some? then c[n].value else 0.0;
      if c[n].Some? {
        SumSnoc(Values(c[..n]), c[n].value);
      } else {
        assert Values(c) == Values(c[..n]);
      }
    }
  }

  lemma SumSnoc(s: seq<real>, r: real)
    ensures Sum(s + [r]) == Sum(s) + r
  {
    assert (s + [r])[..|s|] == s;
  }

  ghost predicate IsMeanOf(c: Column, m: real) {
    Present(c) != {} && m * (|Present(c)| as real) == TotalOf(c)
  }

  /** Mean times count is the sum, and there is a mean just where there is a value. */
  lemma MeanIff(c: Column, m: real)
    ensures Mean(Values(c)) == Some(m) <==> IsMeanOf(c, m)
  {
    hide Sum, TotalOf, Values, Present, SidesOf;
    SidesAre(c, 0.0);
    SumIsTotal(c);
    if |Present(c)| > 0 { QuotientIff(TotalOf(c), |Present(c)| as real, m); }
  }

  lemma QuotientIff(a: real, b: real, q: real)
    requires b > 0.0
    ensures a / b == q <==> q * b == a
  {
    assert a / b * b == a;
    if q * b == a { assert q == q * b / b; }
  }

  /** Neither the sum nor the count depends on the order of the rows. */
  lemma {:induction false} TotalIgnoresOrder(c: Column, d: Column)
    requires multiset(c) == multiset(d)
    ensures TotalOf(c) == TotalOf(d) && |Present(c)| == |Present(d)|
  {
    if c == [] {
      assert |multiset(d)| == |d|;
      assert d == [];
    } else {
      hide TotalOf, Present;
      var i := SameElsewhere(c, d);
      var rest := d[..i] + d[i + 1..];
      TotalIgnoresOrder(c[1..], rest);
      MovedRow(d, i, rest);
      MovedRow(c, 0, c[1..]);
    }
  }

  lemma SameElsewhere(c: Column, d: Column) returns (i: nat)
    requires c != [] && multiset(c) == multiset(d)
    ensures i < |d| && d[i] == c[0]
    ensures multiset(c[1..]) == multiset(d[..i] + d[i + 1..])
  {
    assert c[0] in multiset(d);
    i :| 0 <= i < |d| && d[i] == c[0];
    var a, b := d[..i], d[i + 1..];
    assert d == a + [c[0]] + b;
    assert c == [c[0]] + c[1..];
    WithoutOne(multiset(c[1..]), multiset(a + b), multiset{c[0]});
  }

  lemma WithoutOne(a: multiset<Option<real>>, b: multiset<Option<real>>, one: multiset<Option<real>>)
    requires one + a == b + one
    ensures a == b
  {
    assert a == (one + a) - one;
    assert b == (b + one) - one;
  }

  lemma MovedRow(d: Column, i: nat, rest: Column)
    requires i < |d| && rest == d[..i] + d[i + 1..]
    ensures TotalOf(d) == TotalOf(rest) + (if d[i].Some? then d[i].value else 0.0)
    ensures |Present(d)| == |Present(rest)| + (if d[i].Some? then 1 else 0)
  {
    assert d == d[..i] + [d[i]] + d[i + 1..];
    TotalAppends(d[..i] + [d[i]], d[i + 1..]);
    TotalAppends(d[..i], [d[i]]);
    TotalAppends(d[..i], d[i + 1..]);
    assert [d[i]][1..] == [];
    PresentAppends(d[..i] + [d[i]], d[i + 1..]);
    PresentAppends(d[..i], [d[i]]);
    PresentAppends(d[..i], d[i + 1..]);
    assert Present([d[i]]) == if d[i].Some? then {0} else {};
  }

  lemma {:induction false} PresentAppends(a: Column, b: Column)
    ensures |Present(a + b)| == |Present(a)| + |Present(b)|
  {
    if b == [] {
      assert a + b == a;
      assert Present(b) == {};
    } else {
      var n := |b| - 1;
      assert a + b == a + b[..n] + [b[n]];
      PresentAppends(a, b[..n]);
      PresentSnoc(a + b[..n], b[n]);
      PresentSnoc(b[..n], b[n]);
      assert b == b[..n] + [b[n]];
    }
  }

  lemma PresentSnoc(a: Column, v: Option<real>)
    ensures |Present(a + [v])| == |Present(a)| + if v.Some? then 1 else 0
  {
    assert Present(a + [v]) == Present(a) + if v.Some? then {|a|} else {};
  }
}
