/** The aggregation behind the three comparison and histogram plots of
    maps_dashboard/plots.py (`hist`, `count`, `mean`): counting, the floor
    filter, normalisation, means, and the category orders derived from the
    variables' dictionaries. The drawing itself is not modelled; each plot
    function returns the data and orders it would hand to the renderer. */
module Plots {
  import opened Base
  import opened Dicts
  import opened Orm
  import opened Plotting

  /* ---------------------------------------------------------------------- */
  /* Counting (`value_counts`) and the floor filter                          */
  /* ---------------------------------------------------------------------- */

  /** The distinct elements of a sequence, each once. */
  function Uniques<T(==,!new)>(s: seq<T>): (r: seq<T>)
    ensures forall x :: x in r <==> x in s
    ensures forall i, j :: 0 <= i < j < |r| ==> r[i] != r[j]
  {
    if s == [] then []
    else
      var rest := Uniques(s[1..]);
      assert forall x :: x in s <==> x == s[0] || x in s[1..] by {
        assert s == [s[0]] + s[1..];
      }
      if s[0] in rest then rest else [s[0]] + rest
  }

  /** Each value of `u` paired with its number of occurrences in `s`. */
  function Tally<T(==)>(s: seq<T>, u: seq<T>): (r: seq<(T, nat)>)
    ensures |r| == |u|
    ensures forall i :: 0 <= i < |u| ==> r[i] == (u[i], Occurrences(s, u[i]))
  {
    if u == [] then [] else [(u[0], Occurrences(s, u[0]))] + Tally(s, u[1..])
  }

  /** `value_counts()`: every value present, once, with its count. (pandas
      sorts them by count; no result here depends on that order.) */
  function ValueCounts<T(==,!new)>(s: seq<T>): seq<(T, nat)>
  {
    Tally(s, Uniques(s))
  }

  /** `counts[counts > floor]`. */
  function AboveFloor<T(==,!new)>(counts: seq<(T, nat)>, floor: int): (r: seq<(T, nat)>)
    ensures IsSubseq(r, counts)
    ensures forall p :: p in r <==> p in counts && p.1 > floor
  {
    if counts == [] then []
    else
      var rest := AboveFloor(counts[1..], floor);
      assert forall p :: p in counts <==> p == counts[0] || p in counts[1..] by {
        assert counts == [counts[0]] + counts[1..];
      }
      if counts[0].1 > floor then
        assert ([counts[0]] + rest)[1..] == rest;
        [counts[0]] + rest
      else
        SubseqOfTail(rest, counts);
        rest
  }

  /** The sum of the counts. */
  function Total<T>(counts: seq<(T, nat)>): nat
  {
    if counts == [] then 0 else counts[0].1 + Total(counts[1..])
  }

  /** Every count is positive, as `value_counts` produces them. */
  ghost predicate Positive<T>(counts: seq<(T, nat)>)
  {
    forall i :: 0 <= i < |counts| ==> counts[i].1 > 0
  }

  /** The counts kept by the floor filter: exactly the values present more
      than `floor` times, each once with its number of occurrences. */
  lemma RetainedCounts<T(!new)>(s: seq<T>, floor: int)
    ensures var r := AboveFloor(ValueCounts(s), floor);
            && (forall p: (T, nat) :: p in r <==> p.0 in s && p.1 == Occurrences(s, p.0) && p.1 > floor)
            && (forall i, j :: 0 <= i < j < |r| ==> r[i].0 != r[j].0)
            && Positive(r)
  {
    RetainedMembers(s, floor);
    RetainedDistinct(s, floor);
    RetainedPositive(s, floor);
  }

  lemma RetainedMembers<T(!new)>(s: seq<T>, floor: int)
    ensures var r := AboveFloor(ValueCounts(s), floor);
            forall p: (T, nat) :: p in r <==> p.0 in s && p.1 == Occurrences(s, p.0) && p.1 > floor
  {
    var u := Uniques(s);
    var vc := ValueCounts(s);
    forall p: (T, nat) | p.0 in s && p.1 == Occurrences(s, p.0) && p.1 > floor
      ensures p in vc
    {
      var i :| 0 <= i < |u| && u[i] == p.0;
      assert vc[i] == p;
    }
  }

  lemma RetainedDistinct<T(!new)>(s: seq<T>, floor: int)
    ensures var r := AboveFloor(ValueCounts(s), floor);
            forall i, j :: 0 <= i < j < |r| ==> r[i].0 != r[j].0
  {
    var vc := ValueCounts(s);
    assert forall i, j :: 0 <= i < j < |vc| ==> vc[i].0 != vc[j].0;
    DistinctKeysSubseq(AboveFloor(vc, floor), vc);
  }

  /** The floor filter keeps only positive counts. */
  lemma RetainedPositive<T(!new)>(s: seq<T>, floor: int)
    ensures Positive(AboveFloor(ValueCounts(s), floor))
  {
    var u := Uniques(s);
    var vc := ValueCounts(s);
    var r := AboveFloor(vc, floor);
    forall i | 0 <= i < |r| ensures r[i].1 > 0 {
      assert r[i] in vc;
      var k :| 0 <= k < |vc| && vc[k] == r[i];
      assert u[k] in s;
    }
  }

  lemma {:induction false} DistinctKeysSubseq<T, V>(a: seq<(T, V)>, b: seq<(T, V)>)
    requires IsSubseq(a, b)
    requires forall i, j :: 0 <= i < j < |b| ==> b[i].0 != b[j].0
    ensures forall i, j :: 0 <= i < j < |a| ==> a[i].0 != a[j].0
    decreases |b|
  {
    if a != [] && b != [] {
      if a[0] == b[0] {
        DistinctKeysSubseq(a[1..], b[1..]);
        SubseqMembers(a[1..], b[1..]);
        forall j | 0 < j < |a| ensures a[0].0 != a[j].0 {
          assert a[j] in a[1..];
          assert a[j] in b[1..];
        }
      } else {
        DistinctKeysSubseq(a, b[1..]);
      }
    }
  }

  /** Number of elements of `s` that lie in `keep`. */
  function CountIn<T>(s: seq<T>, keep: set<T>): (n: nat)
    ensures n <= |s|
  {
    if s == [] then 0 else (if s[0] in keep then 1 else 0) + CountIn(s[1..], keep)
  }

  lemma {:induction false} CountInSingleton<T>(s: seq<T>, x: T)
    ensures CountIn(s, {x}) == Occurrences(s, x)
  {
    if s != [] {
      CountInSingleton(s[1..], x);
    }
  }

  lemma {:induction false} CountInUnion<T>(s: seq<T>, a: set<T>, b: set<T>)
    requires a !! b
    ensures CountIn(s, a + b) == CountIn(s, a) + CountIn(s, b)
  {
    if s != [] {
      CountInUnion(s[1..], a, b);
    }
  }

  /** The values of `u` that occur in `s` more than `floor` times. */
  ghost function Frequent<T(!new)>(s: seq<T>, u: seq<T>, floor: int): set<T>
  {
    set x | x in u && Occurrences(s, x) > floor
  }

  /** The retained total of a tally over distinct values counts the elements
      whose value is among them and passes the floor. */
  lemma {:induction false} TallyTotal<T(!new)>(s: seq<T>, u: seq<T>, floor: int)
    requires forall i, j :: 0 <= i < j < |u| ==> u[i] != u[j]
    ensures Total(AboveFloor(Tally(s, u), floor)) == CountIn(s, Frequent(s, u, floor))
  {
    if u == [] {
      TallyTotalNil(s, u, floor);
    } else {
      TallyTotal(s, u[1..], floor);
      if Occurrences(s, u[0]) > floor {
        TallyTotalHead(s, u, floor);
      } else {
        TallyTotalSkip(s, u, floor);
      }
    }
  }

  lemma TallyTotalNil<T(!new)>(s: seq<T>, u: seq<T>, floor: int)
    requires u == []
    ensures Total(AboveFloor(Tally(s, u), floor)) == CountIn(s, Frequent(s, u, floor))
  {
    assert Tally(s, u) == [] && AboveFloor(Tally(s, u), floor) == [];
    assert Frequent(s, u, floor) == {};
    CountInEmpty(s, Frequent(s, u, floor));
  }

  lemma TallyTotalSkip<T(!new)>(s: seq<T>, u: seq<T>, floor: int)
    requires u != [] && Occurrences(s, u[0]) <= floor
    ensures Total(AboveFloor(Tally(s, u), floor)) == Total(AboveFloor(Tally(s, u[1..]), floor))
    ensures Frequent(s, u, floor) == Frequent(s, u[1..], floor)
  {
    assert Tally(s, u)[1..] == Tally(s, u[1..]);
    assert forall x :: x in u <==> x == u[0] || x in u[1..] by {
      assert u == [u[0]] + u[1..];
    }
  }

  lemma TallyTotalHead<T(!new)>(s: seq<T>, u: seq<T>, floor: int)
    requires u != [] && Occurrences(s, u[0]) > floor
    requires forall i, j :: 0 <= i < j < |u| ==> u[i] != u[j]
    requires Total(AboveFloor(Tally(s, u[1..]), floor)) == CountIn(s, Frequent(s, u[1..], floor))
    ensures Total(AboveFloor(Tally(s, u), floor)) == CountIn(s, Frequent(s, u, floor))
  {
    var rest := Frequent(s, u[1..], floor);
    TotalKeptHead(s, u, floor);
    FrequentHead(s, u, floor);
    CountInUnion(s, {u[0]}, rest);
    CountInSingleton(s, u[0]);
  }

  lemma TotalKeptHead<T(!new)>(s: seq<T>, u: seq<T>, floor: int)
    requires u != [] && Occurrences(s, u[0]) > floor
    ensures Total(AboveFloor(Tally(s, u), floor)) ==
            Occurrences(s, u[0]) + Total(AboveFloor(Tally(s, u[1..]), floor))
  {
    var t := Tally(s, u);
    assert t[1..] == Tally(s, u[1..]);
    var kept := AboveFloor(t[1..], floor);
    assert AboveFloor(t, floor) == [t[0]] + kept;
    assert ([t[0]] + kept)[1..] == kept;
  }

  lemma FrequentHead<T(!new)>(s: seq<T>, u: seq<T>, floor: int)
    requires u != [] && Occurrences(s, u[0]) > floor
    requires forall i, j :: 0 <= i < j < |u| ==> u[i] != u[j]
    ensures u[0] !in Frequent(s, u[1..], floor)
    ensures Frequent(s, u, floor) == {u[0]} + Frequent(s, u[1..], floor)
  {
    assert forall x :: x in u <==> x == u[0] || x in u[1..] by {
      assert u == [u[0]] + u[1..];
    }
  }

  lemma {:induction false} CountInEmpty<T>(s: seq<T>, keep: set<T>)
    requires keep == {}
    ensures CountIn(s, keep) == 0
  {
    if s != [] {
      CountInEmpty(s[1..], keep);
    }
  }

  /** The retained total is the number of elements whose value occurs more
      than `floor` times. */
  lemma RetainedTotal<T(!new)>(s: seq<T>, floor: int)
    ensures Total(AboveFloor(ValueCounts(s), floor)) == CountIn(s, Frequent(s, s, floor))
  {
    var u := Uniques(s);
    TallyTotal(s, u, floor);
    assert Frequent(s, u, floor) == Frequent(s, s, floor);
  }

  /* ---------------------------------------------------------------------- */
  /* Shares                                                                  */
  /* ---------------------------------------------------------------------- */

  /** Every count divided by `t`. */
  function Scaled<T>(counts: seq<(T, nat)>, t: real): (r: seq<(T, real)>)
    requires t > 0.0
    ensures |r| == |counts|
    ensures forall i :: 0 <= i < |r| ==> r[i].0 == counts[i].0 && r[i].1 == counts[i].1 as real / t
  {
    if counts == [] then [] else [(counts[0].0, counts[0].1 as real / t)] + Scaled(counts[1..], t)
  }

  /** The sum of the shares. */
  function SumShares<T>(shares: seq<(T, real)>): real
  {
    if shares == [] then 0.0 else shares[0].1 + SumShares(shares[1..])
  }

  /** Dividing every count by `t` divides their sum by `t`. */
  lemma {:induction false} ScaledSum<T>(counts: seq<(T, nat)>, t: real)
    requires t > 0.0
    ensures SumShares(Scaled(counts, t)) == Total(counts) as real / t
  {
    if counts != [] {
      ScaledSum(counts[1..], t);
      var sc := Scaled(counts, t);
      assert sc[1..] == Scaled(counts[1..], t);
      AddQuotients(counts[0].1 as real, Total(counts[1..]) as real, t);
    }
  }

  lemma AddQuotients(a: real, b: real, t: real)
    requires t > 0.0
    ensures a / t + b / t == (a + b) / t
  {
  }

  /** Each count is at most the total. */
  lemma {:induction false} CountAtMostTotal<T>(counts: seq<(T, nat)>, i: nat)
    requires i < |counts|
    ensures counts[i].1 <= Total(counts)
  {
    if i > 0 {
      CountAtMostTotal(counts[1..], i - 1);
    }
  }

  lemma ShareBounds(c: real, t: real)
    requires 0.0 < c <= t
    ensures 0.0 < c / t <= 1.0
  {
  }

  /** The counts as shares of their total (`x / x.sum()`); no counts, no
      shares. */
  function Proportions<T>(counts: seq<(T, nat)>): (r: seq<(T, real)>)
    ensures |r| == 0 <==> Total(counts) == 0
    ensures Total(counts) > 0 ==> |r| == |counts|
    ensures Total(counts) > 0 ==> forall i :: 0 <= i < |r| ==>
              r[i].0 == counts[i].0 && r[i].1 == counts[i].1 as real / Total(counts) as real
  {
    if Total(counts) == 0 then [] else Scaled(counts, Total(counts) as real)
  }

  /** Shares of positive counts lie in (0, 1] and add up to 1. */
  lemma ProportionsSpec<T>(counts: seq<(T, nat)>)
    requires Positive(counts) && counts != []
    ensures |Proportions(counts)| == |counts|
    ensures forall i :: 0 <= i < |counts| ==> 0.0 < Proportions(counts)[i].1 <= 1.0
    ensures SumShares(Proportions(counts)) == 1.0
  {
    CountAtMostTotal(counts, 0);
    var t := Total(counts) as real;
    var r := Scaled(counts, t);
    assert Proportions(counts) == r;
    forall i | 0 <= i < |counts| ensures 0.0 < r[i].1 <= 1.0 {
      CountAtMostTotal(counts, i);
      ShareBounds(counts[i].1 as real, t);
    }
    ScaledSum(counts, t);
    SelfQuotient(t);
  }

  lemma SelfQuotient(t: real)
    requires t > 0.0
    ensures t / t == 1.0
  {
  }

  /** The first components of a sequence of pairs: the categories of a list
      of counts or shares, or the v1 column of the rows. */
  function Firsts<T, V>(ps: seq<(T, V)>): (r: seq<T>)
    ensures |r| == |ps|
    ensures forall i :: 0 <= i < |ps| ==> r[i] == ps[i].0
  {
    if ps == [] then [] else [ps[0].0] + Firsts(ps[1..])
  }

  /** The second components of a sequence of pairs: the shares of a list of
      shares, or the v2 column of the rows. */
  function Seconds<T, V>(ps: seq<(T, V)>): (r: seq<V>)
    ensures |r| == |ps|
    ensures forall i :: 0 <= i < |ps| ==> r[i] == ps[i].1
  {
    if ps == [] then [] else [ps[0].1] + Seconds(ps[1..])
  }

  /* ---------------------------------------------------------------------- */
  /* hist                                                                    */
  /* ---------------------------------------------------------------------- */

  /** The labels of the rows that have one, in row order: `value_counts`
      leaves out rows whose code has no label. */
  function Present(labels: seq<Option<string>>): (r: seq<string>)
    ensures forall l :: Occurrences(r, l) == Occurrences(labels, Some(l))
    ensures |r| == |labels| - Occurrences(labels, None)
  {
    if labels == [] then []
    else
      var rest := Present(labels[1..]);
      match labels[0]
      case None => rest
      case Some(l) =>
        assert ([l] + rest)[1..] == rest;
        [l] + rest
  }

  /** Lines 24-25: each label of the column with its count, when the count
      exceeds the floor. */
  function HistCounts(labels: seq<Option<string>>, floor: int): seq<(string, nat)>
  {
    AboveFloor(ValueCounts(Present(labels)), floor)
  }

  /** Line 26: the kept counts as shares of their sum. */
  function HistShares(labels: seq<Option<string>>, floor: int): seq<(string, real)>
  {
    Proportions(HistCounts(labels, floor))
  }

  /** hist keeps exactly the labels present more than `floor` times, each once
      with its number of rows. */
  lemma HistRetained(labels: seq<Option<string>>, floor: int)
    ensures var kept := HistCounts(labels, floor);
            && (forall p: (string, nat) :: p in kept <==>
                  Some(p.0) in labels && p.1 == Occurrences(labels, Some(p.0)) && p.1 > floor)
            && (forall i, j :: 0 <= i < j < |kept| ==> kept[i].0 != kept[j].0)
            && Positive(kept)
  {
    RetainedCounts(Present(labels), floor);
  }

  /** The shares lie in (0, 1], are proportional to the counts and add up to
      1 once any label is kept; when none is, there are no bars. */
  lemma HistSharesSpec(labels: seq<Option<string>>, floor: int)
    ensures HistCounts(labels, floor) == [] <==> HistShares(labels, floor) == []
    ensures var kept, shares := HistCounts(labels, floor), HistShares(labels, floor);
            kept != [] ==>
              && |shares| == |kept|
              && (forall i :: 0 <= i < |kept| ==>
                    shares[i].0 == kept[i].0 && 0.0 < shares[i].1 <= 1.0 &&
                    shares[i].1 == kept[i].1 as real / Total(kept) as real)
              && SumShares(shares) == 1.0
  {
    var kept := HistCounts(labels, floor);
    RetainedPositive(Present(labels), floor);
    if kept != [] {
      ProportionsSpec(kept);
    }
  }

  /** The denominator is the number of labelled rows whose label passes the
      floor. It does not depend on the dictionary's keys: rows whose label has
      a negative key stay in it even though the axis hides them, while rows
      with an unmapped code are not in it. */
  lemma HistDenominator(labels: seq<Option<string>>, floor: int)
    ensures Total(HistCounts(labels, floor)) ==
            CountIn(Present(labels), Frequent(Present(labels), Present(labels), floor))
  {
    RetainedTotal(Present(labels), floor);
  }

  /** Lines 28 and 32-33: the dictionary's labels that are among the kept
      categories, without those with a negative key unless `keepna`, in
      dictionary order. */
  function HistOrder(d: Dict<int, string>, kept: seq<string>, keepna: bool): (r: seq<string>)
    requires Valid(d)
    ensures IsSubseq(r, Values(d))
    ensures forall v :: v in r <==>
              exists k :: k in d.entries && d.entries[k] == v && v in kept && (keepna || k >= 0)
  {
    FilteredValues(d, (k: int, v: string) => v in kept, (k: int, v: string) => keepna || k >= 0)
  }

  /** A kept label whose keys are all negative takes part in the shares but
      gets no place on the axis. */
  lemma HistHidesNegativeKeys(d: Dict<int, string>, labels: seq<Option<string>>, floor: int, l: string)
    requires Valid(d)
    requires forall k :: k in d.entries && d.entries[k] == l ==> k < 0
    requires Some(l) in labels && Occurrences(labels, Some(l)) > floor
    ensures l in Firsts(HistShares(labels, floor))
    ensures l !in HistOrder(d, Firsts(HistCounts(labels, floor)), false)
  {
    var kept := HistCounts(labels, floor);
    HistRetained(labels, floor);
    HistSharesSpec(labels, floor);
    assert (l, Occurrences(labels, Some(l))) in kept;
    var i :| 0 <= i < |kept| && kept[i] == (l, Occurrences(labels, Some(l)));
    assert Firsts(HistShares(labels, floor))[i] == l;
  }

  /** The figure width counts distinct share values, not categories: any
      number of equally frequent labels gets the minimum width. */
  lemma HistWidthEqualCounts(labels: seq<Option<string>>, floor: int)
    requires HistCounts(labels, floor) != []
    requires forall i :: 0 <= i < |HistCounts(labels, floor)| ==>
               HistCounts(labels, floor)[i].1 == HistCounts(labels, floor)[0].1
    ensures CalcWidth(Seconds(HistShares(labels, floor))) == 6.0
  {
    var kept, shares := HistCounts(labels, floor), HistShares(labels, floor);
    HistSharesSpec(labels, floor);
    var t := Total(kept) as real;
    var vals := Seconds(shares);
    assert forall i :: 0 <= i < |vals| ==> vals[i] == vals[0];
    ConstantDistinct(vals);
  }

  lemma ConstantDistinct<T>(s: seq<T>)
    requires s != [] && forall i :: 0 <= i < |s| ==> s[i] == s[0]
    ensures Distinct(s) == {s[0]}
  {
    forall x | x in Distinct(s) ensures x == s[0] {
      var i :| 0 <= i < |s| && s[i] == x;
    }
  }

  /** What `hist` hands to the renderer. */
  datatype HistPlot = HistPlot(
    bars: seq<(string, real)>,   // wrapped category and its share
    order: seq<string>,          // wrapped categories in axis order
    title: string,
    width: real)

  /** `hist(data, variable, keepna, floor)` on the relabelled column `labels`
      of `variable`. */
  function Hist(tw: TextWrap, catalog: seq<Variable>, variable: string, labels: seq<Option<string>>,
                keepna: bool, floor: int): (r: Result<HistPlot, Exc>)
    ensures r.Err? <==> FindVariable(catalog, variable).None?
    ensures r.Err? ==> r.error == AttributeError
    ensures r.Ok? ==>
              var shares := HistShares(labels, floor);
              && |r.value.bars| == |shares|
              && (forall i :: 0 <= i < |shares| ==> r.value.bars[i] == (Wrap(tw, shares[i].0), shares[i].1))
              && r.value.order ==
                   Wrapped(tw, HistOrder(GetDict(catalog, variable).value, Firsts(HistCounts(labels, floor)), keepna))
              && r.value.title == NlWrap(tw, GetDescr(catalog, variable).value, 60)
              && r.value.width == CalcWidth(Seconds(shares))
  {
    match GetDict(catalog, variable)
    case Err(e) => Err(e)
    case Ok(d) =>
      var shares := HistShares(labels, floor);
      var order := Wrapped(tw, HistOrder(d, Firsts(HistCounts(labels, floor)), keepna));
      Ok(HistPlot(Bars(tw, shares), order, NlWrap(tw, GetDescr(catalog, variable).value, 60), CalcWidth(Seconds(shares))))
  }

  /** Line 29: every kept label wrapped, with its share. */
  function Bars(tw: TextWrap, shares: seq<(string, real)>): (r: seq<(string, real)>)
    ensures |r| == |shares|
    ensures forall i :: 0 <= i < |shares| ==> r[i] == (Wrap(tw, shares[i].0), shares[i].1)
  {
    if shares == [] then [] else [(Wrap(tw, shares[0].0), shares[0].1)] + Bars(tw, shares[1..])
  }

  /* ---------------------------------------------------------------------- */
  /* count                                                                   */
  /* ---------------------------------------------------------------------- */

  /** Lines 55-56: the observed (v1 code, v2 code) pairs with their counts,
      when the count exceeds the floor. */
  function CountCells(rows: seq<(int, int)>, floor: int): (r: seq<((int, int), nat)>)
    ensures Positive(r)
  {
    RetainedPositive(rows, floor);
    AboveFloor(ValueCounts(rows), floor)
  }

  /** count keeps exactly the observed pairs present more than `floor` times;
      a pair that never occurs gets no cell. */
  lemma CountRetained(rows: seq<(int, int)>, floor: int)
    ensures var cells := CountCells(rows, floor);
            && (forall c: ((int, int), nat) :: c in cells <==>
                  c.0 in rows && c.1 == Occurrences(rows, c.0) && c.1 > floor)
            && (forall i, j :: 0 <= i < j < |cells| ==> cells[i].0 != cells[j].0)
            && Positive(cells)
  {
    RetainedCounts(rows, floor);
  }

  /** The cells whose v1 code is `a`. */
  function Group<V>(cells: seq<((int, int), V)>, a: int): seq<((int, int), V)>
  {
    if cells == [] then []
    else (if cells[0].0.0 == a then [cells[0]] else []) + Group(cells[1..], a)
  }

  lemma {:induction false} GroupTotalPositive(all: seq<((int, int), nat)>, i: nat)
    requires Positive(all) && i < |all|
    ensures Total(Group(all, all[i].0.0)) > 0
  {
    var a := all[i].0.0;
    if i > 0 {
      GroupTotalPositive(all[1..], i - 1);
      if all[0].0.0 == a {
        assert Group(all, a) == [all[0]] + Group(all[1..], a);
        assert ([all[0]] + Group(all[1..], a))[1..] == Group(all[1..], a);
      } else {
        assert Group(all, a) == Group(all[1..], a);
      }
    } else {
      assert Group(all, a) == [all[0]] + Group(all[1..], a);
      assert ([all[0]] + Group(all[1..], a))[1..] == Group(all[1..], a);
    }
  }

  /** `x / x.sum()` per v1 group, for the cells `cs` of the table `all`. */
  function ByGroup(cs: seq<((int, int), nat)>, all: seq<((int, int), nat)>): (r: seq<((int, int), real)>)
    requires Positive(all)
    requires forall i :: 0 <= i < |cs| ==> cs[i] in all
    ensures |r| == |cs|
    ensures forall i :: 0 <= i < |cs| ==> r[i].0 == cs[i].0
  {
    if cs == [] then []
    else
      var i :| 0 <= i < |all| && all[i] == cs[0];
      GroupTotalPositive(all, i);
      [(cs[0].0, cs[0].1 as real / Total(Group(all, cs[0].0.0)) as real)] + ByGroup(cs[1..], all)
  }

  lemma {:induction false} ByGroupSlice(cs: seq<((int, int), nat)>, all: seq<((int, int), nat)>, a: int)
    requires Positive(all)
    requires forall i :: 0 <= i < |cs| ==> cs[i] in all
    requires Total(Group(all, a)) > 0
    ensures Group(ByGroup(cs, all), a) == Scaled(Group(cs, a), Total(Group(all, a)) as real)
  {
    if cs != [] {
      var t := Total(Group(all, a)) as real;
      ByGroupSlice(cs[1..], all, a);
      var r := ByGroup(cs, all);
      assert r[1..] == ByGroup(cs[1..], all);
      if cs[0].0.0 == a {
        var g := Group(cs, a);
        assert g == [cs[0]] + Group(cs[1..], a);
        assert g[1..] == Group(cs[1..], a);
      }
    }
  }

  /** The counts as reals, unnormalised. */
  function AsReals(cells: seq<((int, int), nat)>): (r: seq<((int, int), real)>)
    ensures |r| == |cells|
    ensures forall i :: 0 <= i < |cells| ==> r[i] == (cells[i].0, cells[i].1 as real)
  {
    if cells == [] then [] else [(cells[0].0, cells[0].1 as real)] + AsReals(cells[1..])
  }

  /** Lines 58-63: without `pst` the counts; with `pst` and `incat` each cell
      as a share of its v1 group; with `pst` alone each cell as a share of the
      grand total. */
  function Normalise(cells: seq<((int, int), nat)>, pst: bool, incat: bool): (r: seq<((int, int), real)>)
    requires Positive(cells)
    ensures |r| == |cells|
    ensures forall i :: 0 <= i < |cells| ==> r[i].0 == cells[i].0
  {
    if !pst then AsReals(cells)
    else if incat then ByGroup(cells, cells)
    else Proportions(cells)
  }

  /** With `pst` alone every cell is divided by the same grand total, so all
      cells add up to 1. */
  lemma CountGlobalShares(cells: seq<((int, int), nat)>)
    requires Positive(cells) && cells != []
    ensures forall i :: 0 <= i < |cells| ==>
              Normalise(cells, true, false)[i].1 == cells[i].1 as real / Total(cells) as real
    ensures SumShares(Normalise(cells, true, false)) == 1.0
  {
    ProportionsSpec(cells);
    CountAtMostTotal(cells, 0);
  }

  /** With `pst` and `incat` the cells of every v1 group add up to 1. */
  lemma CountGroupShares(cells: seq<((int, int), nat)>, i: nat)
    requires Positive(cells) && i < |cells|
    ensures SumShares(Group(Normalise(cells, true, true), cells[i].0.0)) == 1.0
  {
    var a := cells[i].0.0;
    GroupTotalPositive(cells, i);
    var g := Group(cells, a);
    var t := Total(g) as real;
    assert forall j :: 0 <= j < |cells| ==> cells[j] in cells;
    ByGroupSlice(cells, cells, a);
    assert Normalise(cells, true, true) == ByGroup(cells, cells);
    ScaledSum(g, t);
    SelfQuotient(t);
  }

  /** A relabelled set of columns and the dictionaries used, by variable name. */
  datatype Relabelled = Relabelled(columns: seq<seq<Option<string>>>, dicts: map<string, Dict<int, string>>)

  /** Lines 69-72 of count: `data[v] = withmeta(data[v])` and
      `dicts[v] = getdict(v)` for each named column in turn. */
  function LabelColumns(catalog: seq<Variable>, names: seq<string>, columns: seq<seq<int>>): Result<Relabelled, Exc>
    requires |names| == |columns|
    decreases |names|
  {
    if names == [] then Ok(Relabelled([], map[]))
    else
      var n := |names| - 1;
      match LabelColumns(catalog, names[..n], columns[..n])
      case Err(e) => Err(e)
      case Ok(acc) =>
        match WithMeta(catalog, names[n], columns[n])
        case Err(e) => Err(e)
        case Ok(c) => Ok(Relabelled(acc.columns + [c.labels], acc.dicts[names[n] := GetDict(catalog, names[n]).value]))
  }

  /** Relabelling fails, with AttributeError, exactly when some variable is
      unknown. */
  lemma {:induction false} LabelColumnsErr(catalog: seq<Variable>, names: seq<string>, columns: seq<seq<int>>)
    requires |names| == |columns|
    ensures LabelColumns(catalog, names, columns).Err? <==>
            exists i :: 0 <= i < |names| && GetDict(catalog, names[i]).Err?
    ensures LabelColumns(catalog, names, columns).Err? ==>
            LabelColumns(catalog, names, columns).error == AttributeError
    decreases |names|
  {
    if names != [] {
      var n := |names| - 1;
      LabelColumnsErr(catalog, names[..n], columns[..n]);
      UnknownSplit(catalog, names);
    }
  }

  /** Some name is unknown exactly when a name before the last one is or the
      last one is. */
  lemma UnknownSplit(catalog: seq<Variable>, names: seq<string>)
    requires names != []
    ensures var n := |names| - 1;
            (exists i :: 0 <= i < |names| && GetDict(catalog, names[i]).Err?) <==>
            (exists i :: 0 <= i < n && GetDict(catalog, names[..n][i]).Err?) || GetDict(catalog, names[n]).Err?
  {
    var n := |names| - 1;
    if i :| 0 <= i < |names| && GetDict(catalog, names[i]).Err? {
      if i < n {
        assert names[..n][i] == names[i];
      }
    }
    if i :| 0 <= i < n && GetDict(catalog, names[..n][i]).Err? {
      assert names[..n][i] == names[i];
    }
  }

  /** Otherwise each column is relabelled through its own dictionary, which
      is recorded under its name. */
  lemma {:induction false} LabelColumnsOk(catalog: seq<Variable>, names: seq<string>, columns: seq<seq<int>>)
    requires |names| == |columns|
    requires LabelColumns(catalog, names, columns).Ok?
    ensures var r := LabelColumns(catalog, names, columns).value;
            && |r.columns| == |names|
            && (forall n :: n in r.dicts <==> n in names)
            && (forall i :: 0 <= i < |names| ==>
                  && GetDict(catalog, names[i]).Ok?
                  && r.columns[i] == Relabel(columns[i], GetDict(catalog, names[i]).value)
                  && r.dicts[names[i]] == GetDict(catalog, names[i]).value)
    decreases |names|
  {
    if names != [] {
      var n := |names| - 1;
      var acc := LabelColumns(catalog, names[..n], columns[..n]).value;
      var d := GetDict(catalog, names[n]).value;
      var r := LabelColumns(catalog, names, columns).value;
      LabelColumnsOk(catalog, names[..n], columns[..n]);
      var last := Relabel(columns[n], d);
      assert r.columns == acc.columns + [last];
      assert r.dicts == acc.dicts[names[n] := d];
      SplitLast(names);
      SplitLast(columns);
      forall i | 0 <= i < n
        ensures GetDict(catalog, names[i]).Ok?
        ensures r.columns[i] == Relabel(columns[i], GetDict(catalog, names[i]).value)
        ensures r.dicts[names[i]] == GetDict(catalog, names[i]).value
      {
        assert r.columns[i] == acc.columns[i];
      }
    }
  }

  /** A nonempty sequence is its prefix followed by its last element. */
  lemma SplitLast<T>(s: seq<T>)
    requires s != []
    ensures s == s[..|s| - 1] + [s[|s| - 1]]
    ensures forall i :: 0 <= i < |s| - 1 ==> s[..|s| - 1][i] == s[i]
  {
  }

  /** An error in a prefix of the columns is the error of the whole. */
  lemma {:induction false} LabelColumnsPrefixErr(catalog: seq<Variable>, names: seq<string>, columns: seq<seq<int>>, i: nat)
    requires |names| == |columns| && i <= |names|
    requires LabelColumns(catalog, names[..i], columns[..i]).Err?
    ensures LabelColumns(catalog, names, columns) == LabelColumns(catalog, names[..i], columns[..i])
    decreases |names| - i
  {
    if i < |names| {
      assert names[..i + 1][..i] == names[..i] && columns[..i + 1][..i] == columns[..i];
      LabelColumnsPrefixErr(catalog, names, columns, i + 1);
    } else {
      assert names[..i] == names && columns[..i] == columns;
    }
  }

  /** The loop itself. */
  method RelabelColumns(catalog: seq<Variable>, names: seq<string>, columns: seq<seq<int>>)
    returns (r: Result<Relabelled, Exc>)
    requires |names| == |columns|
    ensures r == LabelColumns(catalog, names, columns)
  {
    var labelled: seq<seq<Option<string>>> := [];
    var dicts: map<string, Dict<int, string>> := map[];
    for i := 0 to |names|
      invariant LabelColumns(catalog, names[..i], columns[..i]) == Ok(Relabelled(labelled, dicts))
    {
      assert names[..i + 1][..i] == names[..i] && columns[..i + 1][..i] == columns[..i];
      var c := WithMeta(catalog, names[i], columns[i]);
      if c.Err? {
        LabelColumnsPrefixErr(catalog, names, columns, i + 1);
        return Err(c.error);
      }
      labelled := labelled + [c.value.labels];
      dicts := dicts[names[i] := GetDict(catalog, names[i]).value];
    }
    assert names[..|names|] == names && columns[..|columns|] == columns;
    return Ok(Relabelled(labelled, dicts));
  }

  /** Lines 76-80 and 86: the v1 labels, without negative keys unless
      `keepna`, that occur in the relabelled v1 column, in dictionary order. */
  function CountOrder(d1: Dict<int, string>, x1: seq<Option<string>>, keepna: bool): (r: seq<string>)
    requires Valid(d1)
    ensures IsSubseq(r, Values(d1))
    ensures forall v :: v in r <==>
              exists k :: k in d1.entries && d1.entries[k] == v && (keepna || k >= 0) && Some(v) in x1
  {
    FilteredValues(d1, (k: int, v: string) => keepna || k >= 0, (k: int, v: string) => Some(v) in x1)
  }

  /** Lines 76-78 and 87: the v2 labels, without negative keys unless
      `keepna`, in dictionary order. */
  function HueOrder(d2: Dict<int, string>, keepna: bool): (r: seq<string>)
    requires Valid(d2)
    ensures IsSubseq(r, Values(d2))
    ensures forall v :: v in r <==> exists k :: k in d2.entries && d2.entries[k] == v && (keepna || k >= 0)
  {
    FilteredValues(d2, (k: int, v: string) => keepna || k >= 0, (k: int, v: string) => true)
  }

  /** The two-column case of `LabelColumns` used by `count`. */
  lemma LabelPair(catalog: seq<Variable>, v1: string, v2: string, xs: seq<int>, hues: seq<int>)
    ensures var r := LabelColumns(catalog, [v1, v2], [xs, hues]);
            && (r.Err? <==> GetDict(catalog, v1).Err? || GetDict(catalog, v2).Err?)
            && (r.Err? ==> r.error == AttributeError)
            && (r.Ok? ==>
                  && |r.value.columns| == 2
                  && r.value.columns[0] == Relabel(xs, GetDict(catalog, v1).value)
                  && r.value.columns[1] == Relabel(hues, GetDict(catalog, v2).value)
                  && v1 in r.value.dicts && r.value.dicts[v1] == GetDict(catalog, v1).value
                  && v2 in r.value.dicts && r.value.dicts[v2] == GetDict(catalog, v2).value)
  {
    var names := [v1, v2];
    LabelColumnsErr(catalog, names, [xs, hues]);
    if LabelColumns(catalog, names, [xs, hues]).Ok? {
      LabelColumnsOk(catalog, names, [xs, hues]);
      assert names[0] == v1 && names[1] == v2;
    } else {
      var i :| 0 <= i < 2 && GetDict(catalog, names[i]).Err?;
      assert names[i] == v1 || names[i] == v2;
    }
  }

  /** What `count` hands to the renderer. */
  datatype CountPlot = CountPlot(
    cells: seq<(Option<string>, Option<string>, real)>,   // v1 label, v2 label, value
    order: seq<string>,
    hueOrder: seq<string>,
    ticks: seq<string>,
    title: string,
    legendTitle: string,
    legend: seq<string>,
    width: real)

  /** `count(data, v1, v2, keepna, floor, pst, incat)` on the rows of code
      pairs of the joined frame. */
  function Count(tw: TextWrap, catalog: seq<Variable>, v1: string, v2: string, rows: seq<(int, int)>,
                 keepna: bool, floor: int, pst: bool, incat: bool): (r: Result<CountPlot, Exc>)
    ensures r.Err? <==> FindVariable(catalog, v1).None? || FindVariable(catalog, v2).None?
    ensures r.Err? ==> r.error == AttributeError
    ensures r.Ok? ==>
              var cells := CountCells(rows, floor);
              var keys := Firsts(cells);
              var d1, d2 := GetDict(catalog, v1).value, GetDict(catalog, v2).value;
              r.value == CountFigure(tw, catalog, v1, v2, Relabel(Firsts(keys), d1), Relabel(Seconds(keys), d2),
                                     Seconds(Normalise(cells, pst, incat)), d1, d2, keepna)
  {
    var cells := CountCells(rows, floor);
    var keys := Firsts(cells);
    var xs, hues := Firsts(keys), Seconds(keys);
    LabelPair(catalog, v1, v2, xs, hues);
    match LabelColumns(catalog, [v1, v2], [xs, hues])
    case Err(e) => Err(e)
    case Ok(lab) =>
      Ok(CountFigure(tw, catalog, v1, v2, lab.columns[0], lab.columns[1], Seconds(Normalise(cells, pst, incat)),
                     lab.dicts[v1], lab.dicts[v2], keepna))
  }

  /** What a successful `count` draws: one cell per kept pair of codes with
      both labels and its (normalised) count, the category and hue orders, the
      wrapped ticks, the titles and the width. */
  lemma CountSpec(tw: TextWrap, catalog: seq<Variable>, v1: string, v2: string, rows: seq<(int, int)>,
                  keepna: bool, floor: int, pst: bool, incat: bool)
    requires Count(tw, catalog, v1, v2, rows, keepna, floor, pst, incat).Ok?
    ensures var r := Count(tw, catalog, v1, v2, rows, keepna, floor, pst, incat).value;
            var cells := CountCells(rows, floor);
            var d1, d2 := GetDict(catalog, v1).value, GetDict(catalog, v2).value;
            && |r.cells| == |cells|
            && (forall i :: 0 <= i < |cells| ==>
                  && r.cells[i].0 == (if cells[i].0.0 in d1.entries then Some(d1.entries[cells[i].0.0]) else None)
                  && r.cells[i].1 == (if cells[i].0.1 in d2.entries then Some(d2.entries[cells[i].0.1]) else None)
                  && r.cells[i].2 == Normalise(cells, pst, incat)[i].1)
            && r.order == CountOrder(d1, Relabel(Firsts(Firsts(cells)), d1), keepna)
            && r.hueOrder == HueOrder(d2, keepna)
            && r.ticks == Wrapped(tw, r.order)
            && r.title == NlWrap(tw, GetDescr(catalog, v1).value, 50)
            && r.legendTitle == NlWrap(tw, GetDescr(catalog, v2).value, 20)
            && r.width == CalcWidth(Relabel(Firsts(Firsts(cells)), d1))
  {
    var cells := CountCells(rows, floor);
    var keys := Firsts(cells);
    var r := Count(tw, catalog, v1, v2, rows, keepna, floor, pst, incat).value;
    var d1, d2 := GetDict(catalog, v1).value, GetDict(catalog, v2).value;
    var x1, x2 := Relabel(Firsts(keys), d1), Relabel(Seconds(keys), d2);
    forall i | 0 <= i < |cells|
      ensures r.cells[i].0 == (if cells[i].0.0 in d1.entries then Some(d1.entries[cells[i].0.0]) else None)
      ensures r.cells[i].1 == (if cells[i].0.1 in d2.entries then Some(d2.entries[cells[i].0.1]) else None)
    {
      assert r.cells[i] == (x1[i], x2[i], Seconds(Normalise(cells, pst, incat))[i]);
      assert Firsts(keys)[i] == cells[i].0.0 && Seconds(keys)[i] == cells[i].0.1;
    }
  }

  /** Lines 74-103 of count: the labelled cells, the orders, the wrapped
      ticks and legend, the titles and the width. */
  function CountFigure(tw: TextWrap, catalog: seq<Variable>, v1: string, v2: string,
                       x1: seq<Option<string>>, x2: seq<Option<string>>, shares: seq<real>,
                       d1: Dict<int, string>, d2: Dict<int, string>, keepna: bool): (r: CountPlot)
    requires |x1| == |x2| == |shares|
    requires Valid(d1) && Valid(d2)
    requires GetDescr(catalog, v1).Ok? && GetDescr(catalog, v2).Ok?
    ensures |r.cells| == |x1|
    ensures forall i :: 0 <= i < |x1| ==> r.cells[i] == (x1[i], x2[i], shares[i])
    ensures r.order == CountOrder(d1, x1, keepna)
    ensures r.hueOrder == HueOrder(d2, keepna)
    ensures r.ticks == Wrapped(tw, r.order)
    ensures |r.legend| == |r.hueOrder|
    ensures forall i :: 0 <= i < |r.hueOrder| ==> r.legend[i] == NlWrap(tw, r.hueOrder[i], 15)
    ensures r.title == NlWrap(tw, GetDescr(catalog, v1).value, 50)
    ensures r.legendTitle == NlWrap(tw, GetDescr(catalog, v2).value, 20)
    ensures r.width == CalcWidth(x1)
  {
    var order, hueOrder := CountOrder(d1, x1, keepna), HueOrder(d2, keepna);
    CountPlot(LabelledCells(x1, x2, shares), order, hueOrder, Wrapped(tw, order),
              NlWrap(tw, GetDescr(catalog, v1).value, 50), NlWrap(tw, GetDescr(catalog, v2).value, 20),
              Legend(tw, hueOrder), CalcWidth(x1))
  }

  /** The rows of the reset frame: both labels and the value of each cell. */
  function LabelledCells(x1: seq<Option<string>>, x2: seq<Option<string>>, shares: seq<real>)
    : (r: seq<(Option<string>, Option<string>, real)>)
    requires |x1| == |x2| == |shares|
    ensures |r| == |x1|
    ensures forall i :: 0 <= i < |x1| ==> r[i] == (x1[i], x2[i], shares[i])
  {
    if x1 == [] then [] else [(x1[0], x2[0], shares[0])] + LabelledCells(x1[1..], x2[1..], shares[1..])
  }

  /** Lines 101-102: every legend entry wrapped at 15 characters. */
  function Legend(tw: TextWrap, hueOrder: seq<string>): (r: seq<string>)
    ensures |r| == |hueOrder|
    ensures forall i :: 0 <= i < |hueOrder| ==> r[i] == NlWrap(tw, hueOrder[i], 15)
  {
    if hueOrder == [] then [] else [NlWrap(tw, hueOrder[0], 15)] + Legend(tw, hueOrder[1..])
  }

  /* ---------------------------------------------------------------------- */
  /* mean                                                                    */
  /* ---------------------------------------------------------------------- */

  /** Column `c` (0 for v1, 1 for v2) of a row. */
  function Col(row: (int, int), c: nat): int
  {
    if c == 0 then row.0 else row.1
  }

  /** `data[data[v] > 0]` for column `c`. */
  function KeepPositive(rows: seq<(int, int)>, c: nat): (r: seq<(int, int)>)
    ensures IsSubseq(r, rows)
    ensures forall row :: row in r <==> row in rows && Col(row, c) > 0
  {
    if rows == [] then []
    else
      var rest := KeepPositive(rows[1..], c);
      assert forall row :: row in rows <==> row == rows[0] || row in rows[1..] by {
        assert rows == [rows[0]] + rows[1..];
      }
      if Col(rows[0], c) > 0 then
        assert ([rows[0]] + rest)[1..] == rest;
        [rows[0]] + rest
      else
        SubseqOfTail(rest, rows);
        rest
  }

  /** The rows after the filters for the first `n` columns. */
  function KeepPositiveUpTo(rows: seq<(int, int)>, n: nat): seq<(int, int)>
  {
    if n == 0 then rows else KeepPositive(KeepPositiveUpTo(rows, n - 1), n - 1)
  }

  /** Lines 112-114: the rows whose two codes are both positive, in row order. */
  function PositiveRows(rows: seq<(int, int)>): (r: seq<(int, int)>)
    ensures IsSubseq(r, rows)
    ensures forall row :: row in r <==> row in rows && row.0 > 0 && row.1 > 0
  {
    var once := KeepPositive(rows, 0);
    assert KeepPositiveUpTo(rows, 1) == once;
    var r := KeepPositive(once, 1);
    assert KeepPositiveUpTo(rows, 2) == r;
    SubseqTrans(r, once, rows);
    r
  }

  /** The loop over the two columns. */
  method DropNonPositive(rows: seq<(int, int)>) returns (kept: seq<(int, int)>)
    ensures kept == PositiveRows(rows)
  {
    kept := rows;
    for c := 0 to 2
      invariant kept == KeepPositiveUpTo(rows, c)
    {
      kept := KeepPositive(kept, c);
    }
  }

  /** Smallest and largest value, none for no values (`min()`/`max()`). */
  function Range(ys: seq<int>): (r: Option<(int, int)>)
    ensures r.None? <==> ys == []
    ensures r.Some? ==> r.value.0 in ys && r.value.1 in ys
    ensures r.Some? ==> forall y :: y in ys ==> r.value.0 <= y <= r.value.1
  {
    if ys == [] then None
    else
      match Range(ys[1..])
      case None => Some((ys[0], ys[0]))
      case Some((lo, hi)) =>
        assert forall y :: y in ys <==> y == ys[0] || y in ys[1..] by {
          assert ys == [ys[0]] + ys[1..];
        }
        Some((if ys[0] < lo then ys[0] else lo, if ys[0] > hi then ys[0] else hi))
  }

  /** The v2 values of the rows whose v1 label is `l`. */
  function GroupValues(labels: seq<Option<string>>, ys: seq<int>, l: string): (r: seq<int>)
    requires |labels| == |ys|
    ensures forall y :: y in r ==> y in ys
    ensures |r| == Occurrences(labels, Some(l))
  {
    if ys == [] then []
    else
      var rest := GroupValues(labels[1..], ys[1..], l);
      if labels[0] == Some(l) then [ys[0]] + rest else rest
  }

  function SumInt(ys: seq<int>): int
  {
    if ys == [] then 0 else ys[0] + SumInt(ys[1..])
  }

  /** The arithmetic mean, none for no values. */
  function MeanOf(ys: seq<int>): Option<real>
  {
    if ys == [] then None else Some(SumInt(ys) as real / |ys| as real)
  }

  lemma {:induction false} SumBounds(ys: seq<int>, lo: int, hi: int)
    requires forall y :: y in ys ==> lo <= y <= hi
    ensures |ys| * lo <= SumInt(ys) <= |ys| * hi
  {
    if ys != [] {
      assert forall y :: y in ys[1..] ==> y in ys;
      SumBounds(ys[1..], lo, hi);
      assert ys[0] in ys;
      MulStep(|ys[1..]|, lo);
      MulStep(|ys[1..]|, hi);
    }
  }

  lemma MulStep(n: nat, x: int)
    ensures (n + 1) * x == x + n * x
  {
  }

  /** The mean of values within [lo, hi] lies within [lo, hi]. */
  lemma MeanBetween(ys: seq<int>, lo: int, hi: int)
    requires ys != []
    requires forall y :: y in ys ==> lo <= y <= hi
    ensures lo as real <= MeanOf(ys).value <= hi as real
  {
    SumBounds(ys, lo, hi);
    var n := |ys|;
    CastProduct(n, lo);
    CastProduct(n, hi);
    QuotientBetween(SumInt(ys) as real, n as real, lo as real, hi as real);
  }

  lemma CastProduct(n: int, x: int)
    ensures (n * x) as real == n as real * x as real
  {
  }

  lemma QuotientBetween(s: real, n: real, a: real, b: real)
    requires n > 0.0 && n * a <= s <= n * b
    ensures a <= s / n <= b
  {
    var q := s / n;
    assert q * n == s;
    assert (q - a) * n >= 0.0;
    assert (b - q) * n >= 0.0;
  }

  /** Lines 123-124 and 132: the v1 labels with a positive key unless
      `keepna`, in dictionary order. */
  function MeanOrder(d: Dict<int, string>, keepna: bool): (r: seq<string>)
    requires Valid(d)
    ensures IsSubseq(r, Values(d))
    ensures forall v :: v in r <==> exists k :: k in d.entries && d.entries[k] == v && (keepna || k > 0)
  {
    var keyOk := (k: int, v: string) => keepna || k > 0;
    var r := FilteredValues(d, keyOk, (k: int, v: string) => true);
    assert forall v :: v in r <==> exists k :: k in d.entries && keyOk(k, d.entries[k]) && d.entries[k] == v;
    r
  }

  /** What `mean` hands to the renderer. */
  datatype MeanPlot = MeanPlot(
    order: seq<string>,
    means: seq<Option<real>>,          // one bar per ordered label, none when no row has it
    ylim: (int, int),
    ticks: seq<string>,
    ylabel: string,
    title: string,
    width: real)

  /** The rows `mean` draws: all of them with `keepna`, else the positive ones. */
  function MeanRows(rows: seq<(int, int)>, keepna: bool): seq<(int, int)>
  {
    if keepna then rows else PositiveRows(rows)
  }

  /** The bar heights: for each ordered label the mean v2 value of its rows. */
  function GroupMeans(labels: seq<Option<string>>, ys: seq<int>, order: seq<string>): (r: seq<Option<real>>)
    requires |labels| == |ys|
    ensures |r| == |order|
    ensures forall i :: 0 <= i < |order| ==> r[i] == MeanOf(GroupValues(labels, ys, order[i]))
  {
    if order == [] then [] else [MeanOf(GroupValues(labels, ys, order[0]))] + GroupMeans(labels, ys, order[1..])
  }

  /** Every bar lies between the smallest and the largest v2 value, so the
      y-limits of line 140 never cut a bar off. */
  lemma MeansWithinRange(labels: seq<Option<string>>, ys: seq<int>, order: seq<string>)
    requires |labels| == |ys|
    ensures var means, ylim := GroupMeans(labels, ys, order), Range(ys);
            forall i :: 0 <= i < |means| && means[i].Some? ==>
              ylim.Some? && ylim.value.0 as real <= means[i].value <= ylim.value.1 as real
  {
    var means, ylim := GroupMeans(labels, ys, order), Range(ys);
    forall i | 0 <= i < |means| && means[i].Some?
      ensures ylim.Some? && ylim.value.0 as real <= means[i].value <= ylim.value.1 as real
    {
      var g := GroupValues(labels, ys, order[i]);
      assert g != [] && g[0] in g;
      assert g[0] in ys;
      MeanBetween(g, ylim.value.0, ylim.value.1);
    }
  }

  /** `mean(data, v1, v2, keepna, floor)` on the rows of code pairs of the
      joined frame; `floor` is never read. With no row left, `min()` and
      `max()` of the empty column are NaN and `ylim` rejects them with
      ValueError. */
  function Mean(tw: TextWrap, catalog: seq<Variable>, v1: string, v2: string, rows: seq<(int, int)>,
                keepna: bool, floor: int): (r: Result<MeanPlot, Exc>)
    ensures r.Err? <==> FindVariable(catalog, v1).None? || FindVariable(catalog, v2).None? ||
                        MeanRows(rows, keepna) == []
    ensures FindVariable(catalog, v1).None? || FindVariable(catalog, v2).None? ==> r == Err(AttributeError)
    ensures FindVariable(catalog, v1).Some? && FindVariable(catalog, v2).Some? && MeanRows(rows, keepna) == [] ==>
              r == Err(ValueError)
    ensures r.Ok? ==> r.value.order == MeanOrder(GetDict(catalog, v1).value, keepna)
    ensures r.Ok? ==> |r.value.means| == |r.value.order|
    ensures r.Ok? ==>
              var kept := MeanRows(rows, keepna);
              r.value.means == GroupMeans(WithMeta(catalog, v1, Firsts(kept)).value.labels, Seconds(kept), r.value.order)
    ensures r.Ok? ==> Range(Seconds(MeanRows(rows, keepna))) == Some(r.value.ylim)
    ensures r.Ok? ==> r.value.ticks == Wrapped(tw, r.value.order)
    ensures r.Ok? ==> r.value.title == GetDescr(catalog, v1).value
    ensures r.Ok? ==> r.value.ylabel == NlWrap(tw, GetDescr(catalog, v2).value + " (mean)", 25)
    ensures r.Ok? ==> r.value.width == CalcWidth(WithMeta(catalog, v1, Firsts(MeanRows(rows, keepna))).value.labels)
    ensures r.Ok? ==> forall i :: 0 <= i < |r.value.means| && r.value.means[i].Some? ==>
              r.value.ylim.0 as real <= r.value.means[i].value <= r.value.ylim.1 as real
  {
    var kept := MeanRows(rows, keepna);
    var ys := Seconds(kept);
    match WithMeta(catalog, v1, Firsts(kept))
    case Err(e) => Err(e)
    case Ok(c) =>
      match GetDescr(catalog, v2)
      case Err(e) => Err(e)
      case Ok(v2d) =>
        var order := MeanOrder(GetDict(catalog, v1).value, keepna);
        var means := GroupMeans(c.labels, ys, order);
        MeansWithinRange(c.labels, ys, order);
        match Range(ys)
        case None => Err(ValueError)
        case Some(ylim) =>
          Ok(MeanPlot(order, means, ylim, Wrapped(tw, order), NlWrap(tw, v2d + " (mean)", 25),
                      GetDescr(catalog, v1).value, CalcWidth(c.labels)))
  }
}
