/** The web routes of the dashboard: the per-unit aggregation behind the map
    route, the status codes the histogram and comparison routes answer with,
    the comparison plot-type table and the lists on the landing page. */
module App {
  import opened Base
  import opened Orm
  import opened Plotting
  import opened Plots

  /** What a route answers: a picture with its MIME type, a bare status code,
      or an exception that escapes the handler (served as 500). */
  datatype Reply =
    | Image(figure: Figure, mimetype: string)
    | Status(code: int)
    | Raised(error: Exc)

  datatype Figure =
    | HistChart(hist: HistPlot)
    | CountChart(count: CountPlot)
    | MeanChart(mean: MeanPlot)
    | MapChart(units: seq<(GeoUnit, real)>, scale: Option<(int, int)>)

  /** The columns of the `data` table have one value per row. */
  predicate Rectangular(data: map<string, seq<int>>)
  {
    forall a, b :: a in data && b in data ==> |data[a]| == |data[b]|
  }

  /** The rows of two equally long columns side by side. */
  function Zip(xs: seq<int>, ys: seq<int>): (r: seq<(int, int)>)
    requires |xs| == |ys|
    ensures |r| == |xs|
    ensures forall i :: 0 <= i < |xs| ==> r[i] == (xs[i], ys[i])
  {
    if xs == [] then [] else [(xs[0], ys[0])] + Zip(xs[1..], ys[1..])
  }

  /* ---------------------------------------------------------------------- */
  /* resolve_map                                                             */
  /* ---------------------------------------------------------------------- */

  /** A row of `SELECT <variable> AS var, pdet FROM data`. */
  datatype MapRow = MapRow(pdet: int, value: int)

  /** A row of the `geodata` table: a territorial unit and its outline. */
  datatype GeoUnit = GeoUnit(pdet: int, geostring: string)

  /** How the map colours its units: share of rows equal to `arg`, share of
      rows greater than `arg`, or the plain mean. */
  datatype MapMode = Equals | Greater | UnitMean

  /** Lines 76-81: "eq" and "gt" pick a share; every other plot type raises
      the KeyError that selects the mean. */
  function ModeOf(plottype: string): (m: MapMode)
    ensures m == Equals <==> plottype == "eq"
    ensures m == Greater <==> plottype == "gt"
    ensures m == UnitMean <==> plottype != "eq" && plottype != "gt"
  {
    if plottype == "eq" then Equals else if plottype == "gt" then Greater else UnitMean
  }

  /** The `WHERE <variable> > -1` clause: missing-value codes never reach the
      aggregation. */
  function Valued(rows: seq<MapRow>): (r: seq<MapRow>)
    ensures IsSubseq(r, rows)
    ensures forall x :: x in r <==> x in rows && x.value > -1
  {
    if rows == [] then []
    else
      var rest := Valued(rows[1..]);
      assert forall x :: x in rows <==> x == rows[0] || x in rows[1..] by {
        assert rows == [rows[0]] + rows[1..];
      }
      if rows[0].value > -1 then
        assert ([rows[0]] + rest)[1..] == rest;
        [rows[0]] + rest
      else
        SubseqOfTail(rest, rows);
        rest
  }

  /** The query result: unit and value of every row with a value above -1. */
  function MapRows(pdets: seq<int>, values: seq<int>): (r: seq<MapRow>)
    requires |pdets| == |values|
    ensures forall x :: x in r <==> x.value > -1 && exists i :: 0 <= i < |pdets| && pdets[i] == x.pdet && values[i] == x.value
  {
    var all := seq(|pdets|, i requires 0 <= i < |pdets| => MapRow(pdets[i], values[i]));
    assert forall x :: x in all <==> exists i :: 0 <= i < |pdets| && pdets[i] == x.pdet && values[i] == x.value by {
      forall x | x in all
        ensures exists i :: 0 <= i < |pdets| && pdets[i] == x.pdet && values[i] == x.value
      {
        var i :| 0 <= i < |all| && all[i] == x;
      }
      forall x: MapRow, i | 0 <= i < |pdets| && pdets[i] == x.pdet && values[i] == x.value
        ensures x in all
      {
        assert all[i] == x;
      }
    }
    Valued(all)
  }

  /** The values of the rows of unit `p`, in row order (one group of
      `groupby("pdet")`). */
  function UnitValues(rows: seq<MapRow>, p: int): seq<int>
  {
    if rows == [] then []
    else
      var n := |rows| - 1;
      UnitValues(rows[..n], p) + (if rows[n].pdet == p then [rows[n].value] else [])
  }

  /** A unit has a group exactly when some row belongs to it, and its group
      holds values of its own rows only. */
  lemma {:induction false} UnitValuesSpec(rows: seq<MapRow>, p: int)
    ensures UnitValues(rows, p) != [] <==> exists j :: 0 <= j < |rows| && rows[j].pdet == p
    ensures forall y :: y in UnitValues(rows, p) ==>
              exists j :: 0 <= j < |rows| && rows[j].pdet == p && rows[j].value == y
  {
    UnitValuesNonEmpty(rows, p);
    UnitValuesFrom(rows, p);
  }

  lemma UnitValuesNonEmpty(rows: seq<MapRow>, p: int)
    ensures UnitValues(rows, p) != [] <==> exists j :: 0 <= j < |rows| && rows[j].pdet == p
  {
    if UnitValues(rows, p) != [] {
      var j := UnitValuesWitness(rows, p);
    }
    if j :| 0 <= j < |rows| && rows[j].pdet == p {
      UnitValuesHas(rows, p, j);
    }
  }

  /** A nonempty group names one of the unit's rows. */
  lemma {:induction false} UnitValuesWitness(rows: seq<MapRow>, p: int) returns (j: nat)
    requires UnitValues(rows, p) != []
    ensures j < |rows| && rows[j].pdet == p
  {
    var n := |rows| - 1;
    if rows[n].pdet == p {
      j := n;
    } else {
      j := UnitValuesWitness(rows[..n], p);
      assert rows[..n][j] == rows[j];
    }
  }

  /** A unit with a row has a nonempty group. */
  lemma {:induction false} UnitValuesHas(rows: seq<MapRow>, p: int, j: nat)
    requires j < |rows| && rows[j].pdet == p
    ensures UnitValues(rows, p) != []
  {
    var n := |rows| - 1;
    if j < n {
      assert rows[..n][j] == rows[j];
      UnitValuesHas(rows[..n], p, j);
    }
  }

  lemma {:induction false} UnitValuesFrom(rows: seq<MapRow>, p: int)
    ensures forall y :: y in UnitValues(rows, p) ==>
              exists j :: 0 <= j < |rows| && rows[j].pdet == p && rows[j].value == y
  {
    if rows != [] {
      var n := |rows| - 1;
      var prefix := rows[..n];
      UnitValuesFrom(prefix, p);
      forall y | y in UnitValues(rows, p)
        ensures exists j :: 0 <= j < |rows| && rows[j].pdet == p && rows[j].value == y
      {
        if y in UnitValues(prefix, p) {
          var j :| 0 <= j < n && prefix[j].pdet == p && prefix[j].value == y;
          assert rows[j] == prefix[j];
        } else {
          assert rows[n].pdet == p && rows[n].value == y;
        }
      }
    }
  }

  function AllValues(rows: seq<MapRow>): (r: seq<int>)
    ensures |r| == |rows|
    ensures forall j :: 0 <= j < |rows| ==> r[j] == rows[j].value
  {
    if rows == [] then [] else [rows[0].value] + AllValues(rows[1..])
  }

  /** The `isval` column of lines 77 and 79. */
  predicate Hit(m: MapMode, arg: int, y: int)
  {
    match m
    case Equals => y == arg
    case Greater => y > arg
    case UnitMean => false
  }

  /** The `sum` of the `isval` column of one unit. */
  function Hits(ys: seq<int>, m: MapMode, arg: int): (h: nat)
    ensures h <= |ys|
    ensures h == 0 <==> forall y :: y in ys ==> !Hit(m, arg, y)
    ensures h == |ys| <==> forall y :: y in ys ==> Hit(m, arg, y)
  {
    if ys == [] then 0
    else
      assert forall y :: y in ys <==> y == ys[0] || y in ys[1..] by {
        assert ys == [ys[0]] + ys[1..];
      }
      (if Hit(m, arg, ys[0]) then 1 else 0) + Hits(ys[1..], m, arg)
  }

  /** The value a unit is coloured with: `sum / count * 100` of `isval` in the
      share modes (line 90), the mean of its values otherwise (line 93). A
      share lies in [0, 100]; a mean lies between the unit's smallest and
      largest value. */
  function Aggregate(ys: seq<int>, m: MapMode, arg: int): real
    requires ys != []
  {
    if m == UnitMean then MeanOf(ys).value
    else Hits(ys, m, arg) as real / |ys| as real * 100.0
  }

  lemma AggregateSpec(ys: seq<int>, m: MapMode, arg: int)
    requires ys != []
    ensures var v := Aggregate(ys, m, arg);
            && (m != UnitMean ==> 0.0 <= v <= 100.0)
            && (m != UnitMean ==> (v == 0.0 <==> forall y :: y in ys ==> !Hit(m, arg, y)))
            && (m != UnitMean ==> (v == 100.0 <==> forall y :: y in ys ==> Hit(m, arg, y)))
            && (m == UnitMean ==> Range(ys).value.0 as real <= v <= Range(ys).value.1 as real)
  {
    if m == UnitMean {
      MeanBetween(ys, Range(ys).value.0, Range(ys).value.1);
    } else {
      ShareRange(Hits(ys, m, arg), |ys|);
    }
  }

  /** A count out of `n` scaled to a percentage is in [0, 100], and is 0 or
      100 only for none or all. */
  lemma ShareRange(h: nat, n: nat)
    requires 0 < n && h <= n
    ensures 0.0 <= h as real / n as real * 100.0 <= 100.0
    ensures h as real / n as real * 100.0 == 0.0 <==> h == 0
    ensures h as real / n as real * 100.0 == 100.0 <==> h == n
  {
    var q := h as real / n as real;
    assert q * n as real == h as real;
    if h < n {
      assert q < 1.0;
    }
  }

  /** Line 95, `geodata.merge(data, on="pdet")`: each geodata row whose
      unit has data, with the aggregate of that unit. */
  function Merge(geo: seq<GeoUnit>, rows: seq<MapRow>, m: MapMode, arg: int): seq<(GeoUnit, real)>
  {
    if geo == [] then []
    else
      var ys := UnitValues(rows, geo[0].pdet);
      (if ys != [] then [(geo[0], Aggregate(ys, m, arg))] else []) + Merge(geo[1..], rows, m, arg)
  }

  /** The inner merge keeps the geodata rows in their own order, keeps
      exactly the units that have at least one data row, and gives each the
      aggregate of its unit's values. */
  lemma MergeSpec(geo: seq<GeoUnit>, rows: seq<MapRow>, m: MapMode, arg: int)
    ensures var r := Merge(geo, rows, m, arg);
            && IsSubseq(Firsts(r), geo)
            && (forall g :: g in Firsts(r) <==> g in geo && UnitValues(rows, g.pdet) != [])
            && (forall i :: 0 <= i < |r| ==>
                  UnitValues(rows, r[i].0.pdet) != [] && r[i].1 == Aggregate(UnitValues(rows, r[i].0.pdet), m, arg))
  {
    MergeOrder(geo, rows, m, arg);
    MergeMembers(geo, rows, m, arg);
    MergeValues(geo, rows, m, arg);
  }

  lemma {:induction false} MergeOrder(geo: seq<GeoUnit>, rows: seq<MapRow>, m: MapMode, arg: int)
    ensures IsSubseq(Firsts(Merge(geo, rows, m, arg)), geo)
  {
    if geo != [] {
      var rest := Merge(geo[1..], rows, m, arg);
      MergeOrder(geo[1..], rows, m, arg);
      var ys := UnitValues(rows, geo[0].pdet);
      if ys != [] {
        var x := (geo[0], Aggregate(ys, m, arg));
        assert Merge(geo, rows, m, arg) == [x] + rest;
        FirstsCons(x, rest);
      } else {
        assert Merge(geo, rows, m, arg) == rest;
        SubseqOfTail(Firsts(rest), geo);
      }
    }
  }

  lemma {:induction false} MergeMembers(geo: seq<GeoUnit>, rows: seq<MapRow>, m: MapMode, arg: int)
    ensures forall g :: g in Firsts(Merge(geo, rows, m, arg)) <==> g in geo && UnitValues(rows, g.pdet) != []
  {
    if geo != [] {
      var rest := Merge(geo[1..], rows, m, arg);
      MergeMembers(geo[1..], rows, m, arg);
      assert forall g :: g in geo <==> g == geo[0] || g in geo[1..] by {
        assert geo == [geo[0]] + geo[1..];
      }
      var ys := UnitValues(rows, geo[0].pdet);
      if ys != [] {
        var x := (geo[0], Aggregate(ys, m, arg));
        assert Merge(geo, rows, m, arg) == [x] + rest;
        FirstsCons(x, rest);
      } else {
        assert Merge(geo, rows, m, arg) == rest;
      }
    }
  }

  lemma MergeValues(geo: seq<GeoUnit>, rows: seq<MapRow>, m: MapMode, arg: int)
    ensures var r := Merge(geo, rows, m, arg);
            forall i :: 0 <= i < |r| ==>
              UnitValues(rows, r[i].0.pdet) != [] && r[i].1 == Aggregate(UnitValues(rows, r[i].0.pdet), m, arg)
  {
    forall i | 0 <= i < |Merge(geo, rows, m, arg)| {
      MergeAt(geo, rows, m, arg, i);
    }
  }

  lemma {:induction false} MergeAt(geo: seq<GeoUnit>, rows: seq<MapRow>, m: MapMode, arg: int, i: nat)
    requires i < |Merge(geo, rows, m, arg)|
    ensures var u := Merge(geo, rows, m, arg)[i];
            UnitValues(rows, u.0.pdet) != [] && u.1 == Aggregate(UnitValues(rows, u.0.pdet), m, arg)
  {
    var rest := Merge(geo[1..], rows, m, arg);
    var ys := UnitValues(rows, geo[0].pdet);
    if ys != [] {
      var x := (geo[0], Aggregate(ys, m, arg));
      assert Merge(geo, rows, m, arg) == [x] + rest;
      if i > 0 {
        assert Merge(geo, rows, m, arg)[i] == rest[i - 1];
        MergeAt(geo[1..], rows, m, arg, i - 1);
      }
    } else {
      assert Merge(geo, rows, m, arg) == rest;
      MergeAt(geo[1..], rows, m, arg, i);
    }
  }

  lemma FirstsCons<T, V>(x: (T, V), rest: seq<(T, V)>)
    ensures Firsts([x] + rest) == [x.0] + Firsts(rest)
    ensures Firsts([x] + rest)[1..] == Firsts(rest)
  {
    assert ([x] + rest)[1..] == rest;
  }

  /** Every unit on the map is coloured within the scale: [0, 100] in the
      share modes, the smallest and largest value of all rows for the mean. */
  lemma MergeWithinScale(geo: seq<GeoUnit>, rows: seq<MapRow>, m: MapMode, arg: int)
    ensures var units := Merge(geo, rows, m, arg);
            var scale := if m == UnitMean then Range(AllValues(rows)) else Some((0, 100));
            forall i :: 0 <= i < |units| ==>
              scale.Some? && scale.value.0 as real <= units[i].1 <= scale.value.1 as real
  {
    var units := Merge(geo, rows, m, arg);
    MergeSpec(geo, rows, m, arg);
    var all := AllValues(rows);
    forall i | 0 <= i < |units| && m != UnitMean
      ensures 0.0 <= units[i].1 <= 100.0
    {
      AggregateSpec(UnitValues(rows, units[i].0.pdet), m, arg);
    }
    forall i | 0 <= i < |units| && m == UnitMean
      ensures Range(all).Some? && Range(all).value.0 as real <= units[i].1 <= Range(all).value.1 as real
    {
      var ys := UnitValues(rows, units[i].0.pdet);
      AggregateSpec(ys, m, arg);
      UnitValuesSpec(rows, units[i].0.pdet);
      var lo, hi := Range(ys).value.0, Range(ys).value.1;
      var j :| 0 <= j < |rows| && rows[j].pdet == units[i].0.pdet && rows[j].value == lo;
      var k :| 0 <= k < |rows| && rows[k].pdet == units[i].0.pdet && rows[k].value == hi;
      assert all[j] == lo && all[k] == hi;
      assert lo in all && hi in all;
    }
  }

  /** The last row of a prefix extends the group of its unit only. */
  lemma UnitValuesSnoc(rows: seq<MapRow>, i: nat, p: int)
    requires i < |rows|
    ensures UnitValues(rows[..i + 1], p) ==
            UnitValues(rows[..i], p) + (if rows[i].pdet == p then [rows[i].value] else [])
  {
    assert rows[..i + 1][..i] == rows[..i];
  }

  /** `groups` maps exactly the units that have rows, each to the values of
      its rows in row order. */
  ghost predicate Grouped(rows: seq<MapRow>, groups: map<int, seq<int>>)
  {
    forall p :: (p in groups <==> UnitValues(rows, p) != []) && (p in groups ==> groups[p] == UnitValues(rows, p))
  }

  /** `groupby("pdet")`: the values of every unit that has rows, in row
      order. */
  method GroupByUnit(rows: seq<MapRow>) returns (groups: map<int, seq<int>>)
    ensures Grouped(rows, groups)
  {
    groups := map[];
    for i := 0 to |rows|
      invariant Grouped(rows[..i], groups)
    {
      var q := rows[i].pdet;
      var group := if q in groups then groups[q] else [];
      groups := groups[q := group + [rows[i].value]];
      forall p
        ensures UnitValues(rows[..i + 1], p) ==
                UnitValues(rows[..i], p) + (if rows[i].pdet == p then [rows[i].value] else [])
      {
        UnitValuesSnoc(rows, i, p);
      }
    }
    assert rows[..|rows|] == rows;
  }

  /** Line 95 over the grouped rows: the geodata rows whose unit has data,
      in geodata order, each with the aggregate of its unit. */
  method MergeUnits(geo: seq<GeoUnit>, rows: seq<MapRow>, groups: map<int, seq<int>>, m: MapMode, arg: int)
    returns (units: seq<(GeoUnit, real)>)
    requires Grouped(rows, groups)
    ensures units == Merge(geo, rows, m, arg)
  {
    units := [];
    for j := 0 to |geo|
      invariant units == Merge(geo[..j], rows, m, arg)
    {
      MergeStep(geo, j, rows, groups, m, arg);
      var g := geo[j];
      if g.pdet in groups {
        units := units + [(g, Aggregate(groups[g.pdet], m, arg))];
      }
    }
    assert geo[..|geo|] == geo;
  }

  /** Lines 74-95 on the rows of the query: group the rows by unit, colour
      each unit, and keep the geodata rows whose unit has data. The scale is
      the smallest and largest value (line 67) unless a share mode fixes it to
      0 and 100 (line 91). */
  method AggregateMap(rows: seq<MapRow>, plottype: string, arg: int, geo: seq<GeoUnit>)
    returns (units: seq<(GeoUnit, real)>, scale: Option<(int, int)>)
    ensures units == Merge(geo, rows, ModeOf(plottype), arg)
    ensures scale == if ModeOf(plottype) == UnitMean then Range(AllValues(rows)) else Some((0, 100))
  {
    var m := ModeOf(plottype);
    scale := Range(AllValues(rows));
    if m != UnitMean {
      scale := Some((0, 100));
    }
    var groups := GroupByUnit(rows);
    units := MergeUnits(geo, rows, groups, m, arg);
  }

  /** The merge of two runs of geodata rows is the merge of the first
      followed by the merge of the second. */
  lemma {:induction false} MergeAppend(a: seq<GeoUnit>, b: seq<GeoUnit>, rows: seq<MapRow>, m: MapMode, arg: int)
    ensures Merge(a + b, rows, m, arg) == Merge(a, rows, m, arg) + Merge(b, rows, m, arg)
  {
    if a != [] {
      var ys := UnitValues(rows, a[0].pdet);
      var head := if ys != [] then [(a[0], Aggregate(ys, m, arg))] else [];
      assert (a + b)[0] == a[0];
      assert (a + b)[1..] == a[1..] + b;
      MergeAppend(a[1..], b, rows, m, arg);
      AppendAssoc(head, Merge(a[1..], rows, m, arg), Merge(b, rows, m, arg));
    } else {
      assert a + b == b;
    }
  }

  /** One more geodata row of the merge, looked up in the grouped rows. */
  lemma MergeStep(geo: seq<GeoUnit>, j: nat, rows: seq<MapRow>, groups: map<int, seq<int>>, m: MapMode, arg: int)
    requires j < |geo|
    requires Grouped(rows, groups)
    ensures geo[j].pdet in groups ==> groups[geo[j].pdet] != []
    ensures var p := geo[j].pdet;
            Merge(geo[..j + 1], rows, m, arg) ==
            Merge(geo[..j], rows, m, arg) + (if p in groups then [(geo[j], Aggregate(groups[p], m, arg))] else [])
  {
    assert geo[..j + 1] == geo[..j] + [geo[j]];
    MergeAppend(geo[..j], [geo[j]], rows, m, arg);
    var p := geo[j].pdet;
    if p in groups {
      assert groups[p] == UnitValues(rows, p);
    } else {
      assert UnitValues(rows, p) == [];
    }
  }

  /** `resolve_map(variable, plottype, arg, fmt)`. The column name comes from
      `sanitize`, the site's own sanitiser; a name the database does not know
      raises ProgrammingError, which this route does not catch. */
  method ResolveMap(data: map<string, seq<int>>, geo: seq<GeoUnit>, sanitize: string -> string,
                    variable: string, plottype: string, arg: int, fmt: string)
    returns (reply: Reply)
    requires Rectangular(data)
    ensures var san := sanitize(variable);
            reply == Raised(ProgrammingError) <==> san == "" || san !in data || "pdet" !in data
    ensures reply == Raised(NotImplementedError) <==>
              var san := sanitize(variable);
              san != "" && san in data && "pdet" in data && ResolveFormat(map["format" := StrArg(fmt)]).Err?
    ensures reply.Status? ==> false
    ensures reply.Raised? ==> reply.error == ProgrammingError || reply.error == NotImplementedError
    ensures reply.Image? <==>
              var san := sanitize(variable);
              san != "" && san in data && "pdet" in data && ResolveFormat(map["format" := StrArg(fmt)]).Ok?
    ensures reply.Image? ==>
              var rows := MapRows(data["pdet"], data[sanitize(variable)]);
              var m := ModeOf(plottype);
              && reply.mimetype == MimeTypes[ResolveFormat(map["format" := StrArg(fmt)]).value]
              && reply.figure == MapChart(Merge(geo, rows, m, arg),
                                           if m == UnitMean then Range(AllValues(rows)) else Some((0, 100)))
  {
    var san := sanitize(variable);
    if san == "" || san !in data || "pdet" !in data {
      return Raised(ProgrammingError);
    }
    var rows := MapRows(data["pdet"], data[san]);
    var units, scale := AggregateMap(rows, plottype, arg, geo);
    var kwargs := map["format" := StrArg(fmt)];
    match PlotBytes(kwargs, (kw: map<string, Arg>) => Ok(MapChart(units, scale)))
    case Err(e) =>
      reply := Raised(e);
    case Ok(p) =>
      reply := Image(p.figure, p.mimetype);
  }

  /* ---------------------------------------------------------------------- */
  /* resolve_hist                                                            */
  /* ---------------------------------------------------------------------- */

  /** `resolve_hist(vname, fmt, floor)`: 404 when the column query fails,
      400 for an unsupported format. The query selects `sqlcol(vname)` but
      the frame is then indexed by the raw name, so a name that needs
      sanitising raises KeyError; an unknown variable raises AttributeError.
      Both escape. */
  function ResolveHist(tw: TextWrap, data: map<string, seq<int>>, catalog: seq<Variable>,
                       vname: string, fmt: string, floor: int): (r: Reply)
    ensures r == Status(404) <==> GetVar(data, vname).Err?
    ensures r == Raised(KeyError) <==> GetVar(data, vname).Ok? && vname != SqlCol(vname)
    ensures r == Raised(AttributeError) <==>
              GetVar(data, vname).Ok? && vname == SqlCol(vname) && FindVariable(catalog, vname).None?
    ensures r == Status(400) <==>
              GetVar(data, vname).Ok? && vname == SqlCol(vname) && FindVariable(catalog, vname).Some? &&
              ResolveFormat(map["format" := StrArg(fmt)]).Err?
    ensures r.Status? ==> r.code == 404 || r.code == 400
    ensures r.Raised? ==> r.error == KeyError || r.error == AttributeError
    ensures r.Image? ==> r == HistOfColumn(tw, catalog, vname, data[vname], fmt, floor)
  {
    match GetVar(data, vname)
    case Err(_) => Status(404)
    case Ok(col) =>
      if vname != col.name then Raised(KeyError)
      else HistOfColumn(tw, catalog, vname, col.codes, fmt, floor)
  }

  /** Lines 31-38 once the column is in the frame under its raw name. */
  function HistOfColumn(tw: TextWrap, catalog: seq<Variable>, vname: string, codes: seq<int>,
                        fmt: string, floor: int): (r: Reply)
    ensures r == Raised(AttributeError) <==> FindVariable(catalog, vname).None?
    ensures r == Status(400) <==>
              FindVariable(catalog, vname).Some? && ResolveFormat(map["format" := StrArg(fmt)]).Err?
    ensures r.Status? ==> r.code == 400
    ensures r.Raised? ==> r.error == AttributeError
  {
    match WithMeta(catalog, vname, codes)
    case Err(e) => Raised(e)
    case Ok(c) =>
      var kwargs := map["format" := StrArg(fmt)];
      var draw := (kw: map<string, Arg>) => Hist(tw, catalog, vname, c.labels, false, floor);
      match PlotBytes(kwargs, draw)
      case Err(NotImplementedError) => Status(400)
      case Err(e) => Raised(e)
      case Ok(p) => Image(HistChart(p.figure), p.mimetype)
  }

  /** A histogram reply is the histogram of the relabelled column, served
      with the MIME type of the requested format. */
  lemma HistImage(tw: TextWrap, catalog: seq<Variable>, vname: string, codes: seq<int>, fmt: string, floor: int)
    requires HistOfColumn(tw, catalog, vname, codes, fmt, floor).Image?
    ensures var r := HistOfColumn(tw, catalog, vname, codes, fmt, floor);
            && WithMeta(catalog, vname, codes).Ok?
            && ResolveFormat(map["format" := StrArg(fmt)]).Ok?
            && r.mimetype == MimeTypes[ResolveFormat(map["format" := StrArg(fmt)]).value]
            && Hist(tw, catalog, vname, WithMeta(catalog, vname, codes).value.labels, false, floor).Ok?
            && r.figure == HistChart(Hist(tw, catalog, vname, WithMeta(catalog, vname, codes).value.labels, false, floor).value)
  {
  }

  /* ---------------------------------------------------------------------- */
  /* resolve_comp                                                            */
  /* ---------------------------------------------------------------------- */

  /** The plot functions of the comparison route. */
  datatype CompKind = CountKind(pst: bool, incat: bool) | MeanKind

  /** The FUNCTIONS table of lines 42-47; any other plot type is a KeyError. */
  function Dispatch(plottype: string): (r: Option<CompKind>)
    ensures r.None? <==> plottype !in {"count", "mean", "pst", "grppst"}
    ensures plottype == "count" ==> r == Some(CountKind(false, false))
    ensures plottype == "pst" ==> r == Some(CountKind(true, false))
    ensures plottype == "grppst" ==> r == Some(CountKind(true, true))
    ensures plottype == "mean" ==> r == Some(MeanKind)
  {
    if plottype == "count" then Some(CountKind(false, false))
    else if plottype == "pst" then Some(CountKind(true, false))
    else if plottype == "grppst" then Some(CountKind(true, true))
    else if plottype == "mean" then Some(MeanKind)
    else None
  }

  /** A raw name indexes the joined frame, whose columns are the two
      sanitised names, exactly when sanitising leaves it unchanged. */
  lemma RawNameIsColumn(v1: string, v2: string)
    ensures v1 in {SqlCol(v1), SqlCol(v2)} <==> v1 == SqlCol(v1)
  {
    if v1 == SqlCol(v2) {
      SqlColIdempotent(v2);
    }
  }

  /** The plot function on the joined frame, after `plotbytes` has accepted
      the format. `count` first indexes both raw names; `mean` indexes the
      raw v1, and the raw v2 before the catalog lookups only when it drops
      non-positive rows. */
  function DrawComp(tw: TextWrap, catalog: seq<Variable>, kind: CompKind, v1: string, v2: string,
                    rows: seq<(int, int)>, keepna: bool, floor: int): (r: Result<Figure, Exc>)
    ensures r.Err? <==> v1 != SqlCol(v1) || v2 != SqlCol(v2) ||
                        FindVariable(catalog, v1).None? || FindVariable(catalog, v2).None? ||
                        (kind.MeanKind? && MeanRows(rows, keepna) == [])
    ensures r.Err? ==> r.error == KeyError || r.error == AttributeError || r.error == ValueError
    ensures kind.CountKind? && (v1 != SqlCol(v1) || v2 != SqlCol(v2)) ==> r == Err(KeyError)
    ensures (&& kind.MeanKind? && v1 == SqlCol(v1) && v2 == SqlCol(v2)
             && FindVariable(catalog, v1).Some? && FindVariable(catalog, v2).Some?
             && MeanRows(rows, keepna) == [])
              ==> r == Err(ValueError)
    ensures r.Ok? && kind.CountKind? ==>
              r.value == CountChart(Count(tw, catalog, v1, v2, rows, keepna, floor, kind.pst, kind.incat).value)
    ensures r.Ok? && kind.MeanKind? ==> r.value == MeanChart(Mean(tw, catalog, v1, v2, rows, keepna, floor).value)
  {
    var hasV1, hasV2 := v1 == SqlCol(v1), v2 == SqlCol(v2);
    match kind
    case CountKind(pst, incat) =>
      if !hasV1 || !hasV2 then Err(KeyError)
      else
        (match Count(tw, catalog, v1, v2, rows, keepna, floor, pst, incat)
         case Err(e) => Err(e)
         case Ok(c) => Ok(CountChart(c)))
    case MeanKind =>
      if !hasV1 || (!keepna && !hasV2) then Err(KeyError)
      else if FindVariable(catalog, v1).None? || FindVariable(catalog, v2).None? then Err(AttributeError)
      else if !hasV2 then Err(KeyError)
      else
        match Mean(tw, catalog, v1, v2, rows, keepna, floor)
        case Err(e) => Err(e)
        case Ok(c) => Ok(MeanChart(c))
  }

  /** `resolve_comp(v1, v2, plottype, incat, keepna, floor, fmt)`: 404 when
      either column query fails; joining a column to itself raises
      ValueError; an unknown plot type raises KeyError; an unsupported
      format raises NotImplementedError, which this route does not turn
      into 400. The `incat` parameter is never read. */
  function ResolveComp(tw: TextWrap, data: map<string, seq<int>>, catalog: seq<Variable>,
                       v1: string, v2: string, plottype: string, incat: bool, keepna: bool,
                       floor: int, fmt: string): (r: Reply)
    requires Rectangular(data)
    ensures r == Status(404) <==> GetVar(data, v1).Err? || GetVar(data, v2).Err?
    ensures r.Status? ==> r.code == 404
    ensures (GetVar(data, v1).Ok? && GetVar(data, v2).Ok? && SqlCol(v1) == SqlCol(v2))
              ==> r == Raised(ValueError)
    ensures (GetVar(data, v1).Ok? && GetVar(data, v2).Ok? && SqlCol(v1) != SqlCol(v2) &&
             Dispatch(plottype).None?)
              ==> r == Raised(KeyError)
    ensures (GetVar(data, v1).Ok? && GetVar(data, v2).Ok? && SqlCol(v1) != SqlCol(v2) &&
             Dispatch(plottype).Some? && ResolveFormat(map["format" := StrArg(fmt)]).Err?)
              ==> r == Raised(NotImplementedError)
    ensures (GetVar(data, v1).Ok? && GetVar(data, v2).Ok? && SqlCol(v1) != SqlCol(v2) &&
             Dispatch(plottype).Some? && ResolveFormat(map["format" := StrArg(fmt)]).Ok?)
              ==> var drawn := DrawComp(tw, catalog, Dispatch(plottype).value, v1, v2,
                                        Zip(data[SqlCol(v1)], data[SqlCol(v2)]), keepna, floor);
                  && (r.Image? <==> drawn.Ok?)
                  && (r.Raised? ==> drawn == Err(r.error))
    ensures r.Image? ==>
              && Dispatch(plottype).Some?
              && r.mimetype == MimeTypes[ResolveFormat(map["format" := StrArg(fmt)]).value]
              && Ok(r.figure) == DrawComp(tw, catalog, Dispatch(plottype).value, v1, v2,
                                          Zip(data[SqlCol(v1)], data[SqlCol(v2)]), keepna, floor)
  {
    match (GetVar(data, v1), GetVar(data, v2))
    case (Err(_), _) => Status(404)
    case (_, Err(_)) => Status(404)
    case (Ok(c1), Ok(c2)) =>
      if c1.name == c2.name then Raised(ValueError)
      else
        match Dispatch(plottype)
        case None => Raised(KeyError)
        case Some(kind) =>
          var rows := Zip(c1.codes, c2.codes);
          CompReply(keepna, floor, fmt, (kw: map<string, Arg>) => DrawComp(tw, catalog, kind, v1, v2, rows, keepna, floor))
  }

  /** The keyword arguments of line 55. */
  function CompKwargs(keepna: bool, floor: int, fmt: string): map<string, Arg>
  {
    map["keepna" := BoolArg(keepna), "floor" := IntArg(floor), "format" := StrArg(fmt)]
  }

  /** Lines 55-57: the plot function called through `plotbytes` with the
      query's keyword arguments; any exception escapes. */
  function CompReply(keepna: bool, floor: int, fmt: string, draw: map<string, Arg> -> Result<Figure, Exc>): (r: Reply)
    ensures ResolveFormat(map["format" := StrArg(fmt)]).Err? ==> r == Raised(NotImplementedError)
    ensures r.Raised? && ResolveFormat(map["format" := StrArg(fmt)]).Ok? ==>
              draw(Forwarded(CompKwargs(keepna, floor, fmt))) == Err(r.error)
    ensures !r.Status?
    ensures ResolveFormat(map["format" := StrArg(fmt)]).Ok? ==>
              (r.Image? <==> draw(Forwarded(CompKwargs(keepna, floor, fmt))).Ok?)
    ensures r.Image? ==>
              && ResolveFormat(map["format" := StrArg(fmt)]).Ok?
              && r.mimetype == MimeTypes[ResolveFormat(map["format" := StrArg(fmt)]).value]
              && Ok(r.figure) == draw(Forwarded(CompKwargs(keepna, floor, fmt)))
  {
    var kwargs := CompKwargs(keepna, floor, fmt);
    assert KwGet(kwargs, "format") == KwGet(map["format" := StrArg(fmt)], "format");
    match PlotBytes(kwargs, draw)
    case Err(e) => Raised(e)
    case Ok(p) => Image(p.figure, p.mimetype)
  }

  /** The `incat` query parameter has no effect on the reply. */
  lemma ResolveCompIgnoresIncat(tw: TextWrap, data: map<string, seq<int>>, catalog: seq<Variable>,
                                v1: string, v2: string, plottype: string, keepna: bool, floor: int, fmt: string)
    requires Rectangular(data)
    ensures ResolveComp(tw, data, catalog, v1, v2, plottype, true, keepna, floor, fmt) ==
            ResolveComp(tw, data, catalog, v1, v2, plottype, false, keepna, floor, fmt)
  {
  }

  /* ---------------------------------------------------------------------- */
  /* resolve_dash                                                            */
  /* ---------------------------------------------------------------------- */

  /** An output format offered on the landing page. */
  datatype Format = Format(name: string, ext: string)

  /** Lines 132-137: every offered extension is a format `plotbytes`
      accepts. */
  function DashFormats(): (r: seq<Format>)
    ensures |r| == 4
    ensures forall f :: f in r ==> f.ext in MimeTypes
    ensures forall i, j :: 0 <= i < j < |r| ==> r[i].ext != r[j].ext
  {
    [Format("png", "png"), Format("postscript", "ps"), Format("pdf", "pdf"), Format("svg", "svg")]
  }

  /** Line 103: the variables whose description is not "NaN", in catalog
      order. */
  function DashVariables(catalog: seq<Variable>): (r: seq<Variable>)
    ensures IsSubseq(r, catalog)
    ensures forall v :: v in r <==> v in catalog && v.description != "NaN"
  {
    if catalog == [] then []
    else
      var rest := DashVariables(catalog[1..]);
      assert forall v :: v in catalog <==> v == catalog[0] || v in catalog[1..] by {
        assert catalog == [catalog[0]] + catalog[1..];
      }
      if catalog[0].description != "NaN" then
        assert ([catalog[0]] + rest)[1..] == rest;
        [catalog[0]] + rest
      else
        SubseqOfTail(rest, catalog);
        rest
  }
}
