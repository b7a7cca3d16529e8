/** The label catalog and data access of maps_dashboard/orm.py: identifier
    sanitising, the column query, the code-to-label dictionary of a variable
    and the relabelling of a code column. The database is given as values: the
    `data` table as a map from column name to its codes, and the catalog as
    the rows of the `variables` table with their `mappings`. */
module Orm {
  import opened Base
  import opened Dicts

  /* ---------------------------------------------------------------------- */
  /* sqlcol: strip every character outside [A-Za-z0-9_]                     */
  /* ---------------------------------------------------------------------- */

  predicate IsIdentChar(c: char)
  {
    ('a' <= c <= 'z') || ('A' <= c <= 'Z') || ('0' <= c <= '9') || c == '_'
  }

  predicate IsIdentifier(s: string)
  {
    forall i :: 0 <= i < |s| ==> IsIdentChar(s[i])
  }

  /** `re.sub("[^a-zA-Z_0-9]+", "", name)`. */
  function SqlCol(name: string): (r: string)
    ensures IsIdentifier(r)
    ensures |r| <= |name|
  {
    if name == [] then []
    else (if IsIdentChar(name[0]) then [name[0]] else []) + SqlCol(name[1..])
  }

  /** Sanitising distributes over concatenation: what is kept of each part is
      kept in order, so SqlCol keeps the allowed characters in input order. */
  lemma {:induction false} SqlColConcat(a: string, b: string)
    ensures SqlCol(a + b) == SqlCol(a) + SqlCol(b)
  {
    if a == [] {
      assert a + b == b;
    } else {
      assert (a + b)[0] == a[0] && (a + b)[1..] == a[1..] + b;
      SqlColConcat(a[1..], b);
    }
  }

  /** Every allowed character of the input is kept, as often as it occurs,
      and every other character is dropped. */
  lemma {:induction false} SqlColKeepsAllowed(name: string, c: char)
    ensures multiset(SqlCol(name))[c] == if IsIdentChar(c) then multiset(name)[c] else 0
  {
    if name != [] {
      SqlColKeepsAllowed(name[1..], c);
      assert name == [name[0]] + name[1..];
    }
  }

  /** A name made only of allowed characters is returned unchanged, and only
      such a name. */
  lemma {:induction false} SqlColFixedPoint(name: string)
    ensures SqlCol(name) == name <==> IsIdentifier(name)
  {
    if name != [] {
      SqlColFixedPoint(name[1..]);
      if !IsIdentChar(name[0]) {
        assert |SqlCol(name)| < |name|;
      }
    }
  }

  /** Sanitising twice is sanitising once. */
  lemma SqlColIdempotent(name: string)
    ensures SqlCol(SqlCol(name)) == SqlCol(name)
  {
    SqlColFixedPoint(SqlCol(name));
  }

  /* ---------------------------------------------------------------------- */
  /* getvar                                                                  */
  /* ---------------------------------------------------------------------- */

  const SelectPrefix: string := "SELECT "
  const FromData: string := " FROM data"

  /** The query text `getvar` sends: the variable name always goes through
      `SqlCol`, so nothing between the fixed prefix and suffix can be other
      than an identifier character. */
  function GetVarQuery(vname: string): (q: string)
    ensures |q| == |SelectPrefix| + |SqlCol(vname)| + |FromData|
    ensures q[..|SelectPrefix|] == SelectPrefix && q[|q| - |FromData|..] == FromData
    ensures IsIdentifier(q[|SelectPrefix|..|q| - |FromData|])
  {
    var q := SelectPrefix + SqlCol(vname) + FromData;
    assert q[|SelectPrefix|..|q| - |FromData|] == SqlCol(vname);
    q
  }

  /** The raw name and its sanitised form produce the same query, so a name
      from the URL can never reach the database unsanitised. */
  lemma GetVarQuerySanitised(vname: string)
    ensures GetVarQuery(vname) == GetVarQuery(SqlCol(vname))
  {
    SqlColIdempotent(vname);
  }

  /** A single-column frame as `pd.read_sql` returns it. */
  datatype Column = Column(name: string, codes: seq<int>)

  /** `getvar(vname)` against the `data` table: the query fails with
      ProgrammingError when the sanitised name is empty or not a column. */
  function GetVar(data: map<string, seq<int>>, vname: string): (r: Result<Column, Exc>)
    ensures r.Err? <==> SqlCol(vname) == "" || SqlCol(vname) !in data
    ensures r.Err? ==> r.error == ProgrammingError
    ensures r.Ok? ==> r.value.name == SqlCol(vname) && r.value.codes == data[SqlCol(vname)]
  {
    var col := SqlCol(vname);
    if col == "" || col !in data then Err(ProgrammingError) else Ok(Column(col, data[col]))
  }

  /* ---------------------------------------------------------------------- */
  /* Variables, mappings, getdict, getdescr                                  */
  /* ---------------------------------------------------------------------- */

  datatype Mapping = Mapping(key: int, value: string)

  datatype Variable = Variable(name: string, description: string, mappings: seq<Mapping>)

  /** `.filter(Variable.name == name).first()`. */
  function FindVariable(catalog: seq<Variable>, name: string): (r: Option<Variable>)
    ensures r.None? <==> forall i :: 0 <= i < |catalog| ==> catalog[i].name != name
    ensures r.Some? ==> exists i :: 0 <= i < |catalog| && catalog[i] == r.value &&
                          r.value.name == name &&
                          forall j :: 0 <= j < i ==> catalog[j].name != name
  {
    if catalog == [] then None
    else if catalog[0].name == name then Some(catalog[0])
    else
      var r := FindVariable(catalog[1..], name);
      assert r.Some? ==> exists i :: 0 <= i < |catalog[1..]| && catalog[1..][i] == r.value &&
                          forall j :: 0 <= j < i ==> catalog[1..][j].name != name;
      assert forall i :: 0 <= i < |catalog[1..]| ==> catalog[1..][i] == catalog[i + 1];
      r
  }

  /** The (key, label) pairs of a list of mappings, in stored order. */
  function Pairs(ms: seq<Mapping>): (ps: seq<(int, string)>)
    ensures |ps| == |ms|
    ensures forall i :: 0 <= i < |ms| ==> ps[i] == (ms[i].key, ms[i].value)
  {
    seq(|ms|, i requires 0 <= i < |ms| => (ms[i].key, ms[i].value))
  }

  /** `getdict(variable)`: `{mp.key: mp.value for mp in var.mappings}`. An
      unknown variable makes `.first()` return None and the attribute access
      raise AttributeError. */
  function GetDict(catalog: seq<Variable>, name: string): (r: Result<Dict<int, string>, Exc>)
    ensures r.Err? <==> FindVariable(catalog, name).None?
    ensures r.Err? ==> r.error == AttributeError
    ensures r.Ok? ==> Valid(r.value)
    ensures r.Ok? ==> forall k :: k in r.value.entries <==>
                        exists m :: m in FindVariable(catalog, name).value.mappings && m.key == k
  {
    match FindVariable(catalog, name)
    case None => Err(AttributeError)
    case Some(v) =>
      var ps := Pairs(v.mappings);
      FromPairsKeys(ps);
      assert forall k :: HasKey(ps, k) <==> exists m :: m in v.mappings && m.key == k by {
        forall k | exists m :: m in v.mappings && m.key == k
          ensures HasKey(ps, k)
        {
          var m :| m in v.mappings && m.key == k;
          var i :| 0 <= i < |v.mappings| && v.mappings[i] == m;
          assert ps[i].0 == k;
        }
      }
      Ok(FromPairs(ps))
  }

  /** On a duplicate key the last mapping's label wins. */
  lemma GetDictLastWins(catalog: seq<Variable>, name: string, i: nat)
    requires FindVariable(catalog, name).Some?
    requires i < |FindVariable(catalog, name).value.mappings|
    requires var ms := FindVariable(catalog, name).value.mappings;
             forall j :: i < j < |ms| ==> ms[j].key != ms[i].key
    ensures var ms := FindVariable(catalog, name).value.mappings;
            ms[i].key in GetDict(catalog, name).value.entries &&
            GetDict(catalog, name).value.entries[ms[i].key] == ms[i].value
  {
    var ms := FindVariable(catalog, name).value.mappings;
    FromPairsLastWins(Pairs(ms), i);
  }

  /** The dictionary lists each key at the position of its first mapping. */
  lemma GetDictOrder(catalog: seq<Variable>, name: string, i: nat, j: nat)
    requires GetDict(catalog, name).Ok?
    requires i < j < |GetDict(catalog, name).value.keys|
    ensures var ps := Pairs(FindVariable(catalog, name).value.mappings);
            var keys := GetDict(catalog, name).value.keys;
            HasKey(ps, keys[i]) && HasKey(ps, keys[j]) &&
            FirstIndex(ps, keys[i]) < FirstIndex(ps, keys[j])
  {
    FromPairsOrder(Pairs(FindVariable(catalog, name).value.mappings), i, j);
  }

  /** `getdescr(vname)`: fails like `getdict` on an unknown variable. */
  function GetDescr(catalog: seq<Variable>, name: string): (r: Result<string, Exc>)
    ensures r.Err? <==> FindVariable(catalog, name).None?
    ensures r.Err? ==> r.error == AttributeError
    ensures r.Ok? ==> exists v :: v in catalog && v.name == name && v.description == r.value
  {
    match FindVariable(catalog, name)
    case None => Err(AttributeError)
    case Some(v) => Ok(v.description)
  }

  /* ---------------------------------------------------------------------- */
  /* withmeta                                                                */
  /* ---------------------------------------------------------------------- */

  /** `series.apply(lambda x: mappings.get(x))`: each code becomes its label,
      or None when the dictionary has no entry for it. */
  function Relabel(codes: seq<int>, d: Dict<int, string>): (r: seq<Option<string>>)
    ensures |r| == |codes|
    ensures forall i :: 0 <= i < |codes| ==>
              if codes[i] in d.entries then r[i] == Some(d.entries[codes[i]]) else r[i] == None
  {
    seq(|codes|, i requires 0 <= i < |codes| =>
          if codes[i] in d.entries then Some(d.entries[codes[i]]) else None)
  }

  /** The label-to-code pairs `(v, k) for k, v in mappings.items()`. */
  function Swapped(d: Dict<int, string>): (ps: seq<(string, int)>)
    requires Valid(d)
    ensures |ps| == |d.keys|
    ensures forall i :: 0 <= i < |ps| ==> ps[i] == (d.entries[d.keys[i]], d.keys[i])
  {
    seq(|d.keys|, i requires 0 <= i < |d.keys| => (d.entries[d.keys[i]], d.keys[i]))
  }

  /** `revmap = {v: k for k, v in mappings.items()}`. */
  function RevMap(d: Dict<int, string>): map<string, int>
    requires Valid(d)
  {
    FromPairs(Swapped(d)).entries
  }

  /** The reverse map is defined on exactly the labels, and sends each label
      to the last key (in dictionary order) that carries it. */
  lemma RevMapSpec(d: Dict<int, string>, v: string)
    requires Valid(d)
    ensures v in RevMap(d) <==> v in Values(d)
    ensures v in RevMap(d) ==>
              exists i :: 0 <= i < |d.keys| && RevMap(d)[v] == d.keys[i] && d.entries[d.keys[i]] == v &&
                forall j :: i < j < |d.keys| ==> d.entries[d.keys[j]] != v
  {
    RevMapDomain(d, v);
    if v in RevMap(d) {
      RevMapLast(d, v);
    }
  }

  lemma RevMapDomain(d: Dict<int, string>, v: string)
    requires Valid(d)
    ensures v in RevMap(d) <==> v in Values(d)
  {
    if v in Values(d) {
      LabelInRevMap(d, v);
    }
    if v in RevMap(d) {
      RevMapKeyIsLabel(d, v);
    }
  }

  lemma LabelInRevMap(d: Dict<int, string>, v: string)
    requires Valid(d) && v in Values(d)
    ensures v in RevMap(d)
  {
    var i :| 0 <= i < |d.keys| && Values(d)[i] == v;
    SwappedLabel(d, i);
    FromPairsKey(Swapped(d), v);
  }

  lemma RevMapKeyIsLabel(d: Dict<int, string>, v: string)
    requires Valid(d) && v in RevMap(d)
    ensures v in Values(d)
  {
    var ps := Swapped(d);
    FromPairsKey(ps, v);
    var i :| 0 <= i < |ps| && ps[i].0 == v;
    SwappedLabel(d, i);
  }

  lemma SwappedLabel(d: Dict<int, string>, i: nat)
    requires Valid(d) && i < |d.keys|
    ensures Swapped(d)[i].0 == Values(d)[i]
  {
  }

  lemma RevMapLast(d: Dict<int, string>, v: string)
    requires Valid(d) && v in RevMap(d)
    ensures exists i :: 0 <= i < |d.keys| && RevMap(d)[v] == d.keys[i] && d.entries[d.keys[i]] == v &&
              forall j :: i < j < |d.keys| ==> d.entries[d.keys[j]] != v
  {
    var ps := Swapped(d);
    FromPairsKeys(ps);
    var i := LastIndex(ps, v);
    FromPairsValue(ps, v);
    assert RevMap(d)[v] == d.keys[i] && d.entries[d.keys[i]] == v;
    assert forall j :: i < j < |d.keys| ==> d.entries[d.keys[j]] == ps[j].0 != v;
  }

  /** With distinct labels the reverse map inverts the dictionary. */
  lemma RevMapInverts(d: Dict<int, string>, k: int)
    requires Valid(d) && Injective(d)
    requires k in d.entries
    ensures d.entries[k] in RevMap(d) && RevMap(d)[d.entries[k]] == k
  {
    var i :| 0 <= i < |d.keys| && d.keys[i] == k;
    assert Values(d)[i] == d.entries[k];
    RevMapSpec(d, d.entries[k]);
  }

  /** No two keys carry the same label. */
  ghost predicate Injective(d: Dict<int, string>)
  {
    forall k1, k2 :: k1 in d.entries && k2 in d.entries && k1 != k2 ==> d.entries[k1] != d.entries[k2]
  }

  ghost predicate SortedBy(s: seq<string>, key: map<string, int>)
  {
    && (forall x :: x in s ==> x in key)
    && (forall i, j :: 0 <= i < j < |s| ==> key[s[i]] <= key[s[j]])
  }

  /** Inserts `x` after every element whose key is not greater than its own. */
  function InsertByKey(x: string, s: seq<string>, key: map<string, int>): (r: seq<string>)
    requires x in key && forall y :: y in s ==> y in key
    ensures multiset(r) == multiset(s) + multiset{x}
    ensures forall y :: y in r ==> y in key
  {
    if s == [] then [x]
    else if key[x] < key[s[0]] then [x] + s
    else
      assert s == [s[0]] + s[1..];
      [s[0]] + InsertByKey(x, s[1..], key)
  }

  /** Inserting into a sorted list keeps it sorted. */
  lemma {:induction false} InsertByKeySorted(x: string, s: seq<string>, key: map<string, int>)
    requires x in key && forall y :: y in s ==> y in key
    requires SortedBy(s, key)
    ensures SortedBy(InsertByKey(x, s, key), key)
  {
    if s != [] {
      if key[x] < key[s[0]] {
        forall j | 0 <= j < |s| ensures key[x] <= key[s[j]] {
          if j > 0 {
            assert key[s[0]] <= key[s[j]];
          }
        }
        SortedCons(x, s, key);
      } else {
        var rest := InsertByKey(x, s[1..], key);
        SortedTail(s, key);
        InsertByKeySorted(x, s[1..], key);
        forall j | 0 <= j < |rest| ensures key[s[0]] <= key[rest[j]] {
          var y := rest[j];
          assert y in multiset(rest);
          if y != x {
            assert y in multiset(s[1..]);
            var k :| 0 <= k < |s[1..]| && s[1..][k] == y;
            assert s[k + 1] == y;
          }
        }
        SortedCons(s[0], rest, key);
      }
    }
  }

  lemma SortedTail(s: seq<string>, key: map<string, int>)
    requires s != [] && SortedBy(s, key)
    ensures SortedBy(s[1..], key)
  {
    forall i, j | 0 <= i < j < |s[1..]| ensures key[s[1..][i]] <= key[s[1..][j]] {
      assert s[1..][i] == s[i + 1] && s[1..][j] == s[j + 1];
    }
  }

  lemma SortedCons(h: string, t: seq<string>, key: map<string, int>)
    requires h in key && SortedBy(t, key)
    requires forall j :: 0 <= j < |t| ==> key[h] <= key[t[j]]
    ensures SortedBy([h] + t, key)
  {
    var r := [h] + t;
    forall i, j | 0 <= i < j < |r| ensures key[r[i]] <= key[r[j]] {
      assert r[j] == t[j - 1];
      if i > 0 {
        assert r[i] == t[i - 1];
      }
    }
  }

  /** `sorted(s, key=lambda x: key[x])` (a stable insertion sort). */
  function SortByKey(s: seq<string>, key: map<string, int>): (r: seq<string>)
    requires forall y :: y in s ==> y in key
    ensures multiset(r) == multiset(s)
    ensures SortedBy(r, key)
  {
    if s == [] then []
    else
      var init := s[..|s| - 1];
      assert s == init + [s[|s| - 1]];
      InsertByKeySorted(s[|s| - 1], SortByKey(init, key), key);
      InsertByKey(s[|s| - 1], SortByKey(init, key), key)
  }

  /** `levels = list(mappings.values()); levels.sort(key=lambda l: revmap[l])`. */
  function Levels(d: Dict<int, string>): seq<string>
    requires Valid(d)
  {
    RevMapCovers(d);
    SortByKey(Values(d), RevMap(d))
  }

  lemma RevMapCovers(d: Dict<int, string>)
    requires Valid(d)
    ensures forall y :: y in Values(d) ==> y in RevMap(d)
  {
    forall y | y in Values(d) ensures y in RevMap(d) {
      LabelInRevMap(d, y);
    }
  }

  /** The levels are the dictionary's labels, each as often as it occurs,
      sorted by the reverse-map key of the label. */
  lemma LevelsSorted(d: Dict<int, string>)
    requires Valid(d)
    ensures multiset(Levels(d)) == multiset(Values(d))
    ensures SortedBy(Levels(d), RevMap(d))
  {
    RevMapCovers(d);
  }

  /** With distinct labels the levels list the labels in strictly ascending
      key order, each label once. */
  lemma LevelsAscendingKeys(d: Dict<int, string>)
    requires Valid(d) && Injective(d)
    ensures |Levels(d)| == |d.keys|
    ensures forall i :: 0 <= i < |Levels(d)| ==>
              Levels(d)[i] in RevMap(d) && RevMap(d)[Levels(d)[i]] in d.entries &&
              d.entries[RevMap(d)[Levels(d)[i]]] == Levels(d)[i]
    ensures forall i, j :: 0 <= i < j < |Levels(d)| ==>
              RevMap(d)[Levels(d)[i]] < RevMap(d)[Levels(d)[j]]
  {
    LevelsSorted(d);
    LevelsLabels(d);
    LevelsDistinct(d);
    StrictlyAscending(Levels(d), RevMap(d), d.entries);
  }

  /** Every level is a label whose reverse-mapped key maps back to it. */
  lemma LevelsLabels(d: Dict<int, string>)
    requires Valid(d)
    ensures |Levels(d)| == |d.keys|
    ensures forall i :: 0 <= i < |Levels(d)| ==>
              Levels(d)[i] in RevMap(d) && RevMap(d)[Levels(d)[i]] in d.entries &&
              d.entries[RevMap(d)[Levels(d)[i]]] == Levels(d)[i]
  {
    LevelsSorted(d);
    var lv, vs := Levels(d), Values(d);
    assert |lv| == |multiset(lv)| == |multiset(vs)| == |vs|;
    forall i | 0 <= i < |lv|
      ensures lv[i] in RevMap(d) && RevMap(d)[lv[i]] in d.entries && d.entries[RevMap(d)[lv[i]]] == lv[i]
    {
      assert lv[i] in multiset(vs);
      RevMapSpec(d, lv[i]);
    }
  }

  /** With distinct labels no level repeats. */
  lemma LevelsDistinct(d: Dict<int, string>)
    requires Valid(d) && Injective(d)
    ensures forall i, j :: 0 <= i < j < |Levels(d)| ==> Levels(d)[i] != Levels(d)[j]
  {
    LevelsSorted(d);
    ValuesDistinct(d);
    DistinctPermutation(Levels(d), Values(d));
  }

  lemma ValuesDistinct(d: Dict<int, string>)
    requires Valid(d) && Injective(d)
    ensures forall i, j :: 0 <= i < j < |Values(d)| ==> Values(d)[i] != Values(d)[j]
  {
    var vs := Values(d);
    forall i, j | 0 <= i < j < |vs| ensures vs[i] != vs[j] {
      assert d.keys[i] in d.entries && d.keys[j] in d.entries;
    }
  }

  /** A sequence sorted by a key that is one-to-one on it is strictly
      ascending in that key. */
  lemma StrictlyAscending(s: seq<string>, key: map<string, int>, back: map<int, string>)
    requires SortedBy(s, key)
    requires forall i, j :: 0 <= i < j < |s| ==> s[i] != s[j]
    requires forall i :: 0 <= i < |s| ==> s[i] in key && key[s[i]] in back && back[key[s[i]]] == s[i]
    ensures forall i, j :: 0 <= i < j < |s| ==> key[s[i]] < key[s[j]]
  {
    forall i, j | 0 <= i < j < |s| ensures key[s[i]] < key[s[j]] {
      assert s[i] in s;
    }
  }

  /** A permutation of a sequence without repeats has no repeats. */
  lemma DistinctPermutation(a: seq<string>, b: seq<string>)
    requires multiset(a) == multiset(b)
    requires forall i, j :: 0 <= i < j < |b| ==> b[i] != b[j]
    ensures forall i, j :: 0 <= i < j < |a| ==> a[i] != a[j]
  {
    forall i, j | 0 <= i < j < |a| ensures a[i] != a[j] {
      if a[i] == a[j] {
        assert a == a[..i] + [a[i]] + a[i + 1..j] + [a[j]] + a[j + 1..];
        assert multiset(a)[a[i]] >= 2;
        AtMostOnce(b, a[i]);
        assert false;
      }
    }
  }

  lemma {:induction false} AtMostOnce(b: seq<string>, x: string)
    requires forall i, j :: 0 <= i < j < |b| ==> b[i] != b[j]
    ensures multiset(b)[x] <= 1
  {
    if b != [] {
      AtMostOnce(b[1..], x);
      assert b == [b[0]] + b[1..];
      if b[0] == x {
        assert x !in b[1..];
      }
    }
  }

  /** A relabelled column: the labels row by row, and the levels. */
  datatype Categorical = Categorical(labels: seq<Option<string>>, levels: seq<string>)

  /** `withmeta(series)`: relabels the column named `name` through its
      dictionary; fails like `getdict` when the variable is unknown. */
  function WithMeta(catalog: seq<Variable>, name: string, codes: seq<int>): (r: Result<Categorical, Exc>)
    ensures r.Err? <==> GetDict(catalog, name).Err?
    ensures r.Err? ==> r.error == AttributeError
    ensures r.Ok? ==> |r.value.labels| == |codes|
    ensures r.Ok? ==> var d := GetDict(catalog, name).value;
                      forall i :: 0 <= i < |codes| ==>
                        r.value.labels[i] == if codes[i] in d.entries then Some(d.entries[codes[i]]) else None
    ensures r.Ok? ==> r.value.levels == Levels(GetDict(catalog, name).value)
  {
    match GetDict(catalog, name)
    case Err(e) => Err(e)
    case Ok(d) => Ok(Categorical(Relabel(codes, d), Levels(d)))
  }
}
