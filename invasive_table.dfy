/** The record table of `show_invasive_species_results`
    (invasive_utils.py): one row per feature under the display labels, the
    `Updated` column normalised by `parse_updated`, the record count per
    forest name sorted by count, the forest-name options and the filter. */
module InvasiveTable {
  import opened Wrappers
  import opened Json
  import opened Geometry
  import opened Timestamp
  import InvasiveQuery

  /** The attribute keys of the field-label mapping, in order. */
  const FieldKeys: seq<string> := [
    "NRCS_PLANT_CODE", "SCIENTIFIC_NAME", "COMMON_NAME", "PROJECT_CODE",
    "PLANT_STATUS", "FS_UNIT_NAME", "EXAMINERS", "LAST_UPDATE"
  ]

  /** The forest-name label, which is also the grouping column. */
  const UnitLabel: string := ['\U{1F3DE}', '\U{FE0F}'] + " Forest Name"
  const UpdatedLabel: string := "Updated"

  /** The display labels, in the order of `FieldKeys`. */
  const Labels: seq<string> := [
    ['\U{1F194}'] + " NRCS Plant Code", ['\U{1F52C}'] + " Scientific Name",
    ['\U{1F331}'] + " Common Name", ['\U{1F4C1}'] + " Project Code",
    ['\U{1F6A6}'] + " Plant Status", UnitLabel,
    ['\U{1F9D1}', '\U{200D}', '\U{1F52C}'] + " Examiners", UpdatedLabel
  ]

  /** A table row: display label to cell value. */
  type Row = map<string, Scalar>

  /** The mapping covers exactly the fields the query asks for. */
  lemma FieldKeysAreOutFields()
    ensures FieldKeys == InvasiveQuery.OutFields
  {
  }

  /** No two fields share a label, so no cell overwrites another. */
  lemma LabelsDistinct()
    ensures |Labels| == |FieldKeys| == 8
    ensures forall i, j :: 0 <= i < j < |Labels| ==> Labels[i] != Labels[j]
  {
    var firsts := ['\U{1F194}', '\U{1F52C}', '\U{1F331}', '\U{1F4C1}', '\U{1F6A6}', '\U{1F3DE}', '\U{1F9D1}', 'U'];
    assert forall i :: 0 <= i < |Labels| ==> Labels[i] != [] && Labels[i][0] == firsts[i];
    forall i, j | 0 <= i < j < |Labels|
      ensures Labels[i] != Labels[j]
    {
      assert firsts[i] != firsts[j];
    }
  }

  /** `attributes.get(key, '')`. */
  function Attr(attrs: map<string, Scalar>, key: string): Scalar
  {
    if key in attrs then attrs[key] else Str("")
  }

  /** The row after the first `n` fields of the mapping are filled in. */
  function RowFrom(attrs: map<string, Scalar>, n: nat): Row
    requires n <= |Labels|
  {
    if n == 0 then map[] else RowFrom(attrs, n - 1)[Labels[n - 1] := Attr(attrs, FieldKeys[n - 1])]
  }

  /** The row of one feature. */
  function RowOf(attrs: map<string, Scalar>): Row
  {
    RowFrom(attrs, |Labels|)
  }

  lemma RowFromContents(attrs: map<string, Scalar>, n: nat)
    requires n <= |Labels|
    ensures RowFrom(attrs, n).Keys == set i | 0 <= i < n :: Labels[i]
    ensures forall i :: 0 <= i < n ==> RowFrom(attrs, n)[Labels[i]] == Attr(attrs, FieldKeys[i])
  {
    RowFromKeys(attrs, n);
    RowFromValues(attrs, n);
  }

  lemma {:induction false} RowFromKeys(attrs: map<string, Scalar>, n: nat)
    requires n <= |Labels|
    ensures RowFrom(attrs, n).Keys == set i | 0 <= i < n :: Labels[i]
  {
    if n > 0 {
      RowFromKeys(attrs, n - 1);
      assert (set i | 0 <= i < n :: Labels[i]) == (set i | 0 <= i < n - 1 :: Labels[i]) + {Labels[n - 1]};
    }
  }

  lemma {:induction false} RowFromValues(attrs: map<string, Scalar>, n: nat)
    requires n <= |Labels|
    ensures forall i :: 0 <= i < n ==> Labels[i] in RowFrom(attrs, n) && RowFrom(attrs, n)[Labels[i]] == Attr(attrs, FieldKeys[i])
  {
    if n > 0 {
      RowFromValues(attrs, n - 1);
      LabelsDistinct();
      var r := RowFrom(attrs, n);
      forall i | 0 <= i < n
        ensures Labels[i] in r && r[Labels[i]] == Attr(attrs, FieldKeys[i])
      {
        if i < n - 1 {
          assert Labels[i] != Labels[n - 1];
        }
      }
    }
  }

  /** Every row has exactly the eight labels, each holding its attribute or
      `''` when the attribute is missing. */
  lemma RowContents(attrs: map<string, Scalar>)
    ensures RowOf(attrs).Keys == set i | 0 <= i < |Labels| :: Labels[i]
    ensures forall i :: 0 <= i < |Labels| ==> RowOf(attrs)[Labels[i]] == Attr(attrs, FieldKeys[i])
    ensures UnitLabel in RowOf(attrs) && RowOf(attrs)[UnitLabel] == Attr(attrs, "FS_UNIT_NAME")
    ensures UpdatedLabel in RowOf(attrs) && RowOf(attrs)[UpdatedLabel] == Attr(attrs, "LAST_UPDATE")
  {
    RowFromContents(attrs, |Labels|);
    assert Labels[5] == UnitLabel && FieldKeys[5] == "FS_UNIT_NAME";
    assert Labels[7] == UpdatedLabel && FieldKeys[7] == "LAST_UPDATE";
  }

  /** The row loop: for each feature, a fresh dict filled label by label,
      appended to `data`. */
  method BuildRows(features: seq<Feature>) returns (data: seq<Row>)
    ensures |data| == |features|
    ensures forall i :: 0 <= i < |features| ==> data[i] == RowOf(features[i].attributes)
  {
    data := [];
    for i := 0 to |features|
      invariant |data| == i
      invariant forall k :: 0 <= k < i ==> data[k] == RowOf(features[k].attributes)
    {
      var attributes := features[i].attributes;
      var row: Row := map[];
      for j := 0 to |Labels|
        invariant row == RowFrom(attributes, j)
      {
        var key := FieldKeys[j];
        row := row[Labels[j] := if key in attributes then attributes[key] else Str("")];
      }
      data := data + [row];
    }
  }

  /** `df['Updated'] = df['Updated'].apply(parse_updated)`. */
  function ConvertUpdated(data: seq<Row>, lib: Lib): (out: seq<Row>)
    ensures |out| == |data|
    ensures forall i :: 0 <= i < |data| ==> out[i].Keys == data[i].Keys
    ensures forall i, k :: 0 <= i < |data| && k in data[i] && k != UpdatedLabel ==> out[i][k] == data[i][k]
    ensures forall i :: 0 <= i < |data| && UpdatedLabel in data[i] ==>
      out[i][UpdatedLabel] == Str(ParseUpdated(data[i][UpdatedLabel], lib))
  {
    seq(|data|, i requires 0 <= i < |data| =>
      if UpdatedLabel in data[i] then data[i][UpdatedLabel := Str(ParseUpdated(data[i][UpdatedLabel], lib))]
      else data[i])
  }

  /** After the conversion every `Updated` cell is `''` or a date. */
  lemma ConvertedDates(data: seq<Row>, lib: Lib, i: nat)
    requires LibValid(lib) && i < |data| && UpdatedLabel in data[i]
    ensures var c := ConvertUpdated(data, lib)[i][UpdatedLabel];
      c.Str? && (c.s == "" || IsIsoDate(c.s))
  {
    ParseUpdatedShape(data[i][UpdatedLabel], lib);
  }

  // ---------------------------------------------------------------------
  // Summary by forest name

  /** The forest name of a row; a missing cell is NaN. */
  function UnitOf(row: Row): Scalar
  {
    if UnitLabel in row then row[UnitLabel] else Null
  }

  function Units(data: seq<Row>): (us: seq<Scalar>)
    ensures |us| == |data| && forall i :: 0 <= i < |data| ==> us[i] == UnitOf(data[i])
  {
    seq(|data|, i requires 0 <= i < |data| => UnitOf(data[i]))
  }

  /** How many entries of `us` equal `k`. */
  function Count(us: seq<Scalar>, k: Scalar): nat
  {
    if us == [] then 0 else Count(us[..|us| - 1], k) + (if us[|us| - 1] == k then 1 else 0)
  }

  lemma {:induction false} CountPositive(us: seq<Scalar>, k: Scalar)
    requires k in us
    ensures Count(us, k) >= 1
  {
    if us[|us| - 1] != k {
      assert k in us[..|us| - 1];
      CountPositive(us[..|us| - 1], k);
    }
  }

  predicate NoDup<T(==)>(s: seq<T>)
  {
    forall i, j :: 0 <= i < j < |s| ==> s[i] != s[j]
  }

  /** The group keys: the non-NaN names, each once, in order of first
      appearance. */
  function GroupKeys(us: seq<Scalar>): (ks: seq<Scalar>)
    ensures NoDup(ks)
    ensures forall x :: x in ks <==> x != Null && x in us
  {
    if us == [] then []
    else
      var ks := GroupKeys(us[..|us| - 1]);
      var x := us[|us| - 1];
      assert forall y :: y in us <==> y in us[..|us| - 1] || y == x;
      if x == Null || x in ks then ks else ks + [x]
  }

  /** `groupby(unit_col).size()`: each key with its count. */
  function Groups(us: seq<Scalar>): (gs: seq<(Scalar, nat)>)
  {
    var ks := GroupKeys(us);
    seq(|ks|, i requires 0 <= i < |ks| => (ks[i], Count(us, ks[i])))
  }

  predicate NonIncreasing(s: seq<(Scalar, nat)>)
  {
    forall i, j :: 0 <= i < j < |s| ==> s[i].1 >= s[j].1
  }

  /** Inserts `e` after the entries whose count is at least its own. */
  function InsertDesc(e: (Scalar, nat), s: seq<(Scalar, nat)>): (r: seq<(Scalar, nat)>)
    ensures |r| == |s| + 1 && multiset(r) == multiset(s) + multiset{e}
  {
    if s == [] then [e]
    else if e.1 > s[0].1 then [e] + s
    else
      assert s == [s[0]] + s[1..];
      [s[0]] + InsertDesc(e, s[1..])
  }

  /** Inserting into a sorted list keeps it sorted. */
  lemma {:induction false} InsertDescSorted(e: (Scalar, nat), s: seq<(Scalar, nat)>)
    requires NonIncreasing(s)
    ensures NonIncreasing(InsertDesc(e, s))
  {
    if s != [] && e.1 <= s[0].1 {
      var t := InsertDesc(e, s[1..]);
      InsertDescSorted(e, s[1..]);
      var r := InsertDesc(e, s);
      assert r == [s[0]] + t;
      forall j | 1 <= j < |r|
        ensures r[0].1 >= r[j].1
      {
        var x := r[j];
        assert x in t;
        assert x in multiset(t);
        if x != e {
          assert x in multiset(s[1..]);
          var k :| 0 <= k < |s[1..]| && s[1..][k] == x;
          assert s[k + 1] == x;
        }
      }
    }
  }

  /** `sort_values(..., ascending=False)`: one order of the entries by
      non-increasing count. */
  function SortDesc(s: seq<(Scalar, nat)>): (r: seq<(Scalar, nat)>)
    ensures |r| == |s| && multiset(r) == multiset(s)
    ensures NonIncreasing(r)
  {
    if s == [] then []
    else
      assert s == [s[0]] + s[1..];
      var t := SortDesc(s[1..]);
      InsertDescSorted(s[0], t);
      InsertDesc(s[0], t)
  }

  /** The summary table. */
  function Summary(us: seq<Scalar>): seq<(Scalar, nat)>
  {
    SortDesc(Groups(us))
  }

  /** What a summary of `us` is: each non-NaN name once, with its number of
      records, by non-increasing count (pandas leaves the order of equal
      counts open). */
  predicate IsSummary(us: seq<Scalar>, s: seq<(Scalar, nat)>)
  {
    (forall i :: 0 <= i < |s| ==> s[i].0 != Null && s[i].1 == Count(us, s[i].0) && s[i].1 >= 1)
    && (forall i, j :: 0 <= i < j < |s| ==> s[i].0 != s[j].0)
    && (forall k :: 0 <= k < |us| && us[k] != Null ==> exists i :: 0 <= i < |s| && s[i].0 == us[k])
    && NonIncreasing(s)
  }

  lemma GroupsFacts(us: seq<Scalar>)
    ensures NoDup(Groups(us))
    ensures forall x :: x in Groups(us) ==> x.0 != Null && x.0 in us && x.1 == Count(us, x.0)
    ensures forall k :: 0 <= k < |us| && us[k] != Null ==> (us[k], Count(us, us[k])) in Groups(us)
  {
    var ks := GroupKeys(us);
    var gs := Groups(us);
    forall i, j | 0 <= i < j < |gs|
      ensures gs[i] != gs[j]
    {
      assert gs[i].0 == ks[i] && gs[j].0 == ks[j];
    }
    forall x | x in gs
      ensures x.0 != Null && x.0 in us && x.1 == Count(us, x.0)
    {
      var i :| 0 <= i < |gs| && gs[i] == x;
      assert ks[i] in ks;
    }
    forall k | 0 <= k < |us| && us[k] != Null
      ensures (us[k], Count(us, us[k])) in gs
    {
      assert us[k] in ks;
      var i :| 0 <= i < |ks| && ks[i] == us[k];
      assert gs[i] == (us[k], Count(us, us[k]));
    }
  }

  /** The summary is a summary. */
  lemma SummaryCorrect(us: seq<Scalar>)
    ensures IsSummary(us, Summary(us))
  {
    SummaryEntries(us);
    SummaryDistinct(us);
    SummaryCovers(us);
  }

  /** Two lists with the same multiset have the same elements. */
  lemma SameMembers<T>(a: seq<T>, b: seq<T>)
    requires multiset(a) == multiset(b)
    ensures forall x :: x in a <==> x in b
  {
    forall x ensures x in a <==> x in b {
      assert x in a <==> x in multiset(a);
      assert x in b <==> x in multiset(b);
    }
  }

  lemma SummaryEntries(us: seq<Scalar>)
    ensures var s := Summary(us);
      forall i :: 0 <= i < |s| ==> s[i].0 != Null && s[i].1 == Count(us, s[i].0) && s[i].1 >= 1
  {
    var gs := Groups(us);
    var s := Summary(us);
    GroupsFacts(us);
    SameMembers(s, gs);
    forall i | 0 <= i < |s|
      ensures s[i].0 != Null && s[i].1 == Count(us, s[i].0) && s[i].1 >= 1
    {
      assert s[i] in gs;
      CountPositive(us, s[i].0);
    }
  }

  lemma SummaryDistinct(us: seq<Scalar>)
    ensures var s := Summary(us);
      forall i, j :: 0 <= i < j < |s| ==> s[i].0 != s[j].0
  {
    var gs := Groups(us);
    var s := Summary(us);
    GroupsFacts(us);
    SameMembers(s, gs);
    PermutationNoDup(gs, s);
    forall i, j | 0 <= i < j < |s|
      ensures s[i].0 != s[j].0
    {
      assert s[i] in gs && s[j] in gs;
    }
  }

  lemma SummaryCovers(us: seq<Scalar>)
    ensures var s := Summary(us);
      forall k :: 0 <= k < |us| && us[k] != Null ==> exists i :: 0 <= i < |s| && s[i].0 == us[k]
  {
    var gs := Groups(us);
    var s := Summary(us);
    GroupsFacts(us);
    SameMembers(s, gs);
    forall k | 0 <= k < |us| && us[k] != Null
      ensures exists i :: 0 <= i < |s| && s[i].0 == us[k]
    {
      var e := (us[k], Count(us, us[k]));
      assert e in s;
      var i :| 0 <= i < |s| && s[i] == e;
      assert s[i].0 == us[k];
    }
  }

  /** A reordering of a list without duplicates has none. */
  lemma PermutationNoDup<T>(a: seq<T>, b: seq<T>)
    requires NoDup(a) && multiset(a) == multiset(b)
    ensures NoDup(b)
  {
    forall i, j | 0 <= i < j < |b|
      ensures b[i] != b[j]
    {
      if b[i] == b[j] {
        MultisetTwice(b, i, j);
        SeqMultiplicity(a, b[i]);
      }
    }
  }

  /** An element at two indices occurs at least twice. */
  lemma MultisetTwice<T>(s: seq<T>, i: nat, j: nat)
    requires i < j < |s| && s[i] == s[j]
    ensures multiset(s)[s[i]] >= 2
  {
    assert s == s[..i] + [s[i]] + s[i + 1..j] + [s[j]] + s[j + 1..];
  }

  /** In a sequence without duplicates every element occurs once. */
  lemma {:induction false} SeqMultiplicity<T>(s: seq<T>, x: T)
    requires NoDup(s)
    ensures multiset(s)[x] <= 1
  {
    if s != [] {
      var t := s[..|s| - 1];
      assert s == t + [s[|s| - 1]];
      assert NoDup(t);
      SeqMultiplicity(t, x);
      if x == s[|s| - 1] {
        assert x !in t;
      }
    }
  }

  /** `['All'] + [u for u in summary names if u]`. */
  function UnitOptions(s: seq<(Scalar, nat)>): (opts: seq<Scalar>)
    ensures opts != [] && opts[0] == Str("All")
    ensures forall i :: 1 <= i < |opts| ==> ScalarTruthy(opts[i])
    ensures forall x :: x in opts[1..] <==> exists i :: 0 <= i < |s| && s[i].0 == x && ScalarTruthy(x)
  {
    [Str("All")] + TruthyNames(s)
  }

  function TruthyNames(s: seq<(Scalar, nat)>): (ns: seq<Scalar>)
    ensures forall i :: 0 <= i < |ns| ==> ScalarTruthy(ns[i])
    ensures forall x :: x in ns <==> exists i :: 0 <= i < |s| && s[i].0 == x && ScalarTruthy(x)
  {
    if s == [] then []
    else
      var rest := TruthyNames(s[1..]);
      assert forall x :: (exists i :: 0 <= i < |s| && s[i].0 == x && ScalarTruthy(x)) <==>
        (s[0].0 == x && ScalarTruthy(x)) || (exists i :: 0 <= i < |s[1..]| && s[1..][i].0 == x && ScalarTruthy(x)) by {
        forall x ensures (exists i :: 0 <= i < |s| && s[i].0 == x && ScalarTruthy(x)) ==>
          (s[0].0 == x && ScalarTruthy(x)) || (exists i :: 0 <= i < |s[1..]| && s[1..][i].0 == x && ScalarTruthy(x)) {
          if exists i :: 0 <= i < |s| && s[i].0 == x && ScalarTruthy(x) {
            var i :| 0 <= i < |s| && s[i].0 == x && ScalarTruthy(x);
            if i > 0 {
              assert s[1..][i - 1].0 == x;
            }
          }
        }
        forall x ensures (exists i :: 0 <= i < |s[1..]| && s[1..][i].0 == x && ScalarTruthy(x)) ==>
          (exists i :: 0 <= i < |s| && s[i].0 == x && ScalarTruthy(x)) {
          if exists i :: 0 <= i < |s[1..]| && s[1..][i].0 == x && ScalarTruthy(x) {
            var i :| 0 <= i < |s[1..]| && s[1..][i].0 == x && ScalarTruthy(x);
            assert s[i + 1].0 == x;
          }
        }
      }
      if ScalarTruthy(s[0].0) then [s[0].0] + rest else rest
  }

  /** The names kept from a concatenation are those of each part, in
      order. */
  lemma {:induction false} TruthyNamesAppend(a: seq<(Scalar, nat)>, b: seq<(Scalar, nat)>)
    ensures TruthyNames(a + b) == TruthyNames(a) + TruthyNames(b)
  {
    if a != [] {
      var ab := a + b;
      assert ab[0] == a[0] && ab[1..] == a[1..] + b;
      TruthyNamesCons(ab);
      TruthyNamesCons(a);
      TruthyNamesAppend(a[1..], b);
    } else {
      assert a + b == b;
    }
  }

  lemma TruthyNamesCons(s: seq<(Scalar, nat)>)
    requires s != []
    ensures TruthyNames(s) == (if ScalarTruthy(s[0].0) then [s[0].0] else []) + TruthyNames(s[1..])
  {
  }

  /** One summary entry gives its name exactly when the name is truthy. */
  lemma TruthyNamesOne(e: (Scalar, nat))
    ensures TruthyNames([e]) == if ScalarTruthy(e.0) then [e.0] else []
  {
  }

  /** Distinct names in the summary give distinct options. */
  lemma {:induction false} TruthyNamesNoDup(s: seq<(Scalar, nat)>)
    requires forall i, j :: 0 <= i < j < |s| ==> s[i].0 != s[j].0
    ensures NoDup(TruthyNames(s))
  {
    if s != [] {
      TruthyNamesNoDup(s[1..]);
      var rest := TruthyNames(s[1..]);
      if ScalarTruthy(s[0].0) {
        assert forall i :: 0 <= i < |s[1..]| ==> s[1..][i].0 != s[0].0 by {
          forall i | 0 <= i < |s[1..]|
            ensures s[1..][i].0 != s[0].0
          {
            assert s[1..][i] == s[i + 1];
          }
        }
        assert TruthyNames(s) == [s[0].0] + rest;
      }
    }
  }

  /** The options offered for a set of records: `All`, then each truthy
      forest name once, in summary order. A forest named `All` would be
      offered twice. */
  lemma UnitOptionsDistinct(us: seq<Scalar>)
    requires Str("All") !in us
    ensures NoDup(UnitOptions(Summary(us)))
    ensures UnitOptions(Summary(us))[1..] == TruthyNames(Summary(us))
  {
    var s := Summary(us);
    var names := TruthyNames(s);
    SummaryDistinct(us);
    TruthyNamesNoDup(s);
    SummaryNamesIn(us);
    assert Str("All") !in names;
    NoDupCons(Str("All"), names);
    assert UnitOptions(s) == [Str("All")] + names;
  }

  /** Every name in the summary is the name of some record. */
  lemma SummaryNamesIn(us: seq<Scalar>)
    ensures forall x :: x in TruthyNames(Summary(us)) ==> x in us
  {
    var s := Summary(us);
    GroupsFacts(us);
    SameMembers(s, Groups(us));
    forall x | x in TruthyNames(s)
      ensures x in us
    {
      var i :| 0 <= i < |s| && s[i].0 == x && ScalarTruthy(x);
      assert s[i] in Groups(us);
    }
  }

  lemma NoDupCons<T>(x: T, rest: seq<T>)
    requires NoDup(rest) && x !in rest
    ensures NoDup([x] + rest)
  {
    var xs := [x] + rest;
    forall i, j | 0 <= i < j < |xs|
      ensures xs[i] != xs[j]
    {
      assert xs[j] == rest[j - 1];
      if i > 0 {
        assert xs[i] == rest[i - 1];
      }
    }
  }

  // ---------------------------------------------------------------------
  // The forest-name filter

  /** The rows whose forest name equals `sel`, in order. */
  function RowsOf(data: seq<Row>, sel: Scalar): (kept: seq<Row>)
    ensures |kept| <= |data|
    ensures forall i :: 0 <= i < |kept| ==> kept[i] in data && UnitOf(kept[i]) == sel
  {
    if data == [] then []
    else
      var init := RowsOf(data[..|data| - 1], sel);
      var last := data[|data| - 1];
      if UnitOf(last) == sel then init + [last] else init
  }

  /** `df[df[unit_col] == selected_unit]` unless the selection is 'All'. */
  function Filter(data: seq<Row>, sel: Scalar): (kept: seq<Row>)
    ensures sel == Str("All") ==> kept == data
    ensures sel != Str("All") ==> kept == RowsOf(data, sel)
  {
    if sel == Str("All") then data else RowsOf(data, sel)
  }

  /** The filter keeps as many rows as the name has records. */
  lemma {:induction false} RowsOfCount(data: seq<Row>, sel: Scalar)
    ensures |RowsOf(data, sel)| == Count(Units(data), sel)
  {
    if data != [] {
      assert Units(data)[..|data| - 1] == Units(data[..|data| - 1]);
      RowsOfCount(data[..|data| - 1], sel);
    }
  }

  /** Filtering a concatenation filters each part, keeping the order. */
  lemma {:induction false} RowsOfAppend(a: seq<Row>, b: seq<Row>, sel: Scalar)
    ensures RowsOf(a + b, sel) == RowsOf(a, sel) + RowsOf(b, sel)
    decreases |b|
  {
    if b == [] {
      assert a + b == a;
    } else {
      assert (a + b)[..|a + b| - 1] == a + b[..|b| - 1];
      RowsOfAppend(a, b[..|b| - 1], sel);
    }
  }

  /** Choosing a name of the summary shows exactly as many rows as its
      count in the summary. */
  lemma SelectionMatchesCount(data: seq<Row>, i: nat)
    requires i < |Summary(Units(data))|
    requires Summary(Units(data))[i].0 != Str("All")
    ensures |Filter(data, Summary(Units(data))[i].0)| == Summary(Units(data))[i].1
  {
    SummaryCorrect(Units(data));
    RowsOfCount(data, Summary(Units(data))[i].0);
  }

  // ---------------------------------------------------------------------
  // The whole panel

  /** What the panel shows: the map points, the summary, the forest-name
      options and the (filtered) table. */
  datatype View = View(points: seq<Point>, summary: seq<(Scalar, nat)>, options: seq<Scalar>, table: seq<Row>)

  /** `show_invasive_species_results` on the features of the response;
      `selected` is the option the user picked. Nothing is shown when there
      are no features. */
  method ShowInvasiveSpeciesResults(features: seq<Feature>, lib: Lib, selected: Scalar) returns (view: Option<View>)
    ensures features == [] <==> view.None?
    ensures view.Some? ==>
      var data := ConvertUpdated(seq(|features|, i requires 0 <= i < |features| => RowOf(features[i].attributes)), lib);
      view.value == View(Points(features), Summary(Units(data)), UnitOptions(Summary(Units(data))), Filter(data, selected))
  {
    if features == [] {
      return None;
    }
    var points := ExtractPoints(features);
    var rows := BuildRows(features);
    assert rows == seq(|features|, i requires 0 <= i < |features| => RowOf(features[i].attributes));
    var data := ConvertUpdated(rows, lib);
    var summary := Summary(Units(data));
    var options := UnitOptions(summary);
    view := Some(View(points, summary, options, Filter(data, selected)));
  }
}
