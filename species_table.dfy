/** The Pl@ntNet side of app.py: the guard that decides whether an
    identification response yields a table, and `build_results_dataframe`,
    which flattens each result into a row with `''` defaults. */
module SpeciesTable {
  import opened Wrappers
  import opened Json
  import opened PyStr
  import opened Decimal
  import opened Traverse

  // ---------------------------------------------------------------------
  // The confidence score, `f"{score:.2f}"`

  /** Rounding to the nearest integer, ties to the even neighbour, as
      Python's fixed-point formatting rounds. */
  function RoundHalfEven(y: real): (n: int)
    ensures -1 as real / 2 as real <= y - n as real <= 1 as real / 2 as real
    ensures y >= 0 as real ==> n >= 0
    ensures y - n as real == 1 as real / 2 as real || n as real - y == 1 as real / 2 as real ==> n % 2 == 0
  {
    var f := y.Floor;
    var d := y - f as real;
    if d < 1 as real / 2 as real then f
    else if d > 1 as real / 2 as real then f + 1
    else if f % 2 == 0 then f else f + 1
  }

  /** Hundredths written as `<int>.<two digits>`. */
  function ShowCents(c: nat): string
  {
    ShowNat(c / 100) + "." + PadNat(c % 100, 2)
  }

  /** A non-negative magnitude rounded to hundredths and written out. */
  function Magnitude2(m: real): string
    requires m >= 0 as real
  {
    ShowCents(RoundHalfEven(m * 100 as real))
  }

  /** `format(x, '.2f')`: the sign of `x`, then its magnitude rounded to
      hundredths. */
  function Fixed2(x: real): (s: string)
  {
    if x < 0 as real then "-" + Magnitude2(-x) else Magnitude2(x)
  }

  /** Reads `[-]<digits>.<two digits>` back as a number. */
  function Fixed2Value(s: string): (v: Option<real>)
  {
    if s != [] && s[0] == '-' then
      match UnsignedValue(s[1..])
      case None => None
      case Some(m) => Some(-m)
    else UnsignedValue(s)
  }

  /** Reads `<digits>.<two digits>` as a number. */
  function UnsignedValue(body: string): (v: Option<real>)
  {
    if |body| < 4 || body[|body| - 3] != '.' then None
    else
      var ip := body[..|body| - 3];
      var fp := body[|body| - 2..];
      if !AllDigits(ip) || !AllDigits(fp) then None
      else Some(DigitsValue(ip) as real + DigitsValue(fp) as real / 100 as real)
  }

  lemma ShowCentsValue(c: nat)
    ensures UnsignedValue(ShowCents(c)) == Some(c as real / 100 as real)
    ensures Fixed2Value(ShowCents(c)) == Some(c as real / 100 as real)
    ensures ShowCents(c)[0] != '-'
  {
    var s := ShowCents(c);
    var ip := ShowNat(c / 100);
    var fp := PadNat(c % 100, 2);
    assert Pow10(2) == 100;
    PadNatWidth(c % 100, 2);
    assert s[|s| - 3] == '.';
    assert s[..|s| - 3] == ip;
    assert s[|s| - 2..] == fp;
    assert UnsignedValue(s) == Some(DigitsValue(ip) as real + DigitsValue(fp) as real / 100 as real);
    ShowNatRoundTrip(c / 100);
    CentsSplit(c);
    assert s[0] == ip[0];
  }

  lemma CentsSplit(c: nat)
    ensures (c / 100) as real + (c % 100) as real / 100 as real == c as real / 100 as real
  {
    assert c == 100 * (c / 100) + c % 100;
    assert c as real == 100 as real * (c / 100) as real + (c % 100) as real;
  }

  /** The formatted score, read back, is within half a hundredth of the
      score. */
  lemma Fixed2Close(x: real)
    ensures Fixed2Value(Fixed2(x)).Some?
    ensures -1 as real / 200 as real <= Fixed2Value(Fixed2(x)).value - x <= 1 as real / 200 as real
  {
    if x < 0 as real {
      var m := -x;
      var c := RoundHalfEven(m * 100 as real);
      var v := c as real / 100 as real;
      CentsClose(m, c);
      NegatedValue(Magnitude2(m), v);
      assert Fixed2(x) == "-" + Magnitude2(m);
      NegatedBound(v, m);
    } else {
      CentsClose(x, RoundHalfEven(x * 100 as real));
    }
  }

  lemma NegatedBound(v: real, m: real)
    requires -1 as real / 200 as real <= v - m <= 1 as real / 200 as real
    ensures -1 as real / 200 as real <= -v + m <= 1 as real / 200 as real
  {
  }

  /** Hundredths rounded from `m`, written and read back, are within half
      a hundredth of `m`. */
  lemma CentsClose(m: real, c: nat)
    requires m >= 0 as real && c == RoundHalfEven(m * 100 as real)
    ensures UnsignedValue(Magnitude2(m)) == Some(c as real / 100 as real)
    ensures Fixed2Value(Magnitude2(m)) == Some(c as real / 100 as real)
    ensures Magnitude2(m) != [] && Magnitude2(m)[0] != '-'
    ensures -1 as real / 200 as real <= c as real / 100 as real - m <= 1 as real / 200 as real
  {
    ShowCentsValue(c);
    ScaleClose(m, c);
  }

  lemma NegatedValue(s: string, v: real)
    requires UnsignedValue(s) == Some(v)
    ensures Fixed2Value("-" + s) == Some(-v)
  {
    assert ("-" + s)[1..] == s;
  }

  lemma ScaleClose(m: real, c: int)
    requires -1 as real / 2 as real <= m * 100 as real - c as real <= 1 as real / 2 as real
    ensures -1 as real / 200 as real <= c as real / 100 as real - m <= 1 as real / 200 as real
  {
    assert c as real / 100 as real - m == -(m * 100 as real - c as real) / 100 as real;
  }

  /** `f"{score:.2f}"` for a decoded JSON score: numbers and booleans are
      formatted, a string raises ValueError, anything else TypeError. */
  function ScoreText(score: Json): (r: Result<string>)
    ensures r.Ok? <==> score.JInt? || score.JFloat? || score.JBool?
    ensures score.JStr? ==> r == Err(ValueError)
  {
    match score
    case JInt(i) => Ok(Fixed2(i as real))
    case JFloat(f) => Ok(Fixed2(f))
    case JBool(b) => Ok(Fixed2(if b then 1 as real else 0 as real))
    case JStr(_) => Err(ValueError)
    case _ => Err(TypeError)
  }

  // ---------------------------------------------------------------------
  // One result

  /** The strings of a decoded list whose items are all strings. */
  function Strings(items: seq<Json>): (xs: seq<string>)
    requires forall k :: 0 <= k < |items| ==> items[k].JStr?
    ensures |xs| == |items| && forall k :: 0 <= k < |items| ==> items[k] == JStr(xs[k])
  {
    seq(|items|, k requires 0 <= k < |items| => items[k].s)
  }

  /** What iterating over a `str` yields: its characters as one-character
      strings. */
  function Chars(s: string): (xs: seq<string>)
    ensures |xs| == |s| && forall k :: 0 <= k < |s| ==> xs[k] == [s[k]]
  {
    seq(|s|, k requires 0 <= k < |s| => [s[k]])
  }

  /** `', '.join(names)`: a list must hold only strings, a string is
      joined character by character, and a dict by its keys; anything
      else raises TypeError. */
  function JoinNames(names: Json): (r: Result<string>)
    ensures r.Ok? <==> (names.JStr? || names.JObj?
                        || (names.JArr? && forall k :: 0 <= k < |names.items| ==> names.items[k].JStr?))
    ensures r.Err? ==> r.error == TypeError
    ensures names.JArr? && r.Ok? ==> r == Ok(Join(", ", Strings(names.items)))
    ensures names.JStr? ==> r == Ok(Join(", ", Chars(names.s)))
    ensures names.JObj? ==> r == Ok(Join(", ", SortedStrings(names.fields.Keys)))
  {
    match names
    case JArr(items) =>
      if forall k :: 0 <= k < |items| ==> items[k].JStr? then Ok(Join(", ", Strings(items)))
      else Err(TypeError)
    case JStr(s) => Ok(Join(", ", Chars(s)))
    case JObj(fields) => Ok(Join(", ", SortedStrings(fields.Keys)))
    case _ => Err(TypeError)
  }

  /** The decoded form of a list of names. */
  function NameList(xs: seq<string>): (items: seq<Json>)
    ensures |items| == |xs|
  {
    seq(|xs|, k requires 0 <= k < |xs| => JStr(xs[k]))
  }

  /** A list of names joins to the names separated by ", ". */
  lemma JoinNamesOfList(xs: seq<string>)
    ensures JoinNames(JArr(NameList(xs))) == Ok(Join(", ", xs))
  {
    assert Strings(NameList(xs)) == xs;
  }

  /** A dict with at most one key joins to that key, whatever the key
      order. */
  lemma JoinNamesOfDict(k: string, v: Json)
    ensures JoinNames(JObj(map[])) == Ok("")
    ensures JoinNames(JObj(map[k := v])) == Ok(k)
  {
    var ks := SortedStrings(map[k := v].Keys);
    assert k in ks;
  }

  /** Splitting a cell back at each ", ". */
  function Unjoin(t: string): seq<string>
    decreases |t|
  {
    match Find(t, ", ", 0)
    case None => [t]
    case Some(i) => [t[..i]] + Unjoin(t[i + 2..])
  }

  predicate NoComma(x: string)
  {
    forall i :: 0 <= i < |x| ==> x[i] != ','
  }

  /** The common-names cell reads back as the names when none of them
      holds a comma. */
  lemma {:induction false} UnjoinJoin(xs: seq<string>)
    requires xs != [] && forall k :: 0 <= k < |xs| ==> NoComma(xs[k])
    ensures Unjoin(Join(", ", xs)) == xs
  {
    if |xs| == 1 {
      assert Find(xs[0], ", ", 0).None? by {
        forall i | 0 <= i
          ensures !OccursAt(xs[0], ", ", i)
        {
          if i < |xs[0]| { assert xs[0][i] != ','; }
        }
      }
    } else {
      var x := xs[0];
      var rest := Join(", ", xs[1..]);
      var t := x + ", " + rest;
      assert Join(", ", xs) == t;
      assert Find(t, ", ", 0) == Some(|x|) by {
        assert OccursAt(t, ", ", |x|) by { assert t[|x|..|x| + 2] == ", "; }
        forall i | 0 <= i < |x|
          ensures !OccursAt(t, ", ", i)
        {
          assert t[i] == x[i];
        }
        FindFirst(t, ", ", |x|);
      }
      assert t[..|x|] == x;
      assert t[|x| + 2..] == rest;
      UnjoinJoin(xs[1..]);
      assert xs == [x] + xs[1..];
    }
  }

  /** The first occurrence found from 0 is the first index where `p`
      occurs. */
  lemma FindFirst(s: string, p: string, n: nat)
    requires OccursAt(s, p, n) && forall i :: 0 <= i < n ==> !OccursAt(s, p, i)
    ensures Find(s, p, 0) == Some(n)
  {
  }

  /** A row of the species table. The name cells hold whatever value the
      response carries (normally a string). */
  datatype SpeciesRow = SpeciesRow(
    scientificName: Json, commonNames: string, genus: Json, family: Json, confidence: string)

  const SciName := "scientificNameWithoutAuthor"

  /** The row `build_results_dataframe` makes of one result, or the error
      Python raises for it, in the order the statements run. */
  function RowOf(res: Json): (r: Result<SpeciesRow>)
    ensures r.Ok? ==> res.JObj? && "species" in res.fields && res.fields["species"].JObj?
    ensures !res.JObj? ==> r == Err(TypeError)
    ensures res.JObj? && "species" !in res.fields ==> r == Err(KeyError("species"))
    ensures r.Ok? ==> var sp := res.fields["species"].fields;
      r.value.scientificName == FieldOr(sp, SciName, JStr(""))
      && JoinNames(FieldOr(sp, "commonNames", JArr([]))) == Ok(r.value.commonNames)
      && FieldOr(sp, "genus", JObj(map[])).JObj?
      && r.value.genus == FieldOr(FieldOr(sp, "genus", JObj(map[])).fields, SciName, JStr(""))
      && FieldOr(sp, "family", JObj(map[])).JObj?
      && r.value.family == FieldOr(FieldOr(sp, "family", JObj(map[])).fields, SciName, JStr(""))
      && ScoreText(FieldOr(res.fields, "score", JInt(0))) == Ok(r.value.confidence)
    ensures (res.JObj? && "species" in res.fields && res.fields["species"].JObj?
      && var sp := res.fields["species"].fields;
      JoinNames(FieldOr(sp, "commonNames", JArr([]))).Ok?
      && FieldOr(sp, "genus", JObj(map[])).JObj? && FieldOr(sp, "family", JObj(map[])).JObj?
      && ScoreText(FieldOr(res.fields, "score", JInt(0))).Ok?) ==> r.Ok?
  {
    match Index(res, "species")
    case Err(e) => Err(e)
    case Ok(species) =>
      match Get(species, SciName, JStr(""))
      case Err(e) => Err(e)
      case Ok(name) =>
        match Get(species, "commonNames", JArr([]))
        case Err(e) => Err(e)
        case Ok(names) =>
          match JoinNames(names)
          case Err(e) => Err(e)
          case Ok(common) =>
            match Get(species, "genus", JObj(map[]))
            case Err(e) => Err(e)
            case Ok(genusObj) =>
              match Get(genusObj, SciName, JStr(""))
              case Err(e) => Err(e)
              case Ok(genus) =>
                match Get(species, "family", JObj(map[]))
                case Err(e) => Err(e)
                case Ok(familyObj) =>
                  match Get(familyObj, SciName, JStr(""))
                  case Err(e) => Err(e)
                  case Ok(family) =>
                    match Get(res, "score", JInt(0))
                    case Err(e) => Err(e)
                    case Ok(score) =>
                      match ScoreText(score)
                      case Err(e) => Err(e)
                      case Ok(conf) => Ok(SpeciesRow(name, common, genus, family, conf))
  }

  /** A result as the API documents it: the names as strings, the common
      names as a list of strings, genus and family as dicts, a numeric
      score. */
  function DocumentedResult(name: string, common: seq<string>, genus: string, family: string, score: real): Json
  {
    JObj(map[
      "species" := JObj(map[
        SciName := JStr(name),
        "commonNames" := JArr(NameList(common)),
        "genus" := JObj(map[SciName := JStr(genus)]),
        "family" := JObj(map[SciName := JStr(family)])]),
      "score" := JFloat(score)])
  }

  /** A documented result gives its names as they are, the common names
      joined with ", " (so they read back when none holds a comma), and
      the score formatted to two decimals. */
  lemma RowOfDocumented(name: string, common: seq<string>, genus: string, family: string, score: real)
    ensures RowOf(DocumentedResult(name, common, genus, family, score))
      == Ok(SpeciesRow(JStr(name), Join(", ", common), JStr(genus), JStr(family), Fixed2(score)))
  {
    var res := DocumentedResult(name, common, genus, family, score);
    var sp := res.fields["species"];
    var g := JObj(map[SciName := JStr(genus)]);
    var f := JObj(map[SciName := JStr(family)]);
    assert Index(res, "species") == Ok(sp);
    assert Get(sp, SciName, JStr("")) == Ok(JStr(name));
    assert Get(sp, "commonNames", JArr([])) == Ok(JArr(NameList(common)));
    JoinNamesOfList(common);
    assert Get(sp, "genus", JObj(map[])) == Ok(g);
    assert Get(g, SciName, JStr("")) == Ok(JStr(genus));
    assert Get(sp, "family", JObj(map[])) == Ok(f);
    assert Get(f, SciName, JStr("")) == Ok(JStr(family));
    assert Get(res, "score", JInt(0)) == Ok(JFloat(score));
  }

  /** A result whose `species` object has none of the optional keys, and
      no score, gives empty cells and a confidence of "0.00". */
  lemma RowOfDefaults(extra: map<string, Json>)
    requires "species" !in extra && "score" !in extra
    ensures RowOf(JObj(extra["species" := JObj(map[])])) == Ok(SpeciesRow(JStr(""), "", JStr(""), JStr(""), "0.00"))
  {
    var species := JObj(map[]);
    var res := JObj(extra["species" := species]);
    assert Index(res, "species") == Ok(species);
    assert Get(species, SciName, JStr("")) == Ok(JStr(""));
    assert Get(species, "commonNames", JArr([])) == Ok(JArr([]));
    assert Get(species, "genus", JObj(map[])) == Ok(JObj(map[]));
    assert Get(species, "family", JObj(map[])) == Ok(JObj(map[]));
    assert Get(res, "score", JInt(0)) == Ok(JInt(0));
    ScoreZero();
  }

  /** No score reads as a confidence of "0.00". */
  lemma ScoreZero()
    ensures ScoreText(JInt(0)) == Ok("0.00")
  {
    assert 0 as real * 100 as real == 0 as real;
    assert RoundHalfEven(0 as real) == 0;
    assert ShowNat(0) == "0";
    assert PadNat(0, 2) == "00" by {
      assert PadNat(0, 1) == "0";
    }
    assert ShowCents(0) == "0.00";
  }

  // ---------------------------------------------------------------------
  // The table

  /** `build_results_dataframe`: one row per result, in input order. */
  method BuildResultsDataframe(results: seq<Json>) returns (r: Result<seq<SpeciesRow>>)
    ensures r == Collect(RowOf, results)
  {
    var rows: seq<SpeciesRow> := [];
    for i := 0 to |results|
      invariant Collect(RowOf, results[..i]) == Ok(rows)
    {
      assert results[..i + 1][..i] == results[..i];
      var row := RowOf(results[i]);
      if row.Err? {
        assert Collect(RowOf, results[..i + 1]) == Err(row.error);
        CollectPrefixError(RowOf, results, i + 1);
        return Err(row.error);
      }
      rows := rows + [row.value];
    }
    assert results[..|results|] == results;
    r := Ok(rows);
  }

  /** Iterating over `result['results']`: a list yields its items; an empty
      dict or string yields nothing; anything else fails on its first
      element or is not iterable (TypeError). */
  function ResultsList(results: Json): (r: Result<seq<Json>>)
    ensures results.JArr? ==> r == Ok(results.items)
    ensures r.Ok? && r.value != [] ==> results.JArr?
  {
    match results
    case JArr(items) => Ok(items)
    case JObj(fields) => if fields == map[] then Ok([]) else Err(TypeError)
    case JStr(s) => if s == "" then Ok([]) else Err(TypeError)
    case _ => Err(TypeError)
  }

  /** The guard `not result or 'results' not in result or not
      result['results']`: Ok(true) when a table is built. A truthy
      non-dict response that contains "results" fails on the index. */
  function ResultsGuard(result: Json): (r: Result<bool>)
    ensures r == Ok(true) <==> result.JObj? && "results" in result.fields && Truthy(result.fields["results"])
    ensures result == JNull ==> r == Ok(false)
    ensures result.JObj? ==> r.Ok?
  {
    if !Truthy(result) then Ok(false)
    else match result
      case JObj(fields) => Ok("results" in fields && Truthy(fields["results"]))
      case JArr(items) => if JStr("results") in items then Err(TypeError) else Ok(false)
      case JStr(s) => if Find(s, "results", 0).Some? then Err(TypeError) else Ok(false)
      case _ => Err(TypeError)
  }

  /** The table `main` shows for an identification response: none when the
      guard fails, otherwise the rows of `result['results']`. */
  function SpeciesTableFor(result: Json): (r: Result<Option<seq<SpeciesRow>>>)
    ensures r.Ok? && r.value.Some? ==> r.value.value != []
    ensures r.Ok? && r.value.Some? ==> (result.JObj? && "results" in result.fields
      && result.fields["results"].JArr?
      && Collect(RowOf, result.fields["results"].items) == Ok(r.value.value))
  {
    match ResultsGuard(result)
    case Err(e) => Err(e)
    case Ok(go) =>
      if !go then Ok(None)
      else
        match ResultsList(result.fields["results"])
        case Err(e) => Err(e)
        case Ok(items) =>
          match Collect(RowOf, items)
          case Err(e) => Err(e)
          case Ok(rows) => Ok(Some(rows))
  }
}
