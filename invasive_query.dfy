/** `query_invasive_species_database` (app.py): the parameters of the
    Forest Service query and the handling of its response. */
module InvasiveQuery {
  import opened Wrappers
  import opened Json
  import opened PyStr
  import opened Http

  const WherePrefix: string := "SCIENTIFIC_NAME='"

  /** The attribute fields requested, in order. */
  const OutFields: seq<string> := [
    "NRCS_PLANT_CODE", "SCIENTIFIC_NAME", "COMMON_NAME", "PROJECT_CODE",
    "PLANT_STATUS", "FS_UNIT_NAME", "EXAMINERS", "LAST_UPDATE"
  ]

  /** The `where` filter: the name quoted with no escaping. */
  function Where(name: string): (w: string)
    ensures |w| == |name| + 18
    ensures w[..17] == WherePrefix && w[|w| - 1] == '\''
    ensures w[17..|w| - 1] == name
  {
    WherePrefix + name + "'"
  }

  /** Different names give different filters, so the name can be read
      back from the filter even when it contains quotes. */
  lemma WhereInjective(a: string, b: string)
    requires Where(a) == Where(b)
    ensures a == b
  {
    assert a == Where(a)[17..|Where(a)| - 1];
  }

  /** The request parameters. Geometry is not requested, so the features
      of the response carry none. */
  function QueryParams(name: string): (p: map<string, string>)
    ensures p.Keys == {"where", "outFields", "returnGeometry", "f"}
    ensures p["where"] == Where(name) && p["returnGeometry"] == "false" && p["f"] == "json"
    ensures p["outFields"] == Join(",", OutFields)
  {
    map["where" := Where(name), "outFields" := Join(",", OutFields),
        "returnGeometry" := "false", "f" := "json"]
  }

  /** The decoded response on status 200, otherwise `None`. */
  function QueryResult(resp: Response): (r: Option<Json>)
    ensures r.Some? <==> resp.status == 200
    ensures r.Some? ==> r.value == resp.body
  {
    JsonIfOk(resp)
  }
}
