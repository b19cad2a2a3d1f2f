/** `get_wikipedia_section` and `get_wikipedia_summary`
    (src/wikipedia_utils.py). The two requests are inputs: the first
    response, and the response the second request gets for a section
    index. Every exception the code catches turns into `None`. */
module WikiLookup {
  import opened Wrappers
  import opened Json
  import opened PyStr
  import opened Http
  import opened WikiClean

  // ---------------------------------------------------------------------
  // The section search

  /** `sec.get("line", "")`, which must be a string for `.lower()`. */
  function LineOf(sec: Json): (r: Result<string>)
    ensures r.Ok? <==> sec.JObj? && ("line" !in sec.fields || sec.fields["line"].JStr?)
    ensures r.Ok? && "line" !in sec.fields ==> r.value == ""
    ensures r.Ok? && "line" in sec.fields ==> r.value == sec.fields["line"].s
  {
    match Get(sec, "line", JStr(""))
    case Err(e) => Err(e)
    case Ok(v) => if v.JStr? then Ok(v.s) else Err(AttributeError)
  }

  /** `sec.get("index")`. */
  function IndexOf(sec: Json): Json
    requires sec.JObj?
  {
    if "index" in sec.fields then sec.fields["index"] else JNull
  }

  /** Section `k` has a readable title equal to `title`, ignoring case. */
  predicate MatchesAt(secs: seq<Json>, title: string, k: nat)
    requires k < |secs|
  {
    LineOf(secs[k]).Ok? && Lower(LineOf(secs[k]).value) == Lower(title)
  }

  /** Every section before `k` has a readable title that does not match. */
  predicate NoMatchBefore(secs: seq<Json>, title: string, k: nat)
    requires k <= |secs|
  {
    forall j :: 0 <= j < k ==> LineOf(secs[j]).Ok? && !MatchesAt(secs, title, j)
  }

  /** The loop over `sections`: the `index` of the first section whose
      title matches, `None` when none does, or the error of the first
      section without a readable title before that. */
  function SectionSearch(secs: seq<Json>, title: string): (r: Result<Json>)
    ensures forall k :: 0 <= k < |secs| && NoMatchBefore(secs, title, k) && MatchesAt(secs, title, k) ==>
      r == Ok(IndexOf(secs[k]))
    ensures forall k :: 0 <= k < |secs| && NoMatchBefore(secs, title, k) && LineOf(secs[k]).Err? ==>
      r == Err(LineOf(secs[k]).error)
    ensures NoMatchBefore(secs, title, |secs|) ==> r == Ok(JNull)
  {
    if secs == [] then Ok(JNull)
    else
      var rest := SectionSearch(secs[1..], title);
      assert forall k :: 1 <= k <= |secs| && NoMatchBefore(secs, title, k) ==> NoMatchBefore(secs[1..], title, k - 1) by {
        forall k | 1 <= k <= |secs| && NoMatchBefore(secs, title, k)
          ensures NoMatchBefore(secs[1..], title, k - 1)
        {
          forall j | 0 <= j < k - 1
            ensures LineOf(secs[1..][j]).Ok? && !MatchesAt(secs[1..], title, j)
          {
            assert secs[1..][j] == secs[j + 1];
          }
        }
      }
      assert forall k :: 1 <= k < |secs| ==> secs[1..][k - 1] == secs[k];
      match LineOf(secs[0])
      case Err(e) => Err(e)
      case Ok(l) => if Lower(l) == Lower(title) then Ok(IndexOf(secs[0])) else rest
  }

  /** Exactly one of the three outcomes of the search applies. */
  lemma {:induction false} SearchCases(secs: seq<Json>, title: string)
    ensures NoMatchBefore(secs, title, |secs|)
      || exists k :: 0 <= k < |secs| && NoMatchBefore(secs, title, k)
                     && (MatchesAt(secs, title, k) || LineOf(secs[k]).Err?)
  {
    if !NoMatchBefore(secs, title, |secs|) {
      var j :| 0 <= j < |secs| && !(LineOf(secs[j]).Ok? && !MatchesAt(secs, title, j));
      FirstStop(secs, title, j);
    }
  }

  /** If section `j` stops the loop, some section at or before it is the
      first to do so. */
  lemma {:induction false} FirstStop(secs: seq<Json>, title: string, j: nat)
    requires j < |secs| && !(LineOf(secs[j]).Ok? && !MatchesAt(secs, title, j))
    ensures exists k :: 0 <= k <= j && NoMatchBefore(secs, title, k)
                     && (MatchesAt(secs, title, k) || LineOf(secs[k]).Err?)
    decreases j
  {
    if NoMatchBefore(secs, title, j) {
      assert MatchesAt(secs, title, j) || LineOf(secs[j]).Err?;
    } else {
      var i :| 0 <= i < j && !(LineOf(secs[i]).Ok? && !MatchesAt(secs, title, i));
      FirstStop(secs, title, i);
    }
  }

  /** A truthy index from the search is the index of the first section
      whose title matches. */
  lemma SearchHit(secs: seq<Json>, title: string)
    requires SectionSearch(secs, title).Ok? && Truthy(SectionSearch(secs, title).value)
    ensures exists k :: 0 <= k < |secs| && NoMatchBefore(secs, title, k) && MatchesAt(secs, title, k)
                     && IndexOf(secs[k]) == SectionSearch(secs, title).value
  {
    SearchCases(secs, title);
    if !NoMatchBefore(secs, title, |secs|) {
      var k :| 0 <= k < |secs| && NoMatchBefore(secs, title, k)
        && (MatchesAt(secs, title, k) || LineOf(secs[k]).Err?);
      assert MatchesAt(secs, title, k);
    }
  }

  /** The `for sec in sections` loop with its `break`. */
  method FindSectionIndex(sections: seq<Json>, title: string) returns (r: Result<Json>)
    ensures r == SectionSearch(sections, title)
  {
    var target := Lower(title);
    var index := JNull;
    var i := 0;
    while i < |sections|
      invariant 0 <= i <= |sections|
      invariant NoMatchBefore(sections, title, i)
    {
      var line := LineOf(sections[i]);
      if line.Err? {
        return Err(line.error);
      }
      if Lower(line.value) == target {
        index := IndexOf(sections[i]);
        break;
      }
      i := i + 1;
    }
    return Ok(index);
  }

  // ---------------------------------------------------------------------
  // The section request

  /** `data.get("parse", {}).get(key, default)`. */
  function ParseField(data: Json, key: string, default: Json): (r: Result<Json>)
    ensures r.Ok? <==> data.JObj? && ("parse" !in data.fields || data.fields["parse"].JObj?)
  {
    match Get(data, "parse", JObj(map[]))
    case Err(e) => Err(e)
    case Ok(p) => Get(p, key, default)
  }

  /** `data2.get("parse", {}).get("text", {}).get("*", "")`. */
  function HtmlOf(data: Json): Result<Json>
  {
    match ParseField(data, "text", JObj(map[]))
    case Err(e) => Err(e)
    case Ok(t) => Get(t, "*", JStr(""))
  }

  /** `get_wikipedia_section`: `fetchText` answers the second request for
      the section index it is given. */
  function GetWikipediaSection(resp: Response, title: string, fetchText: Json -> Response): (r: Option<string>)
    ensures r.Some? ==> resp.status == 200
    ensures r.Some? ==>
      ParseField(resp.body, "sections", JArr([])).Ok? && ParseField(resp.body, "sections", JArr([])).value.JArr?
      && var secs := ParseField(resp.body, "sections", JArr([])).value.items;
      exists k :: 0 <= k < |secs| && NoMatchBefore(secs, title, k) && MatchesAt(secs, title, k)
        && Truthy(IndexOf(secs[k])) && fetchText(IndexOf(secs[k])).status == 200
        && HtmlOf(fetchText(IndexOf(secs[k])).body).Ok? && HtmlOf(fetchText(IndexOf(secs[k])).body).value.JStr?
        && r.value == CleanWikipediaHtml(HtmlOf(fetchText(IndexOf(secs[k])).body).value.s)
  {
    if resp.status != 200 then None
    else
      match ParseField(resp.body, "sections", JArr([]))
      case Err(_) => None
      case Ok(sections) =>
        if !sections.JArr? then None
        else
          var secs := sections.items;
          match SectionSearch(secs, title)
          case Err(_) => None
          case Ok(index) =>
            if !Truthy(index) then None
            else
              SearchHit(secs, title);
              var resp2 := fetchText(index);
              if resp2.status != 200 then None
              else
                match HtmlOf(resp2.body)
                case Ok(JStr(html)) => Some(CleanWikipediaHtml(html))
                case _ => None
  }

  /** A well-formed pair of responses gives the cleaned text of the first
      section whose title matches. */
  lemma SectionFound(resp: Response, title: string, fetchText: Json -> Response, k: nat, html: string)
    requires resp.status == 200
    requires ParseField(resp.body, "sections", JArr([])).Ok?
    requires ParseField(resp.body, "sections", JArr([])).value.JArr?
    requires var secs := ParseField(resp.body, "sections", JArr([])).value.items;
      k < |secs| && NoMatchBefore(secs, title, k) && MatchesAt(secs, title, k)
      && Truthy(IndexOf(secs[k])) && fetchText(IndexOf(secs[k])).status == 200
      && HtmlOf(fetchText(IndexOf(secs[k])).body) == Ok(JStr(html))
    ensures GetWikipediaSection(resp, title, fetchText) == Some(CleanWikipediaHtml(html))
  {
  }

  /** No section titled `title` (and every title readable) means no text. */
  lemma SectionMissing(resp: Response, title: string, fetchText: Json -> Response)
    requires ParseField(resp.body, "sections", JArr([])).Ok?
    requires ParseField(resp.body, "sections", JArr([])).value.JArr?
    requires var secs := ParseField(resp.body, "sections", JArr([])).value.items;
      NoMatchBefore(secs, title, |secs|)
    ensures GetWikipediaSection(resp, title, fetchText) == None
  {
  }

  /** The section text, when there is one, has no blank line and nothing
      to trim. */
  lemma SectionTextClean(resp: Response, title: string, fetchText: Json -> Response)
    requires GetWikipediaSection(resp, title, fetchText).Some?
    ensures var t := GetWikipediaSection(resp, title, fetchText).value;
      Strip(t) == t && forall l :: l in SplitLines(t) ==> !IsBlank(l)
  {
    var secs := ParseField(resp.body, "sections", JArr([])).value.items;
    var k :| 0 <= k < |secs| && NoMatchBefore(secs, title, k) && MatchesAt(secs, title, k)
        && Truthy(IndexOf(secs[k])) && fetchText(IndexOf(secs[k])).status == 200
        && HtmlOf(fetchText(IndexOf(secs[k])).body).Ok? && HtmlOf(fetchText(IndexOf(secs[k])).body).value.JStr?;
    var html := HtmlOf(fetchText(IndexOf(secs[k])).body).value.s;
    SectionFound(resp, title, fetchText, k, html);
    CleanNoBlankLines(html);
    CleanTrimmed(html);
  }

  // ---------------------------------------------------------------------
  // The summary request

  const SummaryUrlPrefix := "https://en.wikipedia.org/api/rest_v1/page/summary/"

  /** `scientific_name.replace(' ', '_')`. */
  function SummaryTitle(name: string): (t: string)
    ensures |t| == |name| && forall i :: 0 <= i < |t| ==> t[i] != ' '
  {
    ReplaceChar(name, ' ', '_')
  }

  /** For a name without underscores, turning `_` back into a space gives
      the name back, so distinct such names get distinct URLs. */
  lemma SummaryTitleRoundTrip(name: string)
    requires forall i :: 0 <= i < |name| ==> name[i] != '_'
    ensures ReplaceChar(SummaryTitle(name), '_', ' ') == name
  {
  }

  /** `get_wikipedia_summary`: `fetch` answers a GET of a URL. */
  function GetWikipediaSummary(name: string, fetch: string -> Response): (r: Option<Json>)
    ensures r.Some? <==> fetch(SummaryUrlPrefix + SummaryTitle(name)).status == 200
    ensures r.Some? ==> r.value == fetch(SummaryUrlPrefix + SummaryTitle(name)).body
  {
    JsonIfOk(fetch(SummaryUrlPrefix + SummaryTitle(name)))
  }
}
