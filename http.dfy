/** An HTTP response as the modelled code sees it: a status code and, for
    the calls that decode it, the JSON body. The requests themselves are
    not modelled; their responses are inputs. */
module Http {
  import opened Wrappers
  import opened Json

  datatype Response = Response(status: int, body: Json)

  /** `resp.json() if resp.status_code == 200 else None`. */
  function JsonIfOk(resp: Response): (r: Option<Json>)
    ensures r.Some? <==> resp.status == 200
    ensures r.Some? ==> r.value == resp.body
  {
    if resp.status == 200 then Some(resp.body) else None
  }
}
