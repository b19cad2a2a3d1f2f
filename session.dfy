/** The parts of the app that read and write Streamlit's per-user
    `st.session_state` dictionary: the memo of Forest Service results
    (src/invasive_utils.py) and the "show more" state of the toxicity
    panel (app.py). */
module Session {
  import opened Json
  import opened PyStr

  const ShowMoreKey: string := "toxicity_show_more"
  const LastSelectedKey: string := "last_selected_name"
  const CachePrefix: string := "invasive_results_"

  /** How many words the collapsed toxicity panel shows. */
  const WordLimit: nat := 150

  /** The memo key of a scientific name. */
  function CacheKey(name: string): (k: string)
    ensures |k| == |CachePrefix| + |name| && k[|CachePrefix|..] == name
    ensures k[..|CachePrefix|] == CachePrefix
  {
    CachePrefix + name
  }

  /** Different names use different keys, and no name's key is one of the
      panel's keys. */
  lemma CacheKeyDistinct(a: string, b: string)
    ensures CacheKey(a) == CacheKey(b) ==> a == b
    ensures CacheKey(a) != ShowMoreKey && CacheKey(a) != LastSelectedKey
  {
    if CacheKey(a) == CacheKey(b) {
      assert a == CacheKey(a)[|CachePrefix|..];
    }
    assert CacheKey(a)[0] == 'i';
    assert ShowMoreKey[0] == 't';
    assert LastSelectedKey[0] == 'l';
  }

  /** The text of the toxicity panel: the first 150 words and "..." when
      the text is longer and the panel is collapsed, the whole text
      otherwise. */
  function ToxicityText(pretty: string, showMore: bool): (shown: string)
    ensures |Words(pretty)| <= WordLimit || showMore ==> shown == pretty
  {
    var words := Words(pretty);
    if |words| > WordLimit && !showMore then Join(" ", words[..WordLimit]) + "..." else pretty
  }

  /** A collapsed panel shows exactly the first 150 words of the text,
      separated by single spaces, and then "...". */
  lemma ToxicityTextTruncates(pretty: string)
    requires |Words(pretty)| > WordLimit
    ensures exists short :: (ToxicityText(pretty, false) == short + "..."
                             && short == Join(" ", Words(pretty)[..WordLimit])
                             && Words(short) == Words(pretty)[..WordLimit])
  {
    var words := Words(pretty);
    var short := Join(" ", words[..WordLimit]);
    WordsOfJoin(words[..WordLimit]);
    assert ToxicityText(pretty, false) == short + "...";
  }

  class Session {
    /** `st.session_state`. */
    var state: map<string, Json>
    /** The names passed to the fetch function so far, oldest first. */
    ghost var fetched: seq<string>

    /** Every fetched name is memoised, and none was fetched twice. */
    ghost predicate Valid()
      reads this
    {
      (forall i, j :: 0 <= i < j < |fetched| ==> fetched[i] != fetched[j])
      && (forall i :: 0 <= i < |fetched| ==> CacheKey(fetched[i]) in state)
    }

    constructor ()
      ensures state == map[] && fetched == []
      ensures Valid()
    {
      state := map[];
      fetched := [];
    }

    /** `get_invasive_species_results_cached`. A stored result, `None`
        included, is returned without calling `fetch`; otherwise `fetch` is
        called once and its result stored under the name's key. */
    method GetInvasiveResultsCached(name: string, fetch: string -> Json) returns (r: Json)
      requires Valid()
      modifies this
      ensures Valid()
      ensures CacheKey(name) in old(state) ==>
        r == old(state)[CacheKey(name)] && state == old(state) && fetched == old(fetched)
      ensures CacheKey(name) !in old(state) ==>
        r == fetch(name) && state == old(state)[CacheKey(name) := r] && fetched == old(fetched) + [name]
    {
      var key := CacheKey(name);
      if key in state {
        r := state[key];
      } else {
        r := fetch(name);
        state := state[key := r];
        forall i | 0 <= i < |fetched|
          ensures fetched[i] != name
        {
          CacheKeyDistinct(fetched[i], name);
        }
        fetched := fetched + [name];
      }
    }

    /** Two lookups of the same name fetch at most once and agree, even
        when the fetched result is `None`. */
    method LookupTwice(name: string, fetch: string -> Json) returns (r1: Json, r2: Json)
      requires Valid()
      modifies this
      ensures Valid()
      ensures r1 == r2
      ensures |fetched| <= |old(fetched)| + 1
      ensures CacheKey(name) in state && state[CacheKey(name)] == r1
    {
      r1 := GetInvasiveResultsCached(name, fetch);
      r2 := GetInvasiveResultsCached(name, fetch);
    }

    /** The selection step of `main`: the "show more" flag is reset to
        False only when it exists and the selection changed; the current
        selection is then always recorded. */
    method SelectName(selected: string)
      requires Valid()
      modifies this
      ensures Valid() && fetched == old(fetched)
      ensures state.Keys == old(state).Keys + {LastSelectedKey}
      ensures state[LastSelectedKey] == JStr(selected)
      ensures ShowMoreKey in state ==>
        state[ShowMoreKey] == (if LastSelectedKey in old(state) && old(state)[LastSelectedKey] == JStr(selected)
                               then old(state)[ShowMoreKey] else JBool(false))
      ensures forall k :: k in old(state) && k != ShowMoreKey && k != LastSelectedKey ==> state[k] == old(state)[k]
    {
      var last := if LastSelectedKey in state then state[LastSelectedKey] else JNull;
      if ShowMoreKey in state && last != JStr(selected) {
        state := state[ShowMoreKey := JBool(false)];
      }
      state := state[LastSelectedKey := JStr(selected)];
      forall i | 0 <= i < |fetched|
        ensures CacheKey(fetched[i]) in state
      {
        CacheKeyDistinct(fetched[i], fetched[i]);
      }
    }

    /** The toxicity panel. `pressed` is whether the "Show more" button was
        clicked in this run. The panel shows `ToxicityText` for the flag's
        value (created as False when absent); a click on a collapsed panel
        sets the flag, which takes effect on the next run. */
    method ToxicityPanel(pretty: string, pressed: bool) returns (shown: string)
      requires Valid()
      modifies this
      ensures Valid() && fetched == old(fetched)
      ensures |Words(pretty)| <= WordLimit ==> shown == pretty && state == old(state)
      ensures |Words(pretty)| > WordLimit ==>
        var flag := if ShowMoreKey in old(state) then Truthy(old(state)[ShowMoreKey]) else false;
        shown == ToxicityText(pretty, flag)
        && state == (if !flag && pressed then old(state)[ShowMoreKey := JBool(true)]
                     else if ShowMoreKey in old(state) then old(state)
                     else old(state)[ShowMoreKey := JBool(false)])
    {
      var words := Words(pretty);
      if |words| > WordLimit {
        var short := Join(" ", words[..WordLimit]);
        if ShowMoreKey !in state {
          state := state[ShowMoreKey := JBool(false)];
        }
        var flag := Truthy(state[ShowMoreKey]);
        if !flag {
          shown := short + "...";
          if pressed {
            state := state[ShowMoreKey := JBool(true)];
          }
        } else {
          shown := pretty;
        }
        assert shown == ToxicityText(pretty, flag);
        forall i | 0 <= i < |fetched|
          ensures CacheKey(fetched[i]) in state
        {
          CacheKeyDistinct(fetched[i], fetched[i]);
        }
      } else {
        shown := pretty;
      }
    }
  }
}
