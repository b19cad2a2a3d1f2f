# Plant identification: a verified model of the data-handling core

The plant identification app sends a photo to the PlantNet service and gets
back a ranked list of species. For the species the user picks, it then:

- looks the species up in the USDA Forest Service invasive-species map
  service, and shows a map, a per-forest summary and a filterable table;
- fetches the Wikipedia summary and the "Invasive species" and "Toxicity"
  sections;
- highlights warning words in the toxicity text, and truncates that text
  behind a "Show more" flag.

This project models in Dafny the logic inside that glue, and proves what it
promises. The modules are:

- `NameKey`: the forest-name key `normalize_name`, in both of the
  repository's copies.
- `Timestamp`: the `LAST_UPDATE` normaliser `parse_updated`. It uses
  integer civil-date arithmetic from the Unix epoch and the `YYYY-MM-DD`
  format, built on `Decimal`'s digit strings.
- `Geometry`: the per-feature map point reducer.
- `InvasiveTable`: the record rows with their fixed labels, the `Updated`
  column, the summary by forest name, and the unit filter.
- `Grid`: the AgGrid column width and grid height arithmetic.
- `Session`: `st.session_state`. It is modelled as a class with a `state`
  map, and covers the invasive-results memo, the selection reset of the
  show-more flag, and the toxicity panel.
- `SpeciesTable`: `build_results_dataframe`, its `:.2f` score text, and the
  empty-result guard in `main`. `Traverse` supplies the "first exception
  wins" loop that it uses.
- `InvasiveQuery`: the query parameters of `query_invasive_species_database`.
- `WikiClean`: `_clean_wikipedia_html`. It is built on `Rewrite`, which
  models `re.sub` as a left-to-right scanner over a matcher, and on `PyStr`,
  which models Python's `strip`, `splitlines`, `split`, `join` and `lower`.
- `WikiLookup`: the section search and requests of `get_wikipedia_section`,
  and the URL of `get_wikipedia_summary`. `Http` and `Json` hold the response
  and JSON values.
- `Highlight`: `highlight_toxicity`, the same in `utils.py` and `src/utils.py`.

HTTP responses, the PlantNet answer, the generic pandas date parser and the
`fetch_func` callback are inputs (values or function parameters). Nothing
is fetched or rendered.

Behaviour of the code worth knowing, which the model follows:

- no date before 1980 is rejected;
- `normalize_name` is not idempotent (`"a !"` gives `"a "`, which gives
  `"a"`);
- hyphens are deleted, not turned into spaces (`"National-Forest"` gives
  `"nationalforest"`);
- the summary groups the raw displayed name, not the normalised one;
- tie order in the summary is left open, because pandas' default sort is
  not stable;
- a PlantNet result without `species` raises a `KeyError`, so the table is
  not built.

## Model

| member | source | states |
|---|---|---|
| NameKey.NormalizeNameRoot | invasive_utils.py:29-35 | a non-string gives `''`; the key uses only `a-z`, `0-9` and space, and never holds two spaces in a row |
| NameKey.NormalizeNameSrc | src/invasive_utils.py:43-49 | the same output alphabet and no-double-space guarantee for the copy with the surrogate literal |
| NameKey.DeleteAll | invasive_utils.py:32 | `replace(emoji, '')` never lengthens the text |
| NameKey.Keep | invasive_utils.py:33 | deleting runs outside `[a-z0-9 ]` leaves only allowed characters, never more than were there |
| NameKey.Collapse | invasive_utils.py:34 | after `\s+` → `' '` the only whitespace is a single space, never doubled; empty iff the input is empty; starts with a space iff the input starts with whitespace |
| NameKey.RootDeletesEmoji | invasive_utils.py:32 | the root copy's literal removes a leading park emoji |
| NameKey.SrcDeletesNothing | src/invasive_utils.py:46 | the surrogate-escaped literal matches no name made of Unicode scalar values, so that `replace` changes nothing |
| NameKey.PunctuationJoins | invasive_utils.py:32-34 | punctuation between two key words is deleted and joins them (`National-Forest` → `nationalforest`), in both copies |
| NameKey.TrailingSpaceKept | invasive_utils.py:32-34 | trimming happens before punctuation is deleted, so `"word !"` keeps a trailing space, in both copies |
| NameKey.NotIdempotent | invasive_utils.py:32-34 | normalising `"a !"` gives `"a "`, and normalising that gives `"a"` |
| NameKey.KeyOfTrailingSpace | invasive_utils.py:32-34 | a key word followed by one space normalises to the word |
| NameKey.RootEmojiPrefix | invasive_utils.py:32-34 | `"🏞️ word"` normalises to `"word"` in the root copy |
| NameKey.SrcEmojiPrefix | src/invasive_utils.py:46-48 | `"🏞️ word"` normalises to `" word"` in the src copy: the emoji goes only in the regex step, after trimming |
| Decimal.ShowNatRoundTrip | invasive_utils.py:93-94 | `str(int(digits))` reads back as the same number |
| Decimal.PadNatWidth | invasive_utils.py:107 | zero padding gives exactly the requested width when the number fits |
| Timestamp.FromDays | invasive_utils.py:98-100 | a day count since 1970-01-01 gives a valid calendar date at that distance from the epoch |
| Timestamp.FromDaysOf | invasive_utils.py:98-100 | every valid date from 1970 on is recovered from its day count |
| Timestamp.DateUnique | invasive_utils.py:98-100 | distinct valid dates have distinct day counts |
| Timestamp.EarlierYear | invasive_utils.py:98-100 | a date in an earlier year has a smaller day count |
| Timestamp.FromDaysYearBound | invasive_utils.py:98-100 | the year of day `z` is at most 1970 + z/365 |
| Timestamp.Format | invasive_utils.py:107 | `strftime('%Y-%m-%d')` of a date with a 4-digit year is a `YYYY-MM-DD` string |
| Timestamp.FormatRoundTrip | invasive_utils.py:107 | reading the fields back from the formatted date gives the date |
| Timestamp.FloatLitOfInt | invasive_utils.py:96 | `float(str(i))` of an integer is that integer |
| Timestamp.ParseText | invasive_utils.py:88-107 | a sentinel (`0`, `0.0`, `NaT`, `None`, `nan`, `null`) gives `''` once trimmed |
| Timestamp.ParseUpdated | invasive_utils.py:87-107 | NaN/None, `''` and sentinels give `''` |
| Timestamp.ParseUpdatedShape | invasive_utils.py:87-107 | the result is always `''` or a `YYYY-MM-DD` date |
| Timestamp.IntValue | invasive_utils.py:88-96 | an integer cell is `''` for 0, and otherwise classified by its value |
| Timestamp.EpochMillis | invasive_utils.py:97-98 | a value above 10^11 is epoch milliseconds; beyond the int64 nanosecond range it is `''` |
| Timestamp.EpochSeconds | invasive_utils.py:99-100 | a value in (10^9, 10^11] is epoch seconds; beyond the int64 nanosecond range it is `''` |
| Timestamp.SmallIntsGeneric | invasive_utils.py:101-102 | any other non-zero integer goes to the generic parser |
| Timestamp.IntTextAgrees | invasive_utils.py:88-90 | an integer and its decimal text give the same date |
| Timestamp.UnwrapDateOf | invasive_utils.py:91-94 | `Date(<digits>)…` is replaced by the digits' value |
| Timestamp.DateWrapper | invasive_utils.py:91-100 | a `Date(<digits>)` value is classified by the number inside it |
| Timestamp.TrimmedText | invasive_utils.py:88-94 | trimmed, non-sentinel text goes to the number test after unwrapping |
| Timestamp.Example2021 | invasive_utils.py:97-107 | 1609459200000 ms gives `2021-01-01` |
| Timestamp.Example1973 | invasive_utils.py:97-107 | 100000000001 ms gives `1973-03-03`: there is no early-year guard |
| Geometry.LongestRing | invasive_utils.py:56 | `max(..., key=len)` picks the first ring of maximal length |
| Geometry.MeanOf | invasive_utils.py:59-60 | the mean is NaN exactly for an empty ring |
| Geometry.MeanBounds | invasive_utils.py:59-60 | a mean lies between the bounds of its values |
| Geometry.PointOf | invasive_utils.py:46-61 | `x`/`y` give `lat=y, lon=x`; there is no point exactly when `x`/`y` are missing and `rings` is missing or empty (an empty longest ring still gives a point); the name defaults to `''` |
| Geometry.Points | invasive_utils.py:44-61 | at most one point per feature |
| Geometry.PointsAppend | invasive_utils.py:44-61 | points come in feature order: the points of a concatenation are the concatenated points |
| Geometry.PointsAll | invasive_utils.py:44-61 | when every feature has a point, the i-th point is the i-th feature's |
| Geometry.CentroidInBox | invasive_utils.py:55-61 | a polygon's point lies in the bounding box of its longest ring |
| Geometry.ExtractPoints | invasive_utils.py:44-61 | the loop appending to `invasive_points` computes `Points` |
| InvasiveTable.LabelsDistinct | invasive_utils.py:66-75 | eight fields with eight distinct labels |
| InvasiveTable.FieldKeysAreOutFields | invasive_utils.py:66-75 | the labelled fields are exactly the query's `outFields`, in order |
| InvasiveTable.RowContents | invasive_utils.py:77-82 | a row has exactly the eight labels, each holding its attribute or `''` |
| InvasiveTable.BuildRows | invasive_utils.py:76-83 | one row per feature, in feature order |
| InvasiveTable.ConvertUpdated | invasive_utils.py:86-108 | only the `Updated` cell changes, and it becomes `parse_updated` of the old cell |
| InvasiveTable.ConvertedDates | invasive_utils.py:86-108 | every converted `Updated` cell is `''` or a `YYYY-MM-DD` date |
| InvasiveTable.GroupKeys | invasive_utils.py:137 | the group keys are the non-NaN names, each once |
| InvasiveTable.SortDesc | invasive_utils.py:140 | the sort is a permutation with non-increasing counts |
| InvasiveTable.SummaryCorrect | invasive_utils.py:137-140 | one row per distinct non-NaN name, with count equal to the number of records carrying it, by non-increasing count |
| InvasiveTable.UnitOptions | invasive_utils.py:144-146 | the options are `All` followed by exactly the truthy summary names |
| InvasiveTable.UnitOptionsDistinct | invasive_utils.py:144-146 | when no forest is named `All`, every option is offered once, `All` first, then the truthy names in summary order |
| InvasiveTable.TruthyNames | invasive_utils.py:144-145 | `dropna` and the `if u` filter keep exactly the truthy names |
| InvasiveTable.TruthyNamesAppend | invasive_utils.py:144-145 | the comprehension keeps the order of the summary: the names of a concatenation are those of each part, in order |
| InvasiveTable.TruthyNamesOne | invasive_utils.py:145 | one summary name is kept exactly when it is truthy |
| InvasiveTable.TruthyNamesNoDup | invasive_utils.py:144-145 | distinct summary names give distinct options |
| InvasiveTable.RowsOf | invasive_utils.py:148 | the equality filter keeps only rows carrying the selected name |
| InvasiveTable.Filter | invasive_utils.py:147-148 | `All` keeps every row; any other selection keeps the rows with that name |
| InvasiveTable.RowsOfCount | invasive_utils.py:147-148 | the filter keeps as many rows as records carry the name |
| InvasiveTable.SelectionMatchesCount | invasive_utils.py:137-148 | selecting a summary name shows exactly its record count |
| InvasiveTable.ShowInvasiveSpeciesResults | invasive_utils.py:37-148 | no features means no view; otherwise the points, summary, options and filtered table as above |
| Grid.MinWidth | src/invasive_utils.py:28 | a column is at least 120 wide and at least 10 per header character plus 32 |
| Grid.MinWidthThreshold | src/invasive_utils.py:28 | headers up to 8 characters get 120, longer ones 10 per character plus 32 |
| Grid.GridHeight | src/invasive_utils.py:31 | the height is between 150 and 500 |
| Grid.GridHeightRegions | src/invasive_utils.py:31 | 150 up to 3 rows, 35 per row plus a header for 4 to 13 rows, 500 from 14 rows |
| Grid.GridHeightMonotone | src/invasive_utils.py:31 | more rows never give a lower grid |
| Grid.ConfigureColumns | src/invasive_utils.py:27-29 | every column gets its minimum width, which is at least 120 |
| Session.CacheKey | src/invasive_utils.py:16 | the key is `invasive_results_` followed by the name |
| Session.CacheKeyDistinct | src/invasive_utils.py:16 | distinct names get distinct keys, which never clash with the toxicity keys |
| Session.Session.GetInvasiveResultsCached | src/invasive_utils.py:11-21 | on a hit, the stored value is returned with no fetch and no change; on a miss, one fetch of the name, stored under its key (`None` included) and returned, with every other entry unchanged |
| Session.Session.LookupTwice | src/invasive_utils.py:16-21 | two lookups of one name fetch at most once and agree |
| Session.Session.SelectName | app.py:100-102 | the show-more flag is reset to False only if it exists and the selection changed; `last_selected_name` is always set; nothing else changes |
| Session.ToxicityText | app.py:142-154 | text of at most 150 words, or with the flag set, is shown whole |
| Session.ToxicityTextTruncates | app.py:143-148 | longer text, collapsed, shows its first 150 words separated by single spaces, then `...` |
| Session.Session.ToxicityPanel | app.py:140-154 | the shown text follows the flag; the flag is created False, and set True only by a press while it is False |
| SpeciesTable.JoinNames | app.py:50 | the join succeeds exactly on a string, a dict, or a list of strings, and fails with TypeError otherwise; a string joins its characters and a dict its keys |
| SpeciesTable.JoinNamesOfList | app.py:50 | a list of names joins to the names separated by `, `; a missing list gives `''` |
| SpeciesTable.JoinNamesOfDict | app.py:50 | an empty dict joins to `''`, a one-key dict to its key |
| SpeciesTable.UnjoinJoin | app.py:50 | the common-names cell splits back at `, ` into the names when none holds a comma |
| SpeciesTable.RoundHalfEven | app.py:59 | rounding to the nearest integer, ties to even |
| SpeciesTable.Fixed2Close | app.py:59 | `:.2f` text reads back within half a hundredth of the score |
| SpeciesTable.ScoreText | app.py:53-59 | numbers and booleans format; a string score raises `ValueError` |
| SpeciesTable.RowOf | app.py:49-60 | a non-dict result or a missing `species` raises; a row holds the scientific name, genus and family names (`''` when absent), the joined common names and the `:.2f` score (0 when absent); it is built exactly when every lookup, the join and the format succeed |
| SpeciesTable.RowOfDocumented | app.py:49-60 | a result shaped as the API documents it gives its names, the common names joined with `, ` and the score to two decimals |
| SpeciesTable.RowOfDefaults | app.py:49-53 | an empty `species` and no score give `''` names and `0.00` |
| Traverse.Collect | app.py:48-60 | on success, one row per result, in input order, each the row of its result |
| Traverse.CollectError | app.py:48-60 | the loop fails iff some result fails, and then with the first failure's error |
| SpeciesTable.BuildResultsDataframe | app.py:45-62 | the loop appending to `table_data` computes `Collect(RowOf, results)` |
| SpeciesTable.ResultsGuard | app.py:85 | a table is built iff the response is a dict with truthy `results`; `None` builds none |
| SpeciesTable.SpeciesTableFor | app.py:85-89 | a built table is non-empty and is the rows of the `results` list |
| InvasiveQuery.Where | app.py:173 | the filter is `SCIENTIFIC_NAME='` + name + `'`, unescaped |
| InvasiveQuery.WhereInjective | app.py:173 | distinct names give distinct filters |
| InvasiveQuery.QueryParams | app.py:172-177 | exactly the four parameters, with the comma-joined fields and no geometry |
| InvasiveQuery.QueryResult | app.py:179-182 | the JSON body only on status 200, else `None` |
| Http.JsonIfOk | src/wikipedia_utils.py:65-67 | the body only on status 200 |
| WikiClean.BlockHit | src/wikipedia_utils.py:8-10 | `<style…>…</style>` and `<sup…>…</sup>` are removed, up to the nearest closer after the first `>` |
| WikiClean.CommentHit | src/wikipedia_utils.py:9 | `<!--…-->` is removed, up to the nearest `-->`; a comment that is present and closed is always matched |
| WikiClean.AnchorHit | src/wikipedia_utils.py:11 | `<a …>text</a>` becomes its inner text, up to the nearest `</a>`; a link with a non-empty opening tag and a closing `</a>` is always matched |
| WikiClean.TagHit | src/wikipedia_utils.py:12 | any other `<…>` with no `<` inside is removed |
| WikiClean.SpanHit | src/wikipedia_utils.py:13-16 | `[…]` and `{…}` spans are removed up to the first closer |
| WikiClean.CssCommentHit | src/wikipedia_utils.py:15 | `/*…*/` is removed, up to the nearest `*/`; a comment that is present and closed is always matched |
| WikiClean.DropCaretLines | src/wikipedia_utils.py:14 | exactly the lines whose trimmed form does not start with `^` are kept |
| WikiClean.NonBlankLines | src/wikipedia_utils.py:17 | exactly the non-blank lines are kept |
| WikiClean.KeepAppend | src/wikipedia_utils.py:14 | the line filters keep the input order: filtering a concatenation filters each part in turn |
| WikiClean.KeepOne | src/wikipedia_utils.py:17 | one line is kept exactly when it satisfies the filter |
| WikiClean.Tidy | src/wikipedia_utils.py:17-18 | the result starts and ends with non-whitespace |
| WikiClean.StripJoin | src/wikipedia_utils.py:17-18 | trimming joined non-blank lines trims only the first and last line |
| WikiClean.CleanNoBlankLines | src/wikipedia_utils.py:6-18 | the cleaned text has no blank or whitespace-only line |
| WikiClean.CleanTrimmed | src/wikipedia_utils.py:18 | the cleaned text has nothing left to trim |
| WikiClean.NoTagMatch | src/wikipedia_utils.py:8-12 | text without `<` is untouched by the tag patterns |
| WikiClean.PlainTextUnchanged | src/wikipedia_utils.py:6-18 | plain text (no markup, no blank or `^` line, already trimmed) comes out unchanged |
| WikiLookup.LineOf | src/wikipedia_utils.py:40 | `sec.get("line", "")` fails unless the section is a dict with a string line; a missing line is `''` |
| WikiLookup.SectionSearch | src/wikipedia_utils.py:38-42 | the index of the first case-insensitively matching section, `None` if none, or the error of the first unreadable title before it |
| WikiLookup.SearchCases | src/wikipedia_utils.py:39-42 | the search always ends in one of those three outcomes |
| WikiLookup.SearchHit | src/wikipedia_utils.py:43 | a truthy index comes from the first matching section |
| WikiLookup.FindSectionIndex | src/wikipedia_utils.py:38-42 | the loop with its `break` computes `SectionSearch` |
| WikiLookup.ParseField | src/wikipedia_utils.py:37 | `data.get("parse", {}).get(key)` fails only on a non-dict |
| WikiLookup.GetWikipediaSection | src/wikipedia_utils.py:20-60 | text only after two 200 responses and a first matching section with a truthy index; the text is the cleaned HTML of that section |
| WikiLookup.SectionFound | src/wikipedia_utils.py:43-57 | such a pair of responses does give the cleaned section text |
| WikiLookup.SectionMissing | src/wikipedia_utils.py:43-44 | no matching section gives `None` |
| WikiLookup.SectionTextClean | src/wikipedia_utils.py:57 | the section text is trimmed and has no blank line |
| WikiLookup.SummaryTitle | src/wikipedia_utils.py:63 | every space becomes `_`, and the length is kept |
| WikiLookup.SummaryTitleRoundTrip | src/wikipedia_utils.py:63 | for names without `_` the title determines the name |
| WikiLookup.GetWikipediaSummary | src/wikipedia_utils.py:62-70 | the summary JSON only on status 200, from the URL built from the title |
| Rewrite.SubAllNoMatch | utils.py:16 | `re.sub` with a pattern that matches nowhere returns the text unchanged |
| Highlight.FirstAlt | utils.py:13 | `rash\|blister\|itch` tries the alternatives in order and takes the first that matches |
| Highlight.MatchLen | utils.py:8-13 | the match is the alternative, plus the optional suffix whenever it follows (greedy `?`) |
| Highlight.RuleHit | utils.py:8-13 | a match exists iff a word matches case-insensitively; it is wrapped verbatim, keeping its casing, in the rule's colour span |
| Highlight.RulesWellFormed | utils.py:7-14 | the six patterns are the red and orange rules, none containing `<` |
| Highlight.ApplyInOrder | utils.py:15-17 | the loop applies the patterns one after another, in order |
| Highlight.HighlightToxicity | src/utils.py:3-17 | `highlight_toxicity` (both copies) applies the six rules in their fixed order |
| Highlight.ApplyRulesNoKeyword | src/utils.py:15-16 | no rule changes text without a keyword |
| Highlight.NoKeywordUnchanged | utils.py:15-17 | text with none of the keywords, in any case, is returned unchanged |
| Highlight.InsideInert | utils.py:8-13 | no pattern matches inside an inserted tag |
| Highlight.SubAllUntag | utils.py:16 | one substitution only inserts span tags: deleting them gives the text back |
| Highlight.ApplyRulesUntag | src/utils.py:15-16 | the same holds after all substitutions, since later patterns never match earlier markup |
| Highlight.OnlyMarkupInserted | utils.py:7-16 | for text without `<`, deleting the inserted spans restores the input |
| Highlight.GreedySuffix | utils.py:8 | `Dangerous` is wrapped whole, in red, with its casing |
| Highlight.NoWordBoundary | utils.py:13 | `itch` inside `kitchen` is wrapped: there are no word boundaries |

## Left out

- HTTP requests, `.env` loading, and the exceptions `requests` and `resp.json()` raise (a network failure, a body that is not JSON). Responses are inputs, and `Json` values are already decoded.
- All Streamlit, AgGrid and folium rendering, `st.error` messages, and the layout functions. `map_utils.py` and `src/map_utils.py` are not part of this model: they only render, and average floats for the view centre.
- Full Unicode: `lower`, `\s`, `isspace` and case-insensitive matching are modelled for ASCII letters and Python's whitespace set only. Unicode case folding (such as the Kelvin sign matching `k`) is not modelled, nor are Unicode digits in `float()`.
- `Timestamp.FloatLit` does not accept underscores between digits, and reads decimal text exactly over the reals, not rounded to binary floating point. Fractional epoch values are truncated to whole milliseconds or seconds before the day arithmetic, which leaves the day unchanged.
- `Timestamp.ParseUpdated`: the generic `pd.to_datetime` string parser and `str()` of a float are the parameters `lib.generic` and `lib.floatRepr`. Only the integer epoch path is computed.
- The ISO-date column sniffing at src/invasive_utils.py:109-113 depends on pandas dtypes and time zones, and is not modelled.
- `Geometry.MeanOf` works over the reals; the `float(np.mean(...))` rounding is not modelled.
- `SpeciesTable.Fixed2Close` is stated for an exact real score, not a binary float.
- pandas dtype coercion of mixed columns (for example ints becoming floats next to NaN) is not modelled. Cells keep their JSON scalar.
- `InvasiveTable.SummaryCorrect` does not fix the order of equal counts, because pandas' default sort does not either. The function uses a stable insertion sort, which is one admissible order.
- `NameKey.SrcDeletesNothing`: names are sequences of Unicode scalar values. A lone surrogate, which `json.loads` yields for an unpaired escape such as `"\ud83c"`, cannot be represented, so the lemma covers names without one. A name holding the literal's three code points, lone surrogates included, would be matched by the src copy's `replace`.
- `Geometry.PointOf`: features are taken to be well-formed: a dict whose `geometry` is a dict, with rings that are lists of `[x, y]` pairs of numbers. The errors that abort the panel otherwise are not modelled: TypeError for `"geometry": null`, AttributeError for a feature that is not a dict, IndexError for a vertex with fewer than two entries, and the `np.mean` failure on non-numeric coordinates.
- `SpeciesTable.JoinNames`: a dict `commonNames` is joined by its keys in code-point order. Python uses the dict's insertion order, which decoded objects here do not carry. The two agree for a dict with at most one key (`SpeciesTable.JoinNamesOfDict`).
- The `Session` memo does not model Streamlit reruns or concurrency. The state map is updated in one step.

## Findings

| source | as written | input that shows it | evidently intended | confidence | as-written member | corrected member |
|---|---|---|---|---|---|---|
| src/invasive_utils.py:46 | the park emoji literal is written as the escapes `\ud83c\udfde\ufe0f`, the code points U+D83C U+DFDE U+FE0F; JSON and UTF-8 decoding combine a valid surrogate pair into U+1F3DE, so a decoded name never holds U+D83C followed by U+DFDE and the `replace` never fires, and the emoji is removed later by the regex, after trimming | `"🏞️ Angeles"` normalises to `" angeles"`, with a leading space | remove the emoji before trimming, as the root copy does, giving `"angeles"` | high, not executed | NameKey.SrcEmojiPrefix | NameKey.RootEmojiPrefix |
