/** The size arithmetic of `show_aggrid` (identical in invasive_utils.py
    and src/invasive_utils.py): a minimum width per column and a table
    height that grows with the row count between two bounds. */
module Grid {
  /** `max(120, len(str(col)) * 10 + 32)`. */
  function MinWidth(col: string): (w: int)
    ensures w >= 120
    ensures w >= |col| * 10 + 32
    ensures w == 120 || w == |col| * 10 + 32
  {
    if |col| * 10 + 32 > 120 then |col| * 10 + 32 else 120
  }

  /** Headers of up to eight characters get the floor width; longer ones
      get ten pixels per character plus 32. */
  lemma MinWidthThreshold(col: string)
    ensures |col| <= 8 ==> MinWidth(col) == 120
    ensures |col| > 8 ==> MinWidth(col) == |col| * 10 + 32
  {
  }

  /** `min(500, max(150, 35 * (rows + 1)))`. */
  function GridHeight(rows: nat): (h: int)
    ensures 150 <= h <= 500
  {
    var natural := 35 * (rows + 1);
    if natural < 150 then 150 else if natural > 500 then 500 else natural
  }

  /** Up to three rows the height is the floor, from thirteen rows on it is
      the ceiling, and in between each row adds 35 pixels. */
  lemma GridHeightRegions(rows: nat)
    ensures rows <= 3 ==> GridHeight(rows) == 150
    ensures 4 <= rows <= 13 ==> GridHeight(rows) == 35 * (rows + 1)
    ensures rows >= 14 ==> GridHeight(rows) == 500
  {
  }

  /** More rows never make the table shorter. */
  lemma GridHeightMonotone(a: nat, b: nat)
    requires a <= b
    ensures GridHeight(a) <= GridHeight(b)
  {
  }

  /** The loop over `df.columns` that configures every column's minimum
      width. */
  method ConfigureColumns(cols: seq<string>) returns (widths: seq<int>)
    ensures |widths| == |cols|
    ensures forall i :: 0 <= i < |cols| ==> widths[i] == MinWidth(cols[i]) && widths[i] >= 120
  {
    widths := [];
    for i := 0 to |cols|
      invariant |widths| == i
      invariant forall k :: 0 <= k < i ==> widths[k] == MinWidth(cols[k])
    {
      widths := widths + [MinWidth(cols[i])];
    }
  }
}
