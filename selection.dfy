/** The initially selected ticker of the sidebar's ticker selector (app.py:113). */
module Selection {
  import opened Watchlist

  /** The ticker preferred as the initial selection. */
  const Preferred: string := "VNM"

  /**
   * `stock_list.index('VNM') if 'VNM' in stock_list else 0`: the position of
   * the first 'VNM' in the universe, or 0 when the universe has none.
   */
  function DefaultIndex(universe: seq<string>): (k: nat)
    ensures Preferred in universe ==> k < |universe| && universe[k] == Preferred
    ensures Preferred in universe ==> forall j :: 0 <= j < k ==> universe[j] != Preferred
    ensures Preferred !in universe ==> k == 0
    ensures |universe| > 0 ==> k < |universe|
  {
    if Preferred in universe then FirstIndex(universe, Preferred) else 0
  }
}
