/**
 * The per-session state of the dashboard (`st.session_state`) as far as the
 * watchlist goes, and the commands of the sidebar that change it in place.
 */
module Session {
  import opened Wrappers
  import opened Tickers
  import opened Watchlist

  class SessionState {
    /** `st.session_state.watchlist`, or None while the session has none. */
    var watchlist: Option<seq<string>>

    /** A present watchlist never holds the same ticker twice. */
    ghost predicate Valid()
      reads this
    {
      watchlist.Some? ==> NoDuplicates(watchlist.value)
    }

    /** A new session has no watchlist. */
    constructor ()
      ensures Valid() && watchlist == None
    {
      watchlist := None;
    }

    /**
     * Runs on every evaluation of the script (app.py:97-98): seeds the
     * watchlist when there is none and never overwrites an existing one.
     */
    method InitWatchlist()
      requires Valid()
      modifies this
      ensures Valid() && watchlist.Some?
      ensures watchlist == Some(Init(old(watchlist)))
      ensures old(watchlist).Some? ==> watchlist == old(watchlist)
    {
      if watchlist.None? {
        watchlist := Some(Default);
      }
    }

    /**
     * The "add" button (app.py:119-127): upper-case the typed text, then append
     * it if it is non-empty, in the universe and not yet listed; report
     * AlreadyPresent if it is listed, Invalid otherwise.
     */
    method Add(text: string, universe: seq<string>) returns (o: AddOutcome)
      requires Valid() && watchlist.Some?
      modifies this
      ensures Valid() && watchlist.Some?
      ensures o == Classify(Upper(text), universe, old(watchlist).value)
      ensures watchlist == Some(AfterAdd(Upper(text), universe, old(watchlist).value))
      ensures o == Added ==> watchlist.value == old(watchlist).value + [Upper(text)]
      ensures o != Added ==> watchlist == old(watchlist)
    {
      var ticker := Upper(text);
      var wl := watchlist.value;
      if ticker != "" && ticker in universe && ticker !in wl {
        watchlist := Some(wl + [ticker]);
        o := Added;
      } else if ticker in wl {
        o := AlreadyPresent;
      } else {
        o := Invalid;
      }
    }

    /**
     * The delete buttons (app.py:130-138): walk the entries in order; the
     * entry whose button key was pressed is removed with `list.remove` and the
     * run ends (`st.rerun`). No key pressed, or a key of no entry, changes nothing.
     */
    method RemovePressed(pressed: Option<string>)
      requires Valid() && watchlist.Some?
      modifies this
      ensures Valid() && watchlist.Some?
      ensures forall k :: 0 <= k < |old(watchlist).value| && pressed == Some(DeleteKey(old(watchlist).value[k])) ==>
        watchlist.value == old(watchlist).value[..k] + old(watchlist).value[k + 1..]
      ensures (forall k :: 0 <= k < |old(watchlist).value| ==> pressed != Some(DeleteKey(old(watchlist).value[k]))) ==>
        watchlist == old(watchlist)
    {
      var wl := watchlist.value;
      var i := 0;
      while i < |wl|
        invariant 0 <= i <= |wl|
        invariant watchlist == Some(wl)
        invariant forall j :: 0 <= j < i ==> pressed != Some(DeleteKey(wl[j]))
      {
        var stock := wl[i];
        if pressed == Some(DeleteKey(stock)) {
          RemoveEntry(wl, i);
          RemoveKeepsNoDuplicates(wl, stock);
          watchlist := Some(RemoveFirst(wl, stock));
          forall k | 0 <= k < |wl| && pressed == Some(DeleteKey(wl[k]))
            ensures k == i
          {
            DeleteKeysDistinct(wl, i, k);
          }
          return;
        }
        i := i + 1;
      }
    }
  }
}
