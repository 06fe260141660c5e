# Watchlist rules of the Vietnamese stock dashboard

The dashboard (`app.py`) is a Streamlit script that shows a ticker's quote,
a candlestick chart and the market's top movers. Nearly all of it hands
data from the `vnstock` client to `pandas`, `plotly` and Streamlit widgets.
This project models the part with rules of its own: the per-session
**watchlist** and the initial selection of the ticker selector.

- `tickers.dfy` (module `Tickers`): `str.upper` on the typed ticker, ASCII letters only.
- `watchlist.dfy` (module `Watchlist`): the seed list `['VNM', 'FPT', 'HPG']`,
  the three-way outcome of the add command (`Added`, `AlreadyPresent`,
  `Invalid`) and its effect, `list.index`, `list.remove`, the delete
  button keys, and the no-duplicates invariant.
- `selection.dfy` (module `Selection`): the selector's default index, the
  position of `'VNM'` in the ticker universe, or 0.
- `session.dfy` (module `Session`): `st.session_state` as a class whose
  `watchlist` field is absent (`None`) until the initialisation step. Its
  methods change it in place: the initialisation, the add button, and the
  loop over the delete buttons.
- `history.dfy` (module `History`): whole sequences of add and remove
  commands from a fresh session, and the invariants every reachable
  watchlist keeps.
- `wrappers.dfy` (module `Wrappers`): the `Option` datatype.

The ticker universe (the result of `get_stock_list`, which is empty when
the client fails) is a parameter of each command. The pressed delete button
is a parameter of `RemovePressed`, given as the pressed widget key.

A user might expect removing an absent ticker to be a no-op. The code calls
`list.remove`, which raises `ValueError` on an absent ticker. The model follows the code: `RemoveFirst` requires
membership, and in `History.Step` such a removal yields `None`. The
dashboard itself only removes an entry it is iterating over, so that case
never arises from the user interface.

## Model

| member | source | states |
|---|---|---|
| `Tickers.UpperChar` | app.py:119 | an ASCII lower-case letter becomes its capital (code point minus 32); every other character is unchanged; the result is never lower-case |
| `Tickers.Upper` | app.py:119 | `upper()` keeps the length, maps each character by `UpperChar`, and leaves no ASCII lower-case letter |
| `Tickers.UpperIdempotent` | app.py:119 | upper-casing an already upper-cased input changes nothing |
| `Tickers.UpperFixesUpper` | app.py:119 | a ticker with no lower-case letters is its own upper-case form |
| `Watchlist.Init` | app.py:97-98 | an existing watchlist is kept as it is; a missing one becomes exactly VNM, FPT, HPG, which are distinct |
| `Watchlist.Classify` | app.py:121-127 | Added iff the ticker is non-empty, in the universe and not listed; AlreadyPresent iff it is listed, whether or not it is in the universe; Invalid iff it is not listed and is empty or outside the universe |
| `Watchlist.AfterAdd` | app.py:121-122 | on Added the ticker is appended at the end and all earlier entries are unchanged; otherwise the watchlist is unchanged |
| `Watchlist.FirstIndex` | app.py:113 | `list.index`: a position holding the element, with no earlier position holding it |
| `Watchlist.RemoveFirst` | app.py:137 | `list.remove`: one entry shorter, equal to the list with the first occurrence's position cut out |
| `Watchlist.RemoveFirstMultiset` | app.py:137 | removal takes exactly one copy of the ticker out of the entries and keeps every other entry |
| `Watchlist.AddKeepsNoDuplicates` | app.py:121-122 | the add command keeps a duplicate-free watchlist duplicate-free |
| `Watchlist.AddedFromUniverse` | app.py:121-122 | any ticker the add command inserts is the typed ticker, non-empty and in the universe |
| `Watchlist.AddTwice` | app.py:120-125 | adding the same valid new ticker twice inserts it once; the second add reports AlreadyPresent and changes nothing |
| `Watchlist.RemoveKeepsNoDuplicates` | app.py:137 | removal from a duplicate-free list keeps it duplicate-free and leaves no copy of the removed ticker |
| `Watchlist.RemoveKeepsOrder` | app.py:137 | entry k after removal is entry k before it when k is before the removed position, else entry k + 1 |
| `Watchlist.DeleteKey` | app.py:136 | the delete button key is "del_" followed by the ticker, from which the ticker can be read back |
| `Watchlist.DeleteKeysDistinct` | app.py:136 | on a duplicate-free watchlist two entries with the same delete button key are the same entry |
| `Watchlist.RemoveEntry` | app.py:131-137 | on a duplicate-free watchlist, `remove` of the entry at position k deletes position k |
| `Selection.DefaultIndex` | app.py:113 | the first position of 'VNM' when the universe holds it, else 0; a valid index whenever the universe is non-empty |
| `Session.SessionState.constructor` | app.py:97 | a new session has no watchlist |
| `Session.SessionState.InitWatchlist` | app.py:97-98 | afterwards a watchlist exists; an existing one is never overwritten; a missing one becomes the seed list |
| `Session.SessionState.Add` | app.py:119-127 | reports the outcome of the upper-cased input; appends it exactly on Added; otherwise the watchlist is unchanged; no duplicates before implies none after |
| `Session.SessionState.RemovePressed` | app.py:130-138 | when the pressed key is entry k's button, exactly position k is deleted and the order of the rest is kept; when no entry's key was pressed, nothing changes; no duplicates are kept |
| `History.Step` | app.py:119-137 | an add command has the effect of `AfterAdd` on the upper-cased text; a removal succeeds exactly when the ticker is listed, and then deletes its first occurrence |
| `History.StepKeepsReachable` | app.py:119-137 | one command keeps the watchlist duplicate-free and free of lower-case letters, with entries drawn from the allowed tickers plus the one the command admitted |
| `History.RunKeepsReachable` | app.py:119-137 | any command sequence that does not raise keeps that invariant |
| `History.FreshSessionInvariant` | app.py:97-137 | from the seeded watchlist, after any commands, no ticker appears twice, none holds a lower-case ASCII letter, and each was seeded or is the upper-cased text of some add, non-empty and in that add's universe |
| `History.SeedReachable` | app.py:98 | the seed list VNM, FPT, HPG is duplicate-free, has no lower-case letters, and holds only seeded tickers |
| `History.Scenario` | app.py:97-137 | with universe VNM, FPT, HPG, VIC: adding "vic" appends VIC, adding VIC again reports AlreadyPresent, and removing FPT leaves VNM, HPG, VIC |
| `History.ListedBeatsUniverse` | app.py:121-125 | a listed ticker that has left the universe is reported AlreadyPresent and the watchlist is unchanged |

## Left out

- The four cached fetchers (`get_stock_list`, `get_historical_data`, `get_quote_data`, `get_top_movers`): they wrap network calls of the `vnstock` client and `pandas` operations, code not part of this model. The universe they produce is a parameter instead.
- `st.cache_data` time-to-live caching and the manual cache clear: the behaviour lives in Streamlit, which is not part of this model.
- The date window of the historical fetch: it reads the wall clock.
- `plot_candlestick`: it only builds a `plotly` figure object.
- Quote metric formatting: floating-point display formatting.
- Streamlit rendering, widget layout, the success, warning and error messages (only the outcome tag is modelled), and `st.rerun` (modelled as the end of the removal loop).
- `Tickers.UpperChar`: maps only 'a'..'z' and keeps every other character, whereas Python's `upper` also maps non-ASCII letters ('é' becomes 'É'). Full Unicode case mapping is out of scope.
- `Tickers.Upper`: does not model Python's case mapping beyond ASCII. Some non-ASCII letters upper-case into ASCII in Python ('ı' becomes 'I', 'ſ' becomes 'S', 'ﬁ' becomes 'FI', 'ß' becomes 'SS', some of which change the length). For typed text such as "vıc" the model therefore reports Invalid where the dashboard may report Added.
- What the selector does with index 0 on an empty universe: that is Streamlit's widget behaviour, not part of this model.
