/**
 * A session's watchlist over a whole sequence of sidebar commands, and the
 * invariants every reachable watchlist keeps: no duplicates, no lower-case
 * ASCII letters, and every entry either seeded or admitted by an add.
 */
module History {
  import opened Wrappers
  import opened Tickers
  import opened Watchlist

  /**
   * One sidebar interaction: an add with the typed text and the ticker
   * universe fetched in that run, or a removal of a listed ticker.
   */
  datatype Command = AddCmd(text: string, universe: seq<string>) | RemoveCmd(ticker: string)

  /**
   * The watchlist after one command. A removal of a ticker that is not listed
   * is where `list.remove` would raise; it is None.
   */
  function Step(wl: seq<string>, c: Command): (r: Option<seq<string>>)
    ensures c.AddCmd? ==> r == Some(AfterAdd(Upper(c.text), c.universe, wl))
    ensures c.RemoveCmd? ==> (r.Some? <==> c.ticker in wl)
    ensures c.RemoveCmd? && c.ticker in wl ==> r == Some(RemoveFirst(wl, c.ticker))
  {
    match c
    case AddCmd(text, universe) => Some(AfterAdd(Upper(text), universe, wl))
    case RemoveCmd(ticker) => if ticker in wl then Some(RemoveFirst(wl, ticker)) else None
  }

  /** The watchlist after the commands in order, or None if one of them raises. */
  function Run(wl: seq<string>, cmds: seq<Command>): Option<seq<string>>
    decreases |cmds|
  {
    if cmds == [] then Some(wl)
    else match Step(wl, cmds[0])
      case None => None
      case Some(next) => Run(next, cmds[1..])
  }

  /** The upper-cased texts of the add commands in `cmds` that were non-empty and in that add's universe. */
  function Admitted(cmds: seq<Command>): set<string>
    decreases |cmds|
  {
    if cmds == [] then {}
    else
      var c := cmds[0];
      var here := if c.AddCmd? && Upper(c.text) != "" && Upper(c.text) in c.universe then {Upper(c.text)} else {};
      here + Admitted(cmds[1..])
  }

  /** The invariant a reachable watchlist keeps relative to the tickers it may hold. */
  predicate Reachable(wl: seq<string>, allowed: set<string>) {
    && NoDuplicates(wl)
    && (forall t :: t in wl ==> NoLowerAscii(t))
    && (forall t :: t in wl ==> t in allowed)
  }

  /** One command keeps the invariant, with the admitted ticker added to what is allowed. */
  lemma StepKeepsReachable(wl: seq<string>, c: Command, allowed: set<string>)
    requires Reachable(wl, allowed)
    requires Step(wl, c).Some?
    ensures Reachable(Step(wl, c).value, allowed + Admitted([c]))
  {
    assert Admitted([c][1..]) == {};
    match c
    case AddCmd(text, universe) =>
      AddKeepsNoDuplicates(Upper(text), universe, wl);
    case RemoveCmd(ticker) =>
      RemoveKeepsNoDuplicates(wl, ticker);
      RemoveFirstMultiset(wl, ticker);
      var r := RemoveFirst(wl, ticker);
      forall t | t in r
        ensures t in wl
      {
        assert t in multiset(r);
      }
  }

  /** Every command sequence that does not raise keeps the invariant. */
  lemma {:induction false} RunKeepsReachable(wl: seq<string>, cmds: seq<Command>, allowed: set<string>)
    requires Reachable(wl, allowed)
    requires Run(wl, cmds).Some?
    ensures Reachable(Run(wl, cmds).value, allowed + Admitted(cmds))
    decreases |cmds|
  {
    if cmds != [] {
      var next := Step(wl, cmds[0]).value;
      StepKeepsReachable(wl, cmds[0], allowed);
      RunKeepsReachable(next, cmds[1..], allowed + Admitted([cmds[0]]));
      assert Admitted(cmds) == Admitted([cmds[0]]) + Admitted(cmds[1..]);
    }
  }

  /**
   * From a fresh session (seeded by app.py:97-98), whatever commands follow,
   * the watchlist never holds a ticker twice, holds no lower-case ASCII
   * letter, and holds only seeded tickers or tickers some add found in its
   * universe at the time.
   */
  lemma FreshSessionInvariant(cmds: seq<Command>)
    requires Run(Init(None), cmds).Some?
    ensures NoDuplicates(Run(Init(None), cmds).value)
    ensures forall t :: t in Run(Init(None), cmds).value ==> NoLowerAscii(t)
    ensures forall t :: t in Run(Init(None), cmds).value ==> t in Default || t in Admitted(cmds)
  {
    var seed := Init(None);
    SeedReachable();
    RunKeepsReachable(seed, cmds, set t | t in Default);
  }

  /** The seed list satisfies the invariant, with only its own tickers allowed. */
  lemma SeedReachable()
    ensures Reachable(Init(None), set t | t in Default)
  {
    assert NoLowerAscii("VNM") && NoLowerAscii("FPT") && NoLowerAscii("HPG");
  }

  /**
   * An example session: with universe {VNM, FPT, HPG, VIC}, adding "vic"
   * appends VIC, adding it again reports AlreadyPresent and changes nothing,
   * and removing FPT leaves [VNM, HPG, VIC].
   */
  lemma Scenario()
    ensures var u := ["VNM", "FPT", "HPG", "VIC"];
      && Classify(Upper("vic"), u, Default) == Added
      && Classify(Upper("vic"), u, Default + ["VIC"]) == AlreadyPresent
      && Run(Init(None), [AddCmd("vic", u), AddCmd("VIC", u), RemoveCmd("FPT")]) == Some(["VNM", "HPG", "VIC"])
  {
    var u := ["VNM", "FPT", "HPG", "VIC"];
    assert Upper("vic") == "VIC";
    assert Upper("VIC") == "VIC";
    var w1 := Default + ["VIC"];
    assert Step(Default, AddCmd("vic", u)) == Some(w1);
    assert Step(w1, AddCmd("VIC", u)) == Some(w1);
    assert FirstIndex(w1, "FPT") == 1;
    assert w1[..1] + w1[2..] == ["VNM", "HPG", "VIC"];
    var w2 := ["VNM", "HPG", "VIC"];
    assert Step(w1, RemoveCmd("FPT")) == Some(w2);
    var cmds := [AddCmd("vic", u), AddCmd("VIC", u), RemoveCmd("FPT")];
    assert Run(w2, cmds[1..][1..][1..]) == Some(w2);
    assert Run(w1, cmds[1..][1..]) == Some(w2);
    assert Run(w1, cmds[1..]) == Some(w2);
  }

  /** A ticker that is listed but has left the universe is still reported AlreadyPresent. */
  lemma ListedBeatsUniverse(text: string, universe: seq<string>, wl: seq<string>)
    requires Upper(text) in wl && Upper(text) !in universe
    ensures Classify(Upper(text), universe, wl) == AlreadyPresent
    ensures Step(wl, AddCmd(text, universe)) == Some(wl)
  {
  }
}
