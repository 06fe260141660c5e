/**
 * The watchlist rules of app.py as functions on values: the seed list, the
 * three-way outcome of the add command and its effect, and `list.remove`.
 * The watchlist is the ordered list of ticker strings kept in the session.
 */
module Watchlist {
  import opened Wrappers

  /** What the add command reports (app.py:123, 125, 127). */
  datatype AddOutcome = Added | AlreadyPresent | Invalid

  /** The seed list written when the session has no watchlist yet (app.py:98). */
  const Default: seq<string> := ["VNM", "FPT", "HPG"]

  /** No ticker appears twice. */
  predicate NoDuplicates(s: seq<string>) {
    forall i, j :: 0 <= i < j < |s| ==> s[i] != s[j]
  }

  /**
   * The session's watchlist after the initialisation step (app.py:97-98):
   * an existing list is kept, a missing one becomes the seed list.
   */
  function Init(existing: Option<seq<string>>): (r: seq<string>)
    ensures existing.Some? ==> r == existing.value
    ensures existing.None? ==> |r| == 3 && r[0] == "VNM" && r[1] == "FPT" && r[2] == "HPG"
    ensures existing.None? ==> NoDuplicates(r)
  {
    match existing
    case Some(wl) => wl
    case None => Default
  }

  /**
   * The outcome of adding the (already upper-cased) `ticker` to `wl` when
   * the ticker universe is `universe` (app.py:121-127). The three tests run
   * in the source's order, so membership in `wl` wins over the universe.
   */
  function Classify(ticker: string, universe: seq<string>, wl: seq<string>): (o: AddOutcome)
    ensures o == Added <==> ticker != "" && ticker in universe && ticker !in wl
    ensures o == AlreadyPresent <==> ticker in wl
    ensures o == Invalid <==> ticker !in wl && (ticker == "" || ticker !in universe)
  {
    if ticker != "" && ticker in universe && ticker !in wl then Added
    else if ticker in wl then AlreadyPresent
    else Invalid
  }

  /** The watchlist after the add command: appended on success, else unchanged (app.py:122). */
  function AfterAdd(ticker: string, universe: seq<string>, wl: seq<string>): (r: seq<string>)
    ensures Classify(ticker, universe, wl) == Added ==> |r| == |wl| + 1 && r[..|wl|] == wl && r[|wl|] == ticker
    ensures Classify(ticker, universe, wl) != Added ==> r == wl
  {
    if Classify(ticker, universe, wl) == Added then wl + [ticker] else wl
  }

  /** The position of the first occurrence of `x` in `s` (`list.index`). */
  function FirstIndex(s: seq<string>, x: string): (i: nat)
    requires x in s
    ensures i < |s| && s[i] == x
    ensures forall j :: 0 <= j < i ==> s[j] != x
  {
    if s[0] == x then 0 else 1 + FirstIndex(s[1..], x)
  }

  /** `list.remove(x)`: drop the first occurrence of `x`, keep everything else in order. */
  function RemoveFirst(s: seq<string>, x: string): (r: seq<string>)
    requires x in s
    ensures |r| == |s| - 1
    ensures r == s[..FirstIndex(s, x)] + s[FirstIndex(s, x) + 1..]
  {
    if s[0] == x then s[1..]
    else
      var t := s[1..];
      var r := [s[0]] + RemoveFirst(t, x);
      ghost var i := FirstIndex(t, x);
      assert FirstIndex(s, x) == i + 1;
      assert s[..i + 1] == [s[0]] + t[..i];
      assert s[i + 2..] == t[i + 1..];
      r
  }

  /** Removal takes exactly one copy of the ticker out of the multiset of entries. */
  lemma {:induction false} RemoveFirstMultiset(s: seq<string>, x: string)
    requires x in s
    ensures multiset(RemoveFirst(s, x)) == multiset(s) - multiset{x}
  {
    assert s == [s[0]] + s[1..];
    if s[0] != x {
      RemoveFirstMultiset(s[1..], x);
    }
  }

  /** Adding keeps a duplicate-free watchlist duplicate-free. */
  lemma AddKeepsNoDuplicates(ticker: string, universe: seq<string>, wl: seq<string>)
    requires NoDuplicates(wl)
    ensures NoDuplicates(AfterAdd(ticker, universe, wl))
  {
  }

  /** Every ticker the add command inserts is non-empty and in the universe. */
  lemma AddedFromUniverse(ticker: string, universe: seq<string>, wl: seq<string>, t: string)
    requires t in AfterAdd(ticker, universe, wl) && t !in wl
    ensures t == ticker && t != "" && t in universe
  {
  }

  /**
   * Adding the same valid ticker twice inserts it once: the second command
   * reports AlreadyPresent and changes nothing.
   */
  lemma AddTwice(ticker: string, universe: seq<string>, wl: seq<string>)
    requires Classify(ticker, universe, wl) == Added
    ensures Classify(ticker, universe, AfterAdd(ticker, universe, wl)) == AlreadyPresent
    ensures AfterAdd(ticker, universe, AfterAdd(ticker, universe, wl)) == wl + [ticker]
  {
  }

  /** Removing from a duplicate-free list removes the ticker entirely and keeps the rest distinct. */
  lemma RemoveKeepsNoDuplicates(s: seq<string>, x: string)
    requires x in s && NoDuplicates(s)
    ensures NoDuplicates(RemoveFirst(s, x))
    ensures x !in RemoveFirst(s, x)
  {
    var i := FirstIndex(s, x);
    var r := RemoveFirst(s, x);
    forall a, b | 0 <= a < b < |r|
      ensures r[a] != r[b]
    {
      RemoveKeepsOrder(s, x, a);
      RemoveKeepsOrder(s, x, b);
    }
    forall k | 0 <= k < |r|
      ensures r[k] != x
    {
      RemoveKeepsOrder(s, x, k);
    }
  }

  /**
   * The entries that survive a removal keep their relative order: entry k of
   * the result is entry k or k + 1 of the input, and only the removed
   * position is skipped.
   */
  lemma RemoveKeepsOrder(s: seq<string>, x: string, k: nat)
    requires x in s && k < |s| - 1
    ensures RemoveFirst(s, x)[k] == s[if k < FirstIndex(s, x) then k else k + 1]
  {
  }

  /** The widget key of an entry's delete button (app.py:136). */
  function DeleteKey(ticker: string): (k: string)
    ensures |k| == |ticker| + 4 && k[..4] == "del_" && k[4..] == ticker
  {
    "del_" + ticker
  }

  /**
   * On a duplicate-free watchlist every delete button gets its own key, so a
   * pressed key names exactly one entry.
   */
  lemma DeleteKeysDistinct(wl: seq<string>, i: nat, j: nat)
    requires NoDuplicates(wl) && i < |wl| && j < |wl|
    requires DeleteKey(wl[i]) == DeleteKey(wl[j])
    ensures i == j
  {
    assert wl[i] == DeleteKey(wl[i])[4..] == DeleteKey(wl[j])[4..] == wl[j];
  }

  /** On a duplicate-free watchlist, `list.remove` of entry k deletes position k. */
  lemma RemoveEntry(wl: seq<string>, k: nat)
    requires NoDuplicates(wl) && k < |wl|
    ensures RemoveFirst(wl, wl[k]) == wl[..k] + wl[k + 1..]
  {
    assert FirstIndex(wl, wl[k]) == k;
  }
}
