/**
 The search box: after the typing settles, find the first few text-bearing
 elements whose lower-cased text contains the lower-cased query.
 */
module Search {
  import opened Text
  import opened Dom
  import Debounce

  /** Queries shorter than this clear the results instead of searching. */
  const MinQueryLength: nat := 2

  /** At most this many hits are shown. */
  const MaxResults: nat := 5

  /** Milliseconds of quiet typing before a search runs. */
  const InputDelay: nat := 300

  function Min(a: nat, b: nat): nat {
    if a <= b then a else b
  }

  /** `querySelectorAll('p, h1, h2, h3, h4, h5, li')`. */
  predicate IsSearchable(e: Element) {
    e.tag in {"P", "H1", "H2", "H3", "H4", "H5", "LI"}
  }

  /** `e` is searchable and its lower-cased text contains the (already lower-cased) query. */
  predicate IsMatch(q: string, e: Element) {
    IsSearchable(e) && Contains(Lower(e.text), q)
  }

  /** The match test for query `q` as a filter. */
  function MatchFilter(q: string): Element -> bool {
    e => IsMatch(q, e)
  }

  /** Every matching position, in document order. */
  function Matches(doc: Document, q: string): (r: seq<nat>)
    ensures Ascending(r)
    ensures forall k :: 0 <= k < |r| ==> r[k] < |doc| && IsMatch(q, doc[r[k]])
    ensures forall i :: 0 <= i < |doc| && IsMatch(q, doc[i]) ==> i in r
  {
    Select(doc, MatchFilter(q))
  }

  /**
   `s` is the list of the first matches in document order: ascending, all
   matches, at most `MaxResults` of them, with no match skipped before the last
   one, and with every match included when fewer than `MaxResults` were found.
   */
  predicate IsFirstMatches(doc: Document, q: string, s: seq<nat>) {
    && |s| <= MaxResults
    && Ascending(s)
    && (forall k :: 0 <= k < |s| ==> s[k] < |doc| && IsMatch(q, doc[s[k]]))
    && (forall i :: 0 <= i < |doc| && IsMatch(q, doc[i]) && (|s| < MaxResults || i < s[|s| - 1]) ==> i in s)
  }

  /** A hit: the matching element's position and its preview. */
  datatype Hit = Hit(index: nat, preview: string)

  /** The three states of the results box. */
  datatype Outcome = Cleared | NoResults | Results(hits: seq<Hit>)

  function Positions(hits: seq<Hit>): (r: seq<nat>)
    ensures |r| == |hits|
    ensures forall k :: 0 <= k < |hits| ==> r[k] == hits[k].index
  {
    seq(|hits|, k requires 0 <= k < |hits| => hits[k].index)
  }

  /**
   The debounced search callback: a too-short query clears the box; otherwise
   the box shows the first matches with their previews, or the distinct
   "no results" state when nothing matches.
   */
  function Search(doc: Document, q: string): (r: Outcome)
    ensures |q| < MinQueryLength <==> r == Cleared
    ensures r == NoResults <==> |q| >= MinQueryLength && forall i :: 0 <= i < |doc| ==> !IsMatch(q, doc[i])
    ensures r.Results? ==>
      && 1 <= |r.hits| == Min(MaxResults, |Matches(doc, q)|)
      && IsFirstMatches(doc, q, Positions(r.hits))
      && forall k :: 0 <= k < |r.hits| ==> r.hits[k].preview == Truncate(doc[r.hits[k].index].text)
  {
    if |q| < MinQueryLength then Cleared
    else
      var m := Matches(doc, q);
      var firsts := m[..Min(MaxResults, |m|)];
      if |firsts| == 0 then
        assert forall i :: 0 <= i < |doc| ==> !IsMatch(q, doc[i]);
        NoResults
      else
        var hits := seq(|firsts|, k requires 0 <= k < |firsts| => Hit(firsts[k], Truncate(doc[firsts[k]].text)));
        assert Positions(hits) == firsts;
        assert |hits| == Min(MaxResults, |m|);
        assert forall k :: 0 <= k < |hits| ==> hits[k].preview == Truncate(doc[hits[k].index].text);
        LeadingMatchesAreFirst(doc, q);
        Results(hits)
  }

  /** The leading `Min(MaxResults, …)` matches form a list of first matches. */
  lemma LeadingMatchesAreFirst(doc: Document, q: string)
    ensures var m := Matches(doc, q); IsFirstMatches(doc, q, m[..Min(MaxResults, |m|)])
  {
  }

  /**
   A list of first matches is exactly the leading part of all matches, so the
   first-match description admits one answer only.
   */
  lemma FirstMatchesAreLeading(doc: Document, q: string, s: seq<nat>)
    requires IsFirstMatches(doc, q, s)
    ensures var m := Matches(doc, q); s == m[..Min(MaxResults, |m|)]
  {
    var m := Matches(doc, q);
    if |s| < MaxResults {
      SelectUnique(doc, MatchFilter(q), s);
    } else {
      var b := s[|s| - 1] + 1;
      var front := doc[..b];
      assert forall i :: 0 <= i < b ==> front[i] == doc[i];
      SelectUnique(front, MatchFilter(q), s);
      SelectOfPrefix(doc, MatchFilter(q), b);
    }
  }

  /** Lower-case the raw input and search, as the input listener does. */
  function OnInput(doc: Document, raw: string): (r: Outcome)
    ensures |raw| < MinQueryLength <==> r == Cleared
    ensures r == NoResults <==>
      |raw| >= MinQueryLength && forall i :: 0 <= i < |doc| ==> !IsMatch(Lower(raw), doc[i])
    ensures r.Results? ==> IsFirstMatches(doc, Lower(raw), Positions(r.hits))
  {
    Search(doc, Lower(raw))
  }

  /** The searches a sequence of keystrokes actually runs once debounced. */
  function SearchesRun(doc: Document, inputs: seq<Debounce.Call<string>>): (r: seq<Outcome>)
    ensures |r| == |Debounce.Fired(inputs, InputDelay)|
    ensures forall k :: 0 <= k < |r| ==>
      r[k] == OnInput(doc, inputs[Debounce.Fired(inputs, InputDelay)[k]].arg)
    ensures |inputs| > 0 ==> |r| > 0 && r[|r| - 1] == OnInput(doc, inputs[|inputs| - 1].arg)
  {
    var fired := Debounce.Firings(inputs, InputDelay);
    var positions := Debounce.Fired(inputs, InputDelay);
    var r := Deliver(doc, fired);
    Debounce.FiringsFollowFired(inputs, InputDelay);
    assert forall k :: 0 <= k < |r| ==> fired[k].arg == inputs[positions[k]].arg;
    if |inputs| > 0 then
      Debounce.LastCallFires(inputs, InputDelay);
      assert fired[|fired| - 1].arg == inputs[|inputs| - 1].arg;
      r
    else r
  }

  /** Run one search per delivered input. */
  function Deliver(doc: Document, fired: seq<Debounce.Firing<string>>): (r: seq<Outcome>)
    ensures |r| == |fired|
    ensures forall k :: 0 <= k < |fired| ==> r[k] == OnInput(doc, fired[k].arg)
  {
    seq(|fired|, k requires 0 <= k < |fired| => OnInput(doc, fired[k].arg))
  }

  /** Typing quickly runs one search only, on the final contents of the box. */
  lemma FastTypingSearchesOnce(doc: Document, inputs: seq<Debounce.Call<string>>)
    requires |inputs| > 0 && Debounce.Burst(inputs, InputDelay)
    ensures SearchesRun(doc, inputs) == [OnInput(doc, inputs[|inputs| - 1].arg)]
  {
    Debounce.BurstFiresOnce(inputs, InputDelay);
  }

  /** The search box: what was typed and what the results box shows. */
  datatype View = View(input: string, outcome: Outcome)

  /**
   A click on hit `k`: the page scrolls to that hit's element, and the results
   and the input are cleared.
   */
  function Choose(v: View, k: nat): (r: (nat, View))
    requires v.outcome.Results? && k < |v.outcome.hits|
    ensures r.1 == View("", Cleared)
    ensures r.0 == v.outcome.hits[k].index
  {
    (v.outcome.hits[k].index, View("", Cleared))
  }

  /** The element a click scrolls to is a matching element of the page. */
  lemma ChosenElementMatches(doc: Document, raw: string, k: nat)
    requires OnInput(doc, raw).Results? && k < |OnInput(doc, raw).hits|
    ensures var target := Choose(View(raw, OnInput(doc, raw)), k).0;
      target < |doc| && IsMatch(Lower(raw), doc[target])
  {
  }
}
