/**
 The rendered page as plain data: the elements in document order, each with the
 few attributes the enhancements read or write. Nothing here touches a real tree.
 */
module Dom {
  import opened Wrappers

  /**
   One element. `tag` is the upper-case tag name (`tagName`), `id` and `href`
   are the attributes (None when the attribute is not set), `text` is the
   element's `textContent` and `top` its `offsetTop` in pixels.
   */
  datatype Element = Element(
    tag: string,
    classes: set<string>,
    id: Option<string>,
    href: Option<string>,
    text: string,
    top: int)

  /** The elements of the page in document order. */
  type Document = seq<Element>

  /** The `id` property: the attribute's value, or "" when it is not set. */
  function IdProperty(e: Element): string {
    e.id.GetOr("")
  }

  /** `s` lists positions of `doc` in strictly increasing (document) order. */
  predicate Ascending(s: seq<nat>) {
    forall k, l :: 0 <= k < l < |s| ==> s[k] < s[l]
  }

  /**
   `querySelectorAll` as positions: every position of `doc` whose element
   satisfies `p`, each once, in document order.
   */
  function Select(doc: Document, p: Element -> bool): (r: seq<nat>)
    ensures Ascending(r)
    ensures forall k :: 0 <= k < |r| ==> r[k] < |doc| && p(doc[r[k]])
    ensures forall i :: 0 <= i < |doc| && p(doc[i]) ==> i in r
  {
    if |doc| == 0 then []
    else
      var front := Select(doc[..|doc| - 1], p);
      assert forall k :: 0 <= k < |front| ==> doc[..|doc| - 1][front[k]] == doc[front[k]];
      front + (if p(doc[|doc| - 1]) then [|doc| - 1] else [])
  }

  /**
   Selecting from a prefix of the page gives a prefix of the selection from the
   whole page: positions are found in the same order either way.
   */
  lemma {:induction false} SelectOfPrefix(doc: Document, p: Element -> bool, n: nat)
    requires n <= |doc|
    ensures Select(doc[..n], p) <= Select(doc, p)
    decreases |doc| - n
  {
    if n < |doc| {
      var front := doc[..|doc| - 1];
      assert front[..n] == doc[..n];
      SelectOfPrefix(front, p, n);
    } else {
      assert doc[..n] == doc;
    }
  }

  /** Selection only looks at whether each element satisfies the filter. */
  lemma {:induction false} SelectSameVerdicts(a: Document, b: Document, p: Element -> bool)
    requires |a| == |b|
    requires forall i :: 0 <= i < |a| ==> p(a[i]) == p(b[i])
    ensures Select(a, p) == Select(b, p)
    decreases |a|
  {
    if |a| > 0 {
      SelectSameVerdicts(a[..|a| - 1], b[..|b| - 1], p);
    }
  }

  /** How many elements before position `i` satisfy `p`. */
  function Rank(doc: Document, p: Element -> bool, i: nat): nat
    requires i <= |doc|
  {
    |Select(doc[..i], p)|
  }

  /** The `k`-th selected element has exactly `k` selected elements before it. */
  lemma RankOfSelected(doc: Document, p: Element -> bool, k: nat)
    requires k < |Select(doc, p)|
    ensures Rank(doc, p, Select(doc, p)[k]) == k
  {
    var all := Select(doc, p);
    var i := all[k];
    var before := Select(doc[..i], p);
    var m := |before|;
    SelectOfPrefix(doc, p, i);
    assert before == all[..m];
    assert forall j :: 0 <= j < m ==> all[j] < i;
    assert m <= k;
    if m < |all| {
      assert forall x :: 0 <= x < i && p(doc[x]) ==> x in before by {
        assert forall x :: 0 <= x < i ==> doc[..i][x] == doc[x];
      }
      assert all[m] !in before;
      assert i <= all[m];
    }
  }

  /** Two ascending sequences with the same elements are the same sequence. */
  lemma {:induction false} AscendingSameElements(a: seq<nat>, b: seq<nat>)
    requires Ascending(a) && Ascending(b)
    requires forall x :: x in a <==> x in b
    ensures a == b
    decreases |a|
  {
    assert |a| > 0 ==> a[0] in b;
    assert |b| > 0 ==> b[0] in a;
    if |a| > 0 && |b| > 0 {
      assert a[0] == b[0];
      forall x
        ensures x in a[1..] <==> x in b[1..]
      {
        if x in a[1..] {
          assert x in b && x != b[0];
        }
        if x in b[1..] {
          assert x in a && x != a[0];
        }
      }
      AscendingSameElements(a[1..], b[1..]);
      assert a == [a[0]] + a[1..] && b == [b[0]] + b[1..];
    }
  }

  /** The selection is the only ascending list of exactly the satisfying positions. */
  lemma SelectUnique(doc: Document, p: Element -> bool, s: seq<nat>)
    requires Ascending(s)
    requires forall k :: 0 <= k < |s| ==> s[k] < |doc| && p(doc[s[k]])
    requires forall i :: 0 <= i < |doc| && p(doc[i]) ==> i in s
    ensures s == Select(doc, p)
  {
    var sel := Select(doc, p);
    forall x
      ensures x in s <==> x in sel
    {
      if x in s {
        var k :| 0 <= k < |s| && s[k] == x;
        assert x < |doc| && p(doc[x]);
      }
      if x in sel {
        var k :| 0 <= k < |sel| && sel[k] == x;
        assert x < |doc| && p(doc[x]);
      }
    }
    AscendingSameElements(s, sel);
  }
}
