/**
 The table of contents built once at start-up: one outline entry per `h3`/`h4`
 heading, in document order, each heading given an identifier its entry links to.
 */
module TableOfContents {
  import opened Wrappers
  import opened Text
  import opened Dom

  /** Prefix of the identifier given to a heading that has none. */
  const FallbackPrefix: string := "section-"

  /** Classes of an outline link for a primary and a secondary heading. */
  const ItemClass: string := "toc-item"
  const SubItemClass: string := "toc-sub-item"

  /** `querySelectorAll('h3, h4')`. */
  predicate IsHeading(e: Element) {
    e.tag == "H3" || e.tag == "H4"
  }

  /** Positions of the headings, in document order. */
  function Headings(doc: Document): seq<nat> {
    Select(doc, IsHeading)
  }

  /** One outline link: its target identifier, `href`, text and class. */
  datatype Entry = Entry(id: string, href: string, text: string, className: string)

  /** The identifier of the heading numbered `k`: its own, else the positional fallback. */
  function HeadingId(e: Element, k: nat): string {
    if IdProperty(e) != "" then IdProperty(e) else FallbackPrefix + NatToString(k)
  }

  /** The entry the heading numbered `k` contributes. */
  function EntryFor(e: Element, k: nat): Entry {
    var id := HeadingId(e, k);
    Entry(id, "#" + id, e.text, if e.tag == "H4" then SubItemClass else ItemClass)
  }

  /** The outline: entry `k` describes the `k`-th heading of the page. */
  function Outline(doc: Document): (r: seq<Entry>)
    ensures |r| == |Headings(doc)|
    ensures forall k :: 0 <= k < |r| ==>
      var h := doc[Headings(doc)[k]];
      && r[k].id != ""
      && (IdProperty(h) != "" ==> r[k].id == IdProperty(h))
      && (IdProperty(h) == "" ==> r[k].id == FallbackPrefix + NatToString(k))
      && r[k].href == "#" + r[k].id
      && r[k].text == h.text
      && (r[k].className == SubItemClass <==> h.tag == "H4")
      && (r[k].className == ItemClass <==> h.tag == "H3")
  {
    var hs := Headings(doc);
    seq(|hs|, k requires 0 <= k < |hs| => EntryFor(doc[hs[k]], k))
  }

  /**
   `heading.id = id` for every heading: a heading whose position `i` is preceded
   by `k` other headings receives the identifier of entry `k`.
   */
  function AssignIds(doc: Document): (r: Document)
    ensures |r| == |doc|
    ensures forall i :: 0 <= i < |doc| && !IsHeading(doc[i]) ==> r[i] == doc[i]
    ensures forall i :: 0 <= i < |doc| ==> r[i] == doc[i].(id := r[i].id)
    ensures forall i :: 0 <= i < |doc| && IsHeading(doc[i]) ==> r[i].id.Some? && r[i].id.value != ""
  {
    seq(|doc|, i requires 0 <= i < |doc| =>
      if IsHeading(doc[i]) then doc[i].(id := Some(HeadingId(doc[i], Rank(doc, IsHeading, i))))
      else doc[i])
  }

  /** Every outline link points at its own heading, which now carries that identifier. */
  lemma OutlineTargetsHeadings(doc: Document)
    ensures forall k :: 0 <= k < |Headings(doc)| ==>
      AssignIds(doc)[Headings(doc)[k]].id == Some(Outline(doc)[k].id)
  {
    forall k | 0 <= k < |Headings(doc)|
      ensures AssignIds(doc)[Headings(doc)[k]].id == Some(Outline(doc)[k].id)
    {
      RankOfSelected(doc, IsHeading, k);
    }
  }

  /**
   Building the outline again after the identifiers were assigned gives the
   same outline: the fallback identifiers are stable once assigned.
   */
  lemma OutlineStable(doc: Document)
    ensures Headings(AssignIds(doc)) == Headings(doc)
    ensures Outline(AssignIds(doc)) == Outline(doc)
  {
    var after := AssignIds(doc);
    SelectSameVerdicts(doc, after, IsHeading);
    OutlineTargetsHeadings(doc);
    var hs := Headings(doc);
    forall k | 0 <= k < |hs|
      ensures Outline(after)[k] == Outline(doc)[k]
    {
      assert IdProperty(after[hs[k]]) == Outline(doc)[k].id;
    }
  }

  /** Explicit heading identifiers are pairwise distinct. */
  predicate ExplicitIdsDistinct(doc: Document) {
    var hs := Headings(doc);
    forall k, l :: 0 <= k < l < |hs| && IdProperty(doc[hs[k]]) != "" ==>
      IdProperty(doc[hs[k]]) != IdProperty(doc[hs[l]])
  }

  /** No explicit heading identifier looks like a fallback the outline may hand out. */
  predicate NoFallbackLookalike(doc: Document) {
    var hs := Headings(doc);
    forall k, m :: 0 <= k < |hs| && 0 <= m < |hs| ==>
      IdProperty(doc[hs[k]]) != FallbackPrefix + NatToString(m)
  }

  lemma FallbackIdsDistinct(k: nat, l: nat)
    requires k != l
    ensures FallbackPrefix + NatToString(k) != FallbackPrefix + NatToString(l)
  {
    NatToStringInjective(k, l);
    assert (FallbackPrefix + NatToString(k))[|FallbackPrefix|..] == NatToString(k);
    assert (FallbackPrefix + NatToString(l))[|FallbackPrefix|..] == NatToString(l);
  }

  /**
   The outline's identifiers are pairwise distinct provided the page's own
   heading identifiers are distinct and none of them looks like a fallback.
   */
  lemma OutlineIdsUnique(doc: Document)
    requires ExplicitIdsDistinct(doc) && NoFallbackLookalike(doc)
    ensures forall k, l :: 0 <= k < l < |Outline(doc)| ==> Outline(doc)[k].id != Outline(doc)[l].id
  {
    var r := Outline(doc);
    forall k, l | 0 <= k < l < |r|
      ensures r[k].id != r[l].id
    {
      FallbackIdsDistinct(k, l);
    }
  }

  /**
   Without that proviso identifiers can clash: a first heading with the explicit
   identifier "section-1" and a second heading with none both end up "section-1".
   */
  lemma ExplicitIdCanCollide()
    ensures var doc := [Element("H3", {}, Some("section-1"), None, "A", 0),
                        Element("H4", {}, None, None, "B", 0)];
            |Outline(doc)| == 2 && Outline(doc)[0].id == Outline(doc)[1].id == "section-1"
  {
  }

  /** Headings A (h3), A.1 (h4), B (h3) give three entries in that order, A.1 a sub-entry. */
  lemma ThreeHeadingExample()
    ensures var doc := [Element("H3", {}, None, None, "A", 0),
                        Element("H4", {}, None, None, "A.1", 0),
                        Element("H3", {}, None, None, "B", 0)];
            var r := Outline(doc);
            && |r| == 3
            && r[0].text == "A" && r[1].text == "A.1" && r[2].text == "B"
            && r[0].className == ItemClass && r[1].className == SubItemClass && r[2].className == ItemClass
            && r[0].id == "section-0" && r[1].id == "section-1" && r[2].id == "section-2"
  {
    var doc := [Element("H3", {}, None, None, "A", 0),
                Element("H4", {}, None, None, "A.1", 0),
                Element("H3", {}, None, None, "B", 0)];
    SelectUnique(doc, IsHeading, [0, 1, 2]);
    assert NatToString(0) == "0" && NatToString(1) == "1" && NatToString(2) == "2";
  }
}
