/**
 The scroll handler of the navigation: choose the section the reader is in,
 then mark the navigation link that points at it.
 */
module Navigation {
  import opened Wrappers
  import opened Dom

  /** A section counts as reached once the offset is within this many pixels of its top. */
  const ActivationMargin: int := 100

  /** A tracked section: its `id` attribute and its `offsetTop`. */
  datatype Section = Section(id: string, top: int)

  /** `.container[id]`: elements of class `container` that carry an `id` attribute. */
  predicate IsTracked(e: Element) {
    "container" in e.classes && e.id.Some?
  }

  /** The tracked sections of the page, in document order. */
  function Sections(doc: Document): (r: seq<Section>)
    ensures |r| == |Select(doc, IsTracked)|
    ensures forall k :: 0 <= k < |r| ==>
      var i := Select(doc, IsTracked)[k]; r[k] == Section(doc[i].id.value, doc[i].top)
  {
    var idx := Select(doc, IsTracked);
    seq(|idx|, k requires 0 <= k < |idx| => Section(doc[idx[k]].id.value, doc[idx[k]].top))
  }

  /** The vertical scroll offset has reached section `s`. */
  predicate Reached(offset: int, s: Section) {
    offset >= s.top - ActivationMargin
  }

  /** No section of `secs` has been reached. */
  predicate NoneReached(offset: int, secs: seq<Section>) {
    forall j :: 0 <= j < |secs| ==> !Reached(offset, secs[j])
  }

  /** `secs[i]` has been reached and no later section has. */
  predicate LastReachedAt(offset: int, secs: seq<Section>, i: int)
    requires 0 <= i < |secs|
  {
    Reached(offset, secs[i]) && forall j :: i < j < |secs| ==> !Reached(offset, secs[j])
  }

  /**
   The reference choice: the id of the last section in document order that the
   offset has reached, or "" when it has reached none.
   */
  function LastReached(offset: int, secs: seq<Section>): (r: string)
    ensures NoneReached(offset, secs) ==> r == ""
    ensures forall i :: 0 <= i < |secs| && LastReachedAt(offset, secs, i) ==> r == secs[i].id
  {
    if |secs| == 0 then ""
    else if Reached(offset, secs[|secs| - 1]) then secs[|secs| - 1].id
    else
      var front := secs[..|secs| - 1];
      assert forall j :: 0 <= j < |front| ==> front[j] == secs[j];
      LastReached(offset, front)
  }

  /**
   The scan of the scroll handler: visit the sections in document order and
   remember the id of each one the offset has reached.
   */
  method CurrentSection(offset: int, secs: seq<Section>) returns (current: string)
    ensures current == LastReached(offset, secs)
    ensures NoneReached(offset, secs) ==> current == ""
    ensures forall i :: 0 <= i < |secs| && LastReachedAt(offset, secs, i) ==> current == secs[i].id
  {
    current := "";
    var n := 0;
    while n < |secs|
      invariant n <= |secs|
      invariant current == LastReached(offset, secs[..n])
    {
      if Reached(offset, secs[n]) {
        current := secs[n].id;
      }
      assert secs[..n + 1][..n] == secs[..n];
      n := n + 1;
    }
    assert secs[..n] == secs;
  }

  /** The target a navigation link must carry to be the active one. */
  function Anchor(current: string): string {
    "#" + current
  }

  predicate IsNavLink(e: Element) {
    "nav-link" in e.classes
  }

  /**
   `classList.toggle('active', …)` on every navigation link: a link ends up
   active exactly when its `href` is the anchor of `current`.
   */
  function MarkLinks(doc: Document, current: string): (r: Document)
    ensures |r| == |doc|
    ensures forall i :: 0 <= i < |doc| && IsNavLink(doc[i]) ==>
      ("active" in r[i].classes <==> doc[i].href == Some(Anchor(current)))
    ensures forall i :: 0 <= i < |doc| && !IsNavLink(doc[i]) ==> r[i] == doc[i]
    ensures forall i :: 0 <= i < |doc| ==>
      r[i] == doc[i].(classes := r[i].classes) &&
      r[i].classes - {"active"} == doc[i].classes - {"active"}
  {
    seq(|doc|, i requires 0 <= i < |doc| =>
      var e := doc[i];
      if !IsNavLink(e) then e
      else if e.href == Some(Anchor(current)) then e.(classes := e.classes + {"active"})
      else e.(classes := e.classes - {"active"}))
  }

  /** One debounced scroll tick: choose the current section, then mark the links. */
  method ScrollTick(doc: Document, offset: int) returns (current: string, marked: Document)
    ensures current == LastReached(offset, Sections(doc))
    ensures marked == MarkLinks(doc, current)
  {
    current := CurrentSection(offset, Sections(doc));
    marked := MarkLinks(doc, current);
  }

  /** Marking the links a second time for the same section changes nothing. */
  lemma MarkLinksIdempotent(doc: Document, current: string)
    ensures MarkLinks(MarkLinks(doc, current), current) == MarkLinks(doc, current)
  {
  }

  /**
   When no section has been reached the current section is "", so the only
   links left active are those whose `href` is exactly "#".
   */
  lemma NothingReachedMarksBareHash(doc: Document, offset: int, i: nat)
    requires NoneReached(offset, Sections(doc))
    requires i < |doc| && IsNavLink(doc[i])
    ensures "active" in MarkLinks(doc, LastReached(offset, Sections(doc)))[i].classes
      <==> doc[i].href == Some("#")
  {
    assert LastReached(offset, Sections(doc)) == "";
    assert Anchor("") == "#";
  }

  /**
   The choice follows document order, not position on the page: with a later
   section placed higher up, the later one wins although the earlier one lies lower.
   */
  lemma LastInDocumentOrderNotLowest()
    ensures LastReached(650, [Section("low", 500), Section("high", 0)]) == "high"
  {
  }

  /** Sections at offsets 0, 500 and 1200 read from offset 650: the middle one is current. */
  lemma MiddleSectionExample()
    ensures LastReached(650, [Section("a", 0), Section("b", 500), Section("c", 1200)]) == "b"
  {
  }
}
