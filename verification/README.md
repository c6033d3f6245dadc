# Page enhancements of a static document, as pure functions

The system is a small browser script (`script.js`) that enhances an already
rendered document: a light/dark theme switch remembered in storage, a
navigation bar whose link for the section being read is marked active, a table
of contents generated from the `h3`/`h4` headings, a substring search over the
text-bearing elements, and a debounce wrapper that delays the scroll and input
handlers until events quiet down.

This project models the decision logic of those features in Dafny. The page is
plain data: a sequence of elements in document order, each with a tag name,
classes, optional `id` and `href` attributes, text and vertical offset
(`Dom.Element`). Every feature becomes a total function over such sequences:

- `Text`: ASCII lower-casing, `includes` as a scan (proved equal to "occurs at
  some position"), the 150-character preview truncation, and the decimal
  rendering of an index (proved injective through a parse round trip).
- `Dom`: selection of the elements satisfying a filter, as ascending positions,
  with the facts that such a selection is unique, that selecting from a prefix
  gives a prefix, and that the `k`-th selected element has `k` selected
  elements before it.
- `Theme`: a two-field state (dark flag, stored preference), start-up and toggle.
- `Navigation`: choice of the current section (the last one in document order
  whose top, less 100 pixels, the scroll offset has reached) and marking of the
  navigation links.
- `TableOfContents`: the outline entries and the identifiers written back to the
  headings.
- `Search`: the cleared / no-results / results outcome and the first five
  matches in document order.
- `Debounce`: the debounce wrapper on a discrete clock, and the consequence for
  the search box.

Three facts about the code are worth stating on their own:

- When no section has been reached, the current section is "", and a
  navigation link whose `href` is exactly `#` becomes active
  (`Navigation.NothingReachedMarksBareHash`).
- A truncated preview keeps 150 characters and appends `...`, so it has 153
  characters (`Text.Truncate`).
- Heading identifiers are not always unique: an explicit identifier `section-1`
  collides with the fallback of the second heading
  (`TableOfContents.ExplicitIdCanCollide`). Uniqueness holds when the page's own
  heading identifiers are distinct and none looks like a fallback
  (`TableOfContents.OutlineIdsUnique`).

## Model

| member | source | states |
|---|---|---|
| Text.Truncate | script.js:189-191 | text of at most 150 characters is returned as is; longer text yields its first 150 characters followed by `...`, 153 characters in all; no preview exceeds 153 |
| Text.TruncateIdempotent | script.js:189-191 | truncating a preview again leaves it unchanged |
| Text.TruncateFixedPoints | script.js:189-191 | a text is its own preview exactly when it has at most 150 characters, or has 153 and already ends in `...` |
| Text.TruncateDependsOnPrefix | script.js:189-191 | two long texts with the same first 150 characters get the same preview |
| Text.LowerIdempotent | script.js:129 | lower-casing preserves length, leaves no upper-case ASCII letter, and lower-casing twice equals once |
| Text.Lower | script.js:129 | lower-casing keeps the length and lower-cases each character in place |
| Text.Contains | script.js:129 | a text contains only queries no longer than itself, and always contains the empty query |
| Text.ContainsIffOccurs | script.js:129 | the `includes` scan succeeds exactly when the query occurs at some position of the text |
| Text.OccursImpliesContains | script.js:129 | an occurrence at any position is found by the scan |
| Text.NatToString | script.js:87 | the decimal numeral of the index: non-empty, digits only, with no leading zero (it starts with `0` only for 0, which renders as `0`) |
| Text.ParseNatToString | script.js:87 | reading the rendered digits back gives the index |
| Text.NatToStringInjective | script.js:87 | distinct indices render differently |
| Dom.Select | script.js:128 | the selected positions are ascending, each satisfies the filter, and every satisfying position is selected |
| Dom.SelectUnique | script.js:128 | any ascending list of exactly the satisfying positions is the selection |
| Dom.AscendingSameElements | script.js:128 | two ascending position lists with the same elements are equal |
| Dom.SelectOfPrefix | script.js:86 | selecting from a prefix of the page yields a prefix of the whole selection |
| Dom.SelectSameVerdicts | script.js:86 | pages on which the filter agrees element by element give the same selection |
| Dom.RankOfSelected | script.js:86-88 | the `k`-th selected element has exactly `k` selected elements before it, so the `forEach` index of a heading is its rank |
| Navigation.Sections | script.js:58 | the tracked sections are the `container` elements with an `id` attribute, in document order, with their ids and tops |
| Navigation.LastReached | script.js:60-66 | the reference choice: "" when no section is reached, else the id of the reached section after which none is reached |
| Navigation.CurrentSection | script.js:60-66 | the `forEach` scan that overwrites `currentSection` computes the reference choice: the last reached section in document order, or "" |
| Navigation.MarkLinks | script.js:68-71 | a navigation link carries `active` exactly when its `href` equals `#` plus the current section; links differ only in `active`; other elements are untouched |
| Navigation.ScrollTick | script.js:59-72 | one scroll tick chooses the current section among the page's tracked sections and marks the links for it |
| Navigation.MarkLinksIdempotent | script.js:68-71 | marking the links a second time for the same section changes nothing |
| Navigation.NothingReachedMarksBareHash | script.js:60-71 | when no section is reached, a link is active exactly when its `href` is `#` |
| Navigation.LastInDocumentOrderNotLowest | script.js:61-65 | the later section in document order wins even when it lies higher on the page |
| Navigation.MiddleSectionExample | script.js:60-66 | sections at 0, 500 and 1200 read from offset 650 make the middle one current |
| TableOfContents.Outline | script.js:86-99 | one entry per `h3`/`h4` heading in order; entry `k` has the heading's own id when non-empty, else `section-k`; its `href` is `#` plus that id, its text the heading's text, its class `toc-sub-item` exactly for `H4` and `toc-item` exactly for `H3` |
| TableOfContents.AssignIds | script.js:86-88 | only headings change, only in their `id`, and every heading ends up with a non-empty id |
| TableOfContents.OutlineTargetsHeadings | script.js:87-93 | after the ids are written, each outline link's target id is carried by its own heading |
| TableOfContents.OutlineStable | script.js:87-88 | building the outline again from the updated page gives the same headings and the same outline |
| TableOfContents.FallbackIdsDistinct | script.js:87 | fallback ids of distinct headings differ |
| TableOfContents.OutlineIdsUnique | script.js:87 | with distinct explicit ids, none shaped like a fallback, all outline ids are distinct |
| TableOfContents.ExplicitIdCanCollide | script.js:87 | an explicit `section-1` on the first heading and no id on the second give two entries with the same id |
| TableOfContents.ThreeHeadingExample | script.js:86-99 | headings A (h3), A.1 (h4), B (h3) give three entries in order with A.1 the only sub-entry and ids `section-0..2` |
| Theme.Initialize | script.js:36-39 | start-up turns the dark theme on when storage holds exactly `dark`, otherwise keeps the markup's theme, and writes nothing |
| Theme.Load | script.js:36-39 | a freshly loaded light page is dark exactly when storage holds `dark` |
| Theme.Toggle | script.js:31-34 | a click flips the theme and stores `dark` exactly when the new theme is dark (otherwise `light`) |
| Theme.ToggleTwice | script.js:31-34 | two clicks restore the theme and leave storage recording it |
| Theme.ReloadKeepsTheme | script.js:31-39 | a page whose storage agrees with its theme shows the same theme after a reload |
| Theme.ToggleSurvivesReload | script.js:31-39 | the theme chosen with the toggle is the one shown after a reload |
| Theme.ToggleTimesParity | script.js:31-34 | after `n` clicks the theme has flipped exactly when `n` is odd, and storage agrees with it |
| Theme.LoadDarkExample | script.js:37-38 | loading with `dark` stored shows the dark theme and leaves storage as it was |
| Theme.LoadOtherIsLight | script.js:37-39 | any stored value other than exactly `dark`, or none, leaves a light page light |
| Search.Matches | script.js:128-129 | every searchable element whose lower-cased text contains the query, each once, in document order |
| Search.Search | script.js:122-135 | a query shorter than 2 clears the results whatever the page holds; otherwise "no results" exactly when nothing matches; else exactly `min(5, #matches)` hits (at least one) forming the first matches in document order, each with its truncated preview |
| Search.LeadingMatchesAreFirst | script.js:128-130 | the first `min(5, #matches)` matches are ascending matches with none skipped, and all of them when fewer than 5 |
| Search.FirstMatchesAreLeading | script.js:128-130 | conversely, any such list of first matches is exactly the first `min(5, #matches)` matches, so the description has one answer |
| Search.OnInput | script.js:155 | the input listener clears the results exactly when the raw input has fewer than 2 characters, reports "no results" exactly when nothing matches the lower-cased input, and otherwise shows the first matches of the lower-cased input |
| Search.Deliver | script.js:153-155 | one search runs per delivered input, on that input, in delivery order |
| Search.SearchesRun | script.js:122-155 | the debounced search runs once per fired keystroke, in order, on that keystroke's input, and the last run uses the final input |
| Search.FastTypingSearchesOnce | script.js:122-155 | keystrokes each less than 300 ms apart run a single search, on the last contents of the box |
| Search.Choose | script.js:144-151 | a click on hit `k` scrolls to that clicked hit's position and clears both the results and the input |
| Search.ChosenElementMatches | script.js:144-147 | the element a click scrolls to is on the page and matches the lower-cased query |
| Debounce.Fired | script.js:2-8 | the positions of the calls whose timers run out number at most the calls and are positions of calls |
| Debounce.FiredInCallOrder | script.js:5-6 | the fired positions are strictly increasing, so each call's timer fires at most once and the timers fire in the order the calls are listed |
| Debounce.FiredSound | script.js:5-6 | only a call not followed by another within `delay` fires |
| Debounce.FiredComplete | script.js:5-6 | every call not followed by another within `delay` fires |
| Debounce.LastCallFired | script.js:5-6 | the last call's timer is never cleared, so it is the last position to fire |
| Debounce.Firings | script.js:2-8 | there is exactly one delivery per fired position |
| Debounce.FiringsFollowFired | script.js:2-8 | delivery `k` is the argument of the `k`-th fired call, `delay` after it, so deliveries are neither repeated nor reordered relative to the order the calls are listed |
| Debounce.LastCallFires | script.js:2-8 | the last delivery is the last call's argument, `delay` after that call |
| Debounce.FiringsSound | script.js:2-8 | every delivery carries the argument of a call not followed by another within `delay`, `delay` after that call |
| Debounce.FiringsComplete | script.js:2-8 | every call not followed by another within `delay` is delivered |
| Debounce.BurstFiresOnce | script.js:2-8 | calls each arriving before the previous timer ran out are delivered once, with the last call's argument |
| Debounce.FiringTimesInOrder | script.js:5-6 | when the calls are listed in clock order, the delivery times are nondecreasing |
| Debounce.SpacedCallsFireTwice | script.js:2-8 | two calls at least `delay` apart are both delivered, in order |

## Left out

- Building and inserting elements (`createElement`, `innerHTML`, `appendChild`, `insertBefore`): the theme button, the outline container with its title, the search box and results markup, the scroll button and the progress bar (script.js:26-29, 77-84, 101-105, 110-117, 137-142, 161-173). They are rendering only.
- Event-listener wiring, the smooth scrolling of anchor links, `scrollIntoView`, `scrollTo` and the two-second highlight (script.js:47-55, 144-152, 166-168). They are browser side effects; the click on a hit is kept only as the position it scrolls to and the cleared box.
- The progress bar width (script.js:181-184): it is floating-point division and divides by zero when the page cannot scroll.
- The scroll-to-top button visibility (script.js:178): a single comparison of the offset with 300 with nothing further to state.
- Real storage access: the stored preference is a field of `Theme.State`.
- Debounce.Firings: real time, the host timer queue and the order of a call and a timer due at the same instant are not modelled; times are integers and a call arriving exactly when the previous timer is due is taken to come after it.
- Text.Lower: lower-casing covers the ASCII letters only; `toLowerCase` maps every Unicode upper-case letter, some of them to longer strings.
- Text.LowerIdempotent: lower-casing covers the ASCII letters only; `toLowerCase` maps every Unicode upper-case letter, some of them to longer strings.
- Text.Truncate: lengths are counted in characters, whereas the script counts UTF-16 code units, so text outside the basic multilingual plane is cut at a different place.
- Search.Search: the query length is likewise counted in characters, not UTF-16 code units.
- Search.OnInput: the minimum length is tested on the raw input's character count; the script tests the UTF-16 length of the lower-cased value, which differs when `toLowerCase` lengthens a character (for instance `İ` becomes two code units and is searched).
- Nesting of elements: the page is a flat sequence and each element's text is given; `textContent` of an element that contains other elements is whatever the caller supplies, and the outline and results added to the page by the script itself are part of the page only if the caller puts them there.
- Navigation.ScrollTick: the tracked sections are read from the same page as the links, whereas the script reads them once at start-up; offsets are integers, not fractional pixels.
- Theme.Load: a page whose markup already carries the dark class is covered by `Theme.Initialize` only.
