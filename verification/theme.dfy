/**
 The colour theme: whether the page shows the dark theme, and the preference
 kept in persistent storage under the key `theme`.
 */
module Theme {
  import opened Wrappers

  /** `dark`: the body carries the `dark-theme` class; `stored`: the value under key `theme`. */
  datatype State = State(dark: bool, stored: Option<string>)

  /** The stored spelling of a theme. */
  function Spelling(dark: bool): string {
    if dark then "dark" else "light"
  }

  /** The storage agrees with what the page shows. */
  predicate Persisted(s: State) {
    s.stored == Some(Spelling(s.dark))
  }

  /**
   Start-up: the dark theme is switched on when the stored value is exactly
   "dark", and otherwise the page keeps the theme its markup gave it; storage
   is only read.
   */
  function Initialize(s: State): (r: State)
    ensures r.stored == s.stored
    ensures s.stored == Some("dark") ==> r.dark
    ensures s.stored != Some("dark") ==> r.dark == s.dark
  {
    if s.stored == Some("dark") then s.(dark := true) else s
  }

  /** The page as first loaded, with light markup and whatever storage holds. */
  function Load(stored: Option<string>): (r: State)
    ensures r.stored == stored
    ensures r.dark <==> stored == Some("dark")
  {
    Initialize(State(false, stored))
  }

  /** A click on the toggle: flip the theme and store the new one. */
  function Toggle(s: State): (r: State)
    ensures r.dark == !s.dark
    ensures Persisted(r)
    ensures r.stored == Some("dark") <==> r.dark
  {
    var dark := !s.dark;
    State(dark, Some(Spelling(dark)))
  }

  /** Two clicks bring the theme back, and storage then records it. */
  lemma ToggleTwice(s: State)
    ensures Toggle(Toggle(s)).dark == s.dark
    ensures Toggle(Toggle(s)).stored == Some(Spelling(s.dark))
  {
  }

  /** Reloading a page whose storage agrees with it shows the same theme. */
  lemma ReloadKeepsTheme(s: State)
    requires Persisted(s)
    ensures Load(s.stored) == s
  {
  }

  /** After a toggle the preference survives a reload. */
  lemma ToggleSurvivesReload(s: State)
    ensures Load(Toggle(s).stored) == Toggle(s)
  {
  }

  /** `n` clicks on the toggle. */
  function ToggleTimes(s: State, n: nat): State {
    if n == 0 then s else Toggle(ToggleTimes(s, n - 1))
  }

  /** After `n` clicks the theme has flipped exactly when `n` is odd. */
  lemma {:induction false} ToggleTimesParity(s: State, n: nat)
    ensures ToggleTimes(s, n).dark == (if n % 2 == 0 then s.dark else !s.dark)
    ensures n > 0 ==> Persisted(ToggleTimes(s, n))
  {
    if n > 0 {
      ToggleTimesParity(s, n - 1);
    }
  }

  /** Loading with "dark" stored shows the dark theme and writes nothing. */
  lemma LoadDarkExample()
    ensures Load(Some("dark")) == State(true, Some("dark"))
  {
  }

  /** Any stored value other than exactly "dark" leaves the page light. */
  lemma LoadOtherIsLight(v: string)
    requires v != "dark"
    ensures !Load(Some(v)).dark && !Load(None).dark
  {
  }
}
