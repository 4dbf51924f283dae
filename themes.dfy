/**
 * The colour themes of the demo: the five-field `Theme` record and the two
 * preset themes, light (`defaultTheme`) and dark (`darkTheme`).
 */
module Themes {

  /** A CSS colour value, kept as the text that was submitted (for example "#ffffff"). */
  type Color = string

  /** The `Theme` record: five required colour fields, in the order the type declares them. */
  datatype Theme = Theme(foreground: Color, background: Color, links: Color, linksHover: Color, border: Color)

  /** The five property names of a theme. */
  datatype Key = Foreground | Background | Links | LinksHover | Border

  /** The property name of a field as it is spelled in the record and in the submitted form. */
  function KeyName(k: Key): string {
    match k
    case Foreground => "foreground"
    case Background => "background"
    case Links => "links"
    case LinksHover => "links-hover"
    case Border => "border"
  }

  /** The value of one property of a theme. */
  function ColorOf(t: Theme, k: Key): Color {
    match k
    case Foreground => t.foreground
    case Background => t.background
    case Links => t.links
    case LinksHover => t.linksHover
    case Border => t.border
  }

  /**
   * The keys of the light preset in the order its literal lists them, which is
   * the order `Object.keys` yields them. This differs from the order in which
   * the `Theme` type declares its fields.
   */
  const KeyOrder: seq<Key> := [Background, Border, Foreground, Links, LinksHover]

  /** The dark preset. */
  const DarkTheme: Theme := Theme(
    background := "#000000",
    border := "#404040",
    foreground := "#ffffff",
    links := "#75b3ff",
    linksHover := "#99c7ff")

  /** The light preset, used when no theme is stored and on a reset. */
  const DefaultTheme: Theme := Theme(
    background := "#ffffff",
    border := "#d1d1d1",
    foreground := "#121212",
    links := "#0a78ff",
    linksHover := "#0063db")

  /** Every field holds a non-empty colour string. */
  predicate Filled(t: Theme) {
    forall k: Key :: ColorOf(t, k) != ""
  }

  /** Distinct keys have distinct property names, so a name determines its key. */
  lemma KeyNameInjective(j: Key, k: Key)
    ensures KeyName(j) == KeyName(k) <==> j == k
  {
  }

  /** The position of a key in the light preset's key order. */
  function IndexOf(k: Key): (i: nat)
    ensures i < |KeyOrder| && KeyOrder[i] == k
  {
    match k
    case Background => 0
    case Border => 1
    case Foreground => 2
    case Links => 3
    case LinksHover => 4
  }

  /** The key order lists each of the five keys exactly once. */
  lemma KeyOrderEnumeratesKeys()
    ensures |KeyOrder| == 5
    ensures forall k: Key :: k in KeyOrder
    ensures forall i, j :: 0 <= i < j < |KeyOrder| ==> KeyOrder[i] != KeyOrder[j]
  {
    forall k: Key ensures k in KeyOrder {
      assert KeyOrder[IndexOf(k)] == k;
    }
  }

  /** Two themes that agree on every key are the same theme. */
  lemma ThemeExtensionality(s: Theme, t: Theme)
    requires forall k: Key :: ColorOf(s, k) == ColorOf(t, k)
    ensures s == t
  {
    assert ColorOf(s, Foreground) == ColorOf(t, Foreground);
    assert ColorOf(s, Background) == ColorOf(t, Background);
    assert ColorOf(s, Links) == ColorOf(t, Links);
    assert ColorOf(s, LinksHover) == ColorOf(t, LinksHover);
    assert ColorOf(s, Border) == ColorOf(t, Border);
  }

  /** The record a complete set of entries describes: one value for every key. */
  function FromEntries(m: map<Key, Color>): (t: Theme)
    requires forall k: Key :: k in m
    ensures forall k: Key :: ColorOf(t, k) == m[k]
  {
    Theme(
      foreground := m[Foreground],
      background := m[Background],
      links := m[Links],
      linksHover := m[LinksHover],
      border := m[Border])
  }

  /** Every colour of both presets is a non-empty string, and the two presets are different themes. */
  lemma PresetsFilled()
    ensures Filled(DarkTheme) && Filled(DefaultTheme)
    ensures DarkTheme != DefaultTheme
  {
  }
}
