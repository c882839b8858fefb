/** Badge colours. The CSS class strings of the source are opaque tokens
    here: a hue, and whether the badge also carries a border class. */
module Palette {

  datatype Hue = Orange | Yellow | Green | Purple | Blue | Red | Gray

  datatype Style = Style(hue: Hue, bordered: bool)

  /** `colors[key] || colors[fallback]` over a table written as an object
      literal, taken as a finite map: a key in the table gets its own entry,
      any other key the fallback entry. Every table value is a non-empty
      class string, so `||` fires only where the lookup finds nothing. */
  function Lookup(table: map<string, Style>, key: string, fallback: string): (r: Style)
    requires fallback in table
    ensures key in table ==> r == table[key]
    ensures key !in table ==> r == table[fallback]
  {
    if key in table then table[key] else table[fallback]
  }
}
