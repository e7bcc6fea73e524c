# Collapsible sections of the PkgEval report pages

This project is a Dafny model of the script `site/pkg.js`, which makes the
report pages' collapsible sections expand and collapse. The script has two
parts:

- **Install.** It runs once, when the script loads. It visits every element
  whose class list holds `collapsible` and puts the collapsed glyph and a
  space (`"▸ "`) in front of the element's text. It also registers a click
  listener on the element.
- **Click handler.** A click first toggles the header's `active` class. It
  then reads the header's next element sibling, which is the content region.
  If the sibling's inline `style.display` is exactly `"block"`, the sibling
  is collapsed: display becomes `"none"` and the first character of the
  header's text becomes `▸`. Any other display expands it, including an
  unset `""`: display becomes `"block"` and the first character becomes `▾`.

Everything is in `collapsible.dfy`, module `Collapsible`:

- The page is the sequence of element children of one parent element, as
  `Element` records. Each record holds the text, the `active` flag, the
  inline display string and the `collapsible` flag. Children are in document
  order, so the next element sibling of element `i` is element `i + 1`, and
  the last child has none.
- `InstallAll` and `Clicked` give, as pure functions, the page after
  installing and after one click. The lemmas state the properties of those
  two functions.
- The class `Page` holds the elements in an array that it updates in place.
  `Page.Install` is the install loop. `Page.Click` is the handler. Each
  method is proved to produce exactly what the matching function describes.

Some decisions about the source's edge cases:

- **No next sibling.** The handler dereferences `nextElementSibling`
  without checking it. It is null when the header is the last element child
  of its parent. The handler then throws, after line 6 has already toggled
  `active`. The model does not forbid this case:
  `Page.Click` reports it as `threw`, and the only change is that toggle.
- **No listener.** A click on a non-collapsible element, or on any element
  before installation, has no listener. It changes nothing.
- **`substr(1)` on empty text.** It gives the empty string, so an empty
  header text becomes the glyph alone.
- **Display is read from the style string.** The handler never tracks an
  `expanded` flag; it reads the display string. So content styled
  `"block"` before installation is collapsed by its first click
  (`PreStyledScenario`). Content with no inline style ends at `"none"`
  after two clicks, not back at `""` (`ClickTwiceFromUnset`). The model
  reproduces both behaviours as written.

## Model

| member | source | states |
|---|---|---|
| `Collapsible.InstallOne` | site/pkg.js:4 | a collapsible element's text gains `▸` and a space in front of its old text, with its other attributes unchanged; any other element is unchanged |
| `Collapsible.InstallAll` | site/pkg.js:2-4 | installation neither adds nor removes elements |
| `Collapsible.InstallAllAt` | site/pkg.js:2-4 | after installation each collapsible element's text is `"▸ "` followed by its previous text, with its other attributes unchanged; each non-collapsible element is unchanged |
| `Collapsible.InstallTwiceDoublesPrefix` | site/pkg.js:4 | installing twice would put two glyph prefixes in front of a header, so installation must run exactly once |
| `Collapsible.Page.Install` | site/pkg.js:2-4 | the in-place loop rewrites each collapsible element once, to `"▸ "` plus its old text, leaves the others alone, and ends in the page `InstallAll` describes; the page is then marked installed |
| `Collapsible.Clicked` | site/pkg.js:5-15 | a click neither adds nor removes elements |
| `Collapsible.ClickWithoutListener` | site/pkg.js:3-5 | a click on an element that is not collapsible has no listener and changes nothing |
| `Collapsible.ClickTogglesActive` | site/pkg.js:6 | a click flips the header's `active` flag, and a second click restores it |
| `Collapsible.Substr1` | site/pkg.js:9-12 | `substr(1)` is the text after its first character, so that character followed by the result is the text; it is empty for an empty text |
| `Collapsible.Reglyph` | site/pkg.js:9-12 | the new header text starts with the given glyph; a non-empty text keeps its length and everything after its first character, and an empty text becomes the glyph alone |
| `Collapsible.Throws` | site/pkg.js:6-8 | a click throws only on a collapsible header that is the last element child of its parent; the only change it has made is the toggled `active` flag, and every other element and attribute is unchanged |
| `Collapsible.ClickBranch` | site/pkg.js:8-13 | sibling display exactly `"block"`: it becomes `"none"` and the header starts with `▸`; any other display: it becomes `"block"` and the header starts with `▾` |
| `Collapsible.ClickKeepsTextTail` | site/pkg.js:9-12 | a click replaces only the first character of the header's text; the length and everything after it are kept, and an empty text becomes the glyph alone |
| `Collapsible.ClickFrame` | site/pkg.js:6-13 | a click writes only the header's `active` flag and text and its sibling's display; every other element and attribute is unchanged |
| `Collapsible.ConsistentGlyphMatchesDisplay` | site/pkg.js:8-13 | when a header agrees with its sibling, display `"block"` holds iff the text starts with `▾`, and display `"none"` iff it starts with `▸` |
| `Collapsible.ClickMakesConsistent` | site/pkg.js:8-14 | after a click on a header with a sibling, the sibling's display is `"block"` iff the header starts with `▾`, and `"none"` iff it starts with `▸` |
| `Collapsible.ClickKeepsOtherConsistent` | site/pkg.js:6-13 | a click on one header never breaks the agreement between another header and its sibling |
| `Collapsible.ClickTwiceRestores` | site/pkg.js:6-14 | from a header that agrees with its sibling, two clicks give back exactly the same page |
| `Collapsible.ClickedTwiceMoreRestores` | site/pkg.js:6-14 | once a header has been clicked, two more clicks restore its text, its `active` flag and its sibling's display |
| `Collapsible.ClickTwiceFromUnset` | site/pkg.js:8-13 | from an unset `""` display, two clicks end at `"none"`, not at the starting page |
| `Collapsible.ClicksCommute` | site/pkg.js:5-15 | clicks on two different headers give the same page in either order |
| `Collapsible.ClickAllKeepsTextShape` | site/pkg.js:9-12 | a header text made of a glyph, a space and a rest keeps that shape under any clicks, and is unchanged when the header is never clicked or has no next sibling |
| `Collapsible.InstalledTextAfterClicks` | site/pkg.js:4-12 | on an installed page, after any clicks, each collapsible header reads `▸` or `▾`, a space and its text from before installation; the glyph is `▸` while the header has never been clicked or has no next sibling |
| `Collapsible.ClickAll` | site/pkg.js:5-15 | a sequence of clicks neither adds nor removes elements |
| `Collapsible.ClickAllKeepsCollapsible` | site/pkg.js:5-15 | clicks never change which elements are collapsible |
| `Collapsible.ClickAllKeepsConsistent` | site/pkg.js:5-15 | once a header agrees with its sibling, it keeps agreeing whatever is clicked afterwards |
| `Collapsible.ConsistentAfterClicks` | site/pkg.js:5-15 | after any sequence of clicks, every header with a sibling that was clicked at least once has display `"block"` iff it starts with `▾`, and `"none"` iff it starts with `▸` |
| `Collapsible.DetailsScenario` | site/pkg.js:4-13 | `"Details"` with unset content reads `"▸ Details"` after install; after the first click it reads `"▾ Details"` with display `"block"`; after the second it reads `"▸ Details"` with display `"none"` |
| `Collapsible.PreStyledScenario` | site/pkg.js:4-10 | content styled `"block"` before install is collapsed by the first click: the header reads `"▸ Log"` and the display becomes `"none"` |
| `Collapsible.Page.Click` | site/pkg.js:5-15 | the in-place handler ends in the page `Clicked` describes once installed, and changes nothing before that; `threw` holds exactly when the collapsible header has no next sibling |

## Left out

- Event dispatch and `addEventListener` are not modelled. A click is a direct call with the index of the clicked element. Registering a listener is modelled by the `installed` flag together with the element's `collapsible` flag.
- The live `HTMLCollection` from `getElementsByClassName` is not modelled. It is treated as a filter on the `collapsible` flag. This is exact only because nesting is left out: assigning `textContent` also removes a header's child elements, so a collapsible nested inside another header would drop out of the live collection.
- The `TypeError` raised when there is no next sibling is a boolean result. The browser's reporting of the error is outside the model.
- The `active` class is a boolean. Other classes, CSS rendering and stylesheet styles are not modelled; only the inline `style.display` string is.
- Text is a sequence of characters. UTF-16 code units are not modelled. This is exact for this script, because both glyphs are single code units.
- Only the element children of one parent are modelled. Headers under different parents, nesting and non-element nodes are not. `Throws` stands for "the header is the last element child of its parent"; a header with further elements after it in the document, but none under the same parent, also throws, and the model cannot express that across parents.
- Collapsible.Page.Install: requires that the script has not already run. Running it a second time is excluded; beyond the doubled text shown by `InstallTwiceDoublesPrefix`, it would attach a second listener to every header, so one click would run the handler twice, and that is not modelled.
- The rest of PkgEval.jl, the Julia package-evaluation machinery, is not part of this model.
