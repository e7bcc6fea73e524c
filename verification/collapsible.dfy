/**
 The collapsible-section controller of the package report pages.

 The page is the sequence of element children of one parent element, in
 document order; the element that follows a header in that sequence is its
 next element sibling, which holds the content the header shows and hides,
 and the last child has no next element sibling. Installing the controller
 prefixes every collapsible header's text with a right-pointing triangle and
 registers a click listener on it; a click flips the header's `active` class,
 looks at the inline `display` style of the next sibling and either collapses
 it (display "block" becomes "none", glyph becomes a right-pointing triangle)
 or expands it (any other display becomes "block", glyph becomes a
 down-pointing triangle).
 */
module Collapsible {

  /** Glyph of a collapsed header. */
  const Collapsed: char := '▸'
  /** Glyph of an expanded header. */
  const Expanded: char := '▾'
  /** What installation puts in front of a header's text: the collapsed glyph and a space. */
  const InstallPrefix: string := [Collapsed, ' ']

  /** The inline display values the controller writes or tests for. */
  const Block: string := "block"
  const Hidden: string := "none"
  /** The inline display of an element whose style was never set. */
  const Unset: string := ""

  /**
   One element of the page: its text content, whether its class list holds
   `active`, its inline `style.display`, and whether its class list holds
   `collapsible`.
   */
  datatype Element = Element(text: string, active: bool, display: string, isCollapsible: bool)

  // ---------------------------------------------------------------------------
  // Installation
  // ---------------------------------------------------------------------------

  /**
   What the install loop does to one element: a collapsible element's text
   gains the collapsed glyph and a space in front; nothing else changes.
   */
  function InstallOne(e: Element): (r: Element)
    ensures r.active == e.active && r.display == e.display && r.isCollapsible == e.isCollapsible
    ensures e.isCollapsible ==>
      |r.text| == |e.text| + 2 && r.text[0] == Collapsed && r.text[1] == ' ' && r.text[2..] == e.text
    ensures !e.isCollapsible ==> r == e
  {
    if e.isCollapsible then e.(text := InstallPrefix + e.text) else e
  }

  /** The whole page after installation, element by element in document order. */
  function InstallAll(s: seq<Element>): (r: seq<Element>)
    ensures |r| == |s|
  {
    if s == [] then [] else [InstallOne(s[0])] + InstallAll(s[1..])
  }

  /**
   Installation rewrites each collapsible element exactly once, to the
   collapsed glyph and a space followed by its old text, and leaves every
   other attribute and every non-collapsible element as it was.
   */
  lemma {:induction false} InstallAllAt(s: seq<Element>, k: nat)
    requires k < |s|
    ensures s[k].isCollapsible ==>
      InstallAll(s)[k] == s[k].(text := [Collapsed, ' '] + s[k].text)
    ensures !s[k].isCollapsible ==> InstallAll(s)[k] == s[k]
  {
    if k > 0 {
      InstallAllAt(s[1..], k - 1);
    }
  }

  /**
   Installation is not idempotent: running it twice puts two glyph prefixes
   in front of every collapsible header, which is why it must run only once.
   */
  lemma InstallTwiceDoublesPrefix(s: seq<Element>, k: nat)
    requires k < |s| && s[k].isCollapsible
    ensures InstallAll(InstallAll(s))[k].text == [Collapsed, ' ', Collapsed, ' '] + s[k].text
  {
    InstallAllAt(s, k);
    InstallAllAt(InstallAll(s), k);
  }

  // ---------------------------------------------------------------------------
  // Click handler
  // ---------------------------------------------------------------------------

  /** JavaScript's `substr(1)`: the text after its first character, empty for empty text. */
  function Substr1(s: string): (r: string)
    ensures |s| > 0 ==> [s[0]] + r == s
    ensures |s| == 0 ==> r == []
  {
    if |s| == 0 then [] else s[1..]
  }

  /**
   The text with its first character replaced by glyph `g`; an empty text
   becomes the glyph alone.
   */
  function Reglyph(text: string, g: char): (r: string)
    ensures |r| > 0 && r[0] == g
    ensures |text| > 0 ==> |r| == |text| && r[1..] == text[1..]
    ensures |text| == 0 ==> r == [g]
  {
    [g] + Substr1(text)
  }

  /**
   True when a click on header `i` raises an error: the listener runs (the
   element is collapsible) but the header is the last element child of its
   parent, so there is no next sibling to dereference. The toggle of `active`
   has already happened by then, and it is the only change the click makes.
   */
  predicate Throws(s: seq<Element>, i: nat)
    ensures Throws(s, i) ==>
      i < |s| && i + 1 == |s| &&
      Clicked(s, i)[i].active == !s[i].active &&
      Clicked(s, i)[i].text == s[i].text &&
      Clicked(s, i)[i].display == s[i].display &&
      Clicked(s, i)[i].isCollapsible &&
      forall k :: 0 <= k < |s| && k != i ==> Clicked(s, i)[k] == s[k]
  {
    i < |s| && s[i].isCollapsible && i + 1 == |s|
  }

  /**
   The page after a click on element `i` of an installed page. Elements that
   are not collapsible have no listener, so the click changes nothing. When
   the header has no next sibling, the `active` toggle has already happened
   when the handler fails, so that is the only change.
   */
  function Clicked(s: seq<Element>, i: nat): (r: seq<Element>)
    requires i < |s|
    ensures |r| == |s|
  {
    if !s[i].isCollapsible then s
    else
      var h := s[i].(active := !s[i].active);
      if i + 1 == |s| then s[i := h]
      else if s[i + 1].display == Block then
        s[i := h.(text := Reglyph(h.text, Collapsed))][i + 1 := s[i + 1].(display := Hidden)]
      else
        s[i := h.(text := Reglyph(h.text, Expanded))][i + 1 := s[i + 1].(display := Block)]
  }

  /** A click on an element without a listener changes nothing. */
  lemma ClickWithoutListener(s: seq<Element>, i: nat)
    requires i < |s| && !s[i].isCollapsible
    ensures Clicked(s, i) == s
  {
  }

  /** A click flips the header's `active` flag; two clicks restore it. */
  lemma ClickTogglesActive(s: seq<Element>, i: nat)
    requires i < |s| && s[i].isCollapsible
    ensures Clicked(s, i)[i].active == !s[i].active
    ensures Clicked(Clicked(s, i), i)[i].active == s[i].active
  {
  }

  /**
   The branch a click takes is decided by the sibling's display string alone:
   exactly "block" collapses, anything else (unset, "none", or some other
   value) expands.
   */
  lemma ClickBranch(s: seq<Element>, i: nat)
    requires i + 1 < |s| && s[i].isCollapsible
    ensures s[i + 1].display == Block ==>
      Clicked(s, i)[i + 1].display == Hidden && Clicked(s, i)[i].text[0] == Collapsed
    ensures s[i + 1].display != Block ==>
      Clicked(s, i)[i + 1].display == Block && Clicked(s, i)[i].text[0] == Expanded
  {
  }

  /**
   A click replaces only the first character of the header's text: length and
   everything after the first character are kept (an empty text becomes the
   glyph alone).
   */
  lemma ClickKeepsTextTail(s: seq<Element>, i: nat)
    requires i + 1 < |s| && s[i].isCollapsible
    ensures |s[i].text| > 0 ==>
      |Clicked(s, i)[i].text| == |s[i].text| && Clicked(s, i)[i].text[1..] == s[i].text[1..]
    ensures |s[i].text| == 0 ==> |Clicked(s, i)[i].text| == 1
  {
  }

  /**
   A click writes only the header's `active` flag and text and its next
   sibling's display; every other element, and every other attribute of those
   two, is unchanged.
   */
  lemma ClickFrame(s: seq<Element>, i: nat)
    requires i < |s|
    ensures forall k :: 0 <= k < |s| && k != i && k != i + 1 ==> Clicked(s, i)[k] == s[k]
    ensures Clicked(s, i)[i].display == s[i].display
    ensures Clicked(s, i)[i].isCollapsible == s[i].isCollapsible
    ensures i + 1 < |s| ==>
      Clicked(s, i)[i + 1].text == s[i + 1].text &&
      Clicked(s, i)[i + 1].active == s[i + 1].active &&
      Clicked(s, i)[i + 1].isCollapsible == s[i + 1].isCollapsible
  {
  }

  /**
   Header `i` and its sibling agree: the header's text starts with the
   expanded glyph and the sibling is displayed as "block", or it starts with
   the collapsed glyph and the sibling's display is "none".
   */
  predicate Consistent(s: seq<Element>, i: nat)
  {
    i + 1 < |s| && |s[i].text| > 0 &&
    ((s[i + 1].display == Block && s[i].text[0] == Expanded) ||
     (s[i + 1].display == Hidden && s[i].text[0] == Collapsed))
  }

  /** In a consistent pair, the display decides the glyph and the glyph the display. */
  lemma ConsistentGlyphMatchesDisplay(s: seq<Element>, i: nat)
    requires Consistent(s, i)
    ensures s[i + 1].display == Block <==> s[i].text[0] == Expanded
    ensures s[i + 1].display == Hidden <==> s[i].text[0] == Collapsed
  {
    assert Block != Hidden;
  }

  /** After a click on a header with a sibling, glyph and display agree. */
  lemma {:induction false} ClickMakesConsistent(s: seq<Element>, i: nat)
    requires i + 1 < |s| && s[i].isCollapsible
    ensures Consistent(Clicked(s, i), i)
    ensures Clicked(s, i)[i + 1].display == Block <==> Clicked(s, i)[i].text[0] == Expanded
    ensures Clicked(s, i)[i + 1].display == Hidden <==> Clicked(s, i)[i].text[0] == Collapsed
  {
    ClickBranch(s, i);
    ConsistentGlyphMatchesDisplay(Clicked(s, i), i);
  }

  /** A click on one header never disturbs the agreement of another header with its sibling. */
  lemma ClickKeepsOtherConsistent(s: seq<Element>, i: nat, j: nat)
    requires i < |s| && i != j && Consistent(s, j)
    ensures Consistent(Clicked(s, i), j)
  {
    ClickFrame(s, i);
  }

  /**
   On a consistent pair, two clicks give back the page exactly: text,
   `active` flag and the sibling's display.
   */
  lemma ClickTwiceRestores(s: seq<Element>, i: nat)
    requires Consistent(s, i) && s[i].isCollapsible
    ensures Clicked(Clicked(s, i), i) == s
  {
    var r := Clicked(Clicked(s, i), i);
    assert r[i].text == [s[i].text[0]] + s[i].text[1..];
    assert r[i] == s[i];
    assert r[i + 1] == s[i + 1];
    assert forall k :: 0 <= k < |s| ==> r[k] == s[k];
  }

  /** Once a header has been clicked, two further clicks restore the page. */
  lemma ClickedTwiceMoreRestores(s: seq<Element>, i: nat)
    requires i + 1 < |s| && s[i].isCollapsible
    ensures var t := Clicked(s, i); Clicked(Clicked(t, i), i) == t
  {
    ClickMakesConsistent(s, i);
    ClickTwiceRestores(Clicked(s, i), i);
  }

  /**
   From a sibling whose display was never set, two clicks do not return to
   the starting page: the display ends at "none", not at the unset value.
   */
  lemma ClickTwiceFromUnset(s: seq<Element>, i: nat)
    requires i + 1 < |s| && s[i].isCollapsible && s[i + 1].display == Unset
    ensures Clicked(Clicked(s, i), i)[i + 1].display == Hidden
    ensures Clicked(Clicked(s, i), i) != s
  {
    assert Clicked(Clicked(s, i), i)[i + 1].display != s[i + 1].display;
  }

  /**
   Clicks on two different headers commute: neither handler reads or writes
   anything the other writes.
   */
  lemma ClicksCommute(s: seq<Element>, a: nat, b: nat)
    requires a < |s| && b < |s| && a != b
    ensures Clicked(Clicked(s, a), b) == Clicked(Clicked(s, b), a)
  {
    var sa, sb := Clicked(s, a), Clicked(s, b);
    var ab, ba := Clicked(sa, b), Clicked(sb, a);
    forall k | 0 <= k < |s|
      ensures ab[k] == ba[k]
    {
      if k == a || k == a + 1 || k == b || k == b + 1 {
        ClickFrame(s, a);
        ClickFrame(s, b);
        ClickFrame(sa, b);
        ClickFrame(sb, a);
      } else {
        calc {
          ab[k];
          == { ClickFrame(sa, b); }
          sa[k];
          == { ClickFrame(s, a); }
          s[k];
          == { ClickFrame(s, b); }
          sb[k];
          == { ClickFrame(sb, a); }
          ba[k];
        }
      }
    }
  }

  // ---------------------------------------------------------------------------
  // Sequences of clicks
  // ---------------------------------------------------------------------------

  /** Every index of `clicks` names an element of the page. */
  predicate OnPage(s: seq<Element>, clicks: seq<nat>)
  {
    forall k :: 0 <= k < |clicks| ==> clicks[k] < |s|
  }

  /** The page after the clicks `clicks`, in order. */
  function ClickAll(s: seq<Element>, clicks: seq<nat>): (r: seq<Element>)
    requires OnPage(s, clicks)
    ensures |r| == |s|
    decreases |clicks|
  {
    if clicks == [] then s else ClickAll(Clicked(s, clicks[0]), clicks[1..])
  }

  /** Clicks never change which elements are collapsible. */
  lemma {:induction false} ClickAllKeepsCollapsible(s: seq<Element>, clicks: seq<nat>, j: nat)
    requires OnPage(s, clicks) && j < |s|
    ensures ClickAll(s, clicks)[j].isCollapsible == s[j].isCollapsible
    decreases |clicks|
  {
    if clicks != [] {
      ClickFrame(s, clicks[0]);
      ClickAllKeepsCollapsible(Clicked(s, clicks[0]), clicks[1..], j);
    }
  }

  /** A header whose glyph agrees with its sibling keeps agreeing, whatever is clicked. */
  lemma {:induction false} ClickAllKeepsConsistent(s: seq<Element>, clicks: seq<nat>, j: nat)
    requires OnPage(s, clicks) && Consistent(s, j) && s[j].isCollapsible
    ensures Consistent(ClickAll(s, clicks), j)
    decreases |clicks|
  {
    if clicks != [] {
      var t := Clicked(s, clicks[0]);
      if clicks[0] == j {
        ClickMakesConsistent(s, j);
      } else {
        ClickKeepsOtherConsistent(s, clicks[0], j);
      }
      ClickFrame(s, clicks[0]);
      ClickAllKeepsConsistent(t, clicks[1..], j);
    }
  }

  /**
   Glyph and display agree for every header that has been clicked at least
   once and has a sibling, after any sequence of clicks on any headers.
   */
  lemma {:induction false} ConsistentAfterClicks(s: seq<Element>, clicks: seq<nat>, j: nat)
    requires OnPage(s, clicks) && j in clicks && j + 1 < |s| && s[j].isCollapsible
    ensures Consistent(ClickAll(s, clicks), j)
    ensures ClickAll(s, clicks)[j + 1].display == Block <==> ClickAll(s, clicks)[j].text[0] == Expanded
    ensures ClickAll(s, clicks)[j + 1].display == Hidden <==> ClickAll(s, clicks)[j].text[0] == Collapsed
    decreases |clicks|
  {
    var t := Clicked(s, clicks[0]);
    if clicks[0] == j {
      ClickMakesConsistent(s, j);
      ClickFrame(s, j);
      ClickAllKeepsConsistent(t, clicks[1..], j);
    } else {
      assert j in clicks[1..];
      ClickFrame(s, clicks[0]);
      ConsistentAfterClicks(t, clicks[1..], j);
    }
    ConsistentGlyphMatchesDisplay(ClickAll(s, clicks), j);
  }

  /**
   A header text made of a glyph, a space and `rest` keeps that shape under
   any clicks; it is left exactly as it was when the header is never clicked
   or has no next sibling.
   */
  lemma {:induction false} ClickAllKeepsTextShape(s: seq<Element>, clicks: seq<nat>, k: nat, rest: string)
    requires OnPage(s, clicks) && k < |s|
    requires s[k].text == [Collapsed, ' '] + rest || s[k].text == [Expanded, ' '] + rest
    ensures ClickAll(s, clicks)[k].text == [Collapsed, ' '] + rest ||
            ClickAll(s, clicks)[k].text == [Expanded, ' '] + rest
    ensures k !in clicks || k + 1 == |s| ==> ClickAll(s, clicks)[k].text == s[k].text
    decreases |clicks|
  {
    if clicks != [] {
      var t := Clicked(s, clicks[0]);
      ClickFrame(s, clicks[0]);
      if clicks[0] == k && s[k].isCollapsible && k + 1 < |s| {
        var g := t[k].text[0];
        ClickKeepsTextTail(s, k);
        ClickBranch(s, k);
        assert t[k].text == [g] + t[k].text[1..];
        assert t[k].text == [g, ' '] + rest;
      }
      assert k !in clicks ==> k !in clicks[1..];
      ClickAllKeepsTextShape(t, clicks[1..], k, rest);
    }
  }

  /**
   On an installed page, whatever has been clicked, every collapsible header
   reads one glyph and a space followed by its text from before installation;
   the glyph is the collapsed one while the header has never been clicked or
   has no next sibling.
   */
  lemma {:induction false} InstalledTextAfterClicks(s: seq<Element>, clicks: seq<nat>, k: nat)
    requires OnPage(s, clicks) && k < |s| && s[k].isCollapsible
    ensures OnPage(InstallAll(s), clicks)
    ensures ClickAll(InstallAll(s), clicks)[k].text == [Collapsed, ' '] + s[k].text ||
            ClickAll(InstallAll(s), clicks)[k].text == [Expanded, ' '] + s[k].text
    ensures k !in clicks || k + 1 == |s| ==>
      ClickAll(InstallAll(s), clicks)[k].text == [Collapsed, ' '] + s[k].text
  {
    InstallAllAt(s, k);
    ClickAllKeepsTextShape(InstallAll(s), clicks, k, s[k].text);
  }

  // ---------------------------------------------------------------------------
  // Worked scenarios
  // ---------------------------------------------------------------------------

  /**
   A header "Details" followed by content with no inline style: installed it
   reads "▸ Details"; the first click shows "▾ Details" and display "block";
   the second shows "▸ Details" and display "none".
   */
  lemma DetailsScenario()
    ensures var s := [Element("Details", false, Unset, true), Element("text", false, Unset, false)];
      var p := InstallAll(s);
      var c1 := Clicked(p, 0);
      var c2 := Clicked(c1, 0);
      p[0].text == "▸ Details" &&
      c1[0].text == "▾ Details" && c1[1].display == "block" &&
      c2[0].text == "▸ Details" && c2[1].display == "none"
  {
    var s := [Element("Details", false, Unset, true), Element("text", false, Unset, false)];
    InstallAllAt(s, 0);
    InstallAllAt(s, 1);
  }

  /**
   Content styled "block" before installation is collapsed by the first click
   although no click has expanded it.
   */
  lemma PreStyledScenario()
    ensures var s := [Element("Log", false, Block, true), Element("text", false, Block, false)];
      var c1 := Clicked(InstallAll(s), 0);
      c1[0].text == "▸ Log" && c1[1].display == "none"
  {
    var s := [Element("Log", false, Block, true), Element("text", false, Block, false)];
    InstallAllAt(s, 0);
    InstallAllAt(s, 1);
  }

  // ---------------------------------------------------------------------------
  // The page as the script sees it: elements updated in place
  // ---------------------------------------------------------------------------

  class Page {
    /** The page's elements in document order; the sibling of element i is element i + 1. */
    const elems: array<Element>
    /** Whether the controller has run: the listeners exist only after it has. */
    var installed: bool

    constructor (init: seq<Element>)
      ensures elems[..] == init && !installed && fresh(elems)
    {
      elems := new Element[|init|](k requires 0 <= k < |init| => init[k]);
      installed := false;
    }

    /**
     The install loop: every collapsible element, visited once in document
     order, gets the collapsed glyph and a space in front of its text.
     */
    method Install()
      requires !installed
      modifies this, elems
      ensures installed
      ensures forall k :: 0 <= k < elems.Length ==>
        elems[k] == if old(elems[k]).isCollapsible
                    then old(elems[k]).(text := InstallPrefix + old(elems[k]).text)
                    else old(elems[k])
      ensures elems[..] == InstallAll(old(elems[..]))
    {
      for k := 0 to elems.Length
        invariant forall j :: 0 <= j < k ==> elems[j] == InstallOne(old(elems[j]))
        invariant forall j :: k <= j < elems.Length ==> elems[j] == old(elems[j])
      {
        if elems[k].isCollapsible {
          elems[k] := elems[k].(text := InstallPrefix + elems[k].text);
        }
      }
      installed := true;
      forall k | 0 <= k < elems.Length
        ensures elems[..][k] == InstallAll(old(elems[..]))[k]
      {
        InstallAllAt(old(elems[..]), k);
      }
    }

    /**
     A click on element `i`. Before installation, and on an element that is
     not collapsible, there is no listener and nothing happens. Otherwise the
     handler toggles `active` and then reads the next sibling; `threw` reports
     that there was none, in which case the handler stops with only the toggle
     done.
     */
    method Click(i: nat) returns (threw: bool)
      requires i < elems.Length
      modifies elems
      ensures threw == (installed && Throws(old(elems[..]), i))
      ensures elems[..] == if installed then Clicked(old(elems[..]), i) else old(elems[..])
    {
      if !installed || !elems[i].isCollapsible {
        return false;
      }
      var header := elems[i];
      header := header.(active := !header.active);
      elems[i] := header;
      if i + 1 == elems.Length {
        return true;
      }
      var content := elems[i + 1];
      if content.display == Block {
        elems[i] := header.(text := Reglyph(header.text, Collapsed));
        elems[i + 1] := content.(display := Hidden);
      } else {
        elems[i] := header.(text := Reglyph(header.text, Expanded));
        elems[i + 1] := content.(display := Block);
      }
      threw := false;
    }
  }

  /** The "Details" scenario on a page object, through its methods. */
  method DetailsOnPage()
  {
    var page := new Page([Element("Details", false, Unset, true), Element("text", false, Unset, false)]);
    page.Install();
    assert page.elems[0].text == "▸ Details";
    var threw := page.Click(0);
    assert !threw && page.elems[0].text == "▾ Details" && page.elems[1].display == "block";
    threw := page.Click(0);
    assert page.elems[0].text == "▸ Details" && page.elems[1].display == "none";
  }
}
