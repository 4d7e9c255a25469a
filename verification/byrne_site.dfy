/**
 * The marketing page's script: the phone-number formatter, the scroll-driven
 * active nav link, the mobile menu's open flag, the navbar shadow threshold
 * and the anchor scroll target.
 *
 * Offsets and heights are whole pixels; the DOM lookups the handlers make are
 * parameters (the sections in document order, the links' hrefs, the anchor
 * targets' offsets).
 */
module ByrneSite {
  import opened Optional

  function Min(a: int, b: int): int
  {
    if a <= b then a else b
  }

  /** `\d` in a JavaScript regular expression: an ASCII decimal digit. */
  predicate IsDigit(ch: char)
  {
    '0' <= ch <= '9'
  }

  predicate AllDigits(s: string)
  {
    forall i :: 0 <= i < |s| ==> IsDigit(s[i])
  }

  /** `value.replace(/\D/g, '')`: the decimal digits of `s`, in order. */
  function Digits(s: string): (d: string)
    ensures |d| <= |s|
    ensures AllDigits(d)
  {
    if |s| == 0 then ""
    else (if IsDigit(s[0]) then [s[0]] else "") + Digits(s[1..])
  }

  /** The digits laid out as `(ddd) ddd-dddd`, as far as they go; digits past the tenth are dropped. */
  function Layout(d: string): (out: string)
    ensures |out| <= 14
  {
    if |d| == 0 then ""
    else if |d| <= 3 then "(" + d
    else if |d| <= 6 then "(" + d[..3] + ") " + d[3..]
    else "(" + d[..3] + ") " + d[3..6] + "-" + d[6..Min(|d|, 10)]
  }

  /** The `input` handler on the phone field. */
  function FormatPhone(input: string): (out: string)
    ensures |out| <= 14
  {
    Layout(Digits(input))
  }

  lemma {:induction false} DigitsAppend(a: string, b: string)
    ensures Digits(a + b) == Digits(a) + Digits(b)
    decreases |a|
  {
    if |a| > 0 {
      assert (a + b)[1..] == a[1..] + b;
      DigitsAppend(a[1..], b);
    } else {
      assert a + b == b;
    }
  }

  lemma {:induction false} DigitsOfDigits(s: string)
    requires AllDigits(s)
    ensures Digits(s) == s
    decreases |s|
  {
    if |s| > 0 {
      DigitsOfDigits(s[1..]);
    }
  }

  lemma {:induction false} DigitsOfNonDigits(s: string)
    requires forall i :: 0 <= i < |s| ==> !IsDigit(s[i])
    ensures Digits(s) == ""
    decreases |s|
  {
    if |s| > 0 {
      DigitsOfNonDigits(s[1..]);
    }
  }

  /** Appending punctuation, or digits, to a text whose digits are known. */
  lemma AppendPunct(x: string, p: string)
    requires forall i :: 0 <= i < |p| ==> !IsDigit(p[i])
    ensures Digits(x + p) == Digits(x)
  {
    DigitsAppend(x, p);
    DigitsOfNonDigits(p);
  }

  lemma AppendDigits(x: string, d: string)
    requires AllDigits(d)
    ensures Digits(x + d) == Digits(x) + d
  {
    DigitsAppend(x, d);
    DigitsOfDigits(d);
  }

  lemma LayoutDigitsMid(d: string)
    requires AllDigits(d) && 4 <= |d| <= 6
    ensures Digits(Layout(d)) == d
  {
    var a := "(" + d[..3];
    assert Digits("(") == "";
    AppendDigits("(", d[..3]);
    AppendPunct(a, ") ");
    AppendDigits(a + ") ", d[3..]);
    assert d[..3] + d[3..] == d;
  }

  lemma LayoutDigitsLong(d: string)
    requires AllDigits(d) && 7 <= |d|
    ensures Digits(Layout(d)) == d[..Min(|d|, 10)]
  {
    var tail := d[6..Min(|d|, 10)];
    var a := "(" + d[..3];
    var b := a + ") ";
    var c := b + d[3..6];
    var e := c + "-";
    assert Digits("(") == "";
    AppendDigits("(", d[..3]);
    AppendPunct(a, ") ");
    AppendDigits(b, d[3..6]);
    AppendPunct(c, "-");
    AppendDigits(e, tail);
    assert Layout(d) == e + tail;
    assert d[..3] + d[3..6] + tail == d[..Min(|d|, 10)];
  }

  /** The formatter keeps exactly the input's digits, in order, and no more than ten of them. */
  lemma FormatKeepsDigits(input: string)
    ensures var d := Digits(input); Digits(FormatPhone(input)) == d[..Min(|d|, 10)]
  {
    var d := Digits(input);
    if |d| == 0 {
    } else if |d| <= 3 {
      assert Digits("(") == "";
      AppendDigits("(", d);
      assert d[..Min(|d|, 10)] == d;
    } else if |d| <= 6 {
      LayoutDigitsMid(d);
      assert d[..Min(|d|, 10)] == d;
    } else {
      LayoutDigitsLong(d);
    }
  }

  /**
   * The length of the formatted number by digit count: none gives the empty
   * string, 1-3 add `(`, 4-6 add `(`, `)` and a space, 7 or more add a `-`
   * too and keep ten digits at most.
   */
  lemma FormatLength(input: string)
    ensures var n := |Digits(input)|; var out := FormatPhone(input);
      (n == 0 ==> out == "") &&
      (1 <= n <= 3 ==> |out| == n + 1) &&
      (4 <= n <= 6 ==> |out| == n + 3) &&
      (7 <= n ==> |out| == Min(n, 10) + 4) &&
      (n > 0 ==> out[0] == '(') &&
      (4 <= n ==> out[4..6] == ") ") &&
      (7 <= n ==> out[9] == '-')
  {
  }

  /** Formatting the formatted text changes nothing, so repeated `input` events are stable. */
  lemma FormatIdempotent(input: string)
    ensures FormatPhone(FormatPhone(input)) == FormatPhone(input)
  {
    var d := Digits(input);
    var out := FormatPhone(input);
    FormatKeepsDigits(input);
    var d2 := Digits(out);
    assert d2 == d[..Min(|d|, 10)];
    if 7 <= |d| {
      assert d2[..3] == d[..3] && d2[3..6] == d[3..6];
      assert d2[6..Min(|d2|, 10)] == d[6..Min(|d|, 10)];
    } else if 4 <= |d| {
      assert d2 == d;
    } else {
      assert d2 == d;
    }
  }

  /** A `section[id]` element: its id, `offsetTop` and `offsetHeight`. */
  datatype Section = Section(id: string, offsetTop: int, offsetHeight: int)

  /** The scroll position falls in the section, its top moved up by 100 pixels. */
  predicate InView(s: Section, scrollY: int)
  {
    s.offsetTop - 100 <= scrollY < s.offsetTop - 100 + s.offsetHeight
  }

  /** The id of the last section in document order that is in view, or `''`. */
  function LastInView(sections: seq<Section>, scrollY: int): string
  {
    if |sections| == 0 then ""
    else if InView(sections[|sections| - 1], scrollY) then sections[|sections| - 1].id
    else LastInView(sections[..|sections| - 1], scrollY)
  }

  /** The loop of the scroll handler that sets `current`. */
  method ActiveSection(sections: seq<Section>, scrollY: int) returns (current: string)
    ensures current == LastInView(sections, scrollY)
  {
    current := "";
    var i := 0;
    while i < |sections|
      invariant 0 <= i <= |sections|
      invariant current == LastInView(sections[..i], scrollY)
    {
      assert sections[..i + 1][..i] == sections[..i];
      if InView(sections[i], scrollY) {
        current := sections[i].id;
      }
      i := i + 1;
    }
    assert sections[..|sections|] == sections;
  }

  /** The active section is the last one in view: no section after it is. */
  lemma {:induction false} LastInViewIsLast(sections: seq<Section>, scrollY: int, k: nat)
    requires k < |sections| && InView(sections[k], scrollY)
    requires forall j :: k < j < |sections| ==> !InView(sections[j], scrollY)
    ensures LastInView(sections, scrollY) == sections[k].id
    decreases |sections|
  {
    if k < |sections| - 1 {
      var front := sections[..|sections| - 1];
      assert front[k] == sections[k];
      forall j | k < j < |front| ensures !InView(front[j], scrollY) {
        assert front[j] == sections[j];
      }
      LastInViewIsLast(front, scrollY, k);
    }
  }

  /** With no section in view the active id is `''`. */
  lemma {:induction false} LastInViewNone(sections: seq<Section>, scrollY: int)
    requires forall j :: 0 <= j < |sections| ==> !InView(sections[j], scrollY)
    ensures LastInView(sections, scrollY) == ""
    decreases |sections|
  {
    if |sections| > 0 {
      var front := sections[..|sections| - 1];
      forall j | 0 <= j < |front| ensures !InView(front[j], scrollY) {
        assert front[j] == sections[j];
      }
      LastInViewNone(front, scrollY);
    }
  }

  /** The style of a `.nav-link`: reset, or the active colour and weight. */
  datatype LinkStyle = Plain | Highlighted

  /** The loop of the scroll handler over the links: reset each, then highlight it when its href is `#current`. */
  method HighlightLinks(hrefs: seq<Option<string>>, styles: array<LinkStyle>, current: string)
    requires styles.Length == |hrefs|
    modifies styles
    ensures forall i :: 0 <= i < styles.Length ==> (styles[i] == Highlighted <==> hrefs[i] == Some("#" + current))
  {
    var i := 0;
    while i < styles.Length
      invariant 0 <= i <= styles.Length
      invariant forall j :: 0 <= j < i ==> (styles[j] == Highlighted <==> hrefs[j] == Some("#" + current))
    {
      styles[i] := Plain;
      if hrefs[i] == Some("#" + current) {
        styles[i] := Highlighted;
      }
      i := i + 1;
    }
  }

  /** The whole scroll handler: a link is highlighted exactly when its href names the active section. */
  method OnScroll(sections: seq<Section>, hrefs: seq<Option<string>>, styles: array<LinkStyle>, scrollY: int)
    requires styles.Length == |hrefs|
    modifies styles
    ensures forall i :: 0 <= i < styles.Length ==>
      (styles[i] == Highlighted <==> hrefs[i] == Some("#" + LastInView(sections, scrollY)))
  {
    var current := ActiveSection(sections, scrollY);
    HighlightLinks(hrefs, styles, current);
  }

  /** Where a click lands, as the menu's listeners see it. */
  datatype ClickTarget = OnToggle | OnNavLink | InMenu | Outside

  /** The `active` class of the navigation menu. */
  class MobileMenu {
    var active: bool

    constructor ()
      ensures !active
    {
      active := false;
    }

    /** The toggle's listener: `classList.toggle('active')`. */
    method ToggleClicked()
      modifies this
      ensures active == !old(active)
    {
      active := !active;
    }

    /** A nav link's listener: `classList.remove('active')`. */
    method LinkClicked()
      modifies this
      ensures !active
    {
      active := false;
    }

    /** The document's listener: close unless the click is inside the menu or the toggle. */
    method DocumentClicked(target: ClickTarget)
      modifies this
      ensures target == Outside ==> !active
      ensures target != Outside ==> active == old(active)
    {
      if target == Outside {
        active := false;
      }
    }

    /** One click: the target's own listener, then the document's as the event bubbles up. */
    method Click(target: ClickTarget)
      modifies this
      ensures target == OnToggle ==> active == !old(active)
      ensures target == OnNavLink || target == Outside ==> !active
      ensures target == InMenu ==> active == old(active)
    {
      if target == OnToggle {
        ToggleClicked();
      } else if target == OnNavLink {
        LinkClicked();
      }
      DocumentClicked(target);
    }
  }

  /** The navbar's box shadow. */
  datatype Shadow = SmallShadow | LargeShadow

  /** The scroll handler's shadow: the large one once the page is scrolled more than 50 pixels. */
  function NavbarShadow(scrollY: int): (s: Shadow)
    ensures s == LargeShadow <==> scrollY > 50
  {
    if scrollY > 50 then LargeShadow else SmallShadow
  }

  /** What a click on an `a[href^="#"]` does. */
  datatype AnchorAction = FollowLink | NoTarget | ScrollTo(top: int)

  /**
   * A bare `#` is left to the browser; any other href is handled here, and
   * scrolls so that the target's top sits just below the fixed navbar.
   * `targets` gives the `offsetTop` of what `document.querySelector(href)` finds.
   */
  function AnchorClick(href: string, targets: map<string, int>, navbarHeight: int): (a: AnchorAction)
    ensures a == FollowLink <==> href == "#"
    ensures a.ScrollTo? <==> href != "#" && href in targets
    ensures a.ScrollTo? ==> a.top + navbarHeight == targets[href]
  {
    if href == "#" then FollowLink
    else if href in targets then ScrollTo(targets[href] - navbarHeight)
    else NoTarget
  }

  /**
   * After a smooth scroll to a section's anchor, with a navbar of at most 100
   * pixels and a section taller than the gap left above it, that section is in view.
   */
  lemma AnchorTargetInView(s: Section, targets: map<string, int>, navbarHeight: int)
    requires "#" + s.id != "#" && "#" + s.id in targets && targets["#" + s.id] == s.offsetTop
    requires 0 <= navbarHeight <= 100 && s.offsetHeight > 100 - navbarHeight
    ensures var a := AnchorClick("#" + s.id, targets, navbarHeight); a.ScrollTo? && InView(s, a.top)
  {
  }
}
