/** The site-wide behaviour of js/main.js: the date helpers the booking
    page shares, the highlighting of the current page in the navigation,
    the throttle helper, the hamburger menu and the sticky header. */
module Navigation {
  import opened Wrappers
  import opened Text
  import opened Dates

  // ---------------------------------------------------------------------
  // Dates

  /** `formatDate` on a date whose calendar fields are `year`,
      `monthIndex` (what `getMonth` returns, January being 0) and `day`:
      the year as `String` writes it, then the month number and the day,
      each padded with '0' to two characters, joined by '-'. */
  function FormatDate(year: int, monthIndex: int, day: int): (r: string)
    requires 0 <= monthIndex < 12 && 1 <= day <= 31
  {
    IntToString(year) + "-" + PadStart(NatToString(monthIndex + 1), 2, '0')
    + "-" + PadStart(NatToString(day), 2, '0')
  }

  /** A number below 100 takes exactly two characters once padded. */
  lemma {:induction false} PaddedTwoDigits(n: nat)
    requires n < 100
    ensures |PadStart(NatToString(n), 2, '0')| == 2
  {
    if n >= 10 {
      NatToStringLength(n, 2);
    }
  }

  /** How `new Date` reads a text put together from a four-digit year and
      a two-digit month and day. */
  lemma {:induction false} ParseJoinedDate(ys: string, ms: string, ds: string)
    requires |ys| == 4 && |ms| == 2 && |ds| == 2
    requires AllDigitsIn(ys, 10) && AllDigitsIn(ms, 10) && AllDigitsIn(ds, 10)
    ensures var s := ys + "-" + ms + "-" + ds;
            var y := ValueIn(ys, 10);
            var m := ValueIn(ms, 10);
            var d := ValueIn(ds, 10);
            |s| == 10 && s[4] == '-' && s[7] == '-'
            && ParseIsoDate(s) == if ValidDate(y, m, d) then Some(DayNumber(y, m, d)) else None
  {
    var s := ys + "-" + ms + "-" + ds;
    assert s[..4] == ys && s[5..7] == ms && s[8..] == ds;
  }

  /** For a four-digit year the text is a date-only ISO string ("full-date"
      of section 5.6 of RFC 3339), and `new Date` reads it back as the same
      day. */
  lemma {:induction false} FormatDateRoundTrip(y: int, m: int, d: int)
    requires 1000 <= y <= 9999 && ValidDate(y, m, d)
    ensures var s := FormatDate(y, m - 1, d);
            |s| == 10 && s[4] == '-' && s[7] == '-'
            && ParseIsoDate(s) == Some(DayNumber(y, m, d))
  {
    var ys := NatToString(y);
    var ms := PadStart(NatToString(m), 2, '0');
    var ds := PadStart(NatToString(d), 2, '0');
    assert Pow10(4) == 10000;
    NatToStringLength(y, 4);
    NatToStringValue(y);
    PaddedTwoDigits(m);
    PaddedTwoDigits(d);
    NatToStringValue(m);
    NatToStringValue(d);
    PadStartValue(NatToString(m), 2);
    PadStartValue(NatToString(d), 2);
    assert FormatDate(y, m - 1, d) == ys + "-" + ms + "-" + ds;
    ParseJoinedDate(ys, ms, ds);
  }

  /** Two digits naming a number from 1 on are what padding that number's
      digits to two characters gives back. */
  lemma {:induction false} PaddedTwoDigitsOf(ds: string)
    requires |ds| == 2 && AllDigitsIn(ds, 10) && ValueIn(ds, 10) >= 1
    ensures PadStart(NatToString(ValueIn(ds, 10)), 2, '0') == ds
  {
    if ds[0] == '0' {
      var last := [ds[1]];
      assert ds[..1] == ['0'] && ['0'][..0] == [] && last[..0] == [];
      assert ValueIn(ds, 10) == ValueIn(last, 10);
      NatToStringOfDigits(last);
      var r := PadStart(last, 2, '0');
      assert r[1..] == last && r[0] == '0';
    } else {
      NatToStringOfDigits(ds);
    }
  }

  /** A ten-character text with '-' at positions 4 and 7 is its three
      fields joined by '-'. */
  lemma {:induction false} SplitAtDashes(s: string)
    requires |s| == 10 && s[4] == '-' && s[7] == '-'
    ensures s == s[..4] + "-" + s[5..7] + "-" + s[8..]
  {
    var t := s[..4] + "-" + s[5..7] + "-" + s[8..];
    forall i | 0 <= i < 10 ensures t[i] == s[i] {
      if i < 4 {
        assert t[i] == s[..4][i];
      } else if 4 < i < 7 {
        assert t[i] == s[5..7][i - 5];
      } else if 7 < i {
        assert t[i] == s[8..][i - 8];
      }
    }
  }

  /** Conversely, every text `new Date` reads as a date, whose year does
      not start with '0', is one that `formatDate` writes, for the very day
      it is read as. */
  lemma {:induction false} ParsedDateIsFormatted(s: string)
    requires ParseIsoDate(s).Some? && s[0] != '0'
    ensures exists y, m, d | 1000 <= y <= 9999 && ValidDate(y, m, d) ::
              s == FormatDate(y, m - 1, d) && ParseIsoDate(s) == Some(DayNumber(y, m, d))
  {
    var ys, ms, ds := s[..4], s[5..7], s[8..];
    var y, m, d := ValueIn(ys, 10), ValueIn(ms, 10), ValueIn(ds, 10);
    assert ValidDate(y, m, d) && ParseIsoDate(s) == Some(DayNumber(y, m, d));
    assert IntToString(y) == ys && 1000 <= y <= 9999 by {
      assert ys[0] == s[0];
      NatToStringOfDigits(ys);
      assert Pow10(4) == 10000;
    }
    assert PadStart(NatToString(m), 2, '0') == ms by {
      PaddedTwoDigitsOf(ms);
    }
    assert PadStart(NatToString(d), 2, '0') == ds by {
      PaddedTwoDigitsOf(ds);
    }
    assert s == ys + "-" + ms + "-" + ds by {
      SplitAtDashes(s);
    }
    assert s == FormatDate(y, m - 1, d);
  }

  /** `isPastDate` of a formatted four-digit-year date holds exactly when
      the day lies before today; today itself is not in the past. */
  lemma {:induction false} FormattedDateIsPast(y: int, m: int, d: int, today: int)
    requires 1000 <= y <= 9999 && ValidDate(y, m, d)
    ensures IsPastDate(FormatDate(y, m - 1, d), today) <==> DayNumber(y, m, d) < today
    ensures !IsPastDate(FormatDate(y, m - 1, d), DayNumber(y, m, d))
  {
    FormatDateRoundTrip(y, m, d);
  }

  // ---------------------------------------------------------------------
  // Current page

  /** What `split('/').pop()` gives: the text after the last '/', or the
      whole path when it has none. */
  function LastSegment(path: string): (r: string)
    ensures |r| <= |path| && r == path[|path| - |r|..]
    ensures '/' !in r
    ensures |r| < |path| ==> path[|path| - |r| - 1] == '/'
  {
    if path == [] || path[|path| - 1] == '/' then []
    else LastSegment(path[..|path| - 1]) + [path[|path| - 1]]
  }

  /** The page `setActiveNavLink` considers current: the last path segment,
      or "index.html" when that is empty. */
  function CurrentPage(path: string): (r: string)
    ensures r != []
    ensures r == "index.html" || r == LastSegment(path)
    ensures '/' !in r || r == "index.html"
    ensures LastSegment(path) != [] ==> r == LastSegment(path)
    ensures LastSegment(path) == [] ==> r == "index.html"
  {
    var segment := LastSegment(path);
    if segment == [] then "index.html" else segment
  }

  /** The condition under which a navigation link with the given `href`
      attribute is marked active on `page`, with all four of its
      alternatives. */
  predicate LinkIsActive(href: Option<string>, page: string) {
    href == Some(page)
    || (page == "" && href == Some("index.html"))
    || (page == "index.html" && href == Some("./"))
    || href == Some("./")
  }

  /** On the page the script computes, the condition reduces to two cases:
      the link names the current page, or it is "./" (which is marked on
      every page). The alternative for an empty page can never apply. */
  lemma {:induction false} LinkIsActiveOnCurrentPage(href: Option<string>, path: string)
    ensures LinkIsActive(href, CurrentPage(path)) <==> href == Some(CurrentPage(path)) || href == Some("./")
    ensures CurrentPage(path) != ""
  {
    var page := CurrentPage(path);
    assert page != [];
  }

  /** The links of `.nav-menu`: their `href` attributes, and which carry
      the `active` class. */
  class NavLinks {
    const hrefs: seq<Option<string>>
    const active: array<bool>

    ghost predicate Valid()
      reads this
    {
      active.Length == |hrefs|
    }

    constructor (hrefs: seq<Option<string>>)
      ensures Valid() && this.hrefs == hrefs
      ensures forall j | 0 <= j < active.Length :: !active[j]
      ensures fresh(active)
    {
      this.hrefs := hrefs;
      active := new bool[|hrefs|](_ => false);
    }

    /** `setActiveNavLink` on the page at `path`: every link the condition
        holds for gains the class; no link loses it. */
    method SetActiveNavLink(path: string)
      requires Valid()
      modifies active
      ensures Valid()
      ensures forall j | 0 <= j < active.Length ::
                active[j] == (old(active[j]) || LinkIsActive(hrefs[j], CurrentPage(path)))
    {
      var page := CurrentPage(path);
      var i := 0;
      while i < active.Length
        invariant 0 <= i <= active.Length
        invariant forall j | 0 <= j < i :: active[j] == (old(active[j]) || LinkIsActive(hrefs[j], page))
        invariant forall j | i <= j < active.Length :: active[j] == old(active[j])
      {
        if LinkIsActive(hrefs[i], page) {
          active[i] := true;
        }
        i := i + 1;
      }
    }
  }

  // ---------------------------------------------------------------------
  // Throttle

  /** The calls a throttle forwards out of calls made at the times `times`,
      starting from a last forwarded call at `last`. */
  function Forwarded(last: int, delay: int, times: seq<int>): (r: seq<int>)
    ensures |r| <= |times|
    ensures forall k | 0 <= k < |r| :: r[k] in times
    decreases |times|
  {
    if times == [] then []
    else if times[0] - last >= delay then [times[0]] + Forwarded(times[0], delay, times[1..])
    else Forwarded(last, delay, times[1..])
  }

  /** Calls are forwarded at least `delay` apart, and the first one at
      least `delay` after the starting point. */
  lemma {:induction false} ForwardedSpaced(last: int, delay: int, times: seq<int>)
    ensures var r := Forwarded(last, delay, times);
            (r != [] ==> r[0] - last >= delay)
            && forall k | 0 < k < |r| :: r[k] - r[k - 1] >= delay
    decreases |times|
  {
    if times != [] {
      ForwardedSpaced(if times[0] - last >= delay then times[0] else last, delay, times[1..]);
    }
  }

  /** The wrapper `throttle(func, delay)` returns, with the closed-over
      `lastCall`. The clock is the `now` each call passes in, and what
      `func` returns is passed in as `result`. */
  class Throttle {
    const delay: int
    var lastCall: int

    /** `throttle(func, delay)`, where a call without a delay gets 100. */
    constructor (delay: int := 100)
      ensures this.delay == delay && lastCall == 0
    {
      this.delay := delay;
      lastCall := 0;
    }

    /** A call at time `now`: forwarded, and its result returned, exactly
        when at least `delay` has passed since the last forwarded call;
        otherwise suppressed, returning nothing. Only a forwarded call moves
        `lastCall`. */
    method Call<R>(now: int, result: R) returns (r: Option<R>)
      modifies this`lastCall
      ensures r == if now - old(lastCall) >= delay then Some(result) else None
      ensures lastCall == if r.Some? then now else old(lastCall)
      ensures Forwarded(old(lastCall), delay, [now]) == if r.Some? then [now] else []
    {
      if now - lastCall < delay {
        return None;
      }
      lastCall := now;
      return Some(result);
    }
  }

  // ---------------------------------------------------------------------
  // Hamburger menu

  /** The `active` classes of the hamburger button and of the menu, and
      whether the menu locks the page scroll (`overflow: hidden` on the
      body). */
  class HamburgerMenu {
    var hamburgerActive: bool
    var menuActive: bool
    var scrollLocked: bool

    /** Every handler changes the two classes together, so they agree, and
        the scroll is locked exactly while the menu is open. */
    ghost predicate Valid()
      reads this
    {
      hamburgerActive == menuActive && scrollLocked == menuActive
    }

    constructor ()
      ensures Valid() && !menuActive
    {
      hamburgerActive := false;
      menuActive := false;
      scrollLocked := false;
    }

    /** A click on the hamburger toggles both classes, then locks the
        scroll exactly when the menu is now open. */
    method Toggle()
      requires Valid()
      modifies this
      ensures Valid()
      ensures menuActive == !old(menuActive)
    {
      hamburgerActive := !hamburgerActive;
      menuActive := !menuActive;
      scrollLocked := menuActive;
    }

    /** A click on one of the menu's links closes the menu. */
    method OnLinkClick()
      requires Valid()
      modifies this
      ensures Valid() && !menuActive && !hamburgerActive && !scrollLocked
    {
      Close();
    }

    /** A click anywhere in the document: one outside both the hamburger
        and the menu closes the menu, any other leaves it as it is. */
    method OnDocumentClick(inHamburger: bool, inMenu: bool)
      requires Valid()
      modifies this
      ensures Valid()
      ensures !inHamburger && !inMenu ==> !menuActive && !hamburgerActive && !scrollLocked
      ensures inHamburger || inMenu ==> unchanged(this)
    {
      if !inHamburger && !inMenu {
        Close();
      }
    }

    method Close()
      requires Valid()
      modifies this
      ensures Valid() && !menuActive && !hamburgerActive && !scrollLocked
    {
      hamburgerActive := false;
      menuActive := false;
      scrollLocked := false;
    }
  }

  // ---------------------------------------------------------------------
  // Sticky header

  /** The scroll offset beyond which the header is marked `scrolled`. */
  const ScrolledThreshold: real := 100.0

  /** The page header and the scroll position its handler last saw. The
      position is `window.pageYOffset`, a number of CSS pixels that is
      fractional under zoom or on high-density screens, hence `real`. */
  class StickyHeader {
    var scrolled: bool
    var lastScroll: real

    constructor ()
      ensures !scrolled && lastScroll == 0.0
    {
      scrolled := false;
      lastScroll := 0.0;
    }

    /** The `scroll` handler with the page's vertical offset: the header is
        marked exactly when the offset exceeds the threshold, whatever
        happened before. */
    method OnScroll(offset: real)
      modifies this
      ensures scrolled <==> offset > ScrolledThreshold
      ensures lastScroll == offset
    {
      if offset > ScrolledThreshold {
        scrolled := true;
      } else {
        scrolled := false;
      }
      lastScroll := offset;
    }
  }
}
